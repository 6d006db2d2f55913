/** Looking up what was encoded: the random-access reader resolves exactly the written paths. */
module PxarLookup {
  import opened Bytes
  import opened SearchTree
  import opened Paths
  import opened PxarFormat
  import opened PxarAccessor
  import E = PxarEntry

  // ---------------------------------------------------------------- what a path means in a tree

  datatype Resolution = Resolved(node: Node, path: seq<byte>) | Missing | NotADirectory

  function KidNamed(kids: seq<Node>, name: seq<byte>): (r: Option<nat>)
    ensures r.Some? ==> r.value < |kids| && kids[r.value].name == name
    ensures r == None ==> forall k :: 0 <= k < |kids| ==> kids[k].name != name
  {
    if kids == [] then None
    else if kids[0].name == name then Some(0)
    else
      match KidNamed(kids[1..], name)
      case None => assert forall k :: 1 <= k < |kids| ==> kids[k] == kids[1..][k - 1]; None
      case Some(k) => Some(k + 1)
  }

  function Resolve(kids: seq<Node>, names: seq<seq<byte>>, base: seq<byte>): Resolution
    requires names != []
    decreases |names|
  {
    match KidNamed(kids, names[0])
    case None => Missing
    case Some(k) =>
      var path := PushPath(base, names[0]);
      if |names| == 1 then Resolved(kids[k], path)
      else if kids[k].Dir? then Resolve(kids[k].kids, names[1..], path)
      else NotADirectory
  }

  ghost predicate DistinctNames(kids: seq<Node>) {
    forall a, b :: 0 <= a < b < |kids| ==> kids[a].name != kids[b].name
  }

  function TableOf(h: Hash, kids: seq<Node>, table: seq<nat>): seq<GoodbyeItem> {
    DirTable(Hashes(h, kids), Blobs(h, kids), table)
  }

  /** In every directory, equal hashes lie on one path of the table (true of up to two of them). */
  ghost predicate NoForks(h: Hash, kids: seq<Node>, table: seq<nat>) {
    forall hash: nat :: OnOnePath(TableOf(h, kids, table), 0, hash)
  }

  ghost predicate Navigable(h: Hash, kids: seq<Node>, table: seq<nat>)
    decreases kids, 1
  {
    DistinctNames(kids) && NoForks(h, kids, table) && NavigableBelow(h, kids)
  }

  ghost predicate NavigableBelow(h: Hash, kids: seq<Node>)
    decreases kids, 0
  {
    forall k :: 0 <= k < |kids| && kids[k].Dir? ==> Navigable(h, kids[k].kids, kids[k].table)
  }

  // ---------------------------------------------------------------- reading a table back

  predicate Small(item: GoodbyeItem) {
    item.hash < TWO_64 && item.offset < TWO_64 && item.size < TWO_64
  }

  lemma ItemRoundTrip(item: GoodbyeItem)
    requires Small(item)
    ensures ParseItem(ItemBytes(item)) == item
  {
    hide LE64;
    var b := ItemBytes(item);
    OccursWhole(b);
    OccursConcat(b, 0, LE64(item.hash), LE64(item.offset) + LE64(item.size));
    OccursConcat(b, 8, LE64(item.offset), LE64(item.size));
    U64Occurs(b, 0, item.hash);
    U64Occurs(b, 8, item.offset);
    U64Occurs(b, 16, item.size);
  }

  lemma {:induction false} TableRoundTrip(items: seq<GoodbyeItem>)
    requires AllSmall(items)
    ensures ParseTable(TableBytes(items)) == items
  {
    hide ItemBytes, ParseItem;
    if items != [] {
      var raw := TableBytes(items);
      assert raw[..GOODBYE_ITEM_SIZE] == ItemBytes(items[0]) && raw[GOODBYE_ITEM_SIZE..] == TableBytes(items[1..]);
      ItemRoundTrip(items[0]);
      TableRoundTrip(items[1..]);
    }
  }

  /** Slot `j` of a directory's table, with the child it describes found at the offset it gives. */
  lemma SlotPointsAtKid(h: Hash, kids: seq<Node>, table: seq<nat>, data: seq<byte>, body: nat, j: nat)
    returns (at: nat)
    requires IsPermutation(table, |kids|) && j < |table|
    requires Occurs(data, body, KidsBytes(h, kids))
    ensures var flat := |KidsBytes(h, kids)|;
            var item := TableOf(h, kids, table)[j];
            var kid := kids[table[j]];
            && item.hash == h(kid.name) && item.size == |Encode(h, kid)| && item.offset <= flat
            && body <= at == body + flat - item.offset && at + |Encode(h, kid)| <= body + flat
            && Occurs(data, at, Encode(h, kid))
  {
    hide Encode, Concat, Items;
    var hashes, blobs, k := Hashes(h, kids), Blobs(h, kids), table[j];
    ItemPointsAtBlob(hashes, blobs, 0, k, data, body);
    at := body + Items(hashes, blobs, 0)[k].offset;
  }

  lemma OpenSteps(data: seq<byte>, gofs: nat, n: nat, raw: seq<byte>, tailBytes: seq<byte>, path: seq<byte>)
    requires |tailBytes| == GOODBYE_ITEM_SIZE
    requires ReadBytes(data, gofs + HEADER_SIZE + ItemsSize(n), GOODBYE_ITEM_SIZE) == Ok(tailBytes)
    requires ReadBytes(data, gofs + HEADER_SIZE, ItemsSize(n)) == Ok(raw)
    requires ParseItem(tailBytes).hash == PXAR_GOODBYE_TAIL_MARKER
    requires ParseItem(tailBytes).size == ItemsSize(n + 1) + HEADER_SIZE
    ensures OpenAtEnd(data, gofs + HEADER_SIZE + ItemsSize(n + 1), path) == Ok(Directory(gofs, ParseTable(raw), path))
  {
    hide ParseItem, ParseTable, WholeItems, ItemsSize, ReadBytes;
    OneMoreItem(n);
    WholeItemsOf(n + 1);
  }

  lemma OneMoreItem(n: nat)
    ensures ItemsSize(n + 1) == ItemsSize(n) + GOODBYE_ITEM_SIZE
  {
  }

  ghost predicate AllSmall(items: seq<GoodbyeItem>) {
    forall j :: 0 <= j < |items| ==> Small(items[j])
  }

  /** `tree` and its tail stand behind the goodbye header at `gofs` and reach to `end`. */
  ghost predicate TableStands(data: seq<byte>, gofs: nat, tree: seq<GoodbyeItem>, tail: GoodbyeItem, end: nat) {
    && Occurs(data, gofs + HEADER_SIZE, TableBytes(tree) + ItemBytes(tail))
    && tail.hash == PXAR_GOODBYE_TAIL_MARKER && tail.size == ItemsSize(|tree| + 1) + HEADER_SIZE
    && end == gofs + tail.size
    && Small(tail) && AllSmall(tree)
  }

  lemma TableOpens(data: seq<byte>, gofs: nat, tree: seq<GoodbyeItem>, tail: GoodbyeItem, end: nat, path: seq<byte>)
    requires TableStands(data, gofs, tree, tail, end)
    ensures OpenAtEnd(data, end, path) == Ok(Directory(gofs, tree, path))
  {
    hide Occurs, TableBytes, ItemBytes, ParseItem, ParseTable, ItemsSize, ReadBytes, OpenAtEnd, AllSmall, Small;
    var n := |tree|;
    assert ReadBytes(data, gofs + HEADER_SIZE + ItemsSize(n), GOODBYE_ITEM_SIZE) == Ok(ItemBytes(tail))
        && ReadBytes(data, gofs + HEADER_SIZE, ItemsSize(n)) == Ok(TableBytes(tree)) by {
      OccursConcat(data, gofs + HEADER_SIZE, TableBytes(tree), ItemBytes(tail));
      ReadOccurring(data, gofs + HEADER_SIZE + ItemsSize(n), ItemBytes(tail));
      ReadOccurring(data, gofs + HEADER_SIZE, TableBytes(tree));
    }
    TableRoundTrip(tree);
    ItemRoundTrip(tail);
    OpenSteps(data, gofs, n, TableBytes(tree), ItemBytes(tail), path);
  }

  lemma TableLength(h: Hash, kids: seq<Node>, table: seq<nat>)
    ensures |TableOf(h, kids, table)| == |table|
    ensures TableOf(h, kids, table) == DirTable(Hashes(h, kids), Blobs(h, kids), table)
    ensures |DirBytes(h, kids, table)|
         == |KidsBytes(h, kids)| + HEADER_SIZE + ItemsSize(|table| + 1)
  {
    hide Concat, ItemsSize;
  }

  function Tail(flat: nat, n: nat): GoodbyeItem {
    GoodbyeItem(PXAR_GOODBYE_TAIL_MARKER, HEADER_SIZE + STAT_SIZE + flat, ItemsSize(n + 1) + HEADER_SIZE)
  }

  lemma TailParts(tree: seq<GoodbyeItem>, flat: nat)
    ensures TableAndTail(tree, HEADER_SIZE + STAT_SIZE + flat) == TableBytes(tree) + ItemBytes(Tail(flat, |tree|))
    ensures Tail(flat, |tree|).hash == PXAR_GOODBYE_TAIL_MARKER
    ensures Tail(flat, |tree|).size == ItemsSize(|tree| + 1) + HEADER_SIZE
  {
    hide ItemsSize, ItemBytes, TableBytes;
  }

  lemma TailIsSmall(flat: nat, n: nat)
    requires HEADER_SIZE + STAT_SIZE + flat < TWO_64 && ItemsSize(n + 1) + HEADER_SIZE < TWO_64
    ensures Small(Tail(flat, n))
  {
  }

  lemma DirTableIsSmall(h: Hash, kids: seq<Node>, table: seq<nat>, data: seq<byte>, body: nat)
    requires IsPermutation(table, |kids|) && |data| < TWO_64
    requires Occurs(data, body, KidsBytes(h, kids))
    ensures AllSmall(TableOf(h, kids, table))
  {
    hide Encode, Concat, TableOf, Blobs;
    TableLength(h, kids, table);
    var tree := TableOf(h, kids, table);
    forall j | 0 <= j < |tree|
      ensures Small(tree[j])
    {
      var at := SlotPointsAtKid(h, kids, table, data, body, j);
    }
  }

  lemma DirTableStands(h: Hash, kids: seq<Node>, table: seq<nat>, data: seq<byte>, body: nat)
    requires IsPermutation(table, |kids|) && |data| < TWO_64 && body >= HEADER_SIZE + STAT_SIZE
    requires Occurs(data, body, DirBytes(h, kids, table))
    ensures var flat := |KidsBytes(h, kids)|;
            TableStands(data, body + flat, TableOf(h, kids, table), Tail(flat, |table|),
                        body + |DirBytes(h, kids, table)|)
  {
    hide DirBody, DirBytes, Concat, TableOf, Blobs, Hashes, IsPermutation, TableBytes, ItemBytes, TableAndTail, ItemsSize, Tail,
      Occurs, HeaderAt, DirTable;
    var flat := |KidsBytes(h, kids)|;
    var tree := TableOf(h, kids, table);
    TableLength(h, kids, table);
    DirLayout(h, kids, table, data, body);
    TailParts(tree, flat);
    assert body + flat + HEADER_SIZE + ItemsSize(|table| + 1) <= |data| by {
      OccursFits(data, body, DirBytes(h, kids, table));
    }
    TailIsSmall(flat, |tree|);
    DirTableIsSmall(h, kids, table, data, body);
  }

  /** The directory whose body is at `body` opens from its end. */
  lemma DirectoryOpens(h: Hash, kids: seq<Node>, table: seq<nat>, data: seq<byte>, body: nat, path: seq<byte>)
    requires IsPermutation(table, |kids|) && |data| < TWO_64 && body >= HEADER_SIZE + STAT_SIZE
    requires Occurs(data, body, DirBytes(h, kids, table))
    ensures OpenAtEnd(data, body + |DirBytes(h, kids, table)|, path)
         == Ok(Directory(body + |KidsBytes(h, kids)|, TableOf(h, kids, table), path))
  {
    hide *;
    DirTableStands(h, kids, table, data, body);
    var flat := |KidsBytes(h, kids)|;
    TableOpens(data, body + flat, TableOf(h, kids, table), Tail(flat, |table|),
               body + |DirBytes(h, kids, table)|, path);
  }

  lemma OccursFits(data: seq<byte>, at: nat, s: seq<byte>)
    requires Occurs(data, at, s)
    ensures at + |s| <= |data|
  {
  }

  // ---------------------------------------------------------------- one directory

  /** `dir` is the open form of the directory of `kids` whose body is at `body`. */
  ghost predicate Opened(h: Hash, data: seq<byte>, dir: Directory, kids: seq<Node>, table: seq<nat>, body: nat) {
    && |data| < TWO_64
    && Occurs(data, body, DirBytes(h, kids, table))
    && WellFormedKids(h, kids) && TableOk(h, kids, table)
    && dir.goodbyeOffset == body + |KidsBytes(h, kids)|
    && dir.table == TableOf(h, kids, table)
  }

  /** The kind the random-access reader reports for a node encoded at `at`. */
  function KindAt(node: Node, at: nat): E.EntryKind {
    KindBehind(node, at + BodyOffset(node))
  }

  function KindBehind(node: Node, body: nat): E.EntryKind {
    match node
    case File(_, _, payload) => E.File(|payload|, Some(body + HEADER_SIZE))
    case Symlink(_, _, target) => E.Symlink(target + [0])
    case Dir(_, _, _, _) => E.Directory
  }

  function CursorOf(h: Hash, node: Node, at: nat): Cursor {
    Cursor(node.name, at + HEADER_SIZE + |node.name| + 1, at + |Encode(h, node)|)
  }

  function EntryOf(h: Hash, node: Node, path: seq<byte>, at: nat): FileEntry {
    FileEntry(E.Entry(path, node.stat, KindAt(node, at)), at + |Encode(h, node)|)
  }

  lemma FilenameReads(h: Hash, node: Node, data: seq<byte>, at: nat)
    requires Occurs(data, at, Encode(h, node)) && |data| < TWO_64 && ValidName(node.name)
    ensures ReadFilename(data, at) == Ok((node.name, at + HEADER_SIZE + |node.name| + 1))
  {
    hide Encode, EncodeBody, HeaderAt, MetadataAt, ValidateFilename;
    NodeLayout(h, node, data, at);
    var raw := node.name + [0];
    ReadOccurring(data, at + HEADER_SIZE, raw);
    assert raw[..|raw| - 1] == node.name;
  }

  lemma SlotCursor(h: Hash, data: seq<byte>, dir: Directory, kids: seq<Node>, table: seq<nat>, body: nat, j: nat)
    returns (at: nat)
    requires Opened(h, data, dir, kids, table, body) && j < |dir.table|
    ensures |table| == |dir.table| == |kids| && table[j] < |kids|
    ensures Occurs(data, at, Encode(h, kids[table[j]]))
    ensures dir.table[j].hash == h(kids[table[j]].name)
    ensures CursorAt(data, dir, j) == Ok(CursorOf(h, kids[table[j]], at))
  {
    hide Encode, Concat, DirTable, GoodbyeBytes, ReadFilename, Hashes, Blobs, IsSearchTree, WellFormedKids, HeaderAt;
    DirLayout(h, kids, table, data, body);
    at := SlotPointsAtKid(h, kids, table, data, body, j);
    var kid := kids[table[j]];
    assert ValidName(kid.name) by { WellFormedKid(h, kids, table[j]); }
    FilenameReads(h, kid, data, at);
  }

  lemma EntryDecodes(h: Hash, node: Node, data: seq<byte>, at: nat)
    requires Occurs(data, at, Encode(h, node)) && |data| < TWO_64
    ensures DecodeEntry(data, at + HEADER_SIZE + |node.name| + 1, at + |Encode(h, node)|)
         == Ok((node.stat, KindAt(node, at)))
  {
    hide *;
    NodeLayout(h, node, data, at);
    BodyPlace(node, at);
    var body := at + BodyOffset(node);
    BodyDecodes(h, node, data, body);
    EntryOpens(data, at + HEADER_SIZE + |node.name| + 1, at + |Encode(h, node)|, node.stat, node, body);
  }

  lemma BodyPlace(node: Node, at: nat)
    ensures at + BodyOffset(node) == at + HEADER_SIZE + |node.name| + 1 + HEADER_SIZE + STAT_SIZE
    ensures KindAt(node, at) == KindBehind(node, at + BodyOffset(node))
  {
    hide KindBehind;
  }

  /** The item at `body` tells what kind of entry `node` is. */
  ghost predicate ItemTells(data: seq<byte>, node: Node, body: nat) {
    HeaderAt(data, body).Ok? &&
    var item := HeaderAt(data, body).value;
    match node
    case File(_, _, payload) => item == Header(PXAR_PAYLOAD, |payload| + HEADER_SIZE)
    case Symlink(_, _, target) => item == Header(PXAR_SYMLINK, |target| + 1 + HEADER_SIZE)
                                  && ReadBytes(data, body + HEADER_SIZE, |target| + 1) == Ok(target + [0])
    case Dir(_, _, _, _) => item.htype in {PXAR_FILENAME, PXAR_GOODBYE}
  }

  lemma BodyDecodes(h: Hash, node: Node, data: seq<byte>, body: nat)
    requires Occurs(data, body, EncodeBody(h, node)) && |data| < TWO_64
    ensures ItemTells(data, node, body) && |EncodeBody(h, node)| > 0
  {
    hide EncodeBody, HeaderAt, DirBody, DirBytes, Occurs, ReadBytes;
    if node.Dir? {
      DirEncoding(h, node);
      DirLayout(h, node.kids, node.table, data, body);
    } else {
      LeafLayout(h, node, data, body);
      if node.Symlink? {
        ReadOccurring(data, body + HEADER_SIZE, node.target + [0]);
        assert |node.target + [0]| == |node.target| + 1;
      }
    }
  }

  lemma EntryOpens(data: seq<byte>, start: nat, end: nat, stat: Stat, node: Node, body: nat)
    requires var header := Header(PXAR_ENTRY, HEADER_SIZE + STAT_SIZE);
             HeaderAt(data, start) == Ok(header) && MetadataAt(data, start + HEADER_SIZE, header) == Ok(stat)
    requires body == start + HEADER_SIZE + STAT_SIZE < end && ItemTells(data, node, body)
    ensures DecodeEntry(data, start, end) == Ok((stat, KindBehind(node, body)))
  {
    hide HeaderAt, MetadataAt, ReadBytes;
  }

  // ---------------------------------------------------------------- one component

  /** The `dup` loop reaches the child whose slot some `skip` yields. */
  lemma {:induction false} FindNamedHit(h: Hash, data: seq<byte>, dir: Directory, kids: seq<Node>, table: seq<nat>,
                                        body: nat, name: seq<byte>, first: nat, dup: nat, skip: nat, j: nat)
    returns (at: nat)
    requires Opened(h, data, dir, kids, table, body) && DistinctNames(kids)
    requires Search(dir.table, first, skip, h(name)) == Some(j) && dup <= skip
    requires |table| == |kids| && j < |table| && table[j] < |kids| && kids[table[j]].name == name
    ensures Occurs(data, at, Encode(h, kids[table[j]]))
    ensures FindNamed(data, dir, name, h(name), first, dup) == Ok(Some(CursorOf(h, kids[table[j]], at)))
    decreases skip - dup
  {
    hide Opened, Encode, CursorAt, Search, Reach, Occurs;
    var hash := h(name);
    SearchReach(dir.table, first, skip, hash);
    SearchReach(dir.table, first, dup, hash);
    SearchSound(dir.table, first, dup, hash);
    var i := Search(dir.table, first, dup, hash).value;
    var here := SlotCursor(h, data, dir, kids, table, body, i);
    if dup == skip {
      at := here;
    } else {
      if i == j {
        SearchInjective(dir.table, first, dup, skip, hash);
        assert false;
      }
      TableInjective(h, data, dir, kids, table, body, i, j);
      at := FindNamedHit(h, data, dir, kids, table, body, name, first, dup + 1, skip, j);
    }
  }

  lemma TableInjective(h: Hash, data: seq<byte>, dir: Directory, kids: seq<Node>, table: seq<nat>, body: nat, i: nat, j: nat)
    requires Opened(h, data, dir, kids, table, body) && DistinctNames(kids)
    requires i < |dir.table| && j < |dir.table| && i != j
    ensures |table| == |kids| == |dir.table| && table[i] < |kids| && table[j] < |kids|
    ensures kids[table[i]].name != kids[table[j]].name
  {
    hide Occurs, DirBytes, WellFormedKids, IsSearchTree;
    TableLength(h, kids, table);
  }

  /** When no slot the search yields has the name, the loop runs out. */
  lemma {:induction false} FindNamedMiss(h: Hash, data: seq<byte>, dir: Directory, kids: seq<Node>, table: seq<nat>,
                                         body: nat, name: seq<byte>, first: nat, dup: nat)
    requires Opened(h, data, dir, kids, table, body) && |table| == |kids| == |dir.table|
    requires forall j: nat :: j < |table| && Found(dir.table, first, h(name), j) ==> table[j] < |kids| && kids[table[j]].name != name
    ensures FindNamed(data, dir, name, h(name), first, dup) == Ok(None)
    decreases Reach(dir.table, first, h(name)) - dup
  {
    hide *;
    var hash := h(name);
    SearchReach(dir.table, first, dup, hash);
    FindNamedStep(data, dir, name, hash, first, dup);
    if Search(dir.table, first, dup, hash).Some? {
      var i := Search(dir.table, first, dup, hash).value;
      SearchHits(dir.table, first, dup, hash);
      var at := SlotCursor(h, data, dir, kids, table, body, i);
      FindNamedMiss(h, data, dir, kids, table, body, name, first, dup + 1);
    }
  }

  lemma SearchHits(tree: seq<GoodbyeItem>, first: nat, skip: nat, hash: nat)
    requires Search(tree, first, skip, hash).Some?
    ensures var j := Search(tree, first, skip, hash).value; j < |tree| && Found(tree, first, hash, j)
  {
    hide Search;
    SearchSound(tree, first, skip, hash);
  }

  /** One round of the `dup` loop. */
  lemma FindNamedStep(data: seq<byte>, dir: Directory, name: seq<byte>, hash: nat, first: nat, dup: nat)
    ensures Search(dir.table, first, dup, hash) == None ==> FindNamed(data, dir, name, hash, first, dup) == Ok(None)
    ensures forall h: Hash, node: Node, at: nat {:trigger CursorOf(h, node, at)} ::
              Search(dir.table, first, dup, hash).Some?
              && CursorAt(data, dir, Search(dir.table, first, dup, hash).value) == Ok(CursorOf(h, node, at)) ==>
                FindNamed(data, dir, name, hash, first, dup)
                == if node.name == name then Ok(Some(CursorOf(h, node, at)))
                   else FindNamed(data, dir, name, hash, first, dup + 1)
  {
    hide CursorAt, Search, Reach;
  }

  lemma FoundFromFirst(tree: seq<GoodbyeItem>, hash: nat, j: nat)
    ensures var first := Search(tree, 0, 0, hash);
            if first.Some? then Found(tree, first.value, hash, j) <==> Found(tree, 0, hash, j)
            else !Found(tree, 0, hash, j)
  {
    hide Search;
    var first := Search(tree, 0, 0, hash);
    forall skip: nat
      ensures if first.Some? then Search(tree, first.value, skip, hash) == Search(tree, 0, skip, hash)
              else Search(tree, 0, skip, hash) == None
    {
      SearchFromFirst(tree, 0, skip, hash);
    }
  }

  lemma CursorDecodes(h: Hash, data: seq<byte>, dir: Directory, node: Node, at: nat)
    requires Occurs(data, at, Encode(h, node)) && |data| < TWO_64
    ensures DecodeCursor(data, dir, CursorOf(h, node, at)) == Ok(EntryOf(h, node, PushPath(dir.path, node.name), at))
  {
    hide Encode, DecodeEntry, PushPath, Occurs;
    EntryDecodes(h, node, data, at);
  }

  /** A written child is found by name exactly when the duplicate search yields its slot. */
  lemma ComponentExact(h: Hash, data: seq<byte>, dir: Directory, kids: seq<Node>, table: seq<nat>, body: nat, j: nat)
    returns (at: nat)
    requires Opened(h, data, dir, kids, table, body) && DistinctNames(kids)
    requires |table| == |kids| && j < |table| && table[j] < |kids|
    ensures var kid := kids[table[j]];
            var r := LookupComponent(h, data, dir, kid.name);
            if Found(dir.table, 0, h(kid.name), j)
            then Occurs(data, at, Encode(h, kid)) && r == Ok(Some(EntryOf(h, kid, PushPath(dir.path, kid.name), at)))
            else r == Ok(None)
  {
    hide Opened, Encode, Occurs, DecodeCursor, FindNamed, EntryOf, CursorOf, PushPath, Search;
    var tree, kid := dir.table, kids[table[j]];
    var hash := h(kid.name);
    OpenedFacts(h, data, dir, kids, table, body);
    FoundFromFirst(tree, hash, j);
    at := 0;
    var first := Search(tree, 0, 0, hash);
    if Found(tree, 0, hash, j) {
      var skip: nat :| Search(tree, first.value, skip, hash) == Some(j);
      at := FindNamedHit(h, data, dir, kids, table, body, kid.name, first.value, 0, skip, j);
      CursorDecodes(h, data, dir, kid, at);
    } else if first.Some? {
      forall i: nat | i < |table| && Found(tree, first.value, hash, i)
        ensures table[i] < |kids| && kids[table[i]].name != kid.name
      {
        FoundFromFirst(tree, hash, i);
        TableInjective(h, data, dir, kids, table, body, i, j);
      }
      FindNamedMiss(h, data, dir, kids, table, body, kid.name, first.value, 0);
    }
  }

  lemma OpenedFacts(h: Hash, data: seq<byte>, dir: Directory, kids: seq<Node>, table: seq<nat>, body: nat)
    requires Opened(h, data, dir, kids, table, body)
    ensures |data| < TWO_64 && |dir.table| == |table| == |kids|
    ensures IsPermutation(table, |kids|) && IsSearchTree(dir.table, 0) && dir.table == TableOf(h, kids, table)
    ensures WellFormedKids(h, kids)
  {
    hide Occurs, DirBytes, WellFormedKids, IsSearchTree;
    TableLength(h, kids, table);
  }

  /** A name that was not written is not found. */
  lemma ComponentAbsent(h: Hash, data: seq<byte>, dir: Directory, kids: seq<Node>, table: seq<nat>, body: nat, name: seq<byte>)
    requires Opened(h, data, dir, kids, table, body)
    requires forall k :: 0 <= k < |kids| ==> kids[k].name != name
    ensures LookupComponent(h, data, dir, name) == Ok(None)
  {
    hide Opened, FindNamed, Search, DecodeCursor;
    OpenedFacts(h, data, dir, kids, table, body);
    var first := Search(dir.table, 0, 0, h(name));
    if first.Some? {
      FindNamedMiss(h, data, dir, kids, table, body, name, first.value, 0);
    }
  }

  /** A directory finds all of its children by name if and only if, hash by hash, the slots of the
      children's hashes lie on one path of its table. */
  lemma DirectoryExact(h: Hash, data: seq<byte>, dir: Directory, kids: seq<Node>, table: seq<nat>, body: nat)
    requires Opened(h, data, dir, kids, table, body) && DistinctNames(kids)
    ensures (forall k :: 0 <= k < |kids| ==> FindsKid(h, data, dir, kids[k])) <==> NoForks(h, kids, table)
  {
    hide Opened, LookupComponent, IsSearchTree, OnOnePath, Found, WellFormedKids;
    var tree := dir.table;
    OpenedFacts(h, data, dir, kids, table, body);
    forall j: nat | j < |table|
      ensures FindsKid(h, data, dir, kids[table[j]]) <==> Found(tree, 0, h(kids[table[j]].name), j)
      ensures tree[j].hash == h(kids[table[j]].name)
    {
      var at := ComponentExact(h, data, dir, kids, table, body, j);
      var _ := SlotCursor(h, data, dir, kids, table, body, j);
    }
    forall hash: nat
      ensures AllFound(tree, 0, hash) <==> OnOnePath(tree, 0, hash)
    {
      DuplicateSearchExact(tree, hash);
    }
    if NoForks(h, kids, table) {
      forall k | 0 <= k < |kids|
        ensures FindsKid(h, data, dir, kids[k])
      {
        assert k in table;
        var j :| 0 <= j < |table| && table[j] == k;
        UnderRoot(j);
        assert OnOnePath(tree, 0, tree[j].hash);
        assert MatchUnder(tree, 0, tree[j].hash, j);
      }
    } else {
      var hash: nat :| !OnOnePath(tree, 0, hash);
      var j: nat :| MatchUnder(tree, 0, hash, j) && !Found(tree, 0, hash, j);
      assert !FindsKid(h, data, dir, kids[table[j]]);
    }
  }

  ghost predicate FindsKid(h: Hash, data: seq<byte>, dir: Directory, kid: Node) {
    exists at: nat :: Occurs(data, at, Encode(h, kid)) &&
      LookupComponent(h, data, dir, kid.name) == Ok(Some(EntryOf(h, kid, PushPath(dir.path, kid.name), at)))
  }

  // ---------------------------------------------------------------- whole paths

  /** The first component, when it names a child. */
  lemma KidFound(h: Hash, data: seq<byte>, dir: Directory, kids: seq<Node>, table: seq<nat>, body: nat, k: nat)
    returns (at: nat)
    requires Opened(h, data, dir, kids, table, body) && DistinctNames(kids) && NoForks(h, kids, table) && k < |kids|
    ensures Occurs(data, at, Encode(h, kids[k])) && WellFormed(h, kids[k])
    ensures LookupComponent(h, data, dir, kids[k].name)
         == Ok(Some(EntryOf(h, kids[k], PushPath(dir.path, kids[k].name), at)))
  {
    hide Opened, LookupComponent, DistinctNames, NoForks, Occurs, Encode, EntryOf, WellFormed;
    DirectoryExact(h, data, dir, kids, table, body);
    assert FindsKid(h, data, dir, kids[k]);
    at :| Occurs(data, at, Encode(h, kids[k])) &&
      LookupComponent(h, data, dir, kids[k].name) == Ok(Some(EntryOf(h, kids[k], PushPath(dir.path, kids[k].name), at)));
    OpenedFacts(h, data, dir, kids, table, body);
    WellFormedKid(h, kids, k);
  }

  /** A directory found by lookup opens as the directory it is. */
  lemma KidEnters(h: Hash, data: seq<byte>, node: Node, path: seq<byte>, at: nat) returns (dir: Directory)
    requires node.Dir? && WellFormed(h, node) && |data| < TWO_64 && Occurs(data, at, Encode(h, node))
    ensures EnterDirectory(data, EntryOf(h, node, path, at)) == Ok(dir) && dir.path == path
    ensures Opened(h, data, dir, node.kids, node.table, at + BodyOffset(node))
  {
    hide Encode, EncodeBody, Occurs, DirBytes, OpenAtEnd, IsSearchTree, IsPermutation, ValidateFilename, WellFormedKids, KidsBytes, TableOf;
    var body := at + BodyOffset(node);
    NodeLayout(h, node, data, at);
    DirEncoding(h, node);
    assert IsPermutation(node.table, |node.kids|);
    DirectoryOpens(h, node.kids, node.table, data, body, path);
    dir := Directory(body + |KidsBytes(h, node.kids)|, TableOf(h, node.kids, node.table), path);
    OpenedBy(h, data, dir, node.kids, node.table, body);
  }

  /** A directory at the end of the bytes, whatever is in front of it, opens as if it were the root. */
  lemma LastDirectoryOpens(h: Hash, data: seq<byte>, front: seq<byte>, node: Node) returns (dir: Directory)
    requires data == front + Encode(h, node) && |data| < TWO_64 && node.Dir? && WellFormed(h, node)
    ensures OpenAtEnd(data, |data|, ROOT_PATH) == Ok(dir) && dir.table == TableOf(h, node.kids, node.table)
    ensures dir.path == ROOT_PATH && Opened(h, data, dir, node.kids, node.table, |front| + BodyOffset(node))
  {
    hide Encode, Occurs, OpenAtEnd, WellFormed, TableOf, Opened;
    assert Occurs(data, |front|, Encode(h, node)) by { LastOccurs(front, Encode(h, node)); }
    dir := KidEnters(h, data, node, ROOT_PATH, |front|);
    assert dir.table == TableOf(h, node.kids, node.table) by { OpenedTable(h, data, dir, node.kids, node.table, |front| + BodyOffset(node)); }
  }

  lemma LastOccurs(front: seq<byte>, s: seq<byte>)
    ensures Occurs(front + s, |front|, s)
  {
  }

  lemma OpenedTable(h: Hash, data: seq<byte>, dir: Directory, kids: seq<Node>, table: seq<nat>, body: nat)
    requires Opened(h, data, dir, kids, table, body)
    ensures dir.table == TableOf(h, kids, table)
  {
  }

  lemma OpenedBy(h: Hash, data: seq<byte>, dir: Directory, kids: seq<Node>, table: seq<nat>, body: nat)
    requires |data| < TWO_64 && Occurs(data, body, DirBytes(h, kids, table))
    requires WellFormedKids(h, kids) && TableOk(h, kids, table)
    requires dir.goodbyeOffset == body + |KidsBytes(h, kids)| && dir.table == TableOf(h, kids, table)
    ensures Opened(h, data, dir, kids, table, body)
  {
  }

  /** Looking a path up gives the node it names; nothing if a directory on the way lacks the next
      name; an error if the path goes on below something that is not a directory. */
  lemma {:induction false} LookupResolves(h: Hash, data: seq<byte>, dir: Directory, kids: seq<Node>, table: seq<nat>,
                                          body: nat, names: seq<seq<byte>>) returns (at: nat)
    requires Opened(h, data, dir, kids, table, body) && Navigable(h, kids, table) && names != []
    ensures var r := LookupNames(h, data, dir, names);
            match Resolve(kids, names, dir.path)
            case Resolved(node, path) => Occurs(data, at, Encode(h, node)) && r == Ok(Some(EntryOf(h, node, path, at)))
            case Missing => r == Ok(None)
            case NotADirectory => r == Err(NOT_A_DIRECTORY)
    decreases |names|
  {
    hide Opened, Encode, Occurs, LookupComponent, NoForks, DistinctNames, OpenAtEnd, WellFormed, PushPath;
    at := 0;
    OpenedFacts(h, data, dir, kids, table, body);
    match KidNamed(kids, names[0]) {
      case None =>
        ComponentAbsent(h, data, dir, kids, table, body, names[0]);
      case Some(k) =>
        var path := PushPath(dir.path, names[0]);
        at := KidFound(h, data, dir, kids, table, body, k);
        if |names| > 1 && kids[k].Dir? {
          var next := KidEnters(h, data, kids[k], path, at);
          at := LookupResolves(h, data, next, kids[k].kids, kids[k].table, at + BodyOffset(kids[k]), names[1..]);
        }
    }
  }

  lemma ArchiveOpens(h: Hash, stat: Stat, kids: seq<Node>, table: seq<nat>, data: seq<byte>) returns (root: Directory)
    requires data == EncodeArchive(h, stat, kids, table) && |data| < TWO_64
    requires WellFormedKids(h, kids) && TableOk(h, kids, table)
    ensures OpenAtEnd(data, |data|, ROOT_PATH) == Ok(root) && root.path == ROOT_PATH
    ensures Opened(h, data, root, kids, table, HEADER_SIZE + STAT_SIZE)
  {
    hide EncodeArchive, Occurs, DirBytes, OpenAtEnd, WellFormedKids, Opened, KidsBytes, TableOf, IsPermutation,
      IsSearchTree, ItemsSize, DirTable, Hashes, Blobs;
    var body := HEADER_SIZE + STAT_SIZE;
    ArchiveLayout(h, stat, kids, table);
    TableLength(h, kids, table);
    assert IsPermutation(table, |kids|);
    DirectoryOpens(h, kids, table, data, body, ROOT_PATH);
    root := Directory(body + |KidsBytes(h, kids)|, TableOf(h, kids, table), ROOT_PATH);
    OpenedBy(h, data, root, kids, table, body);
  }

  /** A resolved path is made up of the names that were asked for, all of them valid. */
  lemma {:induction false} ResolvedPath(h: Hash, kids: seq<Node>, names: seq<seq<byte>>, above: seq<seq<byte>>)
    requires WellFormedKids(h, kids) && AllProper(above)
    requires names != [] && Resolve(kids, names, Absolute(above)).Resolved?
    ensures AllProper(names) && Resolve(kids, names, Absolute(above)).path == Absolute(above + names)
    decreases |names|
  {
    hide PushPath, Absolute, Proper, WellFormedKids, TableOk, ValidateFilename;
    var k := KidNamed(kids, names[0]).value;
    WellFormedKid(h, kids, k);
    NamesRefused(names[0]);
    PushedIsSlashed(above, names[0]);
    var further := above + [names[0]];
    if |names| > 1 {
      ResolvedPath(h, kids[k].kids, names[1..], further);
      assert names == [names[0]] + names[1..] && further + names[1..] == above + names;
      assert forall i :: 1 <= i < |names| ==> names[i] == names[1..][i - 1];
    } else {
      assert names == [names[0]];
    }
  }

  /** What looking `path` up in the tree must give, if `path` spells `names`. */
  ghost predicate LooksUp(h: Hash, kids: seq<Node>, data: seq<byte>, names: seq<seq<byte>>, r: Result<Option<FileEntry>>, at: nat) {
    if names == [] then r == Ok(None)
    else match Resolve(kids, names, ROOT_PATH)
      case Resolved(node, full) =>
        && full == Absolute(names) && AllProper(names)
        && Occurs(data, at, Encode(h, node)) && r == Ok(Some(EntryOf(h, node, full, at)))
      case Missing => r == Ok(None)
      case NotADirectory => r == Err(NOT_A_DIRECTORY)
  }

  /** Random access to a whole archive, from its last byte: the names that `path` spells are resolved
      one below the other in the encoded tree, and what they lead to is reported under exactly these
      names; the empty path, though it denotes the root, yields nothing. A path is refused exactly
      for a parent component. */
  lemma ArchiveLookup(h: Hash, stat: Stat, kids: seq<Node>, table: seq<nat>, data: seq<byte>, path: seq<Component>,
                      names: seq<seq<byte>>, places: seq<nat>)
    returns (root: Directory, at: nat)
    requires data == EncodeArchive(h, stat, kids, table) && |data| < TWO_64
    requires WellFormedKids(h, kids) && TableOk(h, kids, table) && Navigable(h, kids, table)
    requires Spells(path, names, places)
    ensures OpenAtEnd(data, |data|, ROOT_PATH) == Ok(root)
    ensures var r := LookupPath(h, data, root, path);
            && (r == Err(UNSUPPORTED) <==> ParentDir in path)
            && (ParentDir !in path ==> LooksUp(h, kids, data, names, r, at))
  {
    assert UNSUPPORTED != NOT_A_DIRECTORY;
    hide EncodeArchive, Encode, Occurs, OpenAtEnd, WellFormedKids, TableOk, Navigable, Opened, Resolve, Absolute, PushPath, Names, Spells, EntryOf,
      LookupNames, UNSUPPORTED, NOT_A_DIRECTORY;
    at := 0;
    root := ArchiveOpens(h, stat, kids, table, data);
    ParentIsRefused(path);
    if ParentDir !in path {
      SpelledNames(path, names, places);
      at := NamesLookUp(h, data, root, kids, table, names);
    }
  }

  lemma NamesLookUp(h: Hash, data: seq<byte>, root: Directory, kids: seq<Node>, table: seq<nat>, names: seq<seq<byte>>)
    returns (at: nat)
    requires Opened(h, data, root, kids, table, HEADER_SIZE + STAT_SIZE) && Navigable(h, kids, table)
    requires root.path == ROOT_PATH && WellFormedKids(h, kids)
    ensures LooksUp(h, kids, data, names, LookupNames(h, data, root, names), at)
  {
    hide Encode, Occurs, WellFormedKids, Navigable, Opened, Resolve, Absolute, EntryOf, LookupNames;
    at := 0;
    if names != [] {
      at := LookupResolves(h, data, root, kids, table, HEADER_SIZE + STAT_SIZE, names);
      RootIsAbsolute();
      if Resolve(kids, names, ROOT_PATH).Resolved? {
        ResolvedPath(h, kids, names, []);
        assert [] + names == names;
      }
    } else {
      NothingLookedUp(h, data, root);
    }
  }

  lemma RootIsAbsolute()
    ensures ROOT_PATH == Absolute([])
  {
  }

  lemma NothingLookedUp(h: Hash, data: seq<byte>, root: Directory)
    ensures LookupNames(h, data, root, []) == Ok(None)
  {
  }

  /** The absolute path of some names, component by component. */
  function Rooted(names: seq<seq<byte>>): seq<Component> {
    [RootDir] + seq(|names|, i requires 0 <= i < |names| => Normal(names[i]))
  }

  lemma RootedSpells(names: seq<seq<byte>>)
    ensures Spells(Rooted(names), names, seq(|names|, i requires 0 <= i < |names| => i + 1))
    ensures ParentDir !in Rooted(names)
  {
    var path, at := Rooted(names), seq(|names|, i requires 0 <= i < |names| => i + 1);
    forall k | 0 <= k < |path| && path[k].Normal? ensures k in at {
      assert at[k - 1] == k;
    }
  }

  /** A root or current-directory component changes nothing, wherever it stands. */
  lemma IgnoredComponent(h: Hash, data: seq<byte>, dir: Directory, a: seq<Component>, c: Component, b: seq<Component>)
    requires c == RootDir || c == CurDir
    ensures LookupPath(h, data, dir, a + [c] + b) == LookupPath(h, data, dir, a + b)
  {
    hide LookupNames;
    NamesIgnore(a, c, b);
  }

  lemma {:induction false} NamesIgnore(a: seq<Component>, c: Component, b: seq<Component>)
    requires c == RootDir || c == CurDir
    ensures Names(a + [c] + b) == Names(a + b)
  {
    if a == [] {
      assert ([] + [c] + b)[1..] == b && [] + b == b;
    } else {
      assert (a + [c] + b)[1..] == a[1..] + [c] + b && (a + b)[1..] == a[1..] + b;
      NamesIgnore(a[1..], c, b);
    }
  }

  // ---------------------------------------------------------------- collisions

  ghost predicate NoThreeCollide(h: Hash, kids: seq<Node>) {
    forall a, b, c :: 0 <= a < b < c < |kids| ==> !(h(kids[a].name) == h(kids[b].name) == h(kids[c].name))
  }

  /** Up to two children per hash, whatever the table looks like, are always all found. */
  lemma FewCollisionsNoForks(h: Hash, kids: seq<Node>, table: seq<nat>)
    requires TableOk(h, kids, table) && NoThreeCollide(h, kids)
    ensures NoForks(h, kids, table)
  {
    hide IsSearchTree, OnOnePath, Encode;
    var tree := TableOf(h, kids, table);
    TableLength(h, kids, table);
    forall j: nat | j < |tree|
      ensures tree[j].hash == h(kids[table[j]].name)
    {
      SlotHash(h, kids, table, j);
    }
    forall hash: nat
      ensures OnOnePath(tree, 0, hash)
    {
      forall x: nat, y: nat, z: nat | Match(tree, x, hash) && Match(tree, y, hash) && Match(tree, z, hash)
        ensures x == y || y == z || x == z
      {
      }
      TwoAreAlwaysFound(tree, hash);
    }
  }

  /** In every directory the names differ, and no hash is shared by three of them. */
  ghost predicate FewCollisions(h: Hash, kids: seq<Node>) {
    && DistinctNames(kids) && NoThreeCollide(h, kids)
    && forall k :: 0 <= k < |kids| && kids[k].Dir? ==> FewCollisions(h, kids[k].kids)
  }

  /** Then the whole tree can be navigated, whatever order its tables were built in. */
  lemma {:induction false} FewCollisionsNavigable(h: Hash, kids: seq<Node>, table: seq<nat>)
    requires WellFormedKids(h, kids) && TableOk(h, kids, table) && FewCollisions(h, kids)
    ensures Navigable(h, kids, table)
    decreases kids
  {
    hide TableOk, NoThreeCollide, NoForks, DistinctNames;
    FewCollisionsNoForks(h, kids, table);
    forall k | 0 <= k < |kids| && kids[k].Dir? ensures Navigable(h, kids[k].kids, kids[k].table) {
      WellFormedKid(h, kids, k);
      FewCollisionsNavigable(h, kids[k].kids, kids[k].table);
    }
  }

  lemma SlotHash(h: Hash, kids: seq<Node>, table: seq<nat>, j: nat)
    requires IsPermutation(table, |kids|) && j < |table|
    ensures j < |TableOf(h, kids, table)| && TableOf(h, kids, table)[j].hash == h(kids[table[j]].name)
  {
    hide Encode, Occurs;
    TableLength(h, kids, table);
    OccursWhole(KidsBytes(h, kids));
    var at := SlotPointsAtKid(h, kids, table, KidsBytes(h, kids), 0, j);
  }

  /** With three children of one hash, the one in the last slot is written but never found. */
  lemma ThirdCollisionIsLost(h: Hash, data: seq<byte>, dir: Directory, kids: seq<Node>, table: seq<nat>, body: nat)
    requires Opened(h, data, dir, kids, table, body) && DistinctNames(kids) && |kids| == 3
    requires h(kids[0].name) == h(kids[1].name) == h(kids[2].name)
    ensures |table| == 3 && table[2] < 3 && LookupComponent(h, data, dir, kids[table[2]].name) == Ok(None)
  {
    hide Opened, LookupComponent, Search, IsSearchTree, TableOf;
    OpenedFacts(h, data, dir, kids, table, body);
    var tree, hash := dir.table, h(kids[0].name);
    forall j: nat | j < 3
      ensures tree[j].hash == hash
    {
      SlotHash(h, kids, table, j);
    }
    assert tree == [tree[0], tree[1], tree[2]];
    forall skip: nat
      ensures Search(tree, 0, skip, hash) != Some(2)
    {
      ThirdDuplicateIsLost(hash, tree[0], tree[1], tree[2], skip);
    }
    var at := ComponentExact(h, data, dir, kids, table, body, 2);
  }

  // ---------------------------------------------------------------- contents

  /** The contents of a file found by lookup are the payload that was written. */
  lemma ContentsAreWritten(h: Hash, node: Node, data: seq<byte>, path: seq<byte>, at: nat) returns (c: FileContents)
    requires node.File? && Occurs(data, at, Encode(h, node)) && |data| < TWO_64
    ensures Contents(EntryOf(h, node, path, at)) == Ok(c)
    ensures c.size == |node.payload| && c.start + c.size <= |data|
    ensures data[c.start..c.start + c.size] == node.payload
  {
    hide Encode, EncodeBody, HeaderAt, MetadataAt;
    NodeLayout(h, node, data, at);
    var body := at + BodyOffset(node);
    LeafLayout(h, node, data, body);
    c := FileContents(body + HEADER_SIZE, |node.payload|);
  }

  /** A file of a finished archive, looked up by its names from the archive's last byte, has the
      contents that were written, and is reported under its path. */
  lemma WrittenFileReadsBack(h: Hash, stat: Stat, kids: seq<Node>, table: seq<nat>, data: seq<byte>,
                             path: seq<Component>, names: seq<seq<byte>>, places: seq<nat>, node: Node)
    returns (root: Directory, entry: FileEntry, c: FileContents)
    requires data == EncodeArchive(h, stat, kids, table) && |data| < TWO_64
    requires WellFormedKids(h, kids) && TableOk(h, kids, table) && FewCollisions(h, kids)
    requires Spells(path, names, places) && ParentDir !in path && names != []
    requires Resolve(kids, names, ROOT_PATH).Resolved? && Resolve(kids, names, ROOT_PATH).node == node && node.File?
    ensures OpenAtEnd(data, |data|, ROOT_PATH) == Ok(root)
    ensures LookupPath(h, data, root, path) == Ok(Some(entry))
    ensures entry.entry.path == Absolute(names) && entry.entry.stat == node.stat && Contents(entry) == Ok(c)
    ensures c.start + c.size <= |data| && data[c.start..c.start + c.size] == node.payload
  {
    hide EncodeArchive, Encode, Occurs, OpenAtEnd, WellFormedKids, TableOk, Navigable, FewCollisions, LookupPath, Names,
      Resolve, Spells, Absolute;
    FewCollisionsNavigable(h, kids, table);
    var at;
    root, at := ArchiveLookup(h, stat, kids, table, data, path, names, places);
    entry := EntryOf(h, node, Absolute(names), at);
    c := ContentsAreWritten(h, node, data, Absolute(names), at);
  }

  /** Reads from `offset` to the end of the contents, with buffers of any non-zero size. */
  method ReadToEnd(data: seq<byte>, c: FileContents, offset: nat, mayFail: bool) returns (r: Result<seq<byte>>)
    requires c.start + c.size <= |data|
    ensures r.Err? ==> mayFail
    ensures r.Ok? ==> r.value == if offset <= c.size then data[c.start..c.start + c.size][offset..] else []
  {
    var bytes: seq<byte> := [];
    var at := offset;
    ghost var all := data[c.start..c.start + c.size];
    while true
      invariant at == offset + |bytes|
      invariant if offset <= c.size then at <= c.size && bytes == all[offset..at] else bytes == []
      decreases c.size - at
    {
      var bufLen: nat :| bufLen > 0;
      var chunk :- ReadContentsAt(data, c, at, bufLen, mayFail);
      if chunk == [] {
        return Ok(bytes);
      }
      bytes := bytes + chunk;
      at := at + |chunk|;
    }
  }
}
