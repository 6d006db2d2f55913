/** The pxar byte format: headers, stats, names, and the encoding of a whole tree. */
module PxarFormat {
  import opened Bytes
  import opened Paths
  import opened SearchTree

  const HEADER_SIZE: nat := 16
  const GOODBYE_ITEM_SIZE: nat := 24
  const STAT_SIZE: nat := 40

  const MAX_FILENAME_LEN: nat := 256
  const MAX_SYMLINK_LEN: nat := 4096
  const MAX_DATA_LEN: nat := 64 * 1024

  const PXAR_ENTRY: u64 := 0xd5956474e588acef
  const PXAR_FILENAME: u64 := 0x16701121063917b3
  const PXAR_SYMLINK: u64 := 0x27f971e7dbf5dc5f
  const PXAR_PAYLOAD: u64 := 0x28147a1b0b7c1a25
  const PXAR_GOODBYE: u64 := 0x2fec4fa642d5731d
  const PXAR_GOODBYE_TAIL_MARKER: u64 := 0xef5eed5b753e1555

  const DOT: byte := 46

  /** `hash_filename`, left uninterpreted. */
  type Hash = seq<byte> -> u64

  // ---------------------------------------------------------------- reading fields

  function ReadBytes(data: seq<byte>, at: nat, n: nat): (r: Result<seq<byte>>)
    ensures r.Ok? ==> |r.value| == n
  {
    if n == 0 then Ok([])
    else if at + n <= |data| then Ok(data[at..at + n])
    else Err("pxar: unexpected EOF")
  }

  lemma ReadOccurring(data: seq<byte>, at: nat, s: seq<byte>)
    requires Occurs(data, at, s)
    ensures ReadBytes(data, at, |s|) == Ok(s)
  {
  }

  function U64At(buf: seq<byte>, at: nat): u64
    requires at + 8 <= |buf|
  {
    Pow256Widths();
    FromLittleEndianBound(buf[at..at + 8]);
    FromLittleEndian(buf[at..at + 8])
  }

  function U32At(buf: seq<byte>, at: nat): u32
    requires at + 4 <= |buf|
  {
    Pow256Widths();
    FromLittleEndianBound(buf[at..at + 4]);
    FromLittleEndian(buf[at..at + 4])
  }

  lemma U64Occurs(buf: seq<byte>, at: nat, v: u64)
    requires Occurs(buf, at, LE64(v))
    ensures U64At(buf, at) == v
  {
    LE64RoundTrip(v);
  }

  lemma U32Occurs(buf: seq<byte>, at: nat, v: u32)
    requires Occurs(buf, at, LE32(v))
    ensures U32At(buf, at) == v
  {
    LE32RoundTrip(v);
  }

  // ---------------------------------------------------------------- headers

  datatype Header = Header(htype: nat, fullSize: nat)

  function ContentSize(h: Header): Result<nat> {
    if h.fullSize < HEADER_SIZE then Result<nat>.Err("pxar item header smaller than the header itself")
    else Ok(h.fullSize - HEADER_SIZE)
  }

  function EncodeHeader(htype: u64, contentSize: nat): (s: seq<byte>)
    ensures |s| == HEADER_SIZE
  {
    LE64(htype) + LE64(contentSize + HEADER_SIZE)
  }

  function HeaderAt(data: seq<byte>, at: nat): (r: Result<Header>)
    ensures r.Ok? ==> at + HEADER_SIZE <= |data| && r.value.fullSize >= HEADER_SIZE
  {
    var buf :- ReadBytes(data, at, HEADER_SIZE);
    var header := Header(U64At(buf, 0), U64At(buf, 8));
    var _ :- ContentSize(header);
    Ok(header)
  }

  lemma HeaderOccurs(data: seq<byte>, at: nat, htype: u64, contentSize: nat)
    requires Occurs(data, at, EncodeHeader(htype, contentSize)) && contentSize + HEADER_SIZE < TWO_64
    ensures HeaderAt(data, at) == Ok(Header(htype, contentSize + HEADER_SIZE))
  {
    var buf := EncodeHeader(htype, contentSize);
    ReadOccurring(data, at, buf);
    OccursWhole(buf);
    OccursConcat(buf, 0, LE64(htype), LE64(contentSize + HEADER_SIZE));
    U64Occurs(buf, 0, htype);
    U64Occurs(buf, 8, contentSize + HEADER_SIZE);
  }

  // ---------------------------------------------------------------- stat

  datatype Stat = Stat(mode: u64, flags: u64, uid: u32, gid: u32, secs: i64, nanos: u32) {
    /** `mode & IFMT == IFDIR`. */
    predicate IsDir() {
      mode / 0x1000 % 16 == 4
    }
  }

  /** The file type is in the four bits above the lowest twelve, and a directory's is 0x4000. */
  lemma TypeOfDirectory(s: Stat)
    ensures s.IsDir() <==> 0x4000 <= s.mode % 0x10000 < 0x5000
  {
    var (above, low) := (s.mode / 0x1000, s.mode % 0x1000);
    var (high, kind) := (above / 16, above % 16);
    assert s.mode == high * 0x10000 + (kind * 0x1000 + low);
    assert s.mode % 0x10000 == kind * 0x1000 + low;
  }

  function StatBytes(s: Stat): (b: seq<byte>)
    ensures |b| == STAT_SIZE
  {
    LE64(s.mode) + (LE64(s.flags) + (LE32(s.uid) + (LE32(s.gid) +
      (LE64(ToUnsigned(s.secs)) + (LE32(s.nanos) + LE32(0))))))
  }

  function ParseStat(buf: seq<byte>): Stat
    requires |buf| == STAT_SIZE
  {
    Stat(U64At(buf, 0), U64At(buf, 8), U32At(buf, 16), U32At(buf, 20),
         ToSigned(U64At(buf, 24)), U32At(buf, 32))
  }

  lemma StatRoundTrip(s: Stat)
    ensures ParseStat(StatBytes(s)) == s
  {
    var b6 := LE32(s.nanos) + LE32(0);
    var b5 := LE64(ToUnsigned(s.secs)) + b6;
    var b4 := LE32(s.gid) + b5;
    var b3 := LE32(s.uid) + b4;
    var b2 := LE64(s.flags) + b3;
    var b := StatBytes(s);
    OccursWhole(b);
    OccursConcat(b, 0, LE64(s.mode), b2);
    OccursConcat(b, 8, LE64(s.flags), b3);
    OccursConcat(b, 16, LE32(s.uid), b4);
    OccursConcat(b, 20, LE32(s.gid), b5);
    OccursConcat(b, 24, LE64(ToUnsigned(s.secs)), b6);
    OccursConcat(b, 32, LE32(s.nanos), LE32(0));
    U64Occurs(b, 0, s.mode);
    U64Occurs(b, 8, s.flags);
    U32Occurs(b, 16, s.uid);
    U32Occurs(b, 20, s.gid);
    U64Occurs(b, 24, ToUnsigned(s.secs));
    U32Occurs(b, 32, s.nanos);
  }

  function EncodeStat(s: Stat): (b: seq<byte>)
    ensures |b| == HEADER_SIZE + STAT_SIZE
  {
    EncodeHeader(PXAR_ENTRY, STAT_SIZE) + StatBytes(s)
  }

  /** `read_metadata`: the stat behind an entry header. */
  function MetadataAt(data: seq<byte>, at: nat, header: Header): (r: Result<Stat>)
    ensures r.Ok? ==> at + STAT_SIZE <= |data|
  {
    var size :- ContentSize(header);
    if size != STAT_SIZE then Err("pxar: entry has an unexpected stat size")
    else
      var buf :- ReadBytes(data, at, STAT_SIZE);
      Ok(ParseStat(buf))
  }

  lemma StatOccurs(data: seq<byte>, at: nat, s: Stat)
    requires Occurs(data, at, EncodeStat(s))
    ensures HeaderAt(data, at) == Ok(Header(PXAR_ENTRY, HEADER_SIZE + STAT_SIZE))
    ensures MetadataAt(data, at + HEADER_SIZE, Header(PXAR_ENTRY, HEADER_SIZE + STAT_SIZE)) == Ok(s)
  {
    OccursConcat(data, at, EncodeHeader(PXAR_ENTRY, STAT_SIZE), StatBytes(s));
    HeaderOccurs(data, at, PXAR_ENTRY, STAT_SIZE);
    ReadOccurring(data, at + HEADER_SIZE, StatBytes(s));
    StatRoundTrip(s);
  }

  // ---------------------------------------------------------------- names and paths

  function ValidateFilename(name: seq<byte>): Result<()> {
    if name == [] then Err("pxar: empty file name")
    else if SLASH in name then Err("pxar: file name contains a slash")
    else if name == [DOT] || name == [DOT, DOT] then Err("pxar: file name is '.' or '..'")
    else Ok(())
  }

  predicate ValidName(name: seq<byte>) {
    ValidateFilename(name).Ok?
  }

  /** No name of an archive is empty, has a slash in it, or is `.` or `..`: it is one component that
      goes further down. */
  lemma NamesRefused(name: seq<byte>)
    ensures ValidName(name) <==> Proper(name) && name != [46] && name != [46, 46]
    ensures Proper(name) <==> name != [] && forall i :: 0 <= i < |name| ==> name[i] != 47
  {
  }

  function EncodeFilename(name: seq<byte>): (s: seq<byte>)
    ensures |s| == HEADER_SIZE + |name| + 1
  {
    EncodeHeader(PXAR_FILENAME, |name| + 1) + (name + [0])
  }

  const ROOT_PATH: seq<byte> := [SLASH]

  /** A valid name is appended, so the path it is pushed onto can be cut back to. */
  lemma PushedPathExtends(path: seq<byte>, name: seq<byte>)
    requires ValidName(name)
    ensures path <= PushPath(path, name) && |PushPath(path, name)| > |path|
  {
    assert name[0] in name;
  }

  // ---------------------------------------------------------------- trees

  /** What an archive holds. `table` is the layout of a directory's goodbye table: slot `j`
      describes child `table[j]`; it records the order the encoder's unstable sort chose. */
  datatype Node =
    | File(name: seq<byte>, stat: Stat, payload: seq<byte>)
    | Symlink(name: seq<byte>, stat: Stat, target: seq<byte>)
    | Dir(name: seq<byte>, stat: Stat, kids: seq<Node>, table: seq<nat>)

  function Encode(h: Hash, node: Node): seq<byte>
    decreases node, 1
  {
    EncodeFilename(node.name) + (EncodeStat(node.stat) + EncodeBody(h, node))
  }

  function EncodeBody(h: Hash, node: Node): seq<byte>
    decreases node, 0
  {
    match node
    case File(_, _, payload) => EncodeHeader(PXAR_PAYLOAD, |payload|) + payload
    case Symlink(_, _, target) => EncodeHeader(PXAR_SYMLINK, |target| + 1) + (target + [0])
    case Dir(_, _, kids, table) => DirBody(Hashes(h, kids), Blobs(h, kids), table)
  }

  /** The encodings of the children, one by one. */
  function Blobs(h: Hash, kids: seq<Node>): (blobs: seq<seq<byte>>)
    ensures |blobs| == |kids|
    ensures forall k :: 0 <= k < |kids| ==> blobs[k] == Encode(h, kids[k])
    decreases kids, 0
  {
    if kids == [] then [] else [Encode(h, kids[0])] + Blobs(h, kids[1..])
  }

  function Hashes(h: Hash, kids: seq<Node>): (hashes: seq<u64>)
    ensures |hashes| == |kids|
  {
    seq<u64>(|kids|, k requires 0 <= k < |kids| => h(kids[k].name))
  }

  /** The goodbye items of children when the first of them is written at `pos`. */
  function Items(hashes: seq<u64>, blobs: seq<seq<byte>>, pos: nat): (items: seq<GoodbyeItem>)
    requires |hashes| == |blobs|
    ensures |items| == |blobs|
    decreases |blobs|
  {
    if blobs == [] then []
    else [GoodbyeItem(hashes[0], pos, |blobs[0]|)] + Items(hashes[1..], blobs[1..], pos + |blobs[0]|)
  }

  /** What the table stores: the distance back from the goodbye header. */
  function Relative(item: GoodbyeItem, goodbyeOffset: nat): GoodbyeItem {
    item.(offset := if goodbyeOffset < item.offset then 0 else goodbyeOffset - item.offset)
  }

  function Arrange(items: seq<GoodbyeItem>, table: seq<nat>, goodbyeOffset: nat): (t: seq<GoodbyeItem>)
    ensures |t| == |table|
  {
    seq(|table|, j requires 0 <= j < |table| =>
      if table[j] < |items| then Relative(items[table[j]], goodbyeOffset) else GoodbyeItem(0, 0, 0))
  }

  function ItemsSize(n: nat): nat {
    n * GOODBYE_ITEM_SIZE
  }

  function ItemBytes(item: GoodbyeItem): (s: seq<byte>)
    ensures |s| == GOODBYE_ITEM_SIZE
  {
    LE64(item.hash) + (LE64(item.offset) + LE64(item.size))
  }

  function TableBytes(items: seq<GoodbyeItem>): (s: seq<byte>)
    ensures |s| == ItemsSize(|items|)
  {
    if items == [] then [] else ItemBytes(items[0]) + TableBytes(items[1..])
  }

  /** The table and its tail, which points back over the children to the directory's entry. */
  function TableAndTail(tree: seq<GoodbyeItem>, entryDistance: nat): (s: seq<byte>)
    ensures |s| == ItemsSize(|tree| + 1)
  {
    TableBytes(tree) +
    ItemBytes(GoodbyeItem(PXAR_GOODBYE_TAIL_MARKER, entryDistance,
                          ItemsSize(|tree| + 1) + HEADER_SIZE))
  }

  function GoodbyeBytes(tree: seq<GoodbyeItem>, entryDistance: nat): (s: seq<byte>)
    ensures |s| == HEADER_SIZE + ItemsSize(|tree| + 1)
  {
    EncodeHeader(PXAR_GOODBYE, ItemsSize(|tree| + 1)) + TableAndTail(tree, entryDistance)
  }

  function DirTable(hashes: seq<u64>, blobs: seq<seq<byte>>, table: seq<nat>): (t: seq<GoodbyeItem>)
    requires |hashes| == |blobs|
    ensures |t| == |table|
  {
    Arrange(Items(hashes, blobs, 0), table, |Concat(blobs)|)
  }

  /** The children of a directory, side by side. */
  function KidsBytes(h: Hash, kids: seq<Node>): seq<byte> {
    Concat(Blobs(h, kids))
  }

  /** What follows a directory's own entry: its children and its goodbye table. */
  function DirBody(hashes: seq<u64>, blobs: seq<seq<byte>>, table: seq<nat>): seq<byte>
    requires |hashes| == |blobs|
  {
    Concat(blobs) + GoodbyeBytes(DirTable(hashes, blobs, table), HEADER_SIZE + STAT_SIZE + |Concat(blobs)|)
  }

  function DirBytes(h: Hash, kids: seq<Node>, table: seq<nat>): seq<byte> {
    DirBody(Hashes(h, kids), Blobs(h, kids), table)
  }

  function EncodeArchive(h: Hash, stat: Stat, kids: seq<Node>, table: seq<nat>): seq<byte> {
    EncodeStat(stat) + DirBytes(h, kids, table)
  }

  // ---------------------------------------------------------------- well-formed trees

  ghost predicate IsPermutation(table: seq<nat>, n: nat) {
    && |table| == n
    && (forall j :: 0 <= j < n ==> table[j] < n)
    && (forall a, b :: 0 <= a < b < n ==> table[a] != table[b])
    && (forall k: nat :: k < n ==> k in table)
  }

  /** What `build_goodbye_table` guarantees of a table. */
  ghost predicate TableOk(h: Hash, kids: seq<Node>, table: seq<nat>) {
    && IsPermutation(table, |kids|)
    && IsSearchTree(DirTable(Hashes(h, kids), Blobs(h, kids), table), 0)
  }

  /** What every tree built through the encoder satisfies. */
  ghost predicate WellFormed(h: Hash, node: Node)
    decreases node, 1
  {
    && ValidName(node.name)
    && (node.Dir? ==> node.stat.IsDir() && WellFormedKids(h, node.kids) && TableOk(h, node.kids, node.table))
  }

  ghost predicate WellFormedKids(h: Hash, kids: seq<Node>)
    decreases kids, 0
  {
    kids != [] ==> WellFormed(h, kids[0]) && WellFormedKids(h, kids[1..])
  }

  lemma {:induction false} WellFormedKid(h: Hash, kids: seq<Node>, k: nat)
    requires WellFormedKids(h, kids) && k < |kids|
    ensures WellFormed(h, kids[k])
  {
    if k > 0 {
      WellFormedKid(h, kids[1..], k - 1);
    }
  }

  lemma {:induction false} WellFormedAppend(h: Hash, kids: seq<Node>, node: Node)
    requires WellFormedKids(h, kids) && WellFormed(h, node)
    ensures WellFormedKids(h, kids + [node])
    decreases |kids|
  {
    if kids == [] {
      assert (kids + [node])[1..] == [];
    } else {
      assert (kids + [node])[1..] == kids[1..] + [node];
      WellFormedAppend(h, kids[1..], node);
    }
  }

  // ---------------------------------------------------------------- children side by side

  lemma {:induction false} ItemsAppend(hashes: seq<u64>, blobs: seq<seq<byte>>, hash: u64, blob: seq<byte>, pos: nat)
    requires |hashes| == |blobs|
    ensures Items(hashes + [hash], blobs + [blob], pos)
         == Items(hashes, blobs, pos) + [GoodbyeItem(hash, pos + |Concat(blobs)|, |blob|)]
    decreases |blobs|
  {
    var hs, all := hashes + [hash], blobs + [blob];
    if blobs != [] {
      assert hs[1..] == hashes[1..] + [hash] && all[1..] == blobs[1..] + [blob];
      ItemsAppend(hashes[1..], blobs[1..], hash, blob, pos + |blobs[0]|);
    }
  }

  /** Where each item points: at the bytes of its child, inside the children's bytes. */
  lemma {:induction false} ItemPointsAtBlob(hashes: seq<u64>, blobs: seq<seq<byte>>, pos: nat, k: nat,
                                            data: seq<byte>, base: nat)
    requires |hashes| == |blobs| && k < |blobs| && Occurs(data, base + pos, Concat(blobs))
    ensures var item := Items(hashes, blobs, pos)[k];
            && item.hash == hashes[k] && item.size == |blobs[k]|
            && pos <= item.offset && item.offset + item.size <= pos + |Concat(blobs)|
            && Occurs(data, base + item.offset, blobs[k])
    decreases k
  {
    OccursConcat(data, base + pos, blobs[0], Concat(blobs[1..]));
    if k > 0 {
      ItemPointsAtBlob(hashes[1..], blobs[1..], pos + |blobs[0]|, k - 1, data, base);
    }
  }

  /** Moving all children by `shift` bytes moves every item with them. */
  lemma {:induction false} ItemsShift(hashes: seq<u64>, blobs: seq<seq<byte>>, pos: nat, shift: nat, k: nat)
    requires |hashes| == |blobs| && k < |blobs|
    ensures var item := Items(hashes, blobs, pos)[k];
            Items(hashes, blobs, pos + shift)[k] == item.(offset := item.offset + shift)
    decreases k
  {
    if k > 0 {
      ItemsShift(hashes[1..], blobs[1..], pos + |blobs[0]|, shift, k - 1);
    }
  }

  // ---------------------------------------------------------------- finding the parts of an encoded node

  /** Offset of a node's body from the start of its encoding. */
  function BodyOffset(node: Node): nat {
    HEADER_SIZE + |node.name| + 1 + HEADER_SIZE + STAT_SIZE
  }

  lemma HeaderThen(data: seq<byte>, at: nat, htype: u64, content: seq<byte>)
    requires Occurs(data, at, EncodeHeader(htype, |content|) + content) && |data| < TWO_64
    ensures HeaderAt(data, at) == Ok(Header(htype, |content| + HEADER_SIZE))
    ensures Occurs(data, at + HEADER_SIZE, content)
  {
    hide EncodeHeader, HeaderAt;
    OccursConcat(data, at, EncodeHeader(htype, |content|), content);
    HeaderOccurs(data, at, htype, |content|);
  }

  lemma NodeLayout(h: Hash, node: Node, data: seq<byte>, at: nat)
    requires Occurs(data, at, Encode(h, node)) && |data| < TWO_64
    ensures HeaderAt(data, at) == Ok(Header(PXAR_FILENAME, |node.name| + 1 + HEADER_SIZE))
    ensures Occurs(data, at + HEADER_SIZE, node.name + [0])
    ensures var entryAt := at + HEADER_SIZE + |node.name| + 1;
            var header := Header(PXAR_ENTRY, HEADER_SIZE + STAT_SIZE);
            HeaderAt(data, entryAt) == Ok(header) && MetadataAt(data, entryAt + HEADER_SIZE, header) == Ok(node.stat)
    ensures Occurs(data, at + BodyOffset(node), EncodeBody(h, node))
    ensures |Encode(h, node)| == BodyOffset(node) + |EncodeBody(h, node)|
  {
    hide EncodeHeader, HeaderAt, EncodeStat, EncodeBody;
    var nameBytes, rest := EncodeFilename(node.name), EncodeStat(node.stat) + EncodeBody(h, node);
    assert Encode(h, node) == nameBytes + rest;
    OccursConcat(data, at, nameBytes, rest);
    OccursConcat(data, at + |nameBytes|, EncodeStat(node.stat), EncodeBody(h, node));
    assert |node.name + [0]| == |node.name| + 1;
    HeaderThen(data, at, PXAR_FILENAME, node.name + [0]);
    StatOccurs(data, at + |nameBytes|, node.stat);
  }

  lemma LeafLayout(h: Hash, node: Node, data: seq<byte>, body: nat)
    requires Occurs(data, body, EncodeBody(h, node)) && |data| < TWO_64 && !node.Dir?
    ensures node.File? ==> HeaderAt(data, body) == Ok(Header(PXAR_PAYLOAD, |node.payload| + HEADER_SIZE))
                           && Occurs(data, body + HEADER_SIZE, node.payload)
                           && |EncodeBody(h, node)| == HEADER_SIZE + |node.payload|
    ensures node.Symlink? ==> HeaderAt(data, body) == Ok(Header(PXAR_SYMLINK, |node.target| + 1 + HEADER_SIZE))
                              && Occurs(data, body + HEADER_SIZE, node.target + [0])
                              && |EncodeBody(h, node)| == HEADER_SIZE + |node.target| + 1
  {
    hide EncodeHeader, HeaderAt;
    if node.File? {
      HeaderThen(data, body, PXAR_PAYLOAD, node.payload);
    } else {
      assert |node.target + [0]| == |node.target| + 1;
      HeaderThen(data, body, PXAR_SYMLINK, node.target + [0]);
    }
  }

  lemma DirEncoding(h: Hash, node: Node)
    requires node.Dir?
    ensures EncodeBody(h, node) == DirBytes(h, node.kids, node.table)
    ensures |EncodeBody(h, node)| == |KidsBytes(h, node.kids)| + HEADER_SIZE + ItemsSize(|node.table| + 1)
  {
    hide Blobs, Hashes, Concat, DirTable, ItemsSize;
  }

  /** A directory's children and goodbye section; its first header is never a payload or symlink. */
  lemma DirLayout(h: Hash, kids: seq<Node>, table: seq<nat>, data: seq<byte>, body: nat)
    requires Occurs(data, body, DirBytes(h, kids, table)) && |data| < TWO_64
    ensures var blobs := Blobs(h, kids);
            var tree := DirTable(Hashes(h, kids), blobs, table);
            var goodbyeAt := body + |KidsBytes(h, kids)|;
            && Occurs(data, body, KidsBytes(h, kids))
            && HeaderAt(data, goodbyeAt) == Ok(Header(PXAR_GOODBYE, ItemsSize(|tree| + 1) + HEADER_SIZE))
            && Occurs(data, goodbyeAt + HEADER_SIZE, TableAndTail(tree, HEADER_SIZE + STAT_SIZE + |KidsBytes(h, kids)|))
    ensures HeaderAt(data, body).Ok? && HeaderAt(data, body).value.htype in {PXAR_FILENAME, PXAR_GOODBYE}
  {
    hide EncodeHeader, HeaderAt, Encode, TableAndTail, DirTable, Blobs, Concat, Occurs, ItemsSize;
    var blobs := Blobs(h, kids);
    var tree := DirTable(Hashes(h, kids), blobs, table);
    var distance := HEADER_SIZE + STAT_SIZE + |KidsBytes(h, kids)|;
    OccursConcat(data, body, KidsBytes(h, kids), GoodbyeBytes(tree, distance));
    HeaderThen(data, body + |KidsBytes(h, kids)|, PXAR_GOODBYE, TableAndTail(tree, distance));
    FirstHeader(h, kids, data, body);
  }

  /** If there are no children, the goodbye section comes first. */
  lemma FirstHeader(h: Hash, kids: seq<Node>, data: seq<byte>, body: nat)
    requires Occurs(data, body, KidsBytes(h, kids)) && |data| < TWO_64
    requires var after := HeaderAt(data, body + |KidsBytes(h, kids)|); after.Ok? && after.value.htype == PXAR_GOODBYE
    ensures HeaderAt(data, body).Ok? && HeaderAt(data, body).value.htype in {PXAR_FILENAME, PXAR_GOODBYE}
  {
    hide HeaderAt, Encode, Occurs;
    if kids != [] {
      var blobs := Blobs(h, kids);
      OccursConcat(data, body, blobs[0], Concat(blobs[1..]));
      NodeLayout(h, kids[0], data, body);
    }
  }

  lemma ArchiveLayout(h: Hash, stat: Stat, kids: seq<Node>, table: seq<nat>)
    ensures var data := EncodeArchive(h, stat, kids, table);
            && Occurs(data, 0, EncodeStat(stat))
            && Occurs(data, HEADER_SIZE + STAT_SIZE, DirBytes(h, kids, table))
            && |data| == HEADER_SIZE + STAT_SIZE + |KidsBytes(h, kids)| + HEADER_SIZE + ItemsSize(|table| + 1)
  {
    hide EncodeStat, Hashes, Blobs, Concat, DirTable, GoodbyeBytes, ItemsSize;
    var data := EncodeArchive(h, stat, kids, table);
    OccursWhole(data);
    OccursConcat(data, 0, EncodeStat(stat), DirBytes(h, kids, table));
  }
}
