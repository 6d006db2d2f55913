/** Decoding what was encoded: the sequential reader lists exactly the encoded tree. */
module PxarRoundTrip {
  import opened Bytes
  import opened Paths
  import opened PxarFormat
  import opened PxarDecoder
  import E = PxarEntry

  /** An entry together with the payload bytes that can be read after it. */
  datatype Listed = Listed(entry: E.Entry, payload: seq<byte>)

  // ---------------------------------------------------------------- what a tree lists

  function KindOf(node: Node): E.EntryKind {
    match node
    case File(_, _, payload) => E.File(|payload|, None)
    case Symlink(_, _, target) => E.Symlink(target + [0])
    case Dir(_, _, _, _) => E.Directory
  }

  /** Pre-order listing with full paths. */
  function ListNode(node: Node, base: seq<byte>): seq<Listed>
    decreases node, 1
  {
    var path := PushPath(base, node.name);
    [ListEntry(node, path)] + if node.Dir? then ListKids(node.kids, path) else []
  }

  function ListEntry(node: Node, path: seq<byte>): Listed {
    Listed(E.Entry(path, node.stat, KindOf(node)), if node.File? then node.payload else [])
  }

  function ListKids(kids: seq<Node>, base: seq<byte>): seq<Listed>
    decreases kids, 0
  {
    if kids == [] then [] else ListNode(kids[0], base) + ListKids(kids[1..], base)
  }

  /** What the tree below `above` lists: every node under its absolute path, a directory before what
      is in it. */
  function Listing(kids: seq<Node>, above: seq<seq<byte>>): seq<Listed>
    decreases kids
  {
    if kids == [] then []
    else
      var names := above + [kids[0].name];
      [ListEntry(kids[0], Absolute(names))]
      + ((if kids[0].Dir? then Listing(kids[0].kids, names) else []) + Listing(kids[1..], above))
  }

  lemma {:induction false} PathsAreNames(h: Hash, kids: seq<Node>, above: seq<seq<byte>>)
    requires WellFormedKids(h, kids) && AllProper(above)
    ensures ListKids(kids, Absolute(above)) == Listing(kids, above)
    decreases kids
  {
    hide PushPath, Absolute, Proper, TableOk, ListEntry, ValidateFilename;
    if kids != [] {
      var names := above + [kids[0].name];
      assert WellFormed(h, kids[0]);
      NamesRefused(kids[0].name);
      PushedIsSlashed(above, kids[0].name);
      if kids[0].Dir? { PathsAreNames(h, kids[0].kids, names); }
      PathsAreNames(h, kids[1..], above);
      var rest := if kids[0].Dir? then Listing(kids[0].kids, names) else [];
      ConcatIsAssociative([ListEntry(kids[0], Absolute(names))], rest, Listing(kids[1..], above));
    }
  }

  /** The limits the sequential reader puts on a name and on a symlink target. */
  predicate Readable(node: Node) {
    && |node.name| + 1 <= MAX_FILENAME_LEN
    && (node.Symlink? ==> |node.target| + 1 <= MAX_SYMLINK_LEN)
  }

  predicate AllReadable(node: Node)
    decreases node, 1
  {
    Readable(node) && (node.Dir? ==> KidsReadable(node.kids))
  }

  predicate KidsReadable(kids: seq<Node>)
    decreases kids, 0
  {
    kids != [] ==> AllReadable(kids[0]) && KidsReadable(kids[1..])
  }

  // ---------------------------------------------------------------- reading to the end

  function CurrentPayload(data: seq<byte>, s: Snapshot): seq<byte> {
    if s.state.InPayload? && s.pos + s.state.remaining <= |data| then data[s.pos..s.pos + s.state.remaining] else []
  }

  /** All entries up to the end, with their payloads, and where the reader then stands. */
  function Drain(data: seq<byte>, s: Snapshot): Result<(seq<Listed>, nat)>
    decreases if s.pos <= |data| then |data| - s.pos else 0
  {
    var (entry, s1) :- NextDo(data, s);
    match entry
    case None => Ok(([], s1.pos))
    case Some(e) =>
      var (rest, end) :- Drain(data, s1);
      Ok(([Listed(e, CurrentPayload(data, s1))] + rest, end))
  }

  function Prepend(list: seq<Listed>, r: Result<(seq<Listed>, nat)>): Result<(seq<Listed>, nat)> {
    match r
    case Ok((rest, end)) => Ok((list + rest, end))
    case Err(m) => Err(m)
  }

  /** In a directory, about to read the header at `at`. */
  function At(at: nat, path: seq<byte>, lengths: seq<nat>): Snapshot {
    Snapshot(at, path, lengths, None, InDirectory)
  }

  /** The next header to be looked at is the one at `at`: read already, or behind a payload. */
  ghost predicate HeadsFor(data: seq<byte>, s: Snapshot, at: nat) {
    match s.pending
    case None =>
      || (s.state.InDirectory? && s.pos == at)
      || (s.state.InPayload? && s.pos + s.state.remaining == at <= |data|)
    case Some(header) =>
      s.state.InDirectory? && s.pos == at + HEADER_SIZE && HeaderAt(data, at) == Ok(header)
  }

  lemma HeadsForSame(data: seq<byte>, s: Snapshot, at: nat)
    requires HeadsFor(data, s, at)
    ensures NextDo(data, s) == NextDo(data, At(at, s.path, s.pathLengths))
    ensures Drain(data, s) == Drain(data, At(at, s.path, s.pathLengths))
  {
    hide ReadNamedEntry, LeaveDirectory, HeaderAt;
  }

  /** Reading `n` bytes of a payload before asking for the next entry changes nothing after it. */
  lemma PayloadReadsAreHarmless(data: seq<byte>, s: Snapshot, n: nat)
    requires s.state.InPayload? && n <= s.state.remaining && s.pos + n <= |data|
    ensures var after := s.(pos := s.pos + n, state := InPayload(s.state.remaining - n));
            NextDo(data, after) == NextDo(data, s) && Drain(data, after) == Drain(data, s)
  {
    hide NextHeader, CurrentPayload;
    var after := s.(pos := s.pos + n, state := InPayload(s.state.remaining - n));
    if Skip(data, s.pos, s.state.remaining).Ok? {
      assert after.(pos := after.pos + after.state.remaining, state := InDirectory)
          == s.(pos := s.pos + s.state.remaining, state := InDirectory);
    }
  }

  lemma PrependPrepend(a: seq<Listed>, b: seq<Listed>, r: Result<(seq<Listed>, nat)>)
    ensures Prepend(a, Prepend(b, r)) == Prepend(a + b, r)
    ensures Prepend([], r) == r
    ensures Prepend(a, r).Err? <==> r.Err?
  {
    if r.Ok? {
      var rest := r.value.0;
      assert a + (b + rest) == a + b + rest && [] + rest == rest;
    }
  }

  lemma DrainStep(data: seq<byte>, s: Snapshot, entry: E.Entry, s1: Snapshot)
    requires NextDo(data, s) == Ok((Some(entry), s1))
    ensures Drain(data, s) == Prepend([Listed(entry, CurrentPayload(data, s1))], Drain(data, s1))
  {
    hide NextDo, CurrentPayload;
  }

  lemma DrainStop(data: seq<byte>, s: Snapshot)
    requires NextDo(data, s).Err?
    ensures Drain(data, s).Err?
  {
    hide NextDo, CurrentPayload;
  }

  // ---------------------------------------------------------------- one entry

  /** Where the reader stands after the entry of `node` that starts at `at`. */
  function AfterEntry(data: seq<byte>, at: nat, node: Node, path: seq<byte>, lengths: seq<nat>): Snapshot {
    var inner := at + BodyOffset(node) + HEADER_SIZE;
    match node
    case File(_, _, payload) => Snapshot(inner, path, lengths, None, InPayload(|payload|))
    case Symlink(_, _, target) => At(inner + |target| + 1, path, lengths)
    case Dir(_, _, _, _) =>
      var next := HeaderAt(data, at + BodyOffset(node));
      Snapshot(inner, path, lengths + [|path|], if next.Ok? then Some(next.value) else None, InDirectory)
  }

  lemma PathSet(at: nat, path: seq<byte>, lengths: seq<nat>, name: seq<byte>)
    requires lengths != []
    ensures SetPath(At(at, path, lengths), name)
         == Ok(At(at, PushPath(Truncate(path, lengths[|lengths| - 1]), name), lengths))
  {
    hide PushPath, Truncate;
  }

  lemma NameRead(h: Hash, node: Node, data: seq<byte>, at: nat, path: seq<byte>, lengths: seq<nat>)
    requires Occurs(data, at, Encode(h, node)) && |data| < TWO_64
    requires ValidName(node.name) && lengths != []
    ensures var s := At(at + HEADER_SIZE, path, lengths);
            var base := Truncate(path, lengths[|lengths| - 1]);
            ReadName(data, Header(PXAR_FILENAME, |node.name| + 1 + HEADER_SIZE), s)
            == if |node.name| + 1 > MAX_FILENAME_LEN then Err("pxar: filename exceeds maximum length")
               else Ok(At(at + HEADER_SIZE + |node.name| + 1, PushPath(base, node.name), lengths))
  {
    hide *;
    NodeLayout(h, node, data, at);
    NameStands(data, at + HEADER_SIZE, node.name, path, lengths);
  }

  lemma NameStands(data: seq<byte>, pos: nat, name: seq<byte>, path: seq<byte>, lengths: seq<nat>)
    requires Occurs(data, pos, name + [0]) && ValidName(name) && lengths != []
    ensures ReadName(data, Header(PXAR_FILENAME, |name| + 1 + HEADER_SIZE), At(pos, path, lengths))
         == if |name| + 1 > MAX_FILENAME_LEN then Err("pxar: filename exceeds maximum length")
            else Ok(At(pos + |name| + 1, PushPath(Truncate(path, lengths[|lengths| - 1]), name), lengths))
  {
    hide PushPath, Truncate, ValidateFilename, SetPath, Occurs;
    var raw := name + [0];
    ReadOccurring(data, pos, raw);
    assert raw[..|raw| - 1] == name;
    PathSet(pos + |raw|, path, lengths, name);
  }

  /** Name, entry header and stat read, what remains is decided by the next header. */
  lemma EntryHead(h: Hash, node: Node, data: seq<byte>, at: nat, path: seq<byte>, lengths: seq<nat>, next: Header)
    requires Occurs(data, at, Encode(h, node)) && |data| < TWO_64
    requires ValidName(node.name) && lengths != []
    requires HeaderAt(data, at + BodyOffset(node)) == Ok(next)
    ensures var full := PushPath(Truncate(path, lengths[|lengths| - 1]), node.name);
            var r := ReadNamedEntry(data, Header(PXAR_FILENAME, |node.name| + 1 + HEADER_SIZE),
                                    At(at + HEADER_SIZE, path, lengths));
            if |node.name| + 1 <= MAX_FILENAME_LEN
            then r == ReadKind(data, next, node.stat, At(at + BodyOffset(node) + HEADER_SIZE, full, lengths))
            else r.Err?
  {
    hide Encode, EncodeBody, HeaderAt, MetadataAt, PushPath, Truncate, ReadName, ReadKind, ValidateFilename;
    NodeLayout(h, node, data, at);
    NameRead(h, node, data, at, path, lengths);
  }

  lemma FilenameNext(data: seq<byte>, at: nat, path: seq<byte>, lengths: seq<nat>, size: nat)
    requires HeaderAt(data, at) == Ok(Header(PXAR_FILENAME, size))
    ensures var r := ReadNamedEntry(data, Header(PXAR_FILENAME, size), At(at + HEADER_SIZE, path, lengths));
            NextDo(data, At(at, path, lengths))
            == match r { case Ok((e, s)) => Ok((Some(e), s)) case Err(m) => Err(m) }
  {
    hide HeaderAt, ReadNamedEntry, LeaveDirectory;
  }

  lemma EntryRead(h: Hash, node: Node, data: seq<byte>, at: nat, path: seq<byte>, lengths: seq<nat>)
    requires Occurs(data, at, Encode(h, node)) && |data| < TWO_64
    requires ValidName(node.name) && lengths != []
    ensures var full := PushPath(Truncate(path, lengths[|lengths| - 1]), node.name);
            var r := NextDo(data, At(at, path, lengths));
            if Readable(node) then
              r == Ok((Some(E.Entry(full, node.stat, KindOf(node))), AfterEntry(data, at, node, full, lengths)))
            else r.Err?
    ensures Readable(node) && node.File? ==>
              var full := PushPath(Truncate(path, lengths[|lengths| - 1]), node.name);
              CurrentPayload(data, AfterEntry(data, at, node, full, lengths)) == node.payload
  {
    hide Encode, EncodeBody, HeaderAt, PushPath, Truncate, ReadNamedEntry, ReadKind, ValidateFilename, NextDo,
      AfterEntry, CurrentPayload;
    NodeLayout(h, node, data, at);
    var full := PushPath(Truncate(path, lengths[|lengths| - 1]), node.name);
    var next := KindRead(h, node, data, at, full, lengths);
    EntryHead(h, node, data, at, path, lengths, next);
    FilenameNext(data, at, path, lengths, |node.name| + 1 + HEADER_SIZE);
  }

  /** The header after the stat, and what `ReadKind` makes of it. */
  ghost predicate KindReads(node: Node, data: seq<byte>, at: nat, full: seq<byte>, lengths: seq<nat>, next: Header) {
    var body := at + BodyOffset(node);
    var after := AfterEntry(data, at, node, full, lengths);
    && HeaderAt(data, body) == Ok(next)
    && ReadKind(data, next, node.stat, At(body + HEADER_SIZE, full, lengths))
       == (if node.Symlink? && |node.target| + 1 > MAX_SYMLINK_LEN then Err("pxar: symlink exceeds maximum length")
           else Ok((E.Entry(full, node.stat, KindOf(node)), after)))
    && (node.File? ==> CurrentPayload(data, after) == node.payload)
  }

  lemma DirectoryHead(h: Hash, node: Node, data: seq<byte>, body: nat) returns (next: Header)
    requires Occurs(data, body, EncodeBody(h, node)) && |data| < TWO_64 && node.Dir?
    ensures HeaderAt(data, body) == Ok(next)
    ensures next.htype in {PXAR_FILENAME, PXAR_GOODBYE} && next.fullSize >= HEADER_SIZE
  {
    hide EncodeBody, DirBytes, Occurs;
    DirEncoding(h, node);
    DirLayout(h, node.kids, node.table, data, body);
    next := HeaderAt(data, body).value;
  }

  lemma DirectoryRead(h: Hash, node: Node, data: seq<byte>, at: nat, full: seq<byte>, lengths: seq<nat>)
    returns (next: Header)
    requires Occurs(data, at + BodyOffset(node), EncodeBody(h, node)) && |data| < TWO_64 && node.Dir?
    ensures KindReads(node, data, at, full, lengths, next)
  {
    hide EncodeBody, HeaderAt, ReadKind, BodyOffset, CurrentPayload, Occurs;
    var body := at + BodyOffset(node);
    next := DirectoryHead(h, node, data, body);
    DirectoryKind(data, next, node.stat, body + HEADER_SIZE, full, lengths);
  }

  lemma LeafRead(h: Hash, node: Node, data: seq<byte>, at: nat, full: seq<byte>, lengths: seq<nat>)
    returns (next: Header)
    requires Occurs(data, at + BodyOffset(node), EncodeBody(h, node)) && |data| < TWO_64 && !node.Dir?
    ensures KindReads(node, data, at, full, lengths, next)
  {
    hide EncodeBody, HeaderAt, ReadKind;
    var body := at + BodyOffset(node);
    LeafLayout(h, node, data, body);
    if node.Symlink? {
      next := Header(PXAR_SYMLINK, |node.target| + 1 + HEADER_SIZE);
      LinkKind(data, node.stat, body + HEADER_SIZE, full, lengths, node.target + [0]);
    } else {
      next := Header(PXAR_PAYLOAD, |node.payload| + HEADER_SIZE);
      FileKind(data, node.stat, body + HEADER_SIZE, full, lengths, |node.payload|);
    }
  }

  lemma KindRead(h: Hash, node: Node, data: seq<byte>, at: nat, full: seq<byte>, lengths: seq<nat>)
    returns (next: Header)
    requires Occurs(data, at + BodyOffset(node), EncodeBody(h, node)) && |data| < TWO_64
    ensures KindReads(node, data, at, full, lengths, next)
  {
    hide *;
    if node.Dir? {
      next := DirectoryRead(h, node, data, at, full, lengths);
    } else {
      next := LeafRead(h, node, data, at, full, lengths);
    }
  }

  lemma FileKind(data: seq<byte>, stat: Stat, pos: nat, full: seq<byte>, lengths: seq<nat>, size: nat)
    ensures ReadKind(data, Header(PXAR_PAYLOAD, size + HEADER_SIZE), stat, At(pos, full, lengths))
         == Ok((E.Entry(full, stat, E.File(size, None)), Snapshot(pos, full, lengths, None, InPayload(size))))
  {
  }

  lemma LinkKind(data: seq<byte>, stat: Stat, pos: nat, full: seq<byte>, lengths: seq<nat>, target: seq<byte>)
    requires Occurs(data, pos, target)
    ensures ReadKind(data, Header(PXAR_SYMLINK, |target| + HEADER_SIZE), stat, At(pos, full, lengths))
         == if |target| > MAX_SYMLINK_LEN then Err("pxar: symlink exceeds maximum length")
            else Ok((E.Entry(full, stat, E.Symlink(target)), At(pos + |target|, full, lengths)))
  {
    ReadOccurring(data, pos, target);
  }

  lemma DirectoryKind(data: seq<byte>, next: Header, stat: Stat, pos: nat, full: seq<byte>, lengths: seq<nat>)
    requires next.htype in {PXAR_FILENAME, PXAR_GOODBYE} && next.fullSize >= HEADER_SIZE
    ensures ReadKind(data, next, stat, At(pos, full, lengths))
         == Ok((E.Entry(full, stat, E.Directory), Snapshot(pos, full, lengths + [|full|], Some(next), InDirectory)))
  {
  }

  lemma GoodbyeNext(data: seq<byte>, at: nat, size: nat, path: seq<byte>, lengths: seq<nat>)
    requires HeaderAt(data, at) == Ok(Header(PXAR_GOODBYE, size + HEADER_SIZE))
    requires at + HEADER_SIZE + size <= |data| && lengths != []
    ensures var outer := lengths[..|lengths| - 1];
            var end := at + HEADER_SIZE + size;
            NextDo(data, At(at, path, lengths))
            == if outer == [] then Ok((None, At(end, path, outer).(state := Eof))) else NextDo(data, At(end, path, outer))
  {
    hide HeaderAt, ReadNamedEntry;
    var outer := lengths[..|lengths| - 1];
    var end := at + HEADER_SIZE + size;
    assert LeaveDirectory(data, Header(PXAR_GOODBYE, size + HEADER_SIZE), At(at + HEADER_SIZE, path, lengths))
        == Ok(At(end, path, outer).(state := if outer == [] then Eof else InDirectory));
  }

  /** Skipping a goodbye table returns to the enclosing directory, or ends the archive. */
  lemma GoodbyeRead(data: seq<byte>, at: nat, size: nat, path: seq<byte>, lengths: seq<nat>)
    requires HeaderAt(data, at) == Ok(Header(PXAR_GOODBYE, size + HEADER_SIZE))
    requires at + HEADER_SIZE + size <= |data| && lengths != []
    ensures var outer := lengths[..|lengths| - 1];
            var end := at + HEADER_SIZE + size;
            && (outer != [] ==> Drain(data, At(at, path, lengths)) == Drain(data, At(end, path, outer)))
            && (outer == [] ==> Drain(data, At(at, path, lengths)) == Ok(([], end)))
  {
    hide NextDo, HeaderAt;
    GoodbyeNext(data, at, size, path, lengths);
  }

  // ---------------------------------------------------------------- whole directories

  /** Past the entry of `node` the reader is at its children, or behind it. */
  lemma NodeEntered(h: Hash, node: Node, data: seq<byte>, at: nat, path: seq<byte>, lengths: seq<nat>)
    requires Occurs(data, at, Encode(h, node)) && |data| < TWO_64 && ValidName(node.name)
    requires lengths != [] && Readable(node)
    ensures var full := PushPath(Truncate(path, lengths[|lengths| - 1]), node.name);
            var (next, inner) := if node.Dir? then (at + BodyOffset(node), lengths + [|full|])
                                 else (at + |Encode(h, node)|, lengths);
            Drain(data, At(at, path, lengths)) == Prepend([ListEntry(node, full)], Drain(data, At(next, full, inner)))
  {
    hide *;
    var full := PushPath(Truncate(path, lengths[|lengths| - 1]), node.name);
    var after := AfterEntry(data, at, node, full, lengths);
    EntryRead(h, node, data, at, path, lengths);
    AfterEntryHeads(h, node, data, at, full, lengths);
    DrainStep(data, At(at, path, lengths), E.Entry(full, node.stat, KindOf(node)), after);
    var next := if node.Dir? then at + BodyOffset(node) else at + |Encode(h, node)|;
    HeadsForSame(data, after, next);
    assert Drain(data, after) == Drain(data, At(next, full, after.pathLengths));
  }

  lemma AfterEntryHeads(h: Hash, node: Node, data: seq<byte>, at: nat, full: seq<byte>, lengths: seq<nat>)
    requires Occurs(data, at, Encode(h, node)) && |data| < TWO_64
    ensures var after := AfterEntry(data, at, node, full, lengths);
            && HeadsFor(data, after, if node.Dir? then at + BodyOffset(node) else at + |Encode(h, node)|)
            && after.path == full && after.pathLengths == (if node.Dir? then lengths + [|full|] else lengths)
            && ((node.File? ==> CurrentPayload(data, after) == node.payload) ==>
                  ListEntry(node, full) == Listed(E.Entry(full, node.stat, KindOf(node)), CurrentPayload(data, after)))
  {
    hide Encode, EncodeBody, HeaderAt, DirBody, DirBytes, BodyOffset;
    NodeLayout(h, node, data, at);
    if node.Dir? {
      var next := DirectoryHead(h, node, data, at + BodyOffset(node));
    } else {
      LeafLayout(h, node, data, at + BodyOffset(node));
    }
  }

  lemma NodeUnreadable(h: Hash, node: Node, data: seq<byte>, at: nat, path: seq<byte>, lengths: seq<nat>)
    requires Occurs(data, at, Encode(h, node)) && |data| < TWO_64 && ValidName(node.name)
    requires lengths != [] && !Readable(node)
    ensures Drain(data, At(at, path, lengths)).Err?
  {
    hide *;
    EntryRead(h, node, data, at, path, lengths);
    DrainStop(data, At(at, path, lengths));
  }

  /** What a directory's encoding holds and how its listing is made up. */
  lemma DirectoryParts(h: Hash, node: Node, data: seq<byte>, at: nat, base: seq<byte>)
    requires Occurs(data, at, Encode(h, node)) && |data| < TWO_64 && WellFormed(h, node) && node.Dir?
    ensures Occurs(data, at + BodyOffset(node), DirBytes(h, node.kids, node.table))
    ensures |Encode(h, node)| == BodyOffset(node) + |KidsBytes(h, node.kids)| + HEADER_SIZE + ItemsSize(|node.table| + 1)
    ensures WellFormedKids(h, node.kids)
    ensures AllReadable(node) <==> Readable(node) && KidsReadable(node.kids)
    ensures var full := PushPath(base, node.name);
            ListNode(node, base) == [ListEntry(node, full)] + ListKids(node.kids, full)
  {
    hide Encode, EncodeBody, DirBytes, KidsBytes, ItemsSize, Occurs, BodyOffset;
    NodeLayout(h, node, data, at);
    DirEncoding(h, node);
  }

  lemma LeafParts(node: Node, base: seq<byte>)
    requires !node.Dir?
    ensures AllReadable(node) <==> Readable(node)
    ensures ListNode(node, base) == [ListEntry(node, PushPath(base, node.name))]
  {
  }

  lemma NamesPath(h: Hash, node: Node, path: seq<byte>, base: seq<byte>)
    requires WellFormed(h, node) && base <= path
    ensures ValidName(node.name) && Truncate(path, |base|) == base && base <= PushPath(base, node.name)
  {
    PushedPathExtends(base, node.name);
  }

  lemma {:induction false} NodeRoundTrip(h: Hash, node: Node, data: seq<byte>, at: nat,
                                         path: seq<byte>, lengths: seq<nat>, base: seq<byte>)
    returns (path': seq<byte>)
    requires Occurs(data, at, Encode(h, node)) && |data| < TWO_64 && WellFormed(h, node)
    requires lengths != [] && lengths[|lengths| - 1] == |base| && base <= path
    ensures base <= path'
    ensures var r := Drain(data, At(at, path, lengths));
            if AllReadable(node) then
              r == Prepend(ListNode(node, base), Drain(data, At(at + |Encode(h, node)|, path', lengths)))
            else r.Err?
    decreases node, 1
  {
    hide *;
    var full := PushPath(base, node.name);
    path' := full;
    NamesPath(h, node, path, base);
    if !Readable(node) {
      NodeUnreadable(h, node, data, at, path, lengths);
      ReadableFirst(node);
    } else {
      NodeEntered(h, node, data, at, path, lengths);
      if node.Dir? {
        var body, inner := at + BodyOffset(node), lengths + [|full|];
        DirectoryParts(h, node, data, at, base);
        GoodbyeAtEnd(h, node.kids, node.table, data, body);
        path' := KidsRoundTrip(h, node.kids, data, body, full, inner, full);
        assert inner[..|inner| - 1] == lengths;
        var goodbyeAt := body + |KidsBytes(h, node.kids)|;
        GoodbyeRead(data, goodbyeAt, ItemsSize(|node.table| + 1), path', inner);
        PrependPrepend([ListEntry(node, full)], ListKids(node.kids, full), Drain(data, At(goodbyeAt, path', inner)));
        PrependPrepend([ListEntry(node, full)], [], Drain(data, At(body, full, inner)));
      } else {
        LeafParts(node, base);
      }
    }
  }

  lemma ReadableFirst(node: Node)
    ensures AllReadable(node) ==> Readable(node)
  {
  }

  lemma {:induction false} KidsRoundTrip(h: Hash, kids: seq<Node>, data: seq<byte>, at: nat,
                                         path: seq<byte>, lengths: seq<nat>, base: seq<byte>)
    returns (path': seq<byte>)
    requires Occurs(data, at, KidsBytes(h, kids)) && |data| < TWO_64 && WellFormedKids(h, kids)
    requires lengths != [] && lengths[|lengths| - 1] == |base| && base <= path
    ensures base <= path'
    ensures var r := Drain(data, At(at, path, lengths));
            if KidsReadable(kids) then
              r == Prepend(ListKids(kids, base), Drain(data, At(at + |KidsBytes(h, kids)|, path', lengths)))
            else r.Err?
    decreases kids, 0
  {
    hide Encode, Drain, WellFormed, ListNode, AllReadable;
    path' := path;
    if kids == [] {
      PrependPrepend([], [], Drain(data, At(at, path, lengths)));
    } else {
      var blobs := Blobs(h, kids);
      assert blobs[1..] == Blobs(h, kids[1..]);
      OccursConcat(data, at, blobs[0], Concat(blobs[1..]));
      var between := NodeRoundTrip(h, kids[0], data, at, path, lengths, base);
      if AllReadable(kids[0]) {
        path' := KidsRoundTrip(h, kids[1..], data, at + |blobs[0]|, between, lengths, base);
        PrependPrepend(ListNode(kids[0], base), ListKids(kids[1..], base),
                       Drain(data, At(at + |Concat(blobs)|, path', lengths)));
      }
    }
  }

  /** Draining a fresh decoder lists the root and then the whole tree in pre-order, and stops at the
      last byte; it fails exactly when some name is longer than 255 or some target than 4095 bytes. */
  lemma ArchiveRoundTrip(h: Hash, stat: Stat, kids: seq<Node>, table: seq<nat>, data: seq<byte>)
    requires data == EncodeArchive(h, stat, kids, table) && |data| < TWO_64
    requires stat.IsDir() && WellFormedKids(h, kids) && TableOk(h, kids, table)
    ensures var r := Drain(data, Snapshot(0, ROOT_PATH, [], None, Begin));
            var root := Listed(E.Entry([47], stat, E.Directory), []);
            && (KidsReadable(kids) ==> r == Ok(([root] + Listing(kids, []), |data|)))
            && (r.Ok? <==> KidsReadable(kids))
  {
    hide *;
    OccursWhole(data);
    StraysAreNotRead(h, stat, kids, table, data);
  }

  /** The same for an archive with anything behind it: what is behind it is not read. */
  lemma StraysAreNotRead(h: Hash, stat: Stat, kids: seq<Node>, table: seq<nat>, data: seq<byte>)
    requires Occurs(data, 0, EncodeArchive(h, stat, kids, table)) && |data| < TWO_64
    requires stat.IsDir() && WellFormedKids(h, kids)
    ensures var r := Drain(data, Snapshot(0, ROOT_PATH, [], None, Begin));
            var root := Listed(E.Entry([47], stat, E.Directory), []);
            && (KidsReadable(kids) ==> r == Ok(([root] + Listing(kids, []), |EncodeArchive(h, stat, kids, table)|)))
            && (r.Ok? <==> KidsReadable(kids))
  {
    hide EncodeStat, EncodeArchive, Occurs, DirBody, DirBytes, NextDo, Drain, ListKids, Listing, WellFormedKids, KidsReadable, Prepend;
    var start := HEADER_SIZE + STAT_SIZE;
    var end := |EncodeArchive(h, stat, kids, table)|;
    var begin, inside := Snapshot(0, ROOT_PATH, [], None, Begin), At(start, ROOT_PATH, [1]);
    var root, listed := E.Entry(ROOT_PATH, stat, E.Directory), ListKids(kids, ROOT_PATH);
    ArchiveLayout(h, stat, kids, table);
    ArchiveParts(h, stat, kids, table, data);
    RootRead(stat, data);
    DrainStep(data, begin, root, inside);
    DirectoryRoundTrip(h, kids, table, data, start, ROOT_PATH);
    PrependPrepend([Listed(root, [])], listed, Ok(([], end)));
    PrependPrepend([Listed(root, [])], [], Drain(data, inside));
    ListAll([Listed(root, [])], listed, end);
    PathsAreNames(h, kids, []);
  }

  lemma ArchiveParts(h: Hash, stat: Stat, kids: seq<Node>, table: seq<nat>, data: seq<byte>)
    requires Occurs(data, 0, EncodeArchive(h, stat, kids, table))
    ensures Occurs(data, 0, EncodeStat(stat)) && Occurs(data, HEADER_SIZE + STAT_SIZE, DirBytes(h, kids, table))
  {
    hide EncodeStat, Hashes, Blobs, Concat, DirTable, GoodbyeBytes, ItemsSize, Occurs;
    OccursConcat(data, 0, EncodeStat(stat), DirBytes(h, kids, table));
  }

  /** The outermost directory, from behind its own entry to its end. */
  lemma DirectoryRoundTrip(h: Hash, kids: seq<Node>, table: seq<nat>, data: seq<byte>, start: nat, base: seq<byte>)
    requires Occurs(data, start, DirBytes(h, kids, table)) && |data| < TWO_64
    requires WellFormedKids(h, kids)
    ensures var r := Drain(data, At(start, base, [|base|]));
            var end := start + |KidsBytes(h, kids)| + HEADER_SIZE + ItemsSize(|table| + 1);
            if KidsReadable(kids) then r == Prepend(ListKids(kids, base), Ok(([], end))) else r.Err?
  {
    hide *;
    GoodbyeAtEnd(h, kids, table, data, start);
    var path' := KidsRoundTrip(h, kids, data, start, base, [|base|], base);
    GoodbyeRead(data, start + |KidsBytes(h, kids)|, ItemsSize(|table| + 1), path', [|base|]);
  }

  lemma GoodbyeAtEnd(h: Hash, kids: seq<Node>, table: seq<nat>, data: seq<byte>, start: nat)
    requires Occurs(data, start, DirBytes(h, kids, table)) && |data| < TWO_64
    ensures var goodbyeAt := start + |KidsBytes(h, kids)|;
            && Occurs(data, start, KidsBytes(h, kids))
            && HeaderAt(data, goodbyeAt) == Ok(Header(PXAR_GOODBYE, ItemsSize(|table| + 1) + HEADER_SIZE))
            && goodbyeAt + HEADER_SIZE + ItemsSize(|table| + 1) <= |data|
  {
    hide Concat, Blobs, Hashes, DirTable, TableAndTail, HeaderAt, DirBody, DirBytes, ItemsSize;
    DirLayout(h, kids, table, data, start);
  }

  lemma RootRead(stat: Stat, data: seq<byte>)
    requires Occurs(data, 0, EncodeStat(stat)) && stat.IsDir()
    ensures NextDo(data, Snapshot(0, ROOT_PATH, [], None, Begin))
         == Ok((Some(E.Entry(ROOT_PATH, stat, E.Directory)), At(HEADER_SIZE + STAT_SIZE, ROOT_PATH, [1])))
  {
    hide EncodeStat, HeaderAt, MetadataAt;
    StatOccurs(data, 0, stat);
    assert [] + [|ROOT_PATH|] == [1];
  }

  lemma ListAll(a: seq<Listed>, b: seq<Listed>, end: nat)
    ensures Prepend(a + b, Ok(([], end))) == Ok((a + b, end))
  {
    assert a + b + [] == a + b;
  }

  // ---------------------------------------------------------------- a caller

  function Entries(list: seq<Listed>): (es: seq<E.Entry>)
    ensures |es| == |list|
  {
    seq(|list|, i requires 0 <= i < |list| => list[i].entry)
  }

  /** What one call of `next` adds to the listing. */
  lemma DrainNext(data: seq<byte>, s: Snapshot, done: seq<Listed>)
    ensures match NextDo(data, s) {
              case Ok((Some(e), s1)) =>
                Prepend(done, Drain(data, s)) == Prepend(done + [Listed(e, CurrentPayload(data, s1))], Drain(data, s1))
              case Ok((None, s1)) => Prepend(done, Drain(data, s)) == Ok((done, s1.pos))
              case Err(m) => Prepend(done, Drain(data, s)).Err?
            }
  {
    hide NextDo, CurrentPayload;
    match NextDo(data, s) {
      case Ok((Some(e), s1)) =>
        DrainStep(data, s, e, s1);
        PrependPrepend(done, [Listed(e, CurrentPayload(data, s1))], Drain(data, s1));
      case Ok((None, s1)) => assert done + [] == done;
      case Err(_) =>
    }
  }

  /** When the rest can be read, the payload in front of it is all there. */
  lemma PayloadIsThere(data: seq<byte>, s: Snapshot)
    requires Drain(data, s).Ok? && s.state.InPayload? && s.pos <= |data|
    ensures s.pos + s.state.remaining <= |data|
    ensures CurrentPayload(data, s) == data[s.pos..s.pos + s.state.remaining]
  {
    hide NextHeader;
  }

  /** Some reads of the current payload, with buffers of any size. */
  method ReadSome(d: Decoder) returns (got: seq<byte>)
    requires d.pos <= |d.input|
    modifies d
    ensures d.pos <= |d.input|
    ensures old(d.pos) <= d.pos && Drain(d.input, d.Now()) == Drain(d.input, old(d.Now()))
    ensures Drain(d.input, old(d.Now())).Ok? ==> got <= CurrentPayload(d.input, old(d.Now()))
  {
    hide NextDo, Drain;
    got := [];
    ghost var start := d.Now();
    if !d.state.InPayload? {
      return;
    }
    var rounds: nat := *;
    while rounds > 0
      invariant |got| <= start.state.remaining && start.pos + |got| == d.pos <= |d.input|
      invariant got == d.input[start.pos..d.pos]
      invariant d.Now() == start.(pos := start.pos + |got|, state := InPayload(start.state.remaining - |got|))
    {
      var bufLen: nat := *;
      var chunk := d.ReadContents(bufLen);
      got := got + chunk;
      rounds := rounds - 1;
    }
    PayloadReadsAreHarmless(d.input, start, |got|);
    if Drain(d.input, start).Ok? {
      PayloadIsThere(d.input, start);
    }
  }

  /** Reads every entry, and of each payload whatever it likes: the listing is always the one
      `Drain` describes, and what was read of a payload is a prefix of it. */
  method ReadEverything(d: Decoder) returns (ok: bool, entries: seq<E.Entry>, parts: seq<seq<byte>>)
    requires d.pos <= |d.input|
    modifies d
    ensures var r := Drain(d.input, old(d.Now()));
            && (ok <==> r.Ok?)
            && (ok ==> entries == Entries(r.value.0) && d.pos == r.value.1 && |parts| == |entries|)
            && (ok ==> forall i :: 0 <= i < |parts| ==> parts[i] <= r.value.0[i].payload)
  {
    hide NextDo, Drain, Prepend, CurrentPayload;
    entries, parts := [], [];
    ghost var data, start := d.input, d.Now();
    ghost var done: seq<Listed> := [];
    PrependPrepend([], [], Drain(data, start));
    while true
      invariant d.input == data && d.pos <= |data|
      invariant Prepend(done, Drain(data, d.Now())) == Drain(data, start)
      invariant entries == Entries(done) && |parts| == |done|
      invariant Drain(data, start).Ok? ==> forall i :: 0 <= i < |parts| ==> parts[i] <= done[i].payload
      decreases |data| - d.pos
    {
      DrainNext(data, d.Now(), done);
      var next := d.Next();
      if next.Err? {
        return false, entries, parts;
      }
      if next.value == None {
        return true, entries, parts;
      }
      ghost var at := d.Now();
      ghost var listed := Listed(next.value.value, CurrentPayload(data, at));
      PrependPrepend(done + [listed], [], Drain(data, at));
      var got := ReadSome(d);
      entries := entries + [next.value.value];
      parts := parts + [got];
      done := done + [listed];
    }
  }
}
