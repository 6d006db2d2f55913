/** Where writer and readers part: archives that the encoder accepts and a reader does not give back. */
module PxarLimits {
  import opened Bytes
  import opened Paths
  import opened PxarFormat
  import opened PxarEncoder
  import opened PxarAccessor
  import D = PxarDecoder
  import L = PxarLookup
  import T = PxarRoundTrip

  const FRESH: D.Snapshot := D.Snapshot(0, ROOT_PATH, [], None, D.Begin)

  const ROOT_STAT: Stat := Stat(0x41ED, 0, 0, 0, 0, 0)
  const LEAF_STAT: Stat := Stat(0x81A4, 0, 0, 0, 0, 0)

  const A: seq<byte> := [97]

  // ---------------------------------------------------------------- an archive of one entry

  /** The archive with one file or symlink is as long as this. */
  function OneLength(node: Node): nat {
    4 * HEADER_SIZE + 2 * STAT_SIZE + 2 * GOODBYE_ITEM_SIZE + HEADER_SIZE + |node.name| + 1
    + (match node
       case File(_, _, payload) => |payload|
       case Symlink(_, _, target) => |target| + 1
       case Dir(_, _, _, _) => 0)
  }

  lemma LengthOfOne(h: Hash, stat: Stat, node: Node, table: seq<nat>)
    requires !node.Dir? && TableOk(h, [node], table)
    ensures |EncodeArchive(h, stat, [node], table)| == OneLength(node)
  {
    ArchiveLayout(h, stat, [node], table);
    KidsOfOne(h, node);
    assert |table| == 1 by { TableOfOne(h, node, table); }
    LeafLength(h, node);
  }

  lemma TableOfOne(h: Hash, node: Node, table: seq<nat>)
    requires TableOk(h, [node], table)
    ensures |table| == 1
  {
  }

  lemma KidsOfOne(h: Hash, node: Node)
    ensures KidsBytes(h, [node]) == Encode(h, node)
  {
    hide EncodeFilename, EncodeStat, EncodeBody;
    var blob := Encode(h, node);
    assert Blobs(h, [node]) == [blob];
    assert Concat([] + [blob]) == Concat([]) + blob by { ConcatAppend([], blob); }
    assert [] + [blob] == [blob];
    assert Concat<byte>([]) == [];
    assert [] + blob == blob;
  }

  lemma LeafLength(h: Hash, node: Node)
    requires !node.Dir?
    ensures |Encode(h, node)| == HEADER_SIZE + |node.name| + 1 + HEADER_SIZE + STAT_SIZE + HEADER_SIZE
                                 + (if node.File? then |node.payload| else |node.target| + 1)
  {
  }

  /** Writes one entry into a fresh archive, which is then closed. */
  method WriteOne(h: Hash, node: Node) returns (e: Encoder, closed: Result<()>)
    requires !node.Dir? && ValidName(node.name)
    ensures fresh(e) && e.Valid() && e.hash == h && e.frames == [] && e.stray == []
    ensures closed.Ok? && e.archive.Some?
    ensures var root := e.archive.value;
            && ArchiveOk(h, root) && root.kids == [node] && root.stat == ROOT_STAT
            && e.out == EncodeArchive(h, ROOT_STAT, [node], root.table) && |e.out| == OneLength(node)
  {
    hide EncodeArchive, Encode, TableOk, ValidateFilename, EncoderOk, AddKid, OneLength, WellFormedKids, EncodeStat, EncodeFilename;
    e := new Encoder(h, ROOT_STAT);
    ghost var root := Frame(true, [], ROOT_STAT, []);
    FirstKid(root, node);
    var added;
    match node {
      case File(name, stat, payload) =>
        assert payload[..|payload|] == payload;
        added := e.AddFile(stat, name, |payload|, payload);
      case Symlink(name, stat, target) =>
        added := e.AddSymlink(stat, name, target);
    }
    assert e.frames == [root.(kids := [node])];
    var finished, top := e.Finish();
    closed := e.Close();
    LengthOfOne(h, ROOT_STAT, node, e.archive.value.table);
    assert e.out + [] == e.out;
  }

  lemma FirstKid(root: Frame, node: Node)
    requires root.kids == []
    ensures AddKid([root], node) == [root.(kids := [node])]
  {
    assert [] + [node] == [node];
  }

  // ---------------------------------------------------------------- too long for the sequential reader

  /** A file with a name of 256 bytes is written, and the sequential reader refuses the archive. */
  method LongName(h: Hash) returns (e: Encoder, closed: Result<()>)
    ensures closed.Ok? && T.Drain(e.out, FRESH).Err?
  {
    hide T.Drain, EncodeArchive;
    var name: seq<byte> := seq(256, _ => 97);
    var node := File(name, LEAF_STAT, []);
    assert name[0] == 97 && SLASH !in name;
    e, closed := WriteOne(h, node);
    T.ArchiveRoundTrip(h, ROOT_STAT, [node], e.archive.value.table, e.out);
  }

  /** So is a symlink with a target of 4096 bytes. */
  method LongTarget(h: Hash) returns (e: Encoder, closed: Result<()>)
    ensures closed.Ok? && T.Drain(e.out, FRESH).Err?
  {
    hide T.Drain, EncodeArchive;
    var target: seq<byte> := seq(4096, _ => 97);
    var node := Symlink(A, LEAF_STAT, target);
    e, closed := WriteOne(h, node);
    T.ArchiveRoundTrip(h, ROOT_STAT, [node], e.archive.value.table, e.out);
  }

  // ---------------------------------------------------------------- paths that lead nowhere

  /** In an archive with the file `a`, looking up `a/a` is an error, and the empty path gives nothing. */
  method BelowAFile(h: Hash) returns (e: Encoder, closed: Result<()>, ghost root: Directory)
    ensures closed.Ok? && OpenAtEnd(e.out, |e.out|, ROOT_PATH) == Ok(root)
    ensures LookupPath(h, e.out, root, [Normal(A), Normal(A)]).Err?
    ensures LookupPath(h, e.out, root, []) == Ok(None)
  {
    hide OpenAtEnd, LookupPath, EncodeArchive, Names, Absolute, L.Navigable, L.Resolve, Spells, TableOk, WellFormedKids;
    var node := File(A, LEAF_STAT, []);
    e, closed := WriteOne(h, node);
    ghost var table := e.archive.value.table;
    FewOfOne(h, node);
    L.FewCollisionsNavigable(h, [node], table);
    ghost var at, again;
    TwoSpelled(node);
    root, at := L.ArchiveLookup(h, ROOT_STAT, [node], table, e.out, [Normal(A), Normal(A)], [A, A], [0, 1]);
    again, at := L.ArchiveLookup(h, ROOT_STAT, [node], table, e.out, [], [], []);
  }

  lemma FewOfOne(h: Hash, node: Node)
    requires !node.Dir?
    ensures L.FewCollisions(h, [node])
  {
  }

  lemma TwoSpelled(node: Node)
    requires node.name == A && !node.Dir?
    ensures Spells([Normal(A), Normal(A)], [A, A], [0, 1]) && Spells([], [], [])
    ensures L.Resolve([node], [A, A], ROOT_PATH) == L.NotADirectory
  {
    assert L.KidNamed([node], A) == Some(0);
  }

  // ---------------------------------------------------------------- calls after the root

  lemma EmptyDirectory(h: Hash, node: Node)
    requires node.Dir? && node.kids == [] && TableOk(h, [], node.table)
    ensures |Encode(h, node)| == HEADER_SIZE + |node.name| + 1 + (HEADER_SIZE + STAT_SIZE) + (HEADER_SIZE + GOODBYE_ITEM_SIZE)
  {
    hide *;
    EncodeLength(h, node);
    NoKids(h);
    EmptyTable(h, node.table);
    TailSize();
    DirEncoding(h, node);
  }

  lemma EncodeLength(h: Hash, node: Node)
    ensures |Encode(h, node)| == HEADER_SIZE + |node.name| + 1 + (HEADER_SIZE + STAT_SIZE) + |EncodeBody(h, node)|
  {
    hide EncodeBody;
  }

  lemma EmptyTable(h: Hash, table: seq<nat>)
    requires TableOk(h, [], table)
    ensures |table| == 0
  {
  }

  lemma TailSize()
    ensures ItemsSize(1) == GOODBYE_ITEM_SIZE
  {
  }

  lemma NoKids(h: Hash)
    ensures KidsBytes(h, []) == []
  {
  }

  lemma OneListed(node: Node)
    requires !node.Dir? && node.name == A
    ensures T.Listing([node], []) == [T.ListEntry(node, [47, 97])]
  {
    var names := [] + [node.name];
    assert names == [A];
    SlashedNext([], A);
    NothingSlashed();
    assert [] + ([47] + A) == [47, 97];
    assert T.Listing([node][1..], []) == [];
  }

  /** The root, with the file `a` in it, is finished; then an empty directory is created and finished.
      All calls succeed. The sequential reader still lists the archive; the other one takes the empty
      directory for the root and does not find `a`. */
  method AfterTheRoot(h: Hash) returns (e: Encoder, closed: Result<()>, ghost root: Directory)
    ensures closed.Ok?
    ensures T.Drain(e.out, FRESH).Ok?
    ensures T.Drain(e.out, FRESH).value.0
         == [T.Listed(T.E.Entry([47], ROOT_STAT, T.E.Directory), []),
             T.Listed(T.E.Entry([47, 97], LEAF_STAT, T.E.File(0, None)), [])]
    ensures OpenAtEnd(e.out, |e.out|, ROOT_PATH) == Ok(root) && LookupComponent(h, e.out, root, A) == Ok(None)
  {
    hide T.Drain, OpenAtEnd, LookupComponent, EncodeArchive, Encode, EncoderOk, TableOk, BodyOffset, L.Opened;
    var file := File(A, LEAF_STAT, []);
    e, closed := WriteOne(h, file);
    ghost var archive, front := e.archive.value, e.out;
    var created := e.CreateDirectory(A, ROOT_STAT);
    var finished, stray := e.Finish();
    closed := e.Close();
    assert [] + [Frame(false, A, ROOT_STAT, [])] == [Frame(false, A, ROOT_STAT, [])];
    assert [] + Encode(h, stray) == Encode(h, stray);
    assert e.out == front + Encode(h, stray);
    EmptyDirectory(h, stray);
    assert Occurs(e.out, 0, front);
    T.StraysAreNotRead(h, ROOT_STAT, [file], archive.table, e.out);
    OneListed(file);
    root := L.LastDirectoryOpens(h, e.out, front, stray);
    L.ComponentAbsent(h, e.out, root, [], stray.table, |front| + BodyOffset(stray), A);
  }
}
