/** A directory at the reader's entry limit: one device more, which is not even listed, and the whole
    catalog is refused. */
module CatalogLimits {
  import opened Bytes
  import opened Varint
  import opened CatalogFormat
  import R = CatalogReader
  import T = CatalogRoundTrip

  /** `n` empty files without a name. */
  function Files(n: nat): (kids: seq<Node>)
    ensures |kids| == n
  {
    if n == 0 then [] else [FileNode([], 0, 0)] + Files(n - 1)
  }

  const FIFO: Node := SpecialNode([], FifoNode)

  ghost predicate Leaves(kids: seq<Node>) {
    forall k :: k in kids ==> !k.DirNode? && k.name == []
  }

  lemma {:induction false} FilesAreLeaves(n: nat)
    ensures Leaves(Files(n) + [FIFO]) && Leaves(Files(n))
  {
    if n > 0 { FilesAreLeaves(n - 1); }
  }

  // ---------------------------------------------------------------- such a directory is small enough to be written

  lemma EntrySize(node: Node, start: nat, at: nat)
    requires !node.DirNode? && node.name == []
    ensures |EntryBytes(CatalogEntry(node.name, AttributeOf(node, at)), start)| <= 31
  {
    TenBytes(0, 0);
    if node.FileNode? { TenBytes(node.size, node.mtime); }
  }

  lemma {:induction false} EntriesSize(kids: seq<Node>, pos: nat, start: nat)
    requires Leaves(kids)
    ensures KidsBytes(kids) == [] && |EntriesBytes(EntriesOf(kids, pos), start)| <= 31 * |kids|
  {
    hide EntryBytes, AttributeOf;
    if kids != [] {
      var rest := kids[1..];
      assert forall k :: k in rest ==> k in kids;
      EntriesSize(rest, pos, start);
      EntrySize(kids[0], start, pos);
      assert Pieces(kids) == [Piece([], 0)] + Pieces(rest);
      assert Pieces(kids)[1..] == Pieces(rest);
      var entries := EntriesOf(kids, pos);
      assert entries == [CatalogEntry(kids[0].name, AttributeOf(kids[0], pos))] + EntriesOf(rest, pos);
      assert entries[1..] == EntriesOf(rest, pos);
    }
  }

  lemma BlockSize(entries: seq<CatalogEntry>, start: nat, n: nat)
    requires |entries| < TWO_32 && |EntriesBytes(entries, start)| <= n < TWO_63
    ensures |BlockBytes(entries, start)| <= n + 20
  {
    TenBytes(|entries|, 0);
    TenBytes(|TableBytes(entries, start)|, 0);
  }

  lemma DirectorySize(kids: seq<Node>)
    requires Leaves(kids) && |kids| < TWO_32
    ensures |KidsBytes([DirNode([], kids)])| <= 31 * |kids| + 20
  {
    hide BlockBytes, EntriesFrom, Leaves;
    var root := [DirNode([], kids)];
    EntriesSize(kids, 0, 0);
    BlockSize(EntriesOf(kids, 0), 0, 31 * |kids|);
    var piece := PieceOf(root[0]);
    assert piece == Piece(BlockBytes(EntriesOf(kids, 0), 0), 0);
    assert Pieces(root) == [piece];
    JoinedOne(piece);
  }

  lemma CatalogSize(kids: seq<Node>)
    requires Leaves(kids) && |kids| < TWO_32
    ensures |CatalogBytes([DirNode([], kids)])| < TWO_64
  {
    hide BlockBytes, EntriesOf, KidsBytes, Leaves;
    var root := [DirNode([], kids)];
    DirectorySize(kids);
    RootSize(kids, |CATALOG_MAGIC|, |CATALOG_MAGIC| + |KidsBytes(root)|);
  }

  lemma JoinedOne(piece: Piece)
    ensures Joined([piece]) == piece.bytes
  {
    assert [piece][1..] == [] && Joined([]) == [];
    assert piece.bytes + [] == piece.bytes;
  }

  lemma RootSize(kids: seq<Node>, pos: nat, start: nat)
    requires start < TWO_63 && pos <= start
    ensures |BlockBytes(EntriesOf([DirNode([], kids)], pos), start)| <= 60
  {
    hide PieceOf, BlockBytes, EntryBytes;
    var root := [DirNode([], kids)];
    var child := pos + PieceOf(root[0]).start;
    var entry := CatalogEntry([], Directory(child));
    assert root[1..] == [] && Pieces(root)[0] == PieceOf(root[0]);
    assert EntriesOf(root, pos) == [entry];
    assert [entry][1..] == [] && EntriesBytes([], start) == [];
    assert EntriesBytes([entry], start) == EntryBytes(entry, start);
    LinkSize(entry, start);
    BlockSize([entry], start, 31);
  }

  lemma LinkSize(entry: CatalogEntry, start: nat)
    requires entry.name == [] && entry.attribute.Directory? && start < TWO_63
    ensures |EntryBytes(entry, start)| <= 31
  {
    TenBytes(0, 0);
    TenBytes(if entry.attribute.start <= start then start - entry.attribute.start else 0, 0);
  }

  // ---------------------------------------------------------------- the limit

  lemma {:induction false} FilesWithin(n: nat, m: nat)
    requires n + m == R.MAX_CATALOG_ENTRIES
    ensures T.KidsWithin(Files(n), m, 0) && !T.KidsWithin(Files(n) + [FIFO], m, 0)
  {
    if n == 0 {
      assert Files(0) + [FIFO] == [FIFO];
    } else {
      var all := Files(n) + [FIFO];
      assert Files(n)[1..] == Files(n - 1) && all[1..] == Files(n - 1) + [FIFO];
      FilesWithin(n - 1, m + 1);
    }
  }

  lemma OneListing(kids: seq<Node>)
    ensures T.ListKids([FileNode([], 0, 0)] + kids, []) == T.ListNode(FileNode([], 0, 0), []) + T.ListKids(kids, [])
    ensures |T.ListNode(FileNode([], 0, 0), [])| == 1
  {
    assert ([FileNode([], 0, 0)] + kids)[1..] == kids;
  }

  lemma FifoUnlisted()
    ensures T.ListKids([FIFO], []) == T.ListKids([], []) == []
  {
    assert [FIFO][1..] == [];
  }

  lemma {:induction false} SameListing(n: nat)
    ensures T.ListKids(Files(n) + [FIFO], []) == T.ListKids(Files(n), []) && |T.ListKids(Files(n), [])| == n
  {
    hide T.ListKids, T.ListNode, FIFO;
    if n == 0 {
      FifoUnlisted();
      assert Files(0) + [FIFO] == [FIFO];
    } else {
      SameListing(n - 1);
      OneListing(Files(n - 1));
      OneListing(Files(n - 1) + [FIFO]);
      assert Files(n) + [FIFO] == [FileNode([], 0, 0)] + (Files(n - 1) + [FIFO]);
    }
  }

  /** A directory with as many files as the limit allows is parsed. With a fifo behind them, which is
      not listed, the tree has the same listing, and parsing it is an error. */
  lemma FifoHitsTheLimit() returns (within: seq<Node>, over: seq<Node>)
    ensures T.ListRoot(within) == T.ListRoot(over) && |T.ListRoot(within)| == R.MAX_CATALOG_ENTRIES
    ensures R.ParseCatalog(CatalogBytes(within)) == Ok(T.ListRoot(within))
    ensures R.ParseCatalog(CatalogBytes(over)).Err?
  {
    hide Files, CatalogBytes, R.ParseCatalog, T.KidsWithin, T.ListKids, Leaves;
    var n := R.MAX_CATALOG_ENTRIES;
    within, over := [DirNode([], Files(n))], [DirNode([], Files(n) + [FIFO])];
    FilesAreLeaves(n);
    FilesWithin(n, 0);
    SameListing(n);
    CatalogSize(Files(n));
    CatalogSize(Files(n) + [FIFO]);
    T.CatalogParses(within, CatalogBytes(within));
    T.CatalogParses(over, CatalogBytes(over));
  }
}
