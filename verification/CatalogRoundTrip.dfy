/** What parsing gives: on any bytes, a walk that goes strictly down; on a written catalog,
    exactly the listing of its tree. */
module CatalogRoundTrip {
  import opened Bytes
  import opened Paths
  import opened Varint
  import opened CatalogFormat
  import R = CatalogReader

  // ---------------------------------------------------------------- any bytes

  /** Blocks walked below `top` lie below it, and all of them inside the data. */
  ghost predicate Below(data: seq<byte>, before: set<nat>, after: set<nat>, top: nat) {
    && before <= after
    && forall b :: b in after && b !in before ==> b < top && b < |data|
  }

  /** An accepted walk from `block` only reaches blocks not above it, never an earlier one again,
      only adds to the output, and keeps within the entry limit. */
  lemma {:induction false} WalkGoesDown(data: seq<byte>, block: nat, base: seq<byte>, w: R.Walked, depth: nat)
    requires R.PushWalk(data, block, base, w, depth).Ok? && |w.out| <= R.MAX_CATALOG_ENTRIES
    ensures var w' := R.PushWalk(data, block, base, w, depth).value;
            && Below(data, w.visited, w'.visited, block + 1)
            && block !in w.visited && block in w'.visited
            && w.out <= w'.out && |w'.out| <= R.MAX_CATALOG_ENTRIES
    decreases if depth <= R.MAX_CATALOG_DEPTH then R.MAX_CATALOG_DEPTH + 1 - depth else 0, 1, 0
  {
    hide R.ReadTable;
    var entries := R.ReadTable(data, block).value;
    EntriesGoDown(data, entries, base, w.(visited := w.visited + {block}), depth, block);
  }

  /** The children followed by an accepted walk are strictly below their directory's block. */
  lemma {:induction false} EntriesGoDown(data: seq<byte>, entries: seq<R.RawEntry>, base: seq<byte>, w: R.Walked,
                                         depth: nat, block: nat)
    requires depth <= R.MAX_CATALOG_DEPTH && block in w.visited && |w.out| <= R.MAX_CATALOG_ENTRIES
    requires forall e :: e in entries && e.kind.RawDirectory? ==> e.kind.child <= block
    requires R.WalkEntries(data, entries, base, w, depth).Ok?
    ensures var w' := R.WalkEntries(data, entries, base, w, depth).value;
            && Below(data, w.visited, w'.visited, block)
            && w.out <= w'.out && |w'.out| <= R.MAX_CATALOG_ENTRIES
    ensures forall e :: e in entries && e.kind.RawDirectory? ==> e.kind.child < block
    decreases R.MAX_CATALOG_DEPTH + 1 - depth, 0, |entries|
  {
    hide PushPath, R.ReadTable;
    if entries != [] {
      var path := PushPath(base, entries[0].name);
      var w1 := w.(out := w.out + R.Emit(path, entries[0].kind));
      if entries[0].kind.RawDirectory? {
        var child := entries[0].kind.child;
        WalkGoesDown(data, child, path, w1, depth + 1);
        var w2 := R.PushWalk(data, child, path, w1, depth + 1).value;
        EntriesGoDown(data, entries[1..], base, w2, depth, block);
      } else {
        EntriesGoDown(data, entries[1..], base, w1, depth, block);
      }
      assert forall e :: e in entries ==> e == entries[0] || e in entries[1..];
    }
  }

  lemma {:induction false} RootGoesDown(data: seq<byte>, entries: seq<R.RawEntry>, w: R.Walked, root: nat)
    requires root in w.visited && |w.out| <= R.MAX_CATALOG_ENTRIES
    requires forall e :: e in entries && e.kind.RawDirectory? ==> e.kind.child <= root
    requires R.WalkRoot(data, entries, w).Ok?
    ensures var w' := R.WalkRoot(data, entries, w).value;
            && Below(data, w.visited, w'.visited, root)
            && w.out <= w'.out && |w'.out| <= R.MAX_CATALOG_ENTRIES
    decreases |entries|
  {
    hide R.PushWalk;
    if entries != [] {
      match entries[0].kind {
        case RawDirectory(child) =>
          WalkGoesDown(data, child, [], w, 0);
          RootGoesDown(data, entries[1..], R.PushWalk(data, child, [], w, 0).value, root);
        case RawFile(_, _) =>
          RootGoesDown(data, entries[1..], w.(out := w.out + R.Emit(entries[0].name, entries[0].kind)), root);
        case _ =>
          RootGoesDown(data, entries[1..], w, root);
      }
    }
  }

  lemma {:induction false} SetBelow(s: set<nat>, n: nat)
    requires forall b :: b in s ==> b < n
    ensures |s| <= n
  {
    if n == 0 {
      assert s == {};
    } else {
      SetBelow(s - {n - 1}, n - 1);
    }
  }

  /** On every byte string an accepted parse walks at most one block per byte, all inside the
      data and none above the root's, and returns no more entries than the limit. */
  lemma ParseIsBounded(data: seq<byte>)
    requires R.ParseWalk(data).Ok?
    ensures var w := R.ParseWalk(data).value;
            var root := FromLittleEndian(data[|data| - 8..]);
            && root in w.visited && root < |data| && |w.visited| <= |data|
            && (forall b :: b in w.visited ==> b <= root)
            && |w.out| <= R.MAX_CATALOG_ENTRIES
  {
    hide R.ReadTable, R.WalkRoot, FromLittleEndian;
    var root := FromLittleEndian(data[|data| - 8..]);
    var entries := R.ReadTable(data, root).value;
    RootGoesDown(data, entries, R.Walked([], {root}), root);
    SetBelow(R.ParseWalk(data).value.visited, |data|);
  }

  // ---------------------------------------------------------------- what a tree lists

  function RawKindOf(node: Node, child: nat): R.RawKind {
    match node
    case DirNode(_, _) => R.RawDirectory(child)
    case FileNode(_, size, mtime) => R.RawFile(size, mtime)
    case SymlinkNode(_) => R.RawSymlink
    case HardlinkNode(_) => R.RawHardlink
    case SpecialNode(_, _) => R.RawOther
  }

  /** What is reported of a node itself, with the fixed modes 0o755, 0o644 and 0o777. Hard links are
      files of size 0; devices, fifos and sockets are left out. */
  function EntryOf(node: Node, path: seq<byte>): seq<R.ArchiveEntry> {
    match node
    case DirNode(_, _) => [R.ArchiveEntry(path, R.Directory, 0, 493, 0)]
    case FileNode(_, size, mtime) => [R.ArchiveEntry(path, R.File, size, 420, mtime)]
    case HardlinkNode(_) => [R.ArchiveEntry(path, R.File, 0, 420, 0)]
    case SymlinkNode(_) => [R.ArchiveEntry(path, R.Symlink, 0, 511, 0)]
    case SpecialNode(_, _) => []
  }

  /** A node, and below a directory its children, in pre-order. */
  function ListNode(node: Node, base: seq<byte>): seq<R.ArchiveEntry>
    decreases node, 1
  {
    var path := PushPath(base, node.name);
    EntryOf(node, path) + if node.DirNode? then ListKids(node.kids, path) else []
  }

  function ListKids(kids: seq<Node>, base: seq<byte>): seq<R.ArchiveEntry>
    decreases kids, 0
  {
    if kids == [] then [] else ListNode(kids[0], base) + ListKids(kids[1..], base)
  }

  function ListRootNode(node: Node): seq<R.ArchiveEntry> {
    match node
    case DirNode(_, inner) => ListKids(inner, [])
    case FileNode(name, size, mtime) => [R.ArchiveEntry(name, R.File, size, 420, mtime)]
    case _ => []
  }

  /** Of the top level only what is inside directories, and plain files, is listed. */
  function ListRoot(kids: seq<Node>): seq<R.ArchiveEntry> {
    if kids == [] then [] else ListRootNode(kids[0]) + ListRoot(kids[1..])
  }

  // ---------------------------------------------------------------- the same by names

  /** Every name is one component of a path. */
  ghost predicate ProperNames(kids: seq<Node>) {
    kids != [] ==>
      Proper(kids[0].name) && (kids[0].DirNode? ==> ProperNames(kids[0].kids)) && ProperNames(kids[1..])
  }

  /** What the tree below `above` lists: every node under its path relative to the top-level directory. */
  function Listing(kids: seq<Node>, above: seq<seq<byte>>): seq<R.ArchiveEntry>
    decreases kids
  {
    if kids == [] then []
    else
      var names := above + [kids[0].name];
      EntryOf(kids[0], Relative(names))
      + ((if kids[0].DirNode? then Listing(kids[0].kids, names) else []) + Listing(kids[1..], above))
  }

  function RootListing(kids: seq<Node>): seq<R.ArchiveEntry> {
    if kids == [] then []
    else
      (match kids[0]
       case DirNode(_, inner) => Listing(inner, [])
       case FileNode(name, size, mtime) => [R.ArchiveEntry(name, R.File, size, 420, mtime)]
       case _ => [])
      + RootListing(kids[1..])
  }

  lemma {:induction false} PathsAreNames(kids: seq<Node>, above: seq<seq<byte>>)
    requires ProperNames(kids) && AllProper(above)
    ensures ListKids(kids, Relative(above)) == Listing(kids, above)
    decreases kids
  {
    hide PushPath, Relative, Proper, EntryOf;
    if kids != [] {
      var names := above + [kids[0].name];
      PushedIsSlashed(above, kids[0].name);
      if kids[0].DirNode? { PathsAreNames(kids[0].kids, names); }
      PathsAreNames(kids[1..], above);
      var inner := if kids[0].DirNode? then Listing(kids[0].kids, names) else [];
      ConcatIsAssociative(EntryOf(kids[0], Relative(names)), inner, Listing(kids[1..], above));
    }
  }

  lemma {:induction false} RootPathsAreNames(kids: seq<Node>)
    requires ProperNames(kids)
    ensures ListRoot(kids) == RootListing(kids)
  {
    hide ListKids, Listing;
    if kids != [] {
      RootPathsAreNames(kids[1..]);
      if kids[0].DirNode? {
        NothingSlashed();
        PathsAreNames(kids[0].kids, []);
      }
    }
  }

  /** What the reader emits for an entry is what the tree says of the node. */
  lemma EmitsEntry(node: Node, child: nat, path: seq<byte>)
    ensures R.Emit(path, RawKindOf(node, child)) == EntryOf(node, path)
  {
  }

  /** The number of entries a node lists. */
  function Count(node: Node): nat
    decreases node, 1
  {
    match node
    case DirNode(_, kids) => 1 + CountKids(kids)
    case SpecialNode(_, _) => 0
    case _ => 1
  }

  function CountKids(kids: seq<Node>): nat
    decreases kids, 0
  {
    if kids == [] then 0 else Count(kids[0]) + CountKids(kids[1..])
  }

  /** The reader's limits on a directory at `depth`, `n` entries having been listed before it: no
      entry, listed or not, after the limit is reached, and no directory too deep. */
  predicate KidsWithin(kids: seq<Node>, n: nat, depth: nat)
    decreases kids
  {
    kids != [] ==>
      && n < R.MAX_CATALOG_ENTRIES
      && (kids[0].DirNode? ==> depth + 1 <= R.MAX_CATALOG_DEPTH && KidsWithin(kids[0].kids, n + 1, depth + 1))
      && KidsWithin(kids[1..], n + Count(kids[0]), depth)
  }

  predicate RootWithin(kids: seq<Node>, n: nat) {
    kids != [] ==>
      match kids[0]
      case DirNode(_, inner) => KidsWithin(inner, n, 0) && RootWithin(kids[1..], n + CountKids(inner))
      case FileNode(_, _, _) => n < R.MAX_CATALOG_ENTRIES && RootWithin(kids[1..], n + 1)
      case _ => RootWithin(kids[1..], n)
  }

  lemma {:induction false} CountIsLength(node: Node, base: seq<byte>)
    ensures |ListNode(node, base)| == Count(node)
    decreases node, 1
  {
    hide PushPath;
    if node.DirNode? {
      CountKidsIsLength(node.kids, PushPath(base, node.name));
    }
  }

  lemma {:induction false} CountKidsIsLength(kids: seq<Node>, base: seq<byte>)
    ensures |ListKids(kids, base)| == CountKids(kids)
    decreases kids, 0
  {
    hide ListNode, Count;
    if kids != [] {
      CountIsLength(kids[0], base);
      CountKidsIsLength(kids[1..], base);
    }
  }

  // ---------------------------------------------------------------- tables read back

  function RawOf(node: Node, child: nat): R.RawEntry {
    R.RawEntry(node.name, RawKindOf(node, child))
  }

  function RawsFrom(kids: seq<Node>, pieces: seq<Piece>, pos: nat): (raws: seq<R.RawEntry>)
    requires |kids| == |pieces|
    ensures |raws| == |kids|
    decreases |kids|
  {
    if kids == [] then []
    else [RawOf(kids[0], pos + pieces[0].start)] + RawsFrom(kids[1..], pieces[1..], pos + |pieces[0].bytes|)
  }

  lemma KindReads(node: Node, child: nat, start: nat, table: seq<byte>, p: nat)
    requires child <= start < TWO_64
    requires Occurs(table, p, AttributeBytes(AttributeOf(node, child), start))
    ensures R.ReadKind(table, p, TypeByte(AttributeOf(node, child)), start)
         == Ok((RawKindOf(node, child), p + |AttributeBytes(AttributeOf(node, child), start)|))
  {
    hide DecodeU64, DecodeI64, EncodeU64, EncodeI64;
    match node {
      case DirNode(_, _) =>
        U64RoundTrip(table, p, start - child);
      case FileNode(_, size, mtime) =>
        OccursConcat(table, p, EncodeU64(size), EncodeI64(mtime));
        U64RoundTrip(table, p, size);
        I64RoundTrip(table, p + |EncodeU64(size)|, mtime);
      case _ =>
    }
  }

  lemma EntryReads(node: Node, child: nat, start: nat, table: seq<byte>, p: nat)
    requires child <= start < TWO_64 && |table| < TWO_64
    requires Occurs(table, p, EntryBytes(CatalogEntry(node.name, AttributeOf(node, child)), start))
    ensures R.ReadEntry(table, p, start)
         == Ok((RawOf(node, child), p + |EntryBytes(CatalogEntry(node.name, AttributeOf(node, child)), start)|))
  {
    hide DecodeU64, EncodeU64, R.ReadKind, AttributeBytes, AttributeOf, TypeByte, RawKindOf;
    var a := AttributeOf(node, child);
    var afterLen := node.name + AttributeBytes(a, start);
    var afterType := EncodeU64(|node.name|) + afterLen;
    OccursConcat(table, p, [TypeByte(a)], afterType);
    OccursConcat(table, p + 1, EncodeU64(|node.name|), afterLen);
    var q := p + 1 + |EncodeU64(|node.name|)|;
    OccursConcat(table, q, node.name, AttributeBytes(a, start));
    U64RoundTrip(table, p + 1, |node.name|);
    KindReads(node, child, start, table, q + |node.name|);
    assert table[p] == TypeByte(a);
  }

  lemma {:induction false} EntriesRead(kids: seq<Node>, pieces: seq<Piece>, pos: nat, start: nat, table: seq<byte>, p: nat)
    requires |kids| == |pieces| && pos + |Joined(pieces)| <= start < TWO_64 && |table| < TWO_64
    requires forall k :: 0 <= k < |kids| ==> pieces[k].start <= |pieces[k].bytes|
    requires Occurs(table, p, EntriesBytes(EntriesFrom(kids, pieces, pos), start))
    ensures R.ReadEntries(table, p, |kids|, start) == Ok(RawsFrom(kids, pieces, pos))
    decreases |kids|
  {
    hide EntryBytes, R.ReadEntry, RawOf;
    if kids != [] {
      var child := pos + pieces[0].start;
      var entry := CatalogEntry(kids[0].name, AttributeOf(kids[0], child));
      var rest := EntriesFrom(kids[1..], pieces[1..], pos + |pieces[0].bytes|);
      OccursConcat(table, p, EntryBytes(entry, start), EntriesBytes(rest, start));
      EntryReads(kids[0], child, start, table, p);
      EntriesRead(kids[1..], pieces[1..], pos + |pieces[0].bytes|, start, table, p + |EntryBytes(entry, start)|);
    }
  }

  lemma {:induction false} EntriesTakeBytes(entries: seq<CatalogEntry>, start: nat)
    ensures |EntriesBytes(entries, start)| >= |entries|
    decreases |entries|
  {
    hide AttributeBytes;
    if entries != [] {
      EntriesTakeBytes(entries[1..], start);
    }
  }

  /** The block of a directory that starts at `start` reads back as its entries. */
  lemma TableReads(kids: seq<Node>, base: nat, start: nat, data: seq<byte>)
    requires start == base + |KidsBytes(kids)| && |data| < TWO_64
    requires Occurs(data, start, BlockBytes(EntriesOf(kids, base), start))
    ensures R.ReadTable(data, start) == Ok(RawsFrom(kids, Pieces(kids), base))
  {
    hide EncodeU64, DecodeU64, EntriesBytes, R.ReadEntries;
    var entries := EntriesOf(kids, base);
    var table := TableBytes(entries, start);
    OccursConcat(data, start, EncodeU64(|table|), table);
    U64RoundTrip(data, start, |table|);
    OccursWhole(table);
    OccursConcat(table, 0, EncodeU64(|kids|), EntriesBytes(entries, start));
    EntriesTakeBytes(entries, start);
    U64RoundTrip(table, 0, |kids|);
    forall k | 0 <= k < |kids|
      ensures Pieces(kids)[k].start <= |Pieces(kids)[k].bytes|
    {
      PieceStarts(kids, k);
    }
    EntriesRead(kids, Pieces(kids), base, start, table, |EncodeU64(|kids|)|);
  }

  // ---------------------------------------------------------------- walking a written tree

  /** After a walk of bytes `lo..hi`: the listing is appended, and only blocks in there were visited. */
  ghost predicate WalkedTo(w: R.Walked, listing: seq<R.ArchiveEntry>, r: Result<R.Walked>, lo: nat, hi: nat) {
    && r.Ok?
    && r.value.out == w.out + listing
    && forall b :: b in r.value.visited && b !in w.visited ==> lo <= b < hi
  }

  /** One walk after another. */
  lemma WalkedOn(w: R.Walked, first: seq<R.ArchiveEntry>, r: Result<R.Walked>, second: seq<R.ArchiveEntry>,
                 r': Result<R.Walked>, lo: nat, mid: nat, hi: nat)
    requires WalkedTo(w, first, r, lo, mid) && WalkedTo(r.value, second, r', mid, hi) && lo <= mid <= hi
    ensures WalkedTo(w, first + second, r', lo, hi)
  {
    ConcatIsAssociative(w.out, first, second);
  }

  ghost predicate Untouched(visited: set<nat>, lo: nat, hi: nat) {
    forall b :: b in visited ==> b < lo || b >= hi
  }

  lemma {:induction false} DirectoryWalks(kids: seq<Node>, data: seq<byte>, at: nat, base: seq<byte>, w: R.Walked, depth: nat)
    requires Occurs(data, at, DirPiece(kids, Pieces(kids)).bytes) && |data| < TWO_64
    requires Untouched(w.visited, at, at + |DirPiece(kids, Pieces(kids)).bytes|)
    ensures var piece := DirPiece(kids, Pieces(kids));
            var r := R.PushWalk(data, at + piece.start, base, w, depth);
            if depth <= R.MAX_CATALOG_DEPTH && KidsWithin(kids, |w.out|, depth)
            then WalkedTo(w, ListKids(kids, base), r, at, at + |piece.bytes|)
            else r.Err?
    decreases kids, 1
  {
    hide BlockBytes, R.ReadTable, R.WalkEntries, KidsWithin, ListKids, EntriesFrom, Joined, RawsFrom;
    var before := KidsBytes(kids);
    var start := at + |before|;
    DirPieceParts(kids, at);
    OccursConcat(data, at, before, BlockBytes(EntriesOf(kids, at), start));
    if depth <= R.MAX_CATALOG_DEPTH {
      TableReads(kids, at, start, data);
      KidsWalk(kids, data, at, base, w.(visited := w.visited + {start}), depth);
    }
  }

  /** Wherever it is written, a directory is its children's bytes and a non-empty block. */
  lemma DirPieceParts(kids: seq<Node>, at: nat)
    ensures var piece := DirPiece(kids, Pieces(kids));
            && piece.start == |KidsBytes(kids)|
            && piece.bytes == KidsBytes(kids) + BlockBytes(EntriesOf(kids, at), at + |KidsBytes(kids)|)
            && piece.start < |piece.bytes|
  {
    hide EntriesFrom, Joined, TableBytes;
    BlockShift(kids, at);
  }

  lemma {:induction false} KidsWalk(kids: seq<Node>, data: seq<byte>, at: nat, base: seq<byte>, w: R.Walked, depth: nat)
    requires Occurs(data, at, KidsBytes(kids)) && |data| < TWO_64 && depth <= R.MAX_CATALOG_DEPTH
    requires Untouched(w.visited, at, at + |KidsBytes(kids)|)
    ensures var r := R.WalkEntries(data, RawsFrom(kids, Pieces(kids), at), base, w, depth);
            if KidsWithin(kids, |w.out|, depth) then WalkedTo(w, ListKids(kids, base), r, at, at + |KidsBytes(kids)|)
            else r.Err?
    decreases kids, 0
  {
    hide *;
    KidsParts(kids, at, base, |w.out|, depth);
    var end := at + |KidsBytes(kids)|;
    if kids == [] {
      NothingWalked(data, base, w, depth, at);
    } else {
      var node, rest := kids[0], kids[1..];
      var next := at + |PieceOf(node).bytes|;
      var raws := RawsFrom(kids, Pieces(kids), at);
      OccursConcat(data, at, PieceOf(node).bytes, KidsBytes(rest));
      R.StepIsWalk(data, raws, base, w, depth);
      if |w.out| < R.MAX_CATALOG_ENTRIES {
        UntouchedPart(w.visited, at, next, end);
        NodeWalk(node, data, at, base, w, depth);
        var r := R.Step(data, raws[0], base, w, depth);
        if NodeWithin(node, |w.out|, depth) {
          NodeWalked(w, node, base, r, at, next, end);
          KidsWalk(rest, data, next, base, r.value, depth);
          if KidsWithin(rest, |r.value.out|, depth) {
            var r' := R.WalkEntries(data, RawsFrom(rest, Pieces(rest), next), base, r.value, depth);
            WalkedOn(w, ListNode(node, base), r, ListKids(rest, base), r', at, next, end);
          }
        }
      }
    }
  }

  lemma NothingWalked(data: seq<byte>, base: seq<byte>, w: R.Walked, depth: nat, at: nat)
    requires depth <= R.MAX_CATALOG_DEPTH
    ensures R.WalkEntries(data, [], base, w, depth) == Ok(w) && WalkedTo(w, [], Ok(w), at, at)
  {
    assert w.out + [] == w.out;
  }

  lemma UntouchedPart(visited: set<nat>, lo: nat, mid: nat, hi: nat)
    requires Untouched(visited, lo, hi) && lo <= mid <= hi
    ensures Untouched(visited, lo, mid)
  {
  }

  /** After the first child the bytes of the others are still untouched. */
  lemma NodeWalked(w: R.Walked, node: Node, base: seq<byte>, r: Result<R.Walked>, lo: nat, mid: nat, hi: nat)
    requires WalkedTo(w, ListNode(node, base), r, lo, mid) && Untouched(w.visited, lo, hi) && lo <= mid <= hi
    ensures r.Ok? && |r.value.out| == |w.out| + Count(node) && Untouched(r.value.visited, mid, hi)
  {
    CountIsLength(node, base);
  }

  /** A node's own part of `KidsWithin`. */
  predicate NodeWithin(node: Node, n: nat, depth: nat) {
    node.DirNode? ==> depth + 1 <= R.MAX_CATALOG_DEPTH && KidsWithin(node.kids, n + 1, depth + 1)
  }

  lemma KidsParts(kids: seq<Node>, at: nat, base: seq<byte>, n: nat, depth: nat)
    ensures kids == [] ==> KidsBytes(kids) == [] && ListKids(kids, base) == [] && KidsWithin(kids, n, depth)
                           && RawsFrom(kids, Pieces(kids), at) == []
    ensures kids != [] ==>
              var node, rest, piece := kids[0], kids[1..], PieceOf(kids[0]);
              && KidsBytes(kids) == piece.bytes + KidsBytes(rest)
              && ListKids(kids, base) == ListNode(node, base) + ListKids(rest, base)
              && RawsFrom(kids, Pieces(kids), at)
                 == [RawOf(node, at + piece.start)] + RawsFrom(rest, Pieces(rest), at + |piece.bytes|)
              && (KidsWithin(kids, n, depth) <==>
                    n < R.MAX_CATALOG_ENTRIES && NodeWithin(node, n, depth) && KidsWithin(rest, n + Count(node), depth))
  {
    hide PieceOf, RawOf, ListNode, Count;
  }

  lemma {:induction false} NodeWalk(node: Node, data: seq<byte>, at: nat, base: seq<byte>, w: R.Walked, depth: nat)
    requires Occurs(data, at, PieceOf(node).bytes) && |data| < TWO_64 && depth <= R.MAX_CATALOG_DEPTH
    requires Untouched(w.visited, at, at + |PieceOf(node).bytes|)
    ensures var r := R.Step(data, RawOf(node, at + PieceOf(node).start), base, w, depth);
            if NodeWithin(node, |w.out|, depth) then WalkedTo(w, ListNode(node, base), r, at, at + |PieceOf(node).bytes|)
            else r.Err?
    decreases node, 2
  {
    hide DirPiece, R.PushWalk, KidsWithin, ListKids, PushPath;
    var path := PushPath(base, node.name);
    var first := EntryOf(node, path);
    EmitsEntry(node, at + PieceOf(node).start, path);
    if node.DirNode? {
      var w1 := w.(out := w.out + first);
      DirectoryWalks(node.kids, data, at, path, w1, depth + 1);
      assert w.out + (first + ListKids(node.kids, path)) == w1.out + ListKids(node.kids, path);
    } else {
      assert first + [] == first;
    }
  }

  // ---------------------------------------------------------------- whole catalogs

  predicate RootNodeWithin(node: Node, n: nat) {
    match node
    case DirNode(_, inner) => KidsWithin(inner, n, 0)
    case FileNode(_, _, _) => n < R.MAX_CATALOG_ENTRIES
    case _ => true
  }

  lemma {:induction false} RootNodeWalks(node: Node, data: seq<byte>, at: nat, w: R.Walked)
    requires Occurs(data, at, PieceOf(node).bytes) && |data| < TWO_64
    requires Untouched(w.visited, at, at + |PieceOf(node).bytes|)
    ensures var r := R.RootStep(data, RawOf(node, at + PieceOf(node).start), w);
            if RootNodeWithin(node, |w.out|) then WalkedTo(w, ListRootNode(node), r, at, at + |PieceOf(node).bytes|)
            else r.Err?
  {
    hide R.PushWalk, KidsWithin, ListKids, DirPiece;
    if node.DirNode? {
      DirectoryWalks(node.kids, data, at, [], w, 0);
    } else {
      assert w.out + [] == w.out;
    }
  }

  lemma RootParts(kids: seq<Node>, n: nat)
    requires kids != []
    ensures ListRoot(kids) == ListRootNode(kids[0]) + ListRoot(kids[1..])
    ensures RootWithin(kids, n) <==> RootNodeWithin(kids[0], n) && RootWithin(kids[1..], n + |ListRootNode(kids[0])|)
  {
    hide ListKids, KidsWithin;
    if kids[0].DirNode? {
      CountKidsIsLength(kids[0].kids, []);
    }
  }

  lemma {:induction false} RootWalks(kids: seq<Node>, data: seq<byte>, at: nat, w: R.Walked)
    requires Occurs(data, at, KidsBytes(kids)) && |data| < TWO_64
    requires Untouched(w.visited, at, at + |KidsBytes(kids)|)
    ensures var r := R.WalkRoot(data, RawsFrom(kids, Pieces(kids), at), w);
            if RootWithin(kids, |w.out|) then WalkedTo(w, ListRoot(kids), r, at, at + |KidsBytes(kids)|) else r.Err?
    decreases |kids|
  {
    hide R.RootStep, KidsWithin, ListKids, Pieces, PieceOf, RawOf, ListRootNode, RootNodeWithin, ListNode, Count;
    KidsParts(kids, at, [], |w.out|, 0);
    if kids == [] {
      assert w.out + [] == w.out;
    } else {
      var node, rest := kids[0], kids[1..];
      OccursConcat(data, at, PieceOf(node).bytes, KidsBytes(rest));
      RootNodeWalks(node, data, at, w);
      RootParts(kids, |w.out|);
      var r := R.RootStep(data, RawOf(node, at + PieceOf(node).start), w);
      if r.Ok? {
        RootWalks(rest, data, at + |PieceOf(node).bytes|, r.value);
        assert w.out + ListRootNode(node) + ListRoot(rest) == w.out + (ListRootNode(node) + ListRoot(rest));
      }
    }
  }

  lemma CatalogLists(kids: seq<Node>, data: seq<byte>)
    requires data == CatalogBytes(kids) && |data| < TWO_64
    ensures RootWithin(kids, 0) ==> R.ParseCatalog(data) == Ok(ListRoot(kids))
    ensures R.ParseCatalog(data).Ok? <==> RootWithin(kids, 0)
  {
    hide BlockBytes, EntriesOf, R.ReadTable, R.WalkRoot, RootWithin, ListRoot, RawsFrom, Pieces, LE64, FromLittleEndian, KidsBytes;
    var at := |CATALOG_MAGIC|;
    var start := at + |KidsBytes(kids)|;
    var block := BlockBytes(EntriesOf(kids, at), start);
    OccursWhole(data);
    OccursConcat(data, 0, CATALOG_MAGIC + KidsBytes(kids) + block, LE64(start));
    OccursConcat(data, 0, CATALOG_MAGIC + KidsBytes(kids), block);
    OccursConcat(data, 0, CATALOG_MAGIC, KidsBytes(kids));
    LE64RoundTrip(start);
    assert data[|data| - 8..] == LE64(start);
    TableReads(kids, at, start, data);
    RootWalks(kids, data, at, R.Walked([], {start}));
    assert [] + ListRoot(kids) == ListRoot(kids);
  }

  /** Parsing a written catalog returns the listing of its tree, with every node under the names that
      lead to it; it fails exactly when the tree exceeds the depth or the entry limit. The visited check
      never rejects it. */
  lemma CatalogParses(kids: seq<Node>, data: seq<byte>)
    requires data == CatalogBytes(kids) && |data| < TWO_64
    ensures RootWithin(kids, 0) ==> R.ParseCatalog(data) == Ok(ListRoot(kids))
    ensures RootWithin(kids, 0) && ProperNames(kids) ==> R.ParseCatalog(data) == Ok(RootListing(kids))
    ensures R.ParseCatalog(data).Ok? <==> RootWithin(kids, 0)
  {
    hide *;
    CatalogLists(kids, data);
    if ProperNames(kids) { RootPathsAreNames(kids); }
  }
}
