/** The catalog's byte format: directory blocks, written children first, that point back to
    the blocks of their subdirectories. */
module CatalogFormat {
  import opened Bytes
  import opened Varint

  const CATALOG_MAGIC: seq<byte> := [145, 253, 96, 249, 196, 103, 88, 213]

  const ENTRY_DIRECTORY: byte := 100
  const ENTRY_FILE: byte := 102
  const ENTRY_SYMLINK: byte := 108
  const ENTRY_HARDLINK: byte := 104
  const ENTRY_BLOCKDEV: byte := 98
  const ENTRY_CHARDEV: byte := 99
  const ENTRY_FIFO: byte := 112
  const ENTRY_SOCKET: byte := 115

  datatype Attribute =
    | Directory(start: nat)
    | File(size: u64, mtime: i64)
    | Symlink
    | Hardlink
    | BlockDevice
    | CharDevice
    | Fifo
    | Socket

  datatype CatalogEntry = CatalogEntry(name: seq<byte>, attribute: Attribute)

  // ---------------------------------------------------------------- encoding a directory

  function TypeByte(a: Attribute): byte {
    match a
    case Directory(_) => ENTRY_DIRECTORY
    case File(_, _) => ENTRY_FILE
    case Symlink => ENTRY_SYMLINK
    case Hardlink => ENTRY_HARDLINK
    case BlockDevice => ENTRY_BLOCKDEV
    case CharDevice => ENTRY_CHARDEV
    case Fifo => ENTRY_FIFO
    case Socket => ENTRY_SOCKET
  }

  /** What follows the name. A directory is stored as the distance back to its block. */
  function AttributeBytes(a: Attribute, start: nat): seq<byte> {
    match a
    case Directory(child) => EncodeU64(if child <= start then start - child else 0)
    case File(size, mtime) => EncodeU64(size) + EncodeI64(mtime)
    case _ => []
  }

  function EntryBytes(entry: CatalogEntry, start: nat): seq<byte> {
    [TypeByte(entry.attribute)] +
    (EncodeU64(|entry.name|) + (entry.name + AttributeBytes(entry.attribute, start)))
  }

  function EntriesBytes(entries: seq<CatalogEntry>, start: nat): seq<byte> {
    if entries == [] then [] else EntryBytes(entries[0], start) + EntriesBytes(entries[1..], start)
  }

  function TableBytes(entries: seq<CatalogEntry>, start: nat): seq<byte> {
    EncodeU64(|entries|) + EntriesBytes(entries, start)
  }

  /** The block of a directory that starts at `start`: its table behind the table's length. */
  function BlockBytes(entries: seq<CatalogEntry>, start: nat): seq<byte> {
    EncodeU64(|TableBytes(entries, start)|) + TableBytes(entries, start)
  }

  // ---------------------------------------------------------------- trees

  datatype Special = BlockDevNode | CharDevNode | FifoNode | SocketNode

  datatype Node =
    | DirNode(name: seq<byte>, kids: seq<Node>)
    | FileNode(name: seq<byte>, size: u64, mtime: i64)
    | SymlinkNode(name: seq<byte>)
    | HardlinkNode(name: seq<byte>)
    | SpecialNode(name: seq<byte>, kind: Special)

  /** The bytes a node puts in front of its directory's block, and where in them its own block starts. */
  datatype Piece = Piece(bytes: seq<byte>, start: nat)

  function PieceOf(node: Node): Piece
    decreases node, 1
  {
    if node.DirNode? then DirPiece(node.kids, Pieces(node.kids)) else Piece([], 0)
  }

  function Pieces(kids: seq<Node>): (pieces: seq<Piece>)
    ensures |pieces| == |kids|
    decreases kids, 0
  {
    if kids == [] then [] else [PieceOf(kids[0])] + Pieces(kids[1..])
  }

  function Joined(pieces: seq<Piece>): seq<byte> {
    if pieces == [] then [] else pieces[0].bytes + Joined(pieces[1..])
  }

  function AttributeOf(node: Node, start: nat): Attribute {
    match node
    case DirNode(_, _) => Directory(start)
    case FileNode(_, size, mtime) => File(size, mtime)
    case SymlinkNode(_) => Symlink
    case HardlinkNode(_) => Hardlink
    case SpecialNode(_, BlockDevNode) => BlockDevice
    case SpecialNode(_, CharDevNode) => CharDevice
    case SpecialNode(_, FifoNode) => Fifo
    case SpecialNode(_, SocketNode) => Socket
  }

  /** An entry begins with the letter of its node's type. */
  lemma TypeLetters(node: Node, child: nat, start: nat)
    ensures EntryBytes(CatalogEntry(node.name, AttributeOf(node, child)), start)[0]
         == (match node
             case DirNode(_, _) => 'd'
             case FileNode(_, _, _) => 'f'
             case SymlinkNode(_) => 'l'
             case HardlinkNode(_) => 'h'
             case SpecialNode(_, BlockDevNode) => 'b'
             case SpecialNode(_, CharDevNode) => 'c'
             case SpecialNode(_, FifoNode) => 'p'
             case SpecialNode(_, SocketNode) => 's') as int
  {
    hide EncodeU64, AttributeBytes;
  }

  /** The entries of `kids` when their pieces are written from offset `pos` on. */
  function EntriesFrom(kids: seq<Node>, pieces: seq<Piece>, pos: nat): (entries: seq<CatalogEntry>)
    requires |kids| == |pieces|
    ensures |entries| == |kids|
    decreases |kids|
  {
    if kids == [] then []
    else [CatalogEntry(kids[0].name, AttributeOf(kids[0], pos + pieces[0].start))]
         + EntriesFrom(kids[1..], pieces[1..], pos + |pieces[0].bytes|)
  }

  /** A directory: the pieces of its children and then its own block, written from offset 0. */
  function DirPiece(kids: seq<Node>, pieces: seq<Piece>): Piece
    requires |kids| == |pieces|
  {
    var before := Joined(pieces);
    Piece(before + BlockBytes(EntriesFrom(kids, pieces, 0), |before|), |before|)
  }

  function KidsBytes(kids: seq<Node>): seq<byte> {
    Joined(Pieces(kids))
  }

  function EntriesOf(kids: seq<Node>, pos: nat): (entries: seq<CatalogEntry>)
    ensures |entries| == |kids|
  {
    EntriesFrom(kids, Pieces(kids), pos)
  }

  /** A whole catalog: magic, the root directory, the offset of the root's block. */
  function CatalogBytes(kids: seq<Node>): seq<byte> {
    var start := |CATALOG_MAGIC| + |KidsBytes(kids)|;
    CATALOG_MAGIC + KidsBytes(kids) + BlockBytes(EntriesOf(kids, |CATALOG_MAGIC|), start) + LE64(start)
  }

  // ---------------------------------------------------------------- distances do not depend on the place

  lemma {:induction false} EntriesShift(kids: seq<Node>, pieces: seq<Piece>, pos: nat, shift: nat, start: nat)
    requires |kids| == |pieces| && pos + |Joined(pieces)| <= start
    requires forall k :: 0 <= k < |kids| ==> pieces[k].start <= |pieces[k].bytes|
    ensures EntriesBytes(EntriesFrom(kids, pieces, pos + shift), start + shift)
         == EntriesBytes(EntriesFrom(kids, pieces, pos), start)
    decreases |kids|
  {
    hide EntryBytes;
    if kids != [] {
      var next := pos + |pieces[0].bytes|;
      EntriesShift(kids[1..], pieces[1..], next, shift, start);
      EntryShift(kids[0], pos + pieces[0].start, shift, start);
    }
  }

  lemma EntryShift(node: Node, child: nat, shift: nat, start: nat)
    requires child <= start
    ensures EntryBytes(CatalogEntry(node.name, AttributeOf(node, child + shift)), start + shift)
         == EntryBytes(CatalogEntry(node.name, AttributeOf(node, child)), start)
  {
  }

  lemma {:induction false} PieceStarts(kids: seq<Node>, k: nat)
    requires k < |kids|
    ensures Pieces(kids)[k] == PieceOf(kids[k])
    ensures Pieces(kids)[k].start <= |Pieces(kids)[k].bytes|
    decreases k
  {
    hide BlockBytes;
    if k > 0 {
      PieceStarts(kids[1..], k - 1);
    }
  }

  /** A directory's block is the same wherever the directory is written. */
  lemma BlockShift(kids: seq<Node>, base: nat)
    ensures BlockBytes(EntriesOf(kids, base), base + |KidsBytes(kids)|)
         == BlockBytes(EntriesOf(kids, 0), |KidsBytes(kids)|)
  {
    hide EntriesBytes;
    forall k | 0 <= k < |kids|
      ensures Pieces(kids)[k].start <= |Pieces(kids)[k].bytes|
    {
      PieceStarts(kids, k);
    }
    EntriesShift(kids, Pieces(kids), 0, base, |KidsBytes(kids)|);
  }

  lemma {:induction false} JoinedAppend(pieces: seq<Piece>, piece: Piece)
    ensures Joined(pieces + [piece]) == Joined(pieces) + piece.bytes
    decreases |pieces|
  {
    var all := pieces + [piece];
    if pieces == [] {
      assert all[1..] == [];
    } else {
      assert all[1..] == pieces[1..] + [piece];
      JoinedAppend(pieces[1..], piece);
    }
  }

  lemma {:induction false} PiecesAppend(kids: seq<Node>, node: Node)
    ensures Pieces(kids + [node]) == Pieces(kids) + [PieceOf(node)]
    ensures KidsBytes(kids + [node]) == KidsBytes(kids) + PieceOf(node).bytes
    decreases |kids|
  {
    hide PieceOf;
    var all := kids + [node];
    if kids == [] {
      assert all[1..] == [];
    } else {
      assert all[1..] == kids[1..] + [node];
      PiecesAppend(kids[1..], node);
    }
    JoinedAppend(Pieces(kids), PieceOf(node));
  }

  lemma {:induction false} EntriesFromAppend(kids: seq<Node>, pieces: seq<Piece>, node: Node, piece: Piece, pos: nat)
    requires |kids| == |pieces|
    ensures EntriesFrom(kids + [node], pieces + [piece], pos)
         == EntriesFrom(kids, pieces, pos)
            + [CatalogEntry(node.name, AttributeOf(node, pos + |Joined(pieces)| + piece.start))]
    decreases |kids|
  {
    var ks, ps := kids + [node], pieces + [piece];
    if kids == [] {
      assert ks[1..] == [] && ps[1..] == [];
    } else {
      assert ks[1..] == kids[1..] + [node] && ps[1..] == pieces[1..] + [piece];
      EntriesFromAppend(kids[1..], pieces[1..], node, piece, pos + |pieces[0].bytes|);
    }
  }

  lemma EntriesOfAppend(kids: seq<Node>, node: Node, pos: nat)
    ensures EntriesOf(kids + [node], pos)
         == EntriesOf(kids, pos) + [CatalogEntry(node.name, AttributeOf(node, pos + |KidsBytes(kids)| + PieceOf(node).start))]
  {
    hide PieceOf, Pieces, Joined, EntriesFrom;
    PiecesAppend(kids, node);
    EntriesFromAppend(kids, Pieces(kids), node, PieceOf(node), pos);
  }
}
