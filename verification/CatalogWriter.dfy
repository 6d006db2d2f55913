/** `CatalogWriter`: collects directories on a stack and writes each block when it is ended. */
module CatalogWriter {
  import opened Bytes
  import opened Varint
  import opened CatalogFormat

  datatype DirectoryInfo = DirectoryInfo(name: seq<byte>, entries: seq<CatalogEntry>)

  /** A directory being collected, with the children it has so far. */
  datatype Frame = Frame(name: seq<byte>, kids: seq<Node>)

  method EncodeEntry(table: seq<byte>, entry: CatalogEntry, start: nat) returns (r: seq<byte>)
    ensures r == table + EntryBytes(entry, start)
  {
    r := table + [TypeByte(entry.attribute)];
    r := PushU64(r, |entry.name|);
    r := r + entry.name;
    match entry.attribute {
      case Directory(child) => r := PushU64(r, if child <= start then start - child else 0);
      case File(size, mtime) =>
        r := PushU64(r, size);
        r := PushI64(r, mtime);
      case _ =>
    }
  }

  lemma {:induction false} EntriesBytesAppend(entries: seq<CatalogEntry>, entry: CatalogEntry, start: nat)
    ensures EntriesBytes(entries + [entry], start) == EntriesBytes(entries, start) + EntryBytes(entry, start)
    decreases |entries|
  {
    hide EntryBytes;
    var all := entries + [entry];
    if entries == [] {
      assert all[1..] == [];
    } else {
      assert all[1..] == entries[1..] + [entry];
      EntriesBytesAppend(entries[1..], entry, start);
    }
  }

  method EncodeDirectory(entries: seq<CatalogEntry>, start: nat) returns (data: seq<byte>)
    ensures data == BlockBytes(entries, start)
  {
    hide EntryBytes, EncodeU64;
    var table := PushU64([], |entries|);
    for i := 0 to |entries|
      invariant table == EncodeU64(|entries|) + EntriesBytes(entries[..i], start)
    {
      EntriesBytesAppend(entries[..i], entries[i], start);
      assert entries[..i + 1] == entries[..i] + [entries[i]];
      table := EncodeEntry(table, entries[i], start);
    }
    assert entries[..|entries|] == entries;
    data := PushU64([], |table|);
    data := data + table;
  }

  // ---------------------------------------------------------------- the stack

  function OpenBytes(frames: seq<Frame>): seq<byte> {
    if frames == [] then []
    else OpenBytes(frames[..|frames| - 1]) + KidsBytes(frames[|frames| - 1].kids)
  }

  ghost predicate StackOk(frames: seq<Frame>, stack: seq<DirectoryInfo>, base: nat)
    decreases |frames|
  {
    && |frames| == |stack|
    && (frames != [] ==>
          var n := |frames| - 1;
          && StackOk(frames[..n], stack[..n], base)
          && stack[n] == DirectoryInfo(frames[n].name, EntriesOf(frames[n].kids, base + |OpenBytes(frames[..n])|)))
  }

  function AddKid(frames: seq<Frame>, node: Node): (r: seq<Frame>)
    requires frames != []
    ensures |r| == |frames|
  {
    var n := |frames| - 1;
    frames[..n] + [frames[n].(kids := frames[n].kids + [node])]
  }

  lemma FramePushed(frames: seq<Frame>, stack: seq<DirectoryInfo>, base: nat, f: Frame)
    requires StackOk(frames, stack, base)
    ensures StackOk(frames + [f], stack + [DirectoryInfo(f.name, EntriesOf(f.kids, base + |OpenBytes(frames)|))], base)
    ensures OpenBytes(frames + [f]) == OpenBytes(frames) + KidsBytes(f.kids)
  {
    hide KidsBytes, EntriesOf;
    var n, d := |frames|, DirectoryInfo(f.name, EntriesOf(f.kids, base + |OpenBytes(frames)|));
    assert (frames + [f])[..n] == frames && (stack + [d])[..n] == stack;
  }

  lemma TopFrame(frames: seq<Frame>, stack: seq<DirectoryInfo>, base: nat)
    requires StackOk(frames, stack, base) && frames != []
    ensures |stack| == |frames|
    ensures var n := |frames| - 1;
            && StackOk(frames[..n], stack[..n], base)
            && stack[n] == DirectoryInfo(frames[n].name, EntriesOf(frames[n].kids, base + |OpenBytes(frames[..n])|))
            && OpenBytes(frames) == OpenBytes(frames[..n]) + KidsBytes(frames[n].kids)
  {
    hide KidsBytes, EntriesOf;
  }

  lemma AddedKid(frames: seq<Frame>, node: Node)
    requires frames != []
    ensures var n := |frames| - 1;
            AddKid(frames, node) == frames[..n] + [frames[n].(kids := frames[n].kids + [node])]
  {
  }

  /** Recording a child whose own bytes have just been written (none, unless it is a directory). */
  lemma KidAdded(frames: seq<Frame>, stack: seq<DirectoryInfo>, base: nat, node: Node)
    requires StackOk(frames, stack, base) && frames != []
    ensures |stack| == |frames|
    ensures var n := |stack| - 1;
            var entry := CatalogEntry(node.name, AttributeOf(node, base + |OpenBytes(frames)| + PieceOf(node).start));
            && StackOk(AddKid(frames, node), stack[..n] + [stack[n].(entries := stack[n].entries + [entry])], base)
            && OpenBytes(AddKid(frames, node)) == OpenBytes(frames) + PieceOf(node).bytes
  {
    hide *;
    TopFrame(frames, stack, base);
    AddedKid(frames, node);
    var n := |frames| - 1;
    var f := frames[n];
    PiecesAppend(f.kids, node);
    EntriesOfAppend(f.kids, node, base + |OpenBytes(frames[..n])|);
    FramePushed(frames[..n], stack[..n], base, f.(kids := f.kids + [node]));
    ConcatIsAssociative(OpenBytes(frames[..n]), KidsBytes(f.kids), PieceOf(node).bytes);
  }

  /** Ending the top directory writes its block behind its children's pieces: together, its piece. */
  lemma FrameEnded(frames: seq<Frame>, stack: seq<DirectoryInfo>, base: nat)
    requires StackOk(frames, stack, base) && |frames| > 1
    ensures |stack| == |frames|
    ensures var n := |frames| - 1;
            var start := base + |OpenBytes(frames)|;
            var node := DirNode(frames[n].name, frames[n].kids);
            && StackOk(frames[..n], stack[..n], base)
            && stack[n].name == node.name
            && start == base + |OpenBytes(frames[..n])| + PieceOf(node).start
            && OpenBytes(frames) + BlockBytes(stack[n].entries, start) == OpenBytes(frames[..n]) + PieceOf(node).bytes
  {
    hide EntriesFrom, BlockBytes, Joined, Pieces;
    var n := |frames| - 1;
    BlockShift(frames[n].kids, base + |OpenBytes(frames[..n])|);
  }

  class Writer {
    var out: seq<byte>
    var stack: seq<DirectoryInfo>
    var pos: nat

    ghost var frames: seq<Frame>

    /** Holds until the root itself has been ended, which is an error. */
    ghost predicate Valid()
      reads this
    {
      && pos == |out|
      && out == CATALOG_MAGIC + OpenBytes(frames)
      && StackOk(frames, stack, |CATALOG_MAGIC|)
    }

    constructor ()
      ensures Valid() && frames == [Frame([], [])]
    {
      out := CATALOG_MAGIC;
      stack := [DirectoryInfo([], [])];
      pos := |CATALOG_MAGIC|;
      frames := [Frame([], [])];
      new;
      FramePushed([], [], |CATALOG_MAGIC|, Frame([], []));
      assert [] + [Frame([], [])] == [Frame([], [])] && [] + [DirectoryInfo([], [])] == [DirectoryInfo([], [])];
    }

    method WriteAll(data: seq<byte>)
      modifies `out, `pos
      ensures out == old(out) + data && pos == old(pos) + |data|
    {
      out := out + data;
      pos := pos + |data|;
    }

    method StartDirectory(name: seq<byte>)
      requires Valid()
      modifies this
      ensures Valid() && out == old(out) && frames == old(frames) + [Frame(name, [])]
    {
      FramePushed(frames, stack, |CATALOG_MAGIC|, Frame(name, []));
      assert OpenBytes(frames) + [] == OpenBytes(frames);
      stack := stack + [DirectoryInfo(name, [])];
      frames := frames + [Frame(name, [])];
    }

    method EndDirectory() returns (r: Result<()>)
      requires Valid()
      modifies this
      ensures r.Ok? <==> |old(frames)| > 1
      ensures r.Ok? ==>
                var n := |old(frames)| - 1;
                Valid() && frames == AddKid(old(frames)[..n], DirNode(old(frames)[n].name, old(frames)[n].kids))
      ensures r.Err? ==> stack == [] && out == old(out)
    {
      hide BlockBytes, EntriesOf, PieceOf, AddKid;
      if stack == [] {
        return Err("catalog directory stack underflow");
      }
      ghost var base := |CATALOG_MAGIC|;
      var n := |stack| - 1;
      var dir := stack[n];
      stack := stack[..n];
      if stack == [] {
        return Err("cannot end the catalog root directory");
      }
      FrameEnded(frames, old(stack), base);
      ghost var node := DirNode(frames[n].name, frames[n].kids);
      KidAdded(frames[..n], stack, base, node);

      var start := pos;
      var data := EncodeDirectory(dir.entries, start);
      WriteAll(data);
      Add(dir.name, Directory(start));
      frames := AddKid(frames[..n], node);
      assert out == CATALOG_MAGIC + (OpenBytes(old(frames)) + data);
      r := Ok(());
    }

    method Add(name: seq<byte>, attribute: Attribute)
      requires stack != []
      modifies `stack
      ensures var n := |old(stack)| - 1;
              stack == old(stack)[..n] + [old(stack)[n].(entries := old(stack)[n].entries + [CatalogEntry(name, attribute)])]
    {
      var n := |stack| - 1;
      stack := stack[..n] + [stack[n].(entries := stack[n].entries + [CatalogEntry(name, attribute)])];
    }

    /** `add_file`, `add_symlink`, `add_hardlink` and the adders of special files. */
    method AddLeaf(node: Node) returns (r: Result<()>)
      requires Valid() && !node.DirNode?
      modifies this
      ensures Valid() && out == old(out)
      ensures r.Ok? <==> old(frames) != []
      ensures frames == if r.Ok? then AddKid(old(frames), node) else []
    {
      hide EntriesOf, AddKid;
      if stack == [] {
        return Err("catalog directory stack underflow");
      }
      KidAdded(frames, stack, |CATALOG_MAGIC|, node);
      assert PieceOf(node) == Piece([], 0);
      assert OpenBytes(frames) + [] == OpenBytes(frames);
      Add(node.name, AttributeOf(node, 0));
      assert AttributeOf(node, 0) == AttributeOf(node, |CATALOG_MAGIC| + |OpenBytes(frames)|);
      frames := AddKid(frames, node);
      r := Ok(());
    }

    method Finish() returns (r: Result<seq<byte>>)
      requires Valid()
      modifies this
      ensures r.Ok? <==> |old(frames)| == 1
      ensures r.Ok? ==> r.value == CatalogBytes(old(frames)[0].kids)
    {
      hide BlockBytes, EntriesOf, KidsBytes;
      if |stack| != 1 {
        return Err("unbalanced catalog directories at finish");
      }
      assert frames[..0] == [] && OpenBytes([]) == [];
      var start := pos;
      var data := EncodeDirectory(stack[0].entries, start);
      WriteAll(data);
      WriteAll(LE64(start));
      r := Ok(out);
    }
  }
}
