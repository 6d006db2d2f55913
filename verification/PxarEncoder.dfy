/** `Encoder`: streams a tree of directories, files and symlinks into one archive. */
module PxarEncoder {
  import opened Bytes
  import opened SearchTree
  import opened PxarFormat

  const COPY_BUF_SIZE: nat := 128 * 1024

  datatype DirState = DirState(items: seq<GoodbyeItem>, entryOffset: nat, fileOffset: Option<nat>, fileHash: nat)

  // ---------------------------------------------------------------- building one table

  ghost predicate SortResult(items: seq<GoodbyeItem>, sorted: seq<GoodbyeItem>, order: seq<nat>) {
    && IsPermutation(order, |items|)
    && |sorted| == |items|
    && (forall k :: 0 <= k < |items| ==> sorted[k] == items[order[k]])
    && SortedByHash(sorted)
  }

  lemma InsertKeepsPermutation(order: seq<nat>, n: nat, p: nat)
    requires IsPermutation(order, n) && p <= n
    ensures IsPermutation(order[..p] + [n] + order[p..], n + 1)
  {
    var grown := order[..p] + [n] + order[p..];
    forall k: nat | k < n + 1
      ensures k in grown
    {
      if k == n {
        assert grown[p] == n;
      } else {
        assert k in order;
        var j :| 0 <= j < n && order[j] == k;
        assert grown[if j < p then j else j + 1] == k;
      }
    }
  }

  lemma InsertSorted(sorted: seq<GoodbyeItem>, item: GoodbyeItem, p: nat)
    requires SortedByHash(sorted) && p <= |sorted|
    requires p > 0 ==> sorted[p - 1].hash <= item.hash
    requires p < |sorted| ==> sorted[p].hash > item.hash
    ensures SortedByHash(sorted[..p] + [item] + sorted[p..])
  {
  }

  lemma InsertKeepsSorted(items: seq<GoodbyeItem>, n: nat, sorted: seq<GoodbyeItem>, order: seq<nat>, p: nat)
    requires n < |items| && p <= n && SortResult(items[..n], sorted, order)
    requires p > 0 ==> sorted[p - 1].hash <= items[n].hash
    requires p < n ==> sorted[p].hash > items[n].hash
    ensures SortResult(items[..n + 1], sorted[..p] + [items[n]] + sorted[p..], order[..p] + [n] + order[p..])
  {
    hide IsPermutation, SortedByHash;
    PermutationLength(order, n);
    var sorted', order' := sorted[..p] + [items[n]] + sorted[p..], order[..p] + [n] + order[p..];
    InsertKeepsPermutation(order, n, p);
    InsertSorted(sorted, items[n], p);
    PermutationLength(order', n + 1);
    forall k | 0 <= k < n + 1
      ensures sorted'[k] == items[..n + 1][order'[k]]
    {
      if k < p {
        assert sorted[k] == items[..n][order[k]];
      } else if k > p {
        assert sorted[k - 1] == items[..n][order[k - 1]];
      }
    }
  }

  lemma PermutationLength(order: seq<nat>, n: nat)
    requires IsPermutation(order, n)
    ensures |order| == n && forall k :: 0 <= k < n ==> order[k] < n
  {
  }

  /** Stands in for `sort_unstable_by_key`; callers use only that some order results. */
  method SortByHash(items: seq<GoodbyeItem>) returns (sorted: seq<GoodbyeItem>, ghost order: seq<nat>)
    ensures SortResult(items, sorted, order)
  {
    sorted, order := [], [];
    for n := 0 to |items|
      invariant SortResult(items[..n], sorted, order)
    {
      var p := n;
      while p > 0 && sorted[p - 1].hash > items[n].hash
        invariant p <= n
        invariant p < n ==> sorted[p].hash > items[n].hash
      {
        p := p - 1;
      }
      InsertKeepsSorted(items, n, sorted, order, p);
      sorted, order := sorted[..p] + [items[n]] + sorted[p..], order[..p] + [n] + order[p..];
    }
    assert items[..|items|] == items;
  }

  /** The heap layout that puts the `k`-th item of the sorted order into the `k`-th slot in order. */
  lemma LayOut(n: nat, order: seq<nat>) returns (table: seq<nat>)
    requires IsPermutation(order, n)
    ensures IsPermutation(table, n)
    ensures |Slots(n, 0)| == n ==> forall k :: 0 <= k < n ==> Slots(n, 0)[k] < n && table[Slots(n, 0)[k]] == order[k]
  {
    var slots := Slots(n, 0);
    if |slots| != n {
      return order;
    }
    table := [];
    SlotsMembers(n, 0);
    SlotsDistinct(n, 0);
    ghost var ranks: seq<nat> := [];
    for j := 0 to n
      invariant |table| == |ranks| == j
      invariant forall i :: 0 <= i < j ==> ranks[i] < n && slots[ranks[i]] == i && table[i] == order[ranks[i]]
    {
      var k := CopyIsPermutation(n, j);
      ranks := ranks + [k];
      table := table + [order[k]];
    }
    forall k | 0 <= k < n
      ensures slots[k] < n && table[slots[k]] == order[k]
    {
      assert slots[k] in slots;
    }
    forall i: nat | i < n
      ensures i in table
    {
      assert i in order;
      var k :| 0 <= k < n && order[k] == i;
      assert table[slots[k]] == i;
    }
  }

  lemma PlacedUnique(n: nat, a: seq<GoodbyeItem>, b: seq<GoodbyeItem>, items: seq<GoodbyeItem>)
    requires |a| == |b| == n && Placed(a, Slots(n, 0), items) && Placed(b, Slots(n, 0), items)
    ensures a == b
  {
    forall j | 0 <= j < n
      ensures a[j] == b[j]
    {
      var k := CopyIsPermutation(n, j);
    }
  }

  /** The tree `bst_copy` leaves behind is an arrangement of the items, and a search tree. */
  lemma CopiedTree(items: seq<GoodbyeItem>, sorted: seq<GoodbyeItem>, order: seq<nat>, goodbyeOffset: nat,
                   tree: seq<GoodbyeItem>, relative: seq<GoodbyeItem>) returns (table: seq<nat>)
    requires SortResult(items, sorted, order) && |tree| == |relative| == |items|
    requires forall k :: 0 <= k < |items| ==> relative[k] == Relative(sorted[k], goodbyeOffset)
    requires Placed(tree, Slots(|items|, 0), relative)
    ensures IsPermutation(table, |items|)
    ensures tree == Arrange(items, table, goodbyeOffset) && IsSearchTree(tree, 0)
  {
    var n := |items|;
    table := LayOut(n, order);
    var arranged := Arrange(items, table, goodbyeOffset);
    var slots := Slots(n, 0);
    forall k | 0 <= k < n
      ensures slots[k] < n && arranged[slots[k]] == relative[k]
    {
      assert table[slots[k]] == order[k] && sorted[k] == items[order[k]];
    }
    PlacedUnique(n, tree, arranged, relative);
    ReadInOrderIsSearchTree(tree, 0, relative);
  }

  lemma {:induction false} TableBytesAppend(items: seq<GoodbyeItem>, item: GoodbyeItem)
    ensures TableBytes(items + [item]) == TableBytes(items) + ItemBytes(item)
    decreases |items|
  {
    if items == [] {
      assert (items + [item])[1..] == [];
    } else {
      assert (items + [item])[1..] == items[1..] + [item];
      TableBytesAppend(items[1..], item);
    }
  }

  method SerializeTable(tree: seq<GoodbyeItem>) returns (out: seq<byte>)
    ensures out == TableBytes(tree)
  {
    out := [];
    for j := 0 to |tree|
      invariant out == TableBytes(tree[..j])
    {
      TableBytesAppend(tree[..j], tree[j]);
      assert tree[..j + 1] == tree[..j] + [tree[j]];
      out := out + ItemBytes(tree[j]);
    }
    assert tree[..|tree|] == tree;
  }

  /** `build_goodbye_table`: every item is kept, the table is a search tree, the tail closes it. */
  method BuildGoodbyeTable(items: seq<GoodbyeItem>, goodbyeOffset: nat, entryOffset: nat)
    returns (out: seq<byte>, ghost table: seq<nat>)
    requires entryOffset <= goodbyeOffset
    ensures IsPermutation(table, |items|)
    ensures IsSearchTree(Arrange(items, table, goodbyeOffset), 0)
    ensures out == TableAndTail(Arrange(items, table, goodbyeOffset), goodbyeOffset - entryOffset)
  {
    hide SortResult, Placed, Slots, IsPermutation, IsSearchTree, Arrange, TableBytes, ItemBytes, Relative, SortedByHash;
    var sorted, order := SortByHash(items);
    var n := |sorted|;
    var relative := seq(n, k requires 0 <= k < n => Relative(sorted[k], goodbyeOffset));
    var tree := new GoodbyeItem[n](_ => GoodbyeItem(0, 0, 0));
    BstCopy(relative, tree);
    table := CopiedTree(items, sorted, order, goodbyeOffset, tree[..], relative);

    out := SerializeTable(tree[..]);
    var tail := GoodbyeItem(PXAR_GOODBYE_TAIL_MARKER,
                            if goodbyeOffset < entryOffset then 0 else goodbyeOffset - entryOffset,
                            ItemsSize(n + 1) + HEADER_SIZE);
    out := out + ItemBytes(tail);
  }

  // ---------------------------------------------------------------- open directories

  /** A directory being written: its own entry, and the children finished so far. */
  datatype Frame = Frame(root: bool, name: seq<byte>, stat: Stat, kids: seq<Node>)

  function FrameHead(f: Frame): seq<byte> {
    if f.root then EncodeStat(f.stat) else EncodeFilename(f.name) + EncodeStat(f.stat)
  }

  function FrameBytes(h: Hash, f: Frame): seq<byte> {
    FrameHead(f) + Concat(Blobs(h, f.kids))
  }

  function OpenBytes(h: Hash, frames: seq<Frame>): seq<byte> {
    if frames == [] then []
    else OpenBytes(h, frames[..|frames| - 1]) + FrameBytes(h, frames[|frames| - 1])
  }

  ghost predicate FrameOk(h: Hash, f: Frame, st: DirState, base: nat) {
    && f.stat.IsDir()
    && WellFormedKids(h, f.kids)
    && (if f.root then st.fileOffset == None && st.entryOffset == base
        else ValidName(f.name) && st.fileOffset == Some(base) && st.fileHash == h(f.name)
             && st.entryOffset == base + |EncodeFilename(f.name)|)
    && st.items == Items(Hashes(h, f.kids), Blobs(h, f.kids), base + |FrameHead(f)|)
  }

  /** The stack of `DirState`s describes the open directories written from offset `base` on. */
  ghost predicate FramesOk(h: Hash, frames: seq<Frame>, stack: seq<DirState>, base: nat)
    decreases |frames|
  {
    && |frames| == |stack|
    && (frames != [] ==>
          var n := |frames| - 1;
          && FramesOk(h, frames[..n], stack[..n], base)
          && FrameOk(h, frames[n], stack[n], base + |OpenBytes(h, frames[..n])|)
          && (frames[n].root ==> n == 0))
  }

  function AddKid(frames: seq<Frame>, node: Node): (r: seq<Frame>)
    requires frames != []
    ensures |r| == |frames|
  {
    var n := |frames| - 1;
    frames[..n] + [frames[n].(kids := frames[n].kids + [node])]
  }

  function PushItem(stack: seq<DirState>, item: GoodbyeItem): (r: seq<DirState>)
    requires stack != []
    ensures |r| == |stack|
  {
    var n := |stack| - 1;
    stack[..n] + [stack[n].(items := stack[n].items + [item])]
  }

  lemma AddKidBytes(h: Hash, f: Frame, node: Node)
    ensures FrameBytes(h, f.(kids := f.kids + [node])) == FrameBytes(h, f) + Encode(h, node)
    ensures FrameHead(f.(kids := f.kids + [node])) == FrameHead(f)
    ensures Hashes(h, f.kids + [node]) == Hashes(h, f.kids) + [h(node.name)]
    ensures Blobs(h, f.kids + [node]) == Blobs(h, f.kids) + [Encode(h, node)]
  {
    hide EncodeStat, EncodeFilename, Encode;
    assert Blobs(h, f.kids + [node]) == Blobs(h, f.kids) + [Encode(h, node)];
    ConcatAppend(Blobs(h, f.kids), Encode(h, node));
  }

  lemma FrameAddKidOk(h: Hash, f: Frame, st: DirState, base: nat, node: Node, item: GoodbyeItem)
    requires FrameOk(h, f, st, base) && WellFormed(h, node)
    requires item == GoodbyeItem(h(node.name), base + |FrameBytes(h, f)|, |Encode(h, node)|)
    ensures FrameOk(h, f.(kids := f.kids + [node]), st.(items := st.items + [item]), base)
  {
    hide EncodeStat, EncodeFilename, Encode, Blobs, Hashes, Items, WellFormed, WellFormedKids, FrameHead;
    AddKidBytes(h, f, node);
    WellFormedAppend(h, f.kids, node);
    ItemsAppend(Hashes(h, f.kids), Blobs(h, f.kids), h(node.name), Encode(h, node), base + |FrameHead(f)|);
  }

  lemma PushFrameOk(h: Hash, frames: seq<Frame>, stack: seq<DirState>, base: nat, f: Frame, st: DirState)
    requires FramesOk(h, frames, stack, base)
    requires FrameOk(h, f, st, base + |OpenBytes(h, frames)|) && (f.root ==> frames == [])
    ensures FramesOk(h, frames + [f], stack + [st], base)
    ensures OpenBytes(h, frames + [f]) == OpenBytes(h, frames) + FrameBytes(h, f)
  {
    hide FrameOk, FrameBytes;
    var n := |frames|;
    assert (frames + [f])[..n] == frames && (stack + [st])[..n] == stack;
  }

  /** The open directory on top of the stack, and those below it. */
  lemma TopFrameOk(h: Hash, frames: seq<Frame>, stack: seq<DirState>, base: nat)
    requires FramesOk(h, frames, stack, base) && frames != []
    ensures |stack| == |frames|
    ensures var n := |frames| - 1;
            var below := base + |OpenBytes(h, frames[..n])|;
            && FramesOk(h, frames[..n], stack[..n], base)
            && FrameOk(h, frames[n], stack[n], below)
            && (frames[n].root ==> n == 0)
            && base + |OpenBytes(h, frames)| == below + |FrameBytes(h, frames[n])|
            && OpenBytes(h, frames) == OpenBytes(h, frames[..n]) + FrameBytes(h, frames[n])
  {
    hide FrameOk, FrameBytes;
  }

  lemma AddKidShape(frames: seq<Frame>, stack: seq<DirState>, node: Node, item: GoodbyeItem)
    requires frames != [] && stack != []
    ensures var n := |frames| - 1;
            AddKid(frames, node) == frames[..n] + [frames[n].(kids := frames[n].kids + [node])]
    ensures var n := |stack| - 1;
            PushItem(stack, item) == stack[..n] + [stack[n].(items := stack[n].items + [item])]
    ensures AddKid(frames, node)[0].root == frames[0].root
  {
  }

  /** Recording a finished child keeps the stack in step with the bytes. */
  lemma AddKidOk(h: Hash, frames: seq<Frame>, stack: seq<DirState>, base: nat, node: Node, item: GoodbyeItem)
    requires FramesOk(h, frames, stack, base) && frames != [] && WellFormed(h, node)
    requires item == GoodbyeItem(h(node.name), base + |OpenBytes(h, frames)|, |Encode(h, node)|)
    ensures FramesOk(h, AddKid(frames, node), PushItem(stack, item), base)
    ensures OpenBytes(h, AddKid(frames, node)) == OpenBytes(h, frames) + Encode(h, node)
  {
    hide *;
    var n := |frames| - 1;
    TopFrameOk(h, frames, stack, base);
    AddKidShape(frames, stack, node, item);
    var f, st := frames[n], stack[n];
    var f', st' := f.(kids := f.kids + [node]), st.(items := st.items + [item]);
    AddKidBytes(h, f, node);
    FrameAddKidOk(h, f, st, base + |OpenBytes(h, frames[..n])|, node, item);
    PushFrameOk(h, frames[..n], stack[..n], base, f', st');
  }

  /** The table built from absolute offsets is the one the format defines by distances. */
  lemma TableIsRelative(hashes: seq<u64>, blobs: seq<seq<byte>>, table: seq<nat>, start: nat)
    requires |hashes| == |blobs| && IsPermutation(table, |blobs|)
    ensures Arrange(Items(hashes, blobs, start), table, start + |Concat(blobs)|) == DirTable(hashes, blobs, table)
  {
    var gofs := start + |Concat(blobs)|;
    forall j | 0 <= j < |table|
      ensures Arrange(Items(hashes, blobs, start), table, gofs)[j] == DirTable(hashes, blobs, table)[j]
    {
      ItemsShift(hashes, blobs, 0, start, table[j]);
    }
  }

  ghost predicate ArchiveOk(h: Hash, root: Node) {
    root.Dir? && root.stat.IsDir() && WellFormedKids(h, root.kids) && TableOk(h, root.kids, root.table)
  }

  lemma RootFrameOk(h: Hash, stat: Stat)
    requires stat.IsDir()
    ensures FramesOk(h, [Frame(true, [], stat, [])], [DirState([], 0, None, 0)], 0)
    ensures OpenBytes(h, [Frame(true, [], stat, [])]) == EncodeStat(stat)
  {
    hide EncodeStat, OpenBytes, FramesOk;
    var f, st := Frame(true, [], stat, []), DirState([], 0, None, 0);
    assert FramesOk(h, [], [], 0) && OpenBytes(h, []) == [] by { EmptyStackOk(h, 0); }
    assert FrameOk(h, f, st, 0);
    PushFrameOk(h, [], [], 0, f, st);
    assert [] + [f] == [f] && [] + [st] == [st];
    assert FrameBytes(h, f) == EncodeStat(stat) + [];
  }

  // ---------------------------------------------------------------- the encoder's invariant

  /** The finished root directory and whatever was written after it. */
  function ClosedBytes(h: Hash, archive: Option<Node>, stray: seq<byte>): seq<byte> {
    if archive.Some? && archive.value.Dir?
    then EncodeArchive(h, archive.value.stat, archive.value.kids, archive.value.table) + stray
    else []
  }

  /** The bytes written are the finished root, if any, and then the open directories. */
  ghost predicate EncoderOk(h: Hash, out: seq<byte>, pos: nat, stack: seq<DirState>,
                            frames: seq<Frame>, archive: Option<Node>, stray: seq<byte>)
  {
    && pos == |out|
    && out == ClosedBytes(h, archive, stray) + OpenBytes(h, frames)
    && FramesOk(h, frames, stack, |ClosedBytes(h, archive, stray)|)
    && match archive {
         case None => frames != [] && frames[0].root
         case Some(root) => ArchiveOk(h, root) && (frames != [] ==> !frames[0].root)
       }
  }

  lemma StraysGrow(h: Hash, archive: Option<Node>, stray: seq<byte>, more: seq<byte>)
    requires archive.Some? && archive.value.Dir?
    ensures ClosedBytes(h, archive, stray + more) == ClosedBytes(h, archive, stray) + more
  {
    hide EncodeArchive;
    var root := archive.value;
    ConcatIsAssociative(EncodeArchive(h, root.stat, root.kids, root.table), stray, more);
  }

  lemma NoFrames(h: Hash, frames: seq<Frame>, stack: seq<DirState>, base: nat)
    requires FramesOk(h, frames, stack, base)
    ensures |frames| == |stack|
    ensures stack == [] ==> OpenBytes(h, frames) == []
  {
  }

  lemma EmptyStackOk(h: Hash, base: nat)
    ensures FramesOk(h, [], [], base) && OpenBytes(h, []) == []
  {
  }

  /** A whole entry was written: into the open directory, or past the end of the archive. */
  lemma EntryWritten(h: Hash, out: seq<byte>, pos: nat, stack: seq<DirState>,
                     frames: seq<Frame>, archive: Option<Node>, stray: seq<byte>, node: Node)
    requires EncoderOk(h, out, pos, stack, frames, archive, stray) && WellFormed(h, node)
    ensures var bytes := Encode(h, node);
            var item := GoodbyeItem(h(node.name), pos, |bytes|);
            if stack != [] then
              && frames != []
              && EncoderOk(h, out + bytes, pos + |bytes|, PushItem(stack, item), AddKid(frames, node), archive, stray)
            else EncoderOk(h, out + bytes, pos + |bytes|, [], [], archive, stray + bytes)
  {
    hide ClosedBytes, OpenBytes, FramesOk, Encode, WellFormed, AddKid, PushItem;
    var closed, bytes := ClosedBytes(h, archive, stray), Encode(h, node);
    NoFrames(h, frames, stack, |closed|);
    if stack != [] {
      var item := GoodbyeItem(h(node.name), pos, |bytes|);
      AddKidOk(h, frames, stack, |closed|, node, item);
      AddKidShape(frames, stack, node, item);
    } else {
      StraysGrow(h, archive, stray, bytes);
      EmptyStackOk(h, |ClosedBytes(h, archive, stray + bytes)|);
    }
  }

  lemma StackHeight(h: Hash, out: seq<byte>, pos: nat, stack: seq<DirState>,
                    frames: seq<Frame>, archive: Option<Node>, stray: seq<byte>)
    requires EncoderOk(h, out, pos, stack, frames, archive, stray)
    ensures |stack| == |frames| && pos == |out|
  {
    hide OpenBytes, ClosedBytes, ArchiveOk;
  }

  lemma LeafEncoding(h: Hash, node: Node)
    requires !node.Dir?
    ensures Encode(h, node) == EncodeFilename(node.name) + EncodeStat(node.stat) +
              match node {
                case File(_, _, payload) => EncodeHeader(PXAR_PAYLOAD, |payload|) + payload
                case Symlink(_, _, target) => EncodeHeader(PXAR_SYMLINK, |target| + 1) + (target + [0])
                case Dir(_, _, _, _) => []
              }
  {
    hide EncodeStat, EncodeFilename, EncodeHeader;
  }

  /** What writing a file or symlink entry will amount to. */
  lemma EntryPending(h: Hash, out: seq<byte>, pos: nat, stack: seq<DirState>,
                     frames: seq<Frame>, archive: Option<Node>, stray: seq<byte>, node: Node)
    requires EncoderOk(h, out, pos, stack, frames, archive, stray) && !node.Dir?
    ensures |stack| == |frames| && pos == |out|
    ensures ValidName(node.name) ==>
              var bytes := Encode(h, node);
              var item := GoodbyeItem(h(node.name), pos, |bytes|);
              if stack != [] then
                EncoderOk(h, out + bytes, pos + |bytes|, PushItem(stack, item), AddKid(frames, node), archive, stray)
              else EncoderOk(h, out + bytes, pos + |bytes|, [], [], archive, stray + bytes)
  {
    hide EncoderOk, Encode, ValidateFilename, AddKid, PushItem;
    StackHeight(h, out, pos, stack, frames, archive, stray);
    if ValidName(node.name) {
      EntryWritten(h, out, pos, stack, frames, archive, stray, node);
    }
  }

  lemma DirectoryOpened(h: Hash, out: seq<byte>, pos: nat, stack: seq<DirState>, frames: seq<Frame>,
                        archive: Option<Node>, stray: seq<byte>, name: seq<byte>, stat: Stat)
    requires EncoderOk(h, out, pos, stack, frames, archive, stray) && ValidName(name) && stat.IsDir()
    ensures var f := Frame(false, name, stat, []);
            var st := DirState([], pos + |EncodeFilename(name)|, Some(pos), h(name));
            EncoderOk(h, out + FrameHead(f), pos + |FrameHead(f)|, stack + [st], frames + [f], archive, stray)
  {
    hide ClosedBytes, OpenBytes, FramesOk, EncodeFilename, EncodeStat, ValidName;
    var f := Frame(false, name, stat, []);
    var st := DirState([], pos + |EncodeFilename(name)|, Some(pos), h(name));
    assert FrameBytes(h, f) == FrameHead(f) + [];
    PushFrameOk(h, frames, stack, |ClosedBytes(h, archive, stray)|, f, st);
  }

  /** Taking the top directory off leaves the encoder as it was before that directory was opened. */
  lemma DirectoryPopped(h: Hash, out: seq<byte>, pos: nat, stack: seq<DirState>,
                        frames: seq<Frame>, archive: Option<Node>, stray: seq<byte>)
    requires EncoderOk(h, out, pos, stack, frames, archive, stray) && stack != []
    ensures |frames| == |stack|
    ensures var n := |frames| - 1;
            var closed := ClosedBytes(h, archive, stray);
            var before := closed + OpenBytes(h, frames[..n]);
            && out == before + FrameBytes(h, frames[n])
            && FrameOk(h, frames[n], stack[n], |before|)
            && (frames[n].root ==> n == 0 && archive == None && before == [])
            && (!frames[n].root ==>
                  EncoderOk(h, before, |before|, stack[..n], frames[..n], archive, stray))
  {
    hide OpenBytes, FramesOk, FrameBytes, FrameOk, EncodeArchive, ArchiveOk;
    var n, closed := |frames| - 1, ClosedBytes(h, archive, stray);
    NoFrames(h, frames, stack, |closed|);
    TopFrameOk(h, frames, stack, |closed|);
    EmptyStackOk(h, 0);
    assert out == closed + OpenBytes(h, frames[..n]) + FrameBytes(h, frames[n]);
    if n == 0 {
      assert frames[..n] == [];
    } else {
      assert frames[..n][0] == frames[0];
    }
  }

  /** The bytes of a directory that is finished with `table`. */
  lemma FrameFinished(h: Hash, f: Frame, table: seq<nat>)
    ensures var goodbye := GoodbyeBytes(DirTable(Hashes(h, f.kids), Blobs(h, f.kids), table),
                                        HEADER_SIZE + STAT_SIZE + |Concat(Blobs(h, f.kids))|);
            FrameBytes(h, f) + goodbye
            == if f.root then EncodeArchive(h, f.stat, f.kids, table)
               else Encode(h, Dir(f.name, f.stat, f.kids, table))
  {
    hide EncodeStat, EncodeFilename, Concat, Blobs, Hashes, DirTable, GoodbyeBytes;
  }

  /** What the top `DirState` says when its directory is finished at `pos`. */
  lemma TopState(h: Hash, f: Frame, st: DirState, before: nat, pos: nat)
    requires FrameOk(h, f, st, before) && pos == before + |FrameBytes(h, f)|
    ensures |st.items| == |f.kids|
    ensures st.items == Items(Hashes(h, f.kids), Blobs(h, f.kids), pos - |Concat(Blobs(h, f.kids))|)
    ensures pos - st.entryOffset == HEADER_SIZE + STAT_SIZE + |Concat(Blobs(h, f.kids))|
    ensures st.fileOffset == (if f.root then None else Some(before)) && (!f.root ==> st.fileHash == h(f.name))
    ensures f.stat.IsDir() && WellFormedKids(h, f.kids) && (!f.root ==> ValidName(f.name))
  {
    hide EncodeStat, EncodeFilename, Concat, Blobs, Hashes, Items, WellFormedKids, ValidateFilename;
  }

  /** The table built from the top `DirState`, with its header, is the directory's goodbye section. */
  lemma GoodbyeOfTop(h: Hash, f: Frame, st: DirState, before: nat, pos: nat, table: seq<nat>, bytes: seq<byte>)
    requires FrameOk(h, f, st, before) && pos == before + |FrameBytes(h, f)| && st.entryOffset <= pos
    requires IsPermutation(table, |st.items|) && IsSearchTree(Arrange(st.items, table, pos), 0)
    requires bytes == TableAndTail(Arrange(st.items, table, pos), pos - st.entryOffset)
    ensures TableOk(h, f.kids, table)
    ensures FrameBytes(h, f) + (EncodeHeader(PXAR_GOODBYE, |bytes|) + bytes)
            == if f.root then EncodeArchive(h, f.stat, f.kids, table)
               else Encode(h, Dir(f.name, f.stat, f.kids, table))
  {
    hide EncodeHeader, FrameOk, FrameBytes, Encode, EncodeArchive, Items, Arrange, TableAndTail, Concat,
      DirTable, IsSearchTree, IsPermutation;
    var hashes, blobs := Hashes(h, f.kids), Blobs(h, f.kids);
    TopState(h, f, st, before, pos);
    TableIsRelative(hashes, blobs, table, pos - |Concat(blobs)|);
    FrameFinished(h, f, table);
    assert Arrange(st.items, table, pos) == DirTable(hashes, blobs, table);
  }

  lemma DirectoryFinished(h: Hash, out: seq<byte>, pos: nat, stack: seq<DirState>, frames: seq<Frame>,
                          archive: Option<Node>, stray: seq<byte>, table: seq<nat>, bytes: seq<byte>)
    returns (node: Node)
    requires EncoderOk(h, out, pos, stack, frames, archive, stray) && stack != []
    requires var st := stack[|stack| - 1];
             && st.entryOffset <= pos
             && IsPermutation(table, |st.items|) && IsSearchTree(Arrange(st.items, table, pos), 0)
             && bytes == TableAndTail(Arrange(st.items, table, pos), pos - st.entryOffset)
    ensures |stack| == |frames|
    ensures var n := |frames| - 1;
            var f, st := frames[n], stack[n];
            var goodbye := EncodeHeader(PXAR_GOODBYE, |bytes|) + bytes;
            var pos' := pos + |goodbye|;
            && node == Dir(f.name, f.stat, f.kids, table) && TableOk(h, f.kids, table)
            && (if f.root then
                  && n == 0
                  && out + goodbye == EncodeArchive(h, f.stat, f.kids, table)
                  && EncoderOk(h, out + goodbye, pos', [], [], Some(node), [])
                else
                  && st.fileOffset.Some? && st.fileOffset.value <= pos'
                  && if n > 0 then
                       var item := GoodbyeItem(st.fileHash, st.fileOffset.value, pos' - st.fileOffset.value);
                       EncoderOk(h, out + goodbye, pos', PushItem(stack[..n], item), AddKid(frames[..n], node), archive, stray)
                     else EncoderOk(h, out + goodbye, pos', [], [], archive, stray + Encode(h, node)))
  {
    hide EncodeHeader, FrameOk, FrameBytes, Encode, EncodeArchive, Arrange, TableAndTail, OpenBytes, FramesOk,
      IsSearchTree, IsPermutation, EncoderOk, TableOk, AddKid, PushItem, WellFormedKids, ValidateFilename, ClosedBytes;
    DirectoryPopped(h, out, pos, stack, frames, archive, stray);
    StackHeight(h, out, pos, stack, frames, archive, stray);
    var n := |frames| - 1;
    var f, st := frames[n], stack[n];
    var before := ClosedBytes(h, archive, stray) + OpenBytes(h, frames[..n]);
    TopState(h, f, st, |before|, pos);
    GoodbyeOfTop(h, f, st, |before|, pos, table, bytes);
    node := Dir(f.name, f.stat, f.kids, table);
    var goodbye := EncodeHeader(PXAR_GOODBYE, |bytes|) + bytes;
    ConcatIsAssociative(before, FrameBytes(h, f), goodbye);
    if f.root {
      ArchiveFinished(h, node);
    } else {
      EntryWritten(h, before, |before|, stack[..n], frames[..n], archive, stray, node);
    }
  }

  lemma ArchiveFinished(h: Hash, root: Node)
    requires root.Dir? && ArchiveOk(h, root)
    ensures var bytes := EncodeArchive(h, root.stat, root.kids, root.table);
            EncoderOk(h, bytes, |bytes|, [], [], Some(root), [])
  {
    hide EncodeArchive, ArchiveOk;
    var bytes := EncodeArchive(h, root.stat, root.kids, root.table);
    EmptyStackOk(h, |bytes|);
    assert bytes + [] == bytes;
  }

  lemma TopEntryOffset(h: Hash, out: seq<byte>, pos: nat, stack: seq<DirState>,
                       frames: seq<Frame>, archive: Option<Node>, stray: seq<byte>)
    requires EncoderOk(h, out, pos, stack, frames, archive, stray)
    ensures |stack| == |frames| && pos == |out|
    ensures stack != [] ==> stack[|stack| - 1].entryOffset <= pos
  {
    hide FrameOk, FrameBytes, OpenBytes, FramesOk, EncoderOk, ClosedBytes;
    StackHeight(h, out, pos, stack, frames, archive, stray);
    if stack != [] {
      DirectoryPopped(h, out, pos, stack, frames, archive, stray);
      var n := |frames| - 1;
      var before := ClosedBytes(h, archive, stray) + OpenBytes(h, frames[..n]);
      TopState(h, frames[n], stack[n], |before|, pos);
    }
  }

  // ---------------------------------------------------------------- the encoder

  class Encoder {
    const hash: Hash
    var out: seq<byte>
    var pos: nat
    var stack: seq<DirState>
    var finished: bool

    ghost var frames: seq<Frame>      // the open directories
    ghost var archive: Option<Node>   // the root directory, once finished
    ghost var stray: seq<byte>        // bytes written after the root was finished

    ghost predicate Valid()
      reads this
    {
      EncoderOk(hash, out, pos, stack, frames, archive, stray)
    }

    constructor (h: Hash, rootStat: Stat)
      requires rootStat.IsDir()
      ensures Valid() && hash == h && !finished
      ensures frames == [Frame(true, [], rootStat, [])] && archive == None && stray == []
    {
      hide EncodeStat;
      hash := h;
      out := EncodeStat(rootStat);
      pos := HEADER_SIZE + STAT_SIZE;
      stack := [DirState([], 0, None, 0)];
      finished := false;
      frames, archive, stray := [Frame(true, [], rootStat, [])], None, [];
      new;
      RootFrameOk(h, rootStat);
    }

    static method FromStd(h: Hash, rootStat: Stat) returns (r: Result<Encoder>)
      ensures r.Ok? <==> rootStat.IsDir()
      ensures r.Ok? ==> fresh(r.value) && r.value.Valid() && r.value.hash == h
      ensures r.Ok? ==> r.value.frames == [Frame(true, [], rootStat, [])] && r.value.archive == None
    {
      if !rootStat.IsDir() {
        return Err("pxar: root metadata must describe a directory");
      }
      var e := new Encoder(h, rootStat);
      r := Ok(e);
    }

    method WriteAll(buf: seq<byte>)
      modifies `out, `pos
      ensures out == old(out) + buf && pos == old(pos) + |buf|
    {
      out := out + buf;
      pos := pos + |buf|;
    }

    method WriteHeader(htype: u64, contentSize: nat)
      modifies `out, `pos
      ensures out == old(out) + EncodeHeader(htype, contentSize) && pos == old(pos) + HEADER_SIZE
    {
      WriteAll(LE64(htype));
      WriteAll(LE64(contentSize + HEADER_SIZE));
    }

    method WriteFilename(name: seq<byte>) returns (r: Result<()>)
      modifies `out, `pos
      ensures r == ValidateFilename(name)
      ensures r.Ok? ==> out == old(out) + EncodeFilename(name) && pos == old(pos) + |EncodeFilename(name)|
      ensures r.Err? ==> out == old(out) && pos == old(pos)
    {
      r := ValidateFilename(name);
      if r.Ok? {
        WriteHeader(PXAR_FILENAME, |name| + 1);
        WriteAll(name);
        WriteAll([0]);
      }
    }

    method WriteMetadata(stat: Stat)
      modifies `out, `pos
      ensures out == old(out) + EncodeStat(stat) && pos == old(pos) + HEADER_SIZE + STAT_SIZE
    {
      hide LE64, LE32, EncodeHeader;
      WriteHeader(PXAR_ENTRY, STAT_SIZE);
      ghost var afterHeader := out;
      WriteAll(LE64(stat.mode));
      WriteAll(LE64(stat.flags));
      WriteAll(LE32(stat.uid));
      WriteAll(LE32(stat.gid));
      WriteAll(LE64(ToUnsigned(stat.secs)));
      WriteAll(LE32(stat.nanos));
      WriteAll(LE32(0));
      assert out == afterHeader + StatBytes(stat);
    }

    /** `copy_exact` from a reader that holds `content` and may hand it out in any pieces. */
    method CopyExact(content: seq<byte>, size: nat) returns (r: Result<()>)
      modifies `out, `pos
      ensures r.Ok? <==> size <= |content|
      ensures var n := if size <= |content| then size else |content|;
              out == old(out) + content[..n] && pos == old(pos) + n
    {
      var left: nat := size;
      var taken := 0;                          // the reader's own cursor
      while left > 0
        invariant taken + left == size && taken <= |content|
        invariant out == old(out) + content[..taken] && pos == old(pos) + taken
      {
        var want := Min(left, COPY_BUF_SIZE);
        var got: nat :| got <= want && taken + got <= |content| && (got == 0 ==> taken == |content|);
        if got == 0 {
          assert taken == |content| < size;
          return Err("pxar: file content ended before the declared size");
        }
        assert content[..taken] + content[taken..taken + got] == content[..taken + got];
        WriteAll(content[taken..taken + got]);
        taken := taken + got;
        left := left - got;
      }
      assert taken == size <= |content|;
      r := Ok(());
    }

    method PushItemFor(name: seq<byte>, fileOffset: nat) returns (r: Result<()>)
      requires fileOffset <= pos
      modifies `stack
      ensures r.Ok? <==> old(stack) != []
      ensures stack == if old(stack) == [] then []
                       else PushItem(old(stack), GoodbyeItem(hash(name), fileOffset, pos - fileOffset))
    {
      if stack == [] {
        return Err("pxar: entry written outside of a directory");
      }
      var n := |stack| - 1;
      var item := GoodbyeItem(hash(name), fileOffset, pos - fileOffset);
      stack := stack[..n] + [stack[n].(items := stack[n].items + [item])];
      r := Ok(());
    }

    method CreateDirectory(name: seq<byte>, stat: Stat) returns (r: Result<()>)
      requires Valid()
      modifies this
      ensures Valid() && archive == old(archive) && stray == old(stray)
      ensures r.Ok? <==> stat.IsDir() && ValidName(name)
      ensures frames == old(frames) + if r.Ok? then [Frame(false, name, stat, [])] else []
      ensures r.Err? ==> out == old(out)
    {
      hide EncoderOk, EncodeStat, EncodeFilename, ValidateFilename;
      if !stat.IsDir() {
        return Err("pxar: directory metadata must describe a directory");
      }
      var fileOffset := pos;
      r := WriteFilename(name);
      if r.Err? {
        return;
      }
      var entryOffset := pos;
      WriteMetadata(stat);
      stack := stack + [DirState([], entryOffset, Some(fileOffset), hash(name))];
      DirectoryOpened(hash, old(out), old(pos), old(stack), frames, archive, stray, name, stat);
      frames := frames + [Frame(false, name, stat, [])];
      assert out == old(out) + FrameHead(Frame(false, name, stat, []));
    }

    /** On a reader that is too short all it holds is written, as a torn entry that no item points at. */
    method AddFile(stat: Stat, name: seq<byte>, size: nat, content: seq<byte>) returns (r: Result<()>)
      requires Valid()
      modifies this
      ensures archive == old(archive)
      ensures !ValidName(name) ==> r.Err? && Valid() && out == old(out) && frames == old(frames)
      ensures ValidName(name) && size > |content| ==>
                && r.Err? && pos == |out| && stack == old(stack) && frames == old(frames) && stray == old(stray)
                && out == old(out) + (EncodeFilename(name) + EncodeStat(stat) + EncodeHeader(PXAR_PAYLOAD, size) + content)
      ensures ValidName(name) && size <= |content| ==>
                var node := File(name, stat, content[..size]);
                && Valid() && out == old(out) + Encode(hash, node)
                && if old(frames) != [] then r.Ok? && frames == AddKid(old(frames), node) && stray == old(stray)
                   else r.Err? && frames == [] && stray == old(stray) + Encode(hash, node)
    {
      hide EncoderOk, EncodeStat, EncodeFilename, EncodeHeader, ValidateFilename, Encode, AddKid, PushItem, WellFormed;
      ghost var node := File(name, stat, content[..if size <= |content| then size else 0]);
      LeafEncoding(hash, node);
      EntryPending(hash, out, pos, stack, frames, archive, stray, node);
      var fileOffset := pos;
      r := WriteFilename(name);
      if r.Err? {
        return;
      }
      WriteMetadata(stat);
      WriteHeader(PXAR_PAYLOAD, size);
      r := CopyExact(content, size);
      if r.Err? {
        return;
      }
      r := PushItemFor(name, fileOffset);
      assert out == old(out) + Encode(hash, node);
      if frames != [] {
        frames := AddKid(frames, node);
      } else {
        stray := stray + Encode(hash, node);
      }
    }

    method AddSymlink(stat: Stat, name: seq<byte>, target: seq<byte>) returns (r: Result<()>)
      requires Valid()
      modifies this
      ensures Valid() && archive == old(archive)
      ensures !ValidName(name) ==> r.Err? && out == old(out) && frames == old(frames)
      ensures ValidName(name) ==>
                var node := Symlink(name, stat, target);
                && out == old(out) + Encode(hash, node)
                && if old(frames) != [] then r.Ok? && frames == AddKid(old(frames), node) && stray == old(stray)
                   else r.Err? && frames == [] && stray == old(stray) + Encode(hash, node)
    {
      hide EncoderOk, EncodeStat, EncodeFilename, EncodeHeader, ValidateFilename, Encode, AddKid, PushItem, WellFormed;
      ghost var node := Symlink(name, stat, target);
      LeafEncoding(hash, node);
      EntryPending(hash, out, pos, stack, frames, archive, stray, node);
      var fileOffset := pos;
      r := WriteFilename(name);
      if r.Err? {
        return;
      }
      WriteMetadata(stat);
      var data := target + [0];
      WriteHeader(PXAR_SYMLINK, |data|);
      WriteAll(data);
      r := PushItemFor(name, fileOffset);
      assert out == old(out) + Encode(hash, node);
      if frames != [] {
        frames := AddKid(frames, node);
      } else {
        stray := stray + Encode(hash, node);
      }
    }

    /** Closes the top directory with its goodbye table; `node` is the finished directory. */
    method Finish() returns (r: Result<()>, ghost node: Node)
      requires Valid()
      modifies this
      ensures Valid()
      ensures r.Ok? <==> old(frames) != []
      ensures r.Err? ==> out == old(out) && frames == [] && archive == old(archive) && stray == old(stray)
      ensures r.Ok? ==>
                var n := |old(frames)| - 1;
                var f := old(frames)[n];
                && node.Dir? && node.stat == f.stat && node.kids == f.kids && TableOk(hash, node.kids, node.table)
                && (f.root ==> frames == [] && archive == Some(node) && stray == [])
                && (f.root ==> out == EncodeArchive(hash, node.stat, node.kids, node.table))
                && (!f.root ==> node.name == f.name && archive == old(archive))
                && (!f.root && n > 0 ==> frames == AddKid(old(frames)[..n], node) && stray == old(stray))
                && (!f.root && n == 0 ==> frames == [] && stray == old(stray) + Encode(hash, node))
    {
      hide EncoderOk, Encode, EncodeArchive, EncodeHeader, AddKid, TableAndTail, Arrange, IsPermutation,
        IsSearchTree, TableOk;
      TopEntryOffset(hash, out, pos, stack, frames, archive, stray);
      if stack == [] {
        node := File([], Stat(0, 0, 0, 0, 0, 0), []);
        return Err("pxar: finish called with no open directory"), node;
      }
      var n := |stack| - 1;
      var state := stack[n];
      stack := stack[..n];

      var goodbyeOffset := pos;
      var table, layout := BuildGoodbyeTable(state.items, goodbyeOffset, state.entryOffset);
      node := DirectoryFinished(hash, out, pos, old(stack), frames, archive, stray, layout, table);
      WriteHeader(PXAR_GOODBYE, |table|);
      WriteAll(table);
      assert out == old(out) + (EncodeHeader(PXAR_GOODBYE, |table|) + table);

      if stack != [] {
        if state.fileOffset == None {
          assert false;
          return Err("pxar: nested directory without a file offset"), node;
        }
        var fileOffset := state.fileOffset.value;
        var parent := stack[|stack| - 1];
        var item := GoodbyeItem(state.fileHash, fileOffset, pos - fileOffset);
        stack := stack[..|stack| - 1] + [parent.(items := parent.items + [item])];
        assert stack == PushItem(old(stack)[..n], item);
        frames := AddKid(frames[..n], node);
      } else {
        if frames[n].root {
          archive, stray := Some(node), [];
        } else {
          stray := stray + Encode(hash, node);
        }
        frames := [];
      }
      r := Ok(());
    }

    method Close() returns (r: Result<()>)
      requires Valid()
      modifies `finished
      ensures Valid() && (r.Ok? <==> frames == [])
      ensures r.Ok? ==> finished && archive.Some? && ArchiveOk(hash, archive.value)
      ensures r.Ok? ==> var root := archive.value; out == EncodeArchive(hash, root.stat, root.kids, root.table) + stray
    {
      hide EncodeArchive, OpenBytes, FramesOk;
      StackHeight(hash, out, pos, stack, frames, archive, stray);
      if stack != [] {
        return Err("pxar: close with directories still open");
      }
      NoFrames(hash, frames, stack, |ClosedBytes(hash, archive, stray)|);
      finished := true;
      r := Ok(());
    }
  }
}
