/** The goodbye table as an implicit search tree: `bst_copy` lays sorted items
    out in heap order, `bst_search_by` searches the result. */
module SearchTree {
  import opened Bytes

  datatype GoodbyeItem = GoodbyeItem(hash: nat, offset: nat, size: nat)

  /** `usize::BITS - n.leading_zeros() - 1`. */
  function Log2(n: nat): (e: nat)
    requires n > 0
    ensures Pow2(e) <= n < Pow2(e + 1)
  {
    if n == 1 then 0 else 1 + Log2(n / 2)
  }

  // ---------------------------------------------------------------- shape

  /** In-order listing of the slots at and below slot `i` of a heap-shaped tree of `n` slots. */
  function Slots(n: nat, i: nat): seq<nat>
    decreases n - i
  {
    if i >= n then [] else Slots(n, 2 * i + 1) + [i] + Slots(n, 2 * i + 2)
  }

  /** `j` lies in the subtree of slot `i`. */
  predicate Under(i: nat, j: nat)
    decreases j
  {
    i == j || (j > i && Under(i, (j - 1) / 2))
  }

  lemma {:induction false} UnderSplit(i: nat, j: nat)
    ensures Under(i, j) ==> i <= j
    ensures Under(i, j) <==> j == i || Under(2 * i + 1, j) || Under(2 * i + 2, j)
    ensures !(Under(2 * i + 1, j) && Under(2 * i + 2, j))
    ensures !Under(2 * i + 1, i) && !Under(2 * i + 2, i)
    decreases j
  {
    if j > i {
      UnderSplit(i, (j - 1) / 2);
    }
  }

  lemma {:induction false} UnderRoot(j: nat)
    ensures Under(0, j)
  {
    if j > 0 {
      UnderRoot((j - 1) / 2);
    }
  }

  lemma CountConcat(l: seq<nat>, i: nat, r: seq<nat>, j: nat)
    ensures multiset(l + [i] + r)[j] == multiset(l)[j] + (if i == j then 1 else 0) + multiset(r)[j]
  {
    assert multiset(l + [i] + r) == multiset(l) + multiset{i} + multiset(r);
  }

  function SlotCount(n: nat, i: nat, j: nat): nat {
    multiset(Slots(n, i))[j]
  }

  /** Every slot of the subtree is listed exactly once, and nothing else is. */
  lemma {:induction false} SlotsOnce(n: nat, i: nat, j: nat)
    ensures SlotCount(n, i, j) == if j < n && Under(i, j) then 1 else 0
    decreases n - i
  {
    UnderSplit(i, j);
    if i < n {
      var l, r := 2 * i + 1, 2 * i + 2;
      SlotsOnce(n, l, j);
      SlotsOnce(n, r, j);
      assert SlotCount(n, i, j) == SlotCount(n, l, j) + (if i == j then 1 else 0) + SlotCount(n, r, j) by {
        CountConcat(Slots(n, l), i, Slots(n, r), j);
      }
    }
  }

  lemma SlotsMembers(n: nat, i: nat)
    ensures forall j :: j in Slots(n, i) <==> i <= j < n && Under(i, j)
  {
    forall j: nat
      ensures j in Slots(n, i) <==> i <= j < n && Under(i, j)
    {
      SlotsOnce(n, i, j);
      UnderSplit(i, j);
      assert j in Slots(n, i) <==> j in multiset(Slots(n, i));
    }
  }

  lemma {:induction false} OnceIsDistinct(s: seq<nat>)
    requires forall j: nat :: multiset(s)[j] <= 1
    ensures forall a, b :: 0 <= a < b < |s| ==> s[a] != s[b]
  {
    forall a, b | 0 <= a < b < |s|
      ensures s[a] != s[b]
    {
      assert s == s[..b] + s[b..];
      assert s[a] in s[..b] && s[b] in s[b..];
      assert multiset(s)[s[b]] == multiset(s[..b])[s[b]] + multiset(s[b..])[s[b]];
    }
  }

  lemma SlotsDistinct(n: nat, i: nat)
    ensures forall a, b :: 0 <= a < b < |Slots(n, i)| ==> Slots(n, i)[a] != Slots(n, i)[b]
  {
    forall j: nat
      ensures multiset(Slots(n, i))[j] <= 1
    {
      SlotsOnce(n, i, j);
    }
    OnceIsDistinct(Slots(n, i));
  }

  // ---------------------------------------------------------------- bst_copy

  /** The leftmost slot `e` levels below slot `i`. */
  function Leftmost(e: nat, i: nat): (s: nat)
    ensures s >= i
  {
    if e == 0 then i else Leftmost(e - 1, 2 * i + 1)
  }

  lemma {:induction false} LeftmostNext(e: nat, i: nat)
    ensures Leftmost(e, i + 1) == Leftmost(e, i) + Pow2(e)
  {
    if e > 0 {
      LeftmostNext(e - 1, 2 * i + 1);
      LeftmostNext(e - 1, 2 * i + 2);
    }
  }

  lemma {:induction false} LeftmostOfRoot(e: nat)
    ensures Leftmost(e, 0) == Pow2(e) - 1
  {
    if e > 0 {
      LeftmostOfRoot(e - 1);
      LeftmostNext(e - 1, 0);
    }
  }

  /** What a call of `bst_copy_inner` is entitled to in a tree of `total` slots whose last
      level is `depth`: slot `i` lies `e` levels above it, all levels below `i` but the last
      are full, and `n` counts them and what the last level holds under `i`. */
  ghost predicate Shape(total: nat, depth: nat, n: nat, e: nat, i: nat) {
    var first := Leftmost(e, i);
    && Pow2(depth) <= total < Pow2(depth + 1)
    && Pow2(depth) <= first + 1
    && first + Pow2(e) < Pow2(depth + 1)
    && n == Pow2(e) - 1 + (if total <= first then 0 else Min(total - first, Pow2(e)))
  }

  /** The number of items `bst_copy_inner` puts into the left subtree. */
  function LeftCount(n: nat, e: nat): int {
    var p := Pow2(e);
    var t := p + p / 2 - 1;
    if n > t then p - 1 else p - 1 - (t - n)
  }

  /** The recursion of `bst_copy_inner` from slot `i` meets every slot of a tree of
      `total` slots at or below `i`, never runs out of levels and never leaves the tree. */
  ghost predicate Fits(total: nat, n: nat, e: nat, i: nat)
    decreases e
  {
    if n == 0 then i >= total
    else
      && i < total
      && 0 <= LeftCount(n, e) < n
      && if e == 0 then n == 1 && total <= 2 * i + 1
         else
           && Fits(total, LeftCount(n, e), e - 1, 2 * i + 1)
           && Fits(total, n - LeftCount(n, e) - 1, e - 1, 2 * i + 2)
  }

  lemma ShapeChildren(total: nat, depth: nat, n: nat, e: nat, i: nat)
    requires e > 0 && Shape(total, depth, n, e, i)
    ensures 0 <= LeftCount(n, e)
    ensures n == 0 ==> i >= total
    ensures n > 0 ==> i < total && LeftCount(n, e) < n
    ensures n > 0 ==> Shape(total, depth, LeftCount(n, e), e - 1, 2 * i + 1)
    ensures n > 0 ==> Shape(total, depth, n - LeftCount(n, e) - 1, e - 1, 2 * i + 2)
  {
    LeftmostNext(e - 1, 2 * i + 1);
    var q := Pow2(e - 1);
    assert Pow2(e) == 2 * q && Leftmost(e, i) == Leftmost(e - 1, 2 * i + 1);
    hide Pow2, Leftmost;
  }

  lemma ShapeLeaf(total: nat, depth: nat, n: nat, i: nat)
    requires Shape(total, depth, n, 0, i)
    ensures Fits(total, n, 0, i)
  {
    assert Pow2(depth + 1) == 2 * Pow2(depth);
  }

  lemma {:induction false} ShapeFits(total: nat, depth: nat, n: nat, e: nat, i: nat)
    requires Shape(total, depth, n, e, i)
    ensures Fits(total, n, e, i)
    decreases e
  {
    hide Shape, Pow2, Leftmost, LeftCount;
    if e == 0 {
      ShapeLeaf(total, depth, n, i);
    } else {
      ShapeChildren(total, depth, n, e, i);
      if n > 0 {
        var l, r, m := 2 * i + 1, 2 * i + 2, LeftCount(n, e);
        ShapeFits(total, depth, m, e - 1, l);
        ShapeFits(total, depth, n - m - 1, e - 1, r);
      }
    }
  }

  lemma RootFits(n: nat)
    requires n > 0
    ensures Fits(n, n, Log2(n), 0)
  {
    LeftmostOfRoot(Log2(n));
    ShapeFits(n, Log2(n), n, Log2(n), 0);
  }

  ghost predicate Disjoint(a: seq<nat>, b: seq<nat>) {
    forall j | j in a :: j !in b
  }

  lemma SlotsSiblingsDisjoint(n: nat, i: nat)
    ensures i !in Slots(n, 2 * i + 1) && i !in Slots(n, 2 * i + 2)
    ensures Disjoint(Slots(n, 2 * i + 1), Slots(n, 2 * i + 2))
  {
    var l, r := 2 * i + 1, 2 * i + 2;
    SlotsMembers(n, l);
    SlotsMembers(n, r);
    var left, right := Slots(n, l), Slots(n, r);
    forall j | j in left
      ensures j !in right
    {
      UnderSplit(i, j);
    }
  }

  /** The listed slots of `tree` hold `items`, in order. */
  ghost predicate Placed<T>(tree: seq<T>, slots: seq<nat>, items: seq<T>) {
    && |slots| == |items|
    && forall k :: 0 <= k < |slots| ==> slots[k] < |tree| && tree[slots[k]] == items[k]
  }

  /** `after` differs from `before` at most in the listed slots. */
  ghost predicate OnlyChanges<T>(before: seq<T>, after: seq<T>, slots: seq<nat>) {
    && |before| == |after|
    && forall j: nat :: j < |before| && j !in slots ==> after[j] == before[j]
  }

  lemma PlacedAtRoot<T>(t0: seq<T>, t1: seq<T>, t2: seq<T>, t3: seq<T>,
                        l: seq<nat>, i: nat, r: seq<nat>, items: seq<T>, m: nat)
    requires i < |t0| && m < |items|
    requires i !in l && i !in r && Disjoint(l, r)
    requires t1 == t0[i := items[m]]
    requires OnlyChanges(t1, t2, l) && Placed(t2, l, items[..m])
    requires OnlyChanges(t2, t3, r) && Placed(t3, r, items[m + 1..])
    ensures OnlyChanges(t0, t3, l + [i] + r) && Placed(t3, l + [i] + r, items)
  {
    assert forall k :: 0 <= k < |l| ==> l[k] in l && l[k] !in r;
    forall k | 0 <= k < |items|
      ensures (l + [i] + r)[k] < |t3| && t3[(l + [i] + r)[k]] == items[k]
    {
      if k < m {
        assert t2[l[k]] == items[..m][k];
      } else if k > m {
        assert t3[r[k - m - 1]] == items[m + 1..][k - m - 1];
      }
    }
  }

  lemma SplitAt(total: nat, n: nat, e: nat, i: nat) returns (m: nat, left: seq<nat>, right: seq<nat>)
    requires n > 0 && Fits(total, n, e, i)
    ensures i < total && m == LeftCount(n, e) < n
    ensures left == Slots(total, 2 * i + 1) && right == Slots(total, 2 * i + 2)
    ensures Slots(total, i) == left + [i] + right
    ensures i !in left && i !in right && Disjoint(left, right)
    ensures if m == 0 then left == [] else e > 0 && Fits(total, m, e - 1, 2 * i + 1)
    ensures if m + 1 == n then right == [] else e > 0 && Fits(total, n - m - 1, e - 1, 2 * i + 2)
  {
    var l, r := 2 * i + 1, 2 * i + 2;
    m, left, right := LeftCount(n, e), Slots(total, l), Slots(total, r);
    SlotsSiblingsDisjoint(total, i);
  }

  lemma NothingPlaced<T>(t: seq<T>)
    ensures OnlyChanges(t, t, []) && Placed(t, [], [])
  {
  }

  lemma SplitSlice<T>(s: seq<T>, o: nat, n: nat, m: nat)
    requires m < n && o + n <= |s|
    ensures s[o..o + n][..m] == s[o..o + m]
    ensures s[o..o + n][m] == s[o + m]
    ensures s[o..o + n][m + 1..] == s[o + m + 1..o + m + 1 + (n - m - 1)]
  {
  }

  /** `bst_copy`: read in order, the finished tree is `sorted`. Each callback of the source
      is one assignment here; its out-of-range arm is dead, as the index checks show. */
  method BstCopy<T>(sorted: seq<T>, tree: array<T>)
    requires tree.Length == |sorted|
    modifies tree
    ensures Placed(tree[..], Slots(tree.Length, 0), sorted)
  {
    var n := |sorted|;
    if n == 0 {
      return;
    }
    var e := Log2(n);
    RootFits(n);
    BstCopyInner(sorted, tree, n, 0, e, 0);
    assert sorted[0..n] == sorted;
  }

  lemma LeftCountIs(n: nat, e: nat)
    ensures var p := Pow2(e);
            LeftCount(n, e) == if n > p + p / 2 - 1 then p - 1 else p - 1 - (p + p / 2 - 1 - n)
  {
  }

  method BstCopyInner<T>(sorted: seq<T>, tree: array<T>, n: nat, o: nat, e: nat, i: nat)
    requires n > 0 && o + n <= |sorted|
    requires Fits(tree.Length, n, e, i)
    modifies tree
    ensures OnlyChanges(old(tree[..]), tree[..], Slots(tree.Length, i))
    ensures Placed(tree[..], Slots(tree.Length, i), sorted[o..o + n])
    decreases e
  {
    hide *;
    ghost var t0 := tree[..];
    ghost var split, left, right := SplitAt(tree.Length, n, e, i);
    LeftCountIs(n, e);
    var p := Pow2(e);
    var t: nat := p + p / 2 - 1;
    var m: nat := if n > t then p - 1 else p - 1 - (t - n);
    assert m == split;
    ghost var items := sorted[o..o + n];
    SplitSlice(sorted, o, n, m);

    tree[i] := sorted[o + m];
    ghost var t1 := tree[..];
    if m > 0 {
      BstCopyInner(sorted, tree, m, o, e - 1, i * 2 + 1);
    } else {
      NothingPlaced(tree[..]);
    }
    ghost var t2 := tree[..];
    if m + 1 < n {
      BstCopyInner(sorted, tree, n - m - 1, o + m + 1, e - 1, i * 2 + 2);
    } else {
      NothingPlaced(tree[..]);
    }
    PlacedAtRoot(t0, t1, t2, tree[..], left, i, right, items, m);
  }

  // ---------------------------------------------------------------- bst_search_by

  /** `bst_search_by` with the comparison of a wanted hash against the item's. */
  function Search(tree: seq<GoodbyeItem>, i: nat, skip: nat, hash: nat): Option<nat>
    decreases |tree| - i
  {
    if i >= |tree| then None
    else if hash < tree[i].hash then Search(tree, 2 * i + 1, skip, hash)
    else if hash > tree[i].hash then Search(tree, 2 * i + 2, skip, hash)
    else if skip == 0 then Some(i)
    else
      var left := Search(tree, 2 * i + 1, skip - 1, hash);
      if left.Some? then left else Search(tree, 2 * i + 2, skip - 1, hash)
  }

  lemma {:induction false} Pow2Reflects(a: nat, b: nat)
    requires Pow2(a) < Pow2(b + 1)
    ensures a <= b
  {
    if a > 0 && b > 0 {
      Pow2Reflects(a - 1, b - 1);
    }
  }

  /** `comparisons` counts the keys looked at; a plain search (`skip == 0`) walks one path down. */
  method BstSearchBy(tree: seq<GoodbyeItem>, start: nat, skip: nat, hash: nat)
    returns (r: Option<nat>, ghost comparisons: nat)
    ensures r == Search(tree, start, skip, hash)
    ensures skip == 0 ==> comparisons <= if |tree| == 0 then 0 else Log2(|tree|) + 1
    decreases if start < |tree| then |tree| - start else 0
  {
    var i := start;
    comparisons := 0;
    while i < |tree|
      invariant i >= start
      invariant Search(tree, i, skip, hash) == Search(tree, start, skip, hash)
      invariant Pow2(comparisons) <= i + 1
      invariant comparisons > 0 ==> Pow2(comparisons - 1) <= |tree|
      decreases |tree| - i
    {
      var item := tree[i];
      comparisons := comparisons + 1;
      if hash < item.hash {
        i := 2 * i + 1;
      } else if hash > item.hash {
        i := 2 * i + 2;
      } else if skip == 0 {
        Pow2Reflects(comparisons - 1, Log2(|tree|));
        return Some(i), comparisons;
      } else {
        var left := 2 * i + 1;
        r, comparisons := BstSearchBy(tree, left, skip - 1, hash);
        if r == None {
          r, comparisons := BstSearchBy(tree, left + 1, skip - 1, hash);
        }
        return;
      }
    }
    if comparisons > 0 {
      Pow2Reflects(comparisons - 1, Log2(|tree|));
    }
    r := None;
  }

  // ---------------------------------------------------------------- what a search finds

  predicate Match(tree: seq<GoodbyeItem>, j: nat, hash: nat) {
    j < |tree| && tree[j].hash == hash
  }

  /** Heap-layout search tree: all below `2i+1` <= slot `i` <= all below `2i+2`. */
  ghost predicate IsSearchTree(tree: seq<GoodbyeItem>, i: nat)
    decreases |tree| - i
  {
    i < |tree| ==>
      var l, r := 2 * i + 1, 2 * i + 2;
      && IsSearchTree(tree, l)
      && IsSearchTree(tree, r)
      && (forall j: nat :: j < |tree| && Under(l, j) ==> tree[j].hash <= tree[i].hash)
      && (forall j: nat :: j < |tree| && Under(r, j) ==> tree[i].hash <= tree[j].hash)
  }

  ghost predicate SortedByHash(items: seq<GoodbyeItem>) {
    forall a, b :: 0 <= a < b < |items| ==> items[a].hash <= items[b].hash
  }

  lemma {:induction false} ReadInOrderIsSearchTree(tree: seq<GoodbyeItem>, i: nat, items: seq<GoodbyeItem>)
    requires Placed(tree, Slots(|tree|, i), items) && SortedByHash(items)
    ensures IsSearchTree(tree, i)
    decreases |tree| - i
  {
    if i < |tree| {
      var l, r := 2 * i + 1, 2 * i + 2;
      var left, right := Slots(|tree|, l), Slots(|tree|, r);
      var m := |left|;
      var all := Slots(|tree|, i);
      assert all == left + [i] + right;
      assert all[..m] == left && all[m] == i && all[m + 1..] == right;
      assert forall k :: 0 <= k < |right| ==> right[k] == all[m + 1 + k];
      assert forall k :: 0 <= k < |left| ==> left[k] == all[k];
      ReadInOrderIsSearchTree(tree, l, items[..m]);
      ReadInOrderIsSearchTree(tree, r, items[m + 1..]);
      SlotsMembers(|tree|, l);
      SlotsMembers(|tree|, r);
      forall j: nat | j < |tree| && Under(l, j)
        ensures tree[j].hash <= tree[i].hash
      {
        UnderSplit(l, j);
        assert j in left;
      }
      forall j: nat | j < |tree| && Under(r, j)
        ensures tree[i].hash <= tree[j].hash
      {
        UnderSplit(r, j);
        assert j in right;
      }
    }
  }

  /** Whatever the table holds, a result is an equal key inside the searched subtree. */
  lemma {:induction false} SearchSound(tree: seq<GoodbyeItem>, i: nat, skip: nat, hash: nat)
    ensures var r := Search(tree, i, skip, hash);
            r.Some? ==> Match(tree, r.value, hash) && Under(i, r.value)
    decreases |tree| - i
  {
    if i < |tree| {
      var l, r := 2 * i + 1, 2 * i + 2;
      var k := if skip == 0 || hash != tree[i].hash then skip else skip - 1;
      SearchSound(tree, l, k, hash);
      SearchSound(tree, r, k, hash);
      var res := Search(tree, i, skip, hash);
      if res.Some? {
        UnderSplit(i, res.value);
      }
    }
  }

  lemma {:induction false} SearchFindsMatch(tree: seq<GoodbyeItem>, i: nat, hash: nat, j: nat)
    requires IsSearchTree(tree, i) && Match(tree, j, hash) && Under(i, j)
    ensures Search(tree, i, 0, hash).Some?
    decreases |tree| - i
  {
    UnderSplit(i, j);
    if hash < tree[i].hash {
      SearchFindsMatch(tree, 2 * i + 1, hash, j);
    } else if hash > tree[i].hash {
      SearchFindsMatch(tree, 2 * i + 2, hash, j);
    }
  }

  /** A plain search from the root succeeds exactly when the hash is in the table. */
  lemma SearchExact(tree: seq<GoodbyeItem>, hash: nat)
    requires IsSearchTree(tree, 0)
    ensures Search(tree, 0, 0, hash).Some? <==> exists j: nat :: Match(tree, j, hash)
  {
    SearchSound(tree, 0, 0, hash);
    if j: nat :| Match(tree, j, hash) {
      UnderRoot(j);
      SearchFindsMatch(tree, 0, hash, j);
    }
  }

  // ---------------------------------------------------------------- duplicate hashes

  /** The number of `skip` values that yield a result. */
  function Reach(tree: seq<GoodbyeItem>, i: nat, hash: nat): nat
    decreases |tree| - i
  {
    if i >= |tree| then 0
    else if hash < tree[i].hash then Reach(tree, 2 * i + 1, hash)
    else if hash > tree[i].hash then Reach(tree, 2 * i + 2, hash)
    else
      var l, r := Reach(tree, 2 * i + 1, hash), Reach(tree, 2 * i + 2, hash);
      1 + if l > r then l else r
  }

  lemma {:induction false} SearchReach(tree: seq<GoodbyeItem>, i: nat, skip: nat, hash: nat)
    ensures Search(tree, i, skip, hash).Some? <==> skip < Reach(tree, i, hash)
    decreases |tree| - i
  {
    if i < |tree| {
      var l, r := 2 * i + 1, 2 * i + 2;
      var k := if skip == 0 || hash != tree[i].hash then skip else skip - 1;
      SearchReach(tree, l, k, hash);
      SearchReach(tree, r, k, hash);
    }
  }

  /** Different `skip` values never yield the same slot. */
  lemma {:induction false} SearchInjective(tree: seq<GoodbyeItem>, i: nat, a: nat, b: nat, hash: nat)
    requires Search(tree, i, a, hash).Some? && Search(tree, i, a, hash) == Search(tree, i, b, hash)
    ensures a == b
    decreases |tree| - i
  {
    var l, r := 2 * i + 1, 2 * i + 2;
    var j := Search(tree, i, a, hash).value;
    UnderSplit(i, j);
    if hash < tree[i].hash {
      SearchInjective(tree, l, a, b, hash);
    } else if hash > tree[i].hash {
      SearchInjective(tree, r, a, b, hash);
    } else if a > 0 || b > 0 {
      if a > 0 {
        SearchSound(tree, l, a - 1, hash);
        SearchSound(tree, r, a - 1, hash);
      }
      if b > 0 {
        SearchSound(tree, l, b - 1, hash);
        SearchSound(tree, r, b - 1, hash);
      }
      if a > 0 && b > 0 {
        SearchInjective(tree, if Under(l, j) then l else r, a - 1, b - 1, hash);
      }
    }
  }

  predicate Related(a: nat, b: nat) {
    Under(a, b) || Under(b, a)
  }

  /** Some `skip` yields slot `j`. */
  ghost predicate Found(tree: seq<GoodbyeItem>, i: nat, hash: nat, j: nat) {
    exists skip: nat :: Search(tree, i, skip, hash) == Some(j)
  }

  ghost predicate MatchUnder(tree: seq<GoodbyeItem>, i: nat, hash: nat, j: nat) {
    Match(tree, j, hash) && Under(i, j)
  }

  /** The slots holding `hash` under `i` lie on one path from the root. */
  ghost predicate OnOnePath(tree: seq<GoodbyeItem>, i: nat, hash: nat) {
    forall a: nat, b: nat :: MatchUnder(tree, i, hash, a) && MatchUnder(tree, i, hash, b) ==> Related(a, b)
  }

  lemma {:induction false} UnderTrans(a: nat, b: nat, c: nat)
    requires Under(a, b) && Under(b, c)
    ensures Under(a, c)
    decreases c
  {
    if b != c {
      UnderTrans(a, b, (c - 1) / 2);
      UnderSplit(a, b);
      UnderSplit(b, c);
    }
  }

  lemma SiblingsUnrelated(i: nat, a: nat, b: nat)
    requires Under(2 * i + 1, a) && Under(2 * i + 2, b)
    ensures !Related(a, b)
  {
    if Under(a, b) {
      UnderTrans(2 * i + 1, a, b);
      UnderSplit(i, b);
    }
    if Under(b, a) {
      UnderTrans(2 * i + 2, b, a);
      UnderSplit(i, a);
    }
  }

  lemma {:induction false} OnePathFound(tree: seq<GoodbyeItem>, i: nat, hash: nat, j: nat)
    requires IsSearchTree(tree, i) && OnOnePath(tree, i, hash) && MatchUnder(tree, i, hash, j)
    ensures Found(tree, i, hash, j)
    decreases |tree| - i
  {
    var l, r := 2 * i + 1, 2 * i + 2;
    UnderSplit(i, j);
    forall a: nat | MatchUnder(tree, l, hash, a) || MatchUnder(tree, r, hash, a)
      ensures MatchUnder(tree, i, hash, a)
    {
      UnderSplit(i, a);
    }
    if j == i {
      assert hash == tree[i].hash && Search(tree, i, 0, hash) == Some(i);
    } else if hash != tree[i].hash {
      var c := if hash < tree[i].hash then l else r;
      OnePathFound(tree, c, hash, j);
      var k: nat :| Search(tree, c, k, hash) == Some(j);
      assert Search(tree, i, k, hash) == Some(j);
    } else {
      var c := if Under(l, j) then l else r;
      OnePathFound(tree, c, hash, j);
      var k: nat :| Search(tree, c, k, hash) == Some(j);
      SearchSound(tree, l, k, hash);
      if c == r && Search(tree, l, k, hash).Some? {
        SiblingsUnrelated(i, Search(tree, l, k, hash).value, j);
      }
      assert Search(tree, i, k + 1, hash) == Some(j);
    }
  }

  ghost predicate AllFound(tree: seq<GoodbyeItem>, i: nat, hash: nat) {
    forall j: nat :: MatchUnder(tree, i, hash, j) ==> Found(tree, i, hash, j)
  }

  /** All matches found from an equal slot `i` are all found in a subtree that is the only
      one of the two to hold any, and in the left one in any case. */
  lemma FoundInChild(tree: seq<GoodbyeItem>, i: nat, hash: nat, c: nat)
    requires i < |tree| && AllFound(tree, i, hash)
    requires c == 2 * i + 1 || c == 2 * i + 2
    requires c == (if hash < tree[i].hash then 2 * i + 1 else if hash > tree[i].hash then 2 * i + 2 else c)
    ensures AllFound(tree, c, hash)
  {
    forall j: nat | MatchUnder(tree, c, hash, j)
      ensures Found(tree, c, hash, j)
    {
      UnderSplit(i, j);
      assert Found(tree, i, hash, j);
      var k: nat :| Search(tree, i, k, hash) == Some(j);
      if hash == tree[i].hash {
        assert k > 0;
        SearchSound(tree, 2 * i + 1, k - 1, hash);
        SearchSound(tree, 2 * i + 2, k - 1, hash);
        assert Search(tree, c, k - 1, hash) == Some(j);
      } else {
        assert Search(tree, c, k, hash) == Some(j);
      }
    }
  }

  /** With a match on either side of an equal slot, the first one on the right is lost. */
  lemma ForkLosesMatch(tree: seq<GoodbyeItem>, i: nat, hash: nat, a: nat, b: nat)
    requires IsSearchTree(tree, i) && i < |tree| && hash == tree[i].hash
    requires MatchUnder(tree, 2 * i + 1, hash, a) && MatchUnder(tree, 2 * i + 2, hash, b)
    ensures !AllFound(tree, i, hash)
  {
    var l, r := 2 * i + 1, 2 * i + 2;
    SearchFindsMatch(tree, l, hash, a);
    SearchFindsMatch(tree, r, hash, b);
    SearchSound(tree, r, 0, hash);
    var lost := Search(tree, r, 0, hash).value;
    UnderSplit(i, lost);
    assert MatchUnder(tree, i, hash, lost);
    if Found(tree, i, hash, lost) {
      var k: nat :| Search(tree, i, k, hash) == Some(lost);
      assert k > 0;
      SearchSound(tree, l, k - 1, hash);
      SearchInjective(tree, r, k - 1, 0, hash);
      assert false;
    }
  }

  lemma {:induction false} FoundOnePath(tree: seq<GoodbyeItem>, i: nat, hash: nat, a: nat, b: nat)
    requires IsSearchTree(tree, i) && AllFound(tree, i, hash)
    requires MatchUnder(tree, i, hash, a) && MatchUnder(tree, i, hash, b)
    ensures Related(a, b)
    decreases |tree| - i
  {
    var l, r := 2 * i + 1, 2 * i + 2;
    UnderSplit(i, a);
    UnderSplit(i, b);
    if a != i && b != i {
      if Under(l, a) == Under(l, b) {
        var c := if Under(l, a) then l else r;
        FoundInChild(tree, i, hash, c);
        FoundOnePath(tree, c, hash, a, b);
      } else if Under(l, a) {
        ForkLosesMatch(tree, i, hash, a, b);
      } else {
        ForkLosesMatch(tree, i, hash, b, a);
      }
    }
  }

  /** The exact reach of the duplicate search: counting `skip` up returns every slot with the
      wanted hash if and only if those slots lie on one path down the tree. */
  lemma DuplicateSearchExact(tree: seq<GoodbyeItem>, hash: nat)
    requires IsSearchTree(tree, 0)
    ensures AllFound(tree, 0, hash) <==> OnOnePath(tree, 0, hash)
  {
    if AllFound(tree, 0, hash) {
      forall a: nat, b: nat | MatchUnder(tree, 0, hash, a) && MatchUnder(tree, 0, hash, b)
        ensures Related(a, b)
      {
        FoundOnePath(tree, 0, hash, a, b);
      }
    }
    if OnOnePath(tree, 0, hash) {
      forall j: nat | MatchUnder(tree, 0, hash, j)
        ensures Found(tree, 0, hash, j)
      {
        OnePathFound(tree, 0, hash, j);
      }
    }
  }

  // ---------------------------------------------------------------- seen before the table is built

  /** In a tree of `n` slots filled in order from `items`: the item of rank `p` has the same hash as its
      two neighbours, and goes to a slot with two children. */
  ghost predicate Fork(n: nat, i: nat, items: seq<GoodbyeItem>, hash: nat, p: nat) {
    && 0 < p < |items| - 1 && |items| == |Slots(n, i)|
    && items[p - 1].hash == items[p].hash == items[p + 1].hash == hash
    && 2 * Slots(n, i)[p] + 2 < n
  }

  /** The in-order neighbours of a slot with two children lie on either side below it. */
  lemma {:induction false} Neighbours(n: nat, i: nat, p: nat)
    requires p < |Slots(n, i)| && 2 * Slots(n, i)[p] + 2 < n
    ensures 0 < p < |Slots(n, i)| - 1
    ensures var slots, s := Slots(n, i), Slots(n, i)[p]; Under(2 * s + 1, slots[p - 1]) && Under(2 * s + 2, slots[p + 1])
    decreases n - i
  {
    var l, r := 2 * i + 1, 2 * i + 2;
    var left, right := Slots(n, l), Slots(n, r);
    var m := |left|;
    assert Slots(n, i) == left + [i] + right;
    SlotsMembers(n, l);
    SlotsMembers(n, r);
    if p < m {
      Neighbours(n, l, p);
    } else if p > m {
      Neighbours(n, r, p - m - 1);
    } else {
      assert l in left && r in right;
      assert left[m - 1] in left && right[0] in right;
    }
  }

  /** The parts of a tree that is filled in order. */
  lemma PlacedParts<T>(tree: seq<T>, i: nat, items: seq<T>)
    requires Placed(tree, Slots(|tree|, i), items) && i < |tree|
    ensures var left, right := Slots(|tree|, 2 * i + 1), Slots(|tree|, 2 * i + 2);
            var m := |left|;
            && |items| == m + 1 + |right|
            && Slots(|tree|, i) == left + [i] + right
            && Placed(tree, left, items[..m]) && tree[i] == items[m] && Placed(tree, right, items[m + 1..])
  {
    var left, right := Slots(|tree|, 2 * i + 1), Slots(|tree|, 2 * i + 2);
    var all := Slots(|tree|, i);
    assert all == left + [i] + right && all[|left|] == i;
    assert forall k :: 0 <= k < |left| ==> left[k] == all[k];
    assert forall k :: 0 <= k < |right| ==> right[k] == all[|left| + 1 + k];
  }

  /** A match in a subtree is one of its items. */
  lemma MatchRank(tree: seq<GoodbyeItem>, i: nat, items: seq<GoodbyeItem>, hash: nat, j: nat) returns (k: nat)
    requires Placed(tree, Slots(|tree|, i), items) && MatchUnder(tree, i, hash, j)
    ensures k < |items| && items[k].hash == hash
  {
    SlotsMembers(|tree|, i);
    UnderSplit(i, j);
    k :| 0 <= k < |Slots(|tree|, i)| && Slots(|tree|, i)[k] == j;
  }

  lemma SortedParts(items: seq<GoodbyeItem>, m: nat)
    requires SortedByHash(items)
    ensures m < |items| ==> SortedByHash(items[..m]) && SortedByHash(items[m + 1..])
  {
  }

  lemma UnderSelf(i: nat, j: nat)
    ensures Under(i, i) && (Under(i, j) ==> Related(i, j) && Related(j, i))
  {
  }

  /** Matches on either side of a slot make it a fork. */
  lemma ForkHere(tree: seq<GoodbyeItem>, i: nat, items: seq<GoodbyeItem>, hash: nat, a: nat, b: nat)
    requires Placed(tree, Slots(|tree|, i), items) && SortedByHash(items) && i < |tree|
    requires MatchUnder(tree, 2 * i + 1, hash, a) && MatchUnder(tree, 2 * i + 2, hash, b)
    ensures Fork(|tree|, i, items, hash, |Slots(|tree|, 2 * i + 1)|)
  {
    hide Slots;
    var m := |Slots(|tree|, 2 * i + 1)|;
    PlacedParts(tree, i, items);
    UnderSplit(2 * i + 2, b);
    var u := MatchRank(tree, 2 * i + 1, items[..m], hash, a);
    var v := MatchRank(tree, 2 * i + 2, items[m + 1..], hash, b);
    assert items[u].hash <= items[m - 1].hash <= items[m].hash <= items[m + 1].hash <= items[m + 1 + v].hash;
  }

  lemma Lift(n: nat, i: nat, items: seq<GoodbyeItem>, hash: nat, p: nat, onLeft: bool)
    requires i < n && |items| == |Slots(n, i)|
    requires var m := |Slots(n, 2 * i + 1)|;
             && m < |items|
             && if onLeft then Fork(n, 2 * i + 1, items[..m], hash, p) else Fork(n, 2 * i + 2, items[m + 1..], hash, p)
    ensures Fork(n, i, items, hash, if onLeft then p else |Slots(n, 2 * i + 1)| + 1 + p)
  {
    assert Slots(n, i) == Slots(n, 2 * i + 1) + [i] + Slots(n, 2 * i + 2);
  }

  /** Two matches that are not on one path have a fork above them. */
  lemma {:induction false} ForkAbove(tree: seq<GoodbyeItem>, i: nat, items: seq<GoodbyeItem>, hash: nat, a: nat, b: nat)
    returns (p: nat)
    requires Placed(tree, Slots(|tree|, i), items) && SortedByHash(items) && i < |tree|
    requires MatchUnder(tree, i, hash, a) && MatchUnder(tree, i, hash, b) && !Related(a, b)
    ensures Fork(|tree|, i, items, hash, p)
    decreases |tree| - i
  {
    hide Slots, Fork, Under, Related, Placed, SortedByHash;
    SortedParts(items, |Slots(|tree|, 2 * i + 1)|);
    var n, l, r := |tree|, 2 * i + 1, 2 * i + 2;
    var m := |Slots(n, l)|;
    PlacedParts(tree, i, items);
    UnderSplit(i, a);
    UnderSplit(i, b);
    UnderSplit(l, a);
    UnderSplit(r, a);
    UnderSelf(i, a);
    UnderSelf(i, b);
    if Under(l, a) && Under(l, b) {
      p := ForkAbove(tree, l, items[..m], hash, a, b);
      Lift(n, i, items, hash, p, true);
    } else if Under(r, a) && Under(r, b) {
      var q := ForkAbove(tree, r, items[m + 1..], hash, a, b);
      Lift(n, i, items, hash, q, false);
      p := m + 1 + q;
    } else {
      p := m;
      if Under(l, a) { ForkHere(tree, i, items, hash, a, b); } else { ForkHere(tree, i, items, hash, b, a); }
    }
  }

  /** The items before and after a fork are matches on either side of its slot. */
  lemma ForkNeighbours(tree: seq<GoodbyeItem>, items: seq<GoodbyeItem>, hash: nat, p: nat) returns (s: nat, a: nat, b: nat)
    requires Placed(tree, Slots(|tree|, 0), items) && Fork(|tree|, 0, items, hash, p)
    ensures Match(tree, a, hash) && Match(tree, b, hash) && Under(2 * s + 1, a) && Under(2 * s + 2, b)
  {
    var slots := Slots(|tree|, 0);
    s, a, b := slots[p], slots[p - 1], slots[p + 1];
    Neighbours(|tree|, 0, p);
    hide Slots, Under;
    assert tree[a] == items[p - 1] && tree[b] == items[p + 1];
  }

  lemma ForkSeparates(tree: seq<GoodbyeItem>, items: seq<GoodbyeItem>, hash: nat, p: nat)
    requires Placed(tree, Slots(|tree|, 0), items) && Fork(|tree|, 0, items, hash, p)
    ensures !OnOnePath(tree, 0, hash)
  {
    hide Fork, Placed, Slots, Under, Related;
    var s, a, b := ForkNeighbours(tree, items, hash, p);
    UnderRoot(a);
    UnderRoot(b);
    SiblingsUnrelated(s, a, b);
    assert MatchUnder(tree, 0, hash, a) && MatchUnder(tree, 0, hash, b);
  }

  /** A match is lost if and only if there is a fork, which shows in the sorted items and their number. */
  lemma LostExactly(tree: seq<GoodbyeItem>, items: seq<GoodbyeItem>, hash: nat)
    requires Placed(tree, Slots(|tree|, 0), items) && SortedByHash(items)
    ensures AllFound(tree, 0, hash) <==> !exists p: nat :: Fork(|tree|, 0, items, hash, p)
  {
    hide AllFound, Slots, Fork, Placed, SortedByHash, IsSearchTree;
    ReadInOrderIsSearchTree(tree, 0, items);
    DuplicateSearchExact(tree, hash);
    if p: nat :| Fork(|tree|, 0, items, hash, p) {
      ForkSeparates(tree, items, hash, p);
    } else if a: nat, b: nat :| MatchUnder(tree, 0, hash, a) && MatchUnder(tree, 0, hash, b) && !Related(a, b) {
      var p := ForkAbove(tree, 0, items, hash, a, b);
    }
  }

  ghost predicate AtMostTwo(tree: seq<GoodbyeItem>, hash: nat) {
    forall a: nat, b: nat, c: nat :: Match(tree, a, hash) && Match(tree, b, hash) && Match(tree, c, hash)
      ==> a == b || b == c || a == c
  }

  lemma {:induction false} UnrelatedHaveThird(tree: seq<GoodbyeItem>, i: nat, hash: nat, a: nat, b: nat) returns (c: nat)
    requires IsSearchTree(tree, i) && !Related(a, b)
    requires MatchUnder(tree, i, hash, a) && MatchUnder(tree, i, hash, b)
    ensures Match(tree, c, hash) && c != a && c != b
    decreases |tree| - i
  {
    var l, r := 2 * i + 1, 2 * i + 2;
    UnderSplit(i, a);
    UnderSplit(i, b);
    if Under(l, a) && Under(l, b) {
      c := UnrelatedHaveThird(tree, l, hash, a, b);
    } else if Under(r, a) && Under(r, b) {
      c := UnrelatedHaveThird(tree, r, hash, a, b);
    } else {
      c := i;
    }
  }

  /** A hash held at most twice is always on one path, so the duplicate search is complete. */
  lemma TwoAreAlwaysFound(tree: seq<GoodbyeItem>, hash: nat)
    requires IsSearchTree(tree, 0) && AtMostTwo(tree, hash)
    ensures OnOnePath(tree, 0, hash) && AllFound(tree, 0, hash)
  {
    forall a: nat, b: nat | MatchUnder(tree, 0, hash, a) && MatchUnder(tree, 0, hash, b)
      ensures Related(a, b)
    {
      if !Related(a, b) {
        var c := UnrelatedHaveThird(tree, 0, hash, a, b);
      }
    }
    DuplicateSearchExact(tree, hash);
  }

  /** Three equal hashes: the table is `[x, y, z]`, and no `skip` ever yields slot 2. */
  lemma ThirdDuplicateIsLost(hash: nat, x: GoodbyeItem, y: GoodbyeItem, z: GoodbyeItem, skip: nat)
    requires x.hash == y.hash == z.hash == hash
    ensures IsSearchTree([x, y, z], 0) && Match([x, y, z], 2, hash)
    ensures Search([x, y, z], 0, skip, hash) != Some(2)
  {
    var t := [x, y, z];
    assert IsSearchTree(t, 3) && IsSearchTree(t, 4) && IsSearchTree(t, 5) && IsSearchTree(t, 6);
    assert IsSearchTree(t, 1) && IsSearchTree(t, 2);
    SearchReach(t, 1, skip, hash);
    SearchReach(t, 2, skip, hash);
    assert Reach(t, 1, hash) == 1 && Reach(t, 2, hash) == 1;
    if skip > 1 {
      SearchReach(t, 1, skip - 1, hash);
      SearchReach(t, 2, skip - 1, hash);
    }
  }

  /** Starting at the first hit changes nothing: `skip` counts from the topmost match. */
  lemma {:induction false} SearchFromFirst(tree: seq<GoodbyeItem>, i: nat, skip: nat, hash: nat)
    ensures var first := Search(tree, i, 0, hash);
            if first.Some? then Search(tree, first.value, skip, hash) == Search(tree, i, skip, hash)
            else Search(tree, i, skip, hash) == None
    decreases |tree| - i
  {
    if i < |tree| && hash != tree[i].hash {
      SearchFromFirst(tree, if hash < tree[i].hash then 2 * i + 1 else 2 * i + 2, skip, hash);
    }
  }

  /** `bst_copy` is a permutation: every slot of the table has exactly one source item. */
  lemma CopyIsPermutation(n: nat, j: nat) returns (k: nat)
    requires j < n
    ensures k < |Slots(n, 0)| && Slots(n, 0)[k] == j
    ensures forall k' :: 0 <= k' < |Slots(n, 0)| && Slots(n, 0)[k'] == j ==> k' == k
  {
    SlotsMembers(n, 0);
    UnderRoot(j);
    k :| 0 <= k < |Slots(n, 0)| && Slots(n, 0)[k] == j;
    SlotsDistinct(n, 0);
  }
}
