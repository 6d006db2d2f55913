/** `deduplicate_paths`: of a list of paths, those that no other one covers. */
module DedupPaths {
  import opened Bytes

  /** A component of a Unix path, in the order in which components compare. */
  datatype Component = RootDir | CurDir | ParentDir | Normal(name: seq<byte>)

  type Path = seq<Component>

  // ---------------------------------------------------------------- the order

  predicate BytesLess(a: seq<byte>, b: seq<byte>) {
    b != [] && (a == [] || a[0] < b[0] || (a[0] == b[0] && BytesLess(a[1..], b[1..])))
  }

  function Rank(c: Component): nat {
    match c
    case RootDir => 0
    case CurDir => 1
    case ParentDir => 2
    case Normal(_) => 3
  }

  predicate ComponentLess(c: Component, d: Component) {
    Rank(c) < Rank(d) || (c.Normal? && d.Normal? && BytesLess(c.name, d.name))
  }

  predicate PathLess(p: Path, q: Path) {
    q != [] && (p == [] || ComponentLess(p[0], q[0]) || (p[0] == q[0] && PathLess(p[1..], q[1..])))
  }

  lemma {:induction false} BytesOrder(a: seq<byte>, b: seq<byte>)
    ensures if a == b then !BytesLess(a, b) else BytesLess(a, b) != BytesLess(b, a)
  {
    if a != [] && b != [] {
      BytesOrder(a[1..], b[1..]);
      assert a == [a[0]] + a[1..] && b == [b[0]] + b[1..];
    }
  }

  lemma {:induction false} BytesTransitive(a: seq<byte>, b: seq<byte>, c: seq<byte>)
    requires BytesLess(a, b) && BytesLess(b, c)
    ensures BytesLess(a, c)
  {
    if a != [] && a[0] == b[0] == c[0] {
      BytesTransitive(a[1..], b[1..], c[1..]);
    }
  }

  lemma ComponentOrder(c: Component, d: Component)
    ensures if c == d then !ComponentLess(c, d) else ComponentLess(c, d) != ComponentLess(d, c)
  {
    if c.Normal? && d.Normal? { BytesOrder(c.name, d.name); }
  }

  lemma ComponentTransitive(c: Component, d: Component, e: Component)
    requires ComponentLess(c, d) && ComponentLess(d, e)
    ensures ComponentLess(c, e)
  {
    if c.Normal? && d.Normal? && e.Normal? { BytesTransitive(c.name, d.name, e.name); }
  }

  lemma {:induction false} PathOrder(p: Path, q: Path)
    ensures if p == q then !PathLess(p, q) else PathLess(p, q) != PathLess(q, p)
  {
    if p != [] && q != [] {
      hide ComponentLess;
      ComponentOrder(p[0], q[0]);
      PathOrder(p[1..], q[1..]);
      assert p == [p[0]] + p[1..] && q == [q[0]] + q[1..];
      ComponentOrder(q[0], p[0]);
    }
  }

  lemma {:induction false} PathTransitive(p: Path, q: Path, r: Path)
    requires PathLess(p, q) && PathLess(q, r)
    ensures PathLess(p, r)
  {
    hide ComponentLess;
    if p != [] {
      if ComponentLess(p[0], q[0]) && ComponentLess(q[0], r[0]) {
        ComponentTransitive(p[0], q[0], r[0]);
      } else if p[0] == q[0] == r[0] && !ComponentLess(p[0], q[0]) && !ComponentLess(q[0], r[0]) {
        PathTransitive(p[1..], q[1..], r[1..]);
      } else {
        ComponentOrder(p[0], p[0]);
        ComponentOrder(r[0], r[0]);
      }
    }
  }

  /** Byte strings compare at the first byte in which they differ, and a prefix comes first. */
  lemma {:induction false} BytesFirstDifference(a: seq<byte>, b: seq<byte>, n: nat)
    requires n <= |a| && n <= |b| && a[..n] == b[..n]
    ensures n == |a| ==> (BytesLess(a, b) <==> n < |b|)
    ensures n == |b| ==> !BytesLess(a, b)
    ensures n < |a| && n < |b| && a[n] != b[n] ==> (BytesLess(a, b) <==> a[n] < b[n])
  {
    if n > 0 {
      assert a[0] == a[..n][0] == b[..n][0] == b[0];
      assert a[1..][..n - 1] == a[..n][1..] == b[1..][..n - 1];
      BytesFirstDifference(a[1..], b[1..], n - 1);
    }
  }

  /** So do paths, by whole components; names compare as byte strings, after the other components. */
  lemma {:induction false} PathsFirstDifference(p: Path, q: Path, n: nat)
    requires n <= |p| && n <= |q| && p[..n] == q[..n]
    ensures n == |p| ==> (PathLess(p, q) <==> n < |q|)
    ensures n == |q| ==> !PathLess(p, q)
    ensures n < |p| && n < |q| && p[n] != q[n] ==>
              (PathLess(p, q) <==>
                 match (p[n], q[n])
                 case (Normal(x), Normal(y)) => BytesLess(x, y)
                 case (c, Normal(_)) => true
                 case (c, d) => (c == RootDir && (d == CurDir || d == ParentDir)) || (c == CurDir && d == ParentDir))
  {
    if n > 0 {
      assert p[0] == p[..n][0] == q[..n][0] == q[0];
      assert p[1..][..n - 1] == p[..n][1..] == q[1..][..n - 1];
      ComponentOrder(p[0], q[0]);
      hide ComponentLess;
      PathsFirstDifference(p[1..], q[1..], n - 1);
    }
  }

  /** Component-wise, and on whole components. */
  predicate StartsWith(p: Path, q: Path) {
    q <= p
  }

  lemma {:induction false} PrefixFirst(p: Path, q: Path)
    requires StartsWith(p, q) && p != q
    ensures PathLess(q, p)
  {
    if q != [] {
      assert p[1..] != q[1..] by { assert p == [p[0]] + p[1..] && q == [q[0]] + q[1..]; }
      PrefixFirst(p[1..], q[1..]);
    }
  }

  /** What stands in the order between a path and one below it is below it too. */
  lemma {:induction false} DescendantsAreContiguous(q: Path, m: Path, p: Path)
    requires StartsWith(p, q) && (q == m || PathLess(q, m)) && (m == p || PathLess(m, p))
    ensures StartsWith(m, q)
  {
    if q != [] && q != m && m != p {
      hide ComponentLess;
      ComponentOrder(q[0], m[0]);
      ComponentOrder(m[0], q[0]);
      assert m[0] == q[0] == p[0];
      assert p == [p[0]] + p[1..] && q == [q[0]] + q[1..] && m == [m[0]] + m[1..];
      ComponentOrder(q[0], q[0]);
      DescendantsAreContiguous(q[1..], m[1..], p[1..]);
    }
  }

  // ---------------------------------------------------------------- sorting and dropping repetitions

  ghost predicate Sorted(paths: seq<Path>) {
    forall i, j :: 0 <= i < j < |paths| ==> paths[i] == paths[j] || PathLess(paths[i], paths[j])
  }

  ghost predicate StrictlySorted(paths: seq<Path>) {
    forall i, j :: 0 <= i < j < |paths| ==> PathLess(paths[i], paths[j])
  }

  function Insert(path: Path, paths: seq<Path>): seq<Path> {
    if paths == [] || path == paths[0] || PathLess(path, paths[0]) then [path] + paths
    else [paths[0]] + Insert(path, paths[1..])
  }

  /** `sort`, for which only its contract matters. */
  function Sort(paths: seq<Path>): seq<Path> {
    if paths == [] then [] else Insert(paths[0], Sort(paths[1..]))
  }

  lemma {:induction false} InsertHas(path: Path, paths: seq<Path>, p: Path)
    ensures p in Insert(path, paths) <==> p == path || p in paths
  {
    if !(paths == [] || path == paths[0] || PathLess(path, paths[0])) {
      InsertHas(path, paths[1..], p);
      assert paths == [paths[0]] + paths[1..];
    }
  }

  lemma {:induction false} InsertSorts(path: Path, paths: seq<Path>)
    requires Sorted(paths)
    ensures Sorted(Insert(path, paths))
  {
    hide PathLess;
    if paths == [] {
    } else if path == paths[0] || PathLess(path, paths[0]) {
      forall j | 0 <= j < |paths| ensures path == paths[j] || PathLess(path, paths[j]) {
        if j > 0 && path != paths[0] && paths[0] != paths[j] { PathTransitive(path, paths[0], paths[j]); }
      }
    } else {
      var rest := Insert(path, paths[1..]);
      InsertSorts(path, paths[1..]);
      PathOrder(path, paths[0]);
      forall j | 0 <= j < |rest| ensures paths[0] == rest[j] || PathLess(paths[0], rest[j]) {
        InsertHas(path, paths[1..], rest[j]);
      }
    }
  }

  lemma {:induction false} SortIsRight(paths: seq<Path>)
    ensures Sorted(Sort(paths)) && forall p :: p in Sort(paths) <==> p in paths
  {
    if paths != [] {
      hide Sorted, PathLess;
      SortIsRight(paths[1..]);
      InsertSorts(paths[0], Sort(paths[1..]));
      assert paths == [paths[0]] + paths[1..];
      forall p ensures p in Sort(paths) <==> p in paths {
        InsertHas(paths[0], Sort(paths[1..]), p);
      }
    } else {
      assert Sorted([]);
    }
  }

  /** `dedup`: of a stretch of equal elements the first stays. */
  method Dedup(paths: seq<Path>) returns (r: seq<Path>)
    requires Sorted(paths)
    ensures StrictlySorted(r) && forall p :: p in r <==> p in paths
  {
    hide PathLess;
    r := [];
    for i := 0 to |paths|
      invariant StrictlySorted(r)
      invariant forall p :: p in r <==> p in paths[..i]
      invariant r == [] <==> i == 0
      invariant r != [] ==> r[|r| - 1] == paths[i - 1]
    {
      assert paths[..i + 1] == paths[..i] + [paths[i]];
      if r == [] || r[|r| - 1] != paths[i] {
        forall k | 0 <= k < |r| ensures PathLess(r[k], paths[i]) {
          assert PathLess(r[|r| - 1], paths[i]);
          if k < |r| - 1 { PathTransitive(r[k], r[|r| - 1], paths[i]); }
        }
        r := r + [paths[i]];
      }
    }
    assert paths[..|paths|] == paths;
  }

  // ---------------------------------------------------------------- the cover

  /** No other path of the list is above `p`. */
  ghost predicate Uncovered(p: Path, paths: seq<Path>) {
    forall q :: q in paths && q <= p ==> q == p
  }

  /** Exactly the uncovered paths, each once, in order. */
  ghost predicate IsMinimalCover(paths: seq<Path>, cover: seq<Path>) {
    StrictlySorted(cover) && forall p :: p in cover <==> p in paths && Uncovered(p, paths)
  }

  /** Every path is below one of the cover. */
  lemma {:induction false} CoverCovers(paths: seq<Path>, cover: seq<Path>, p: Path) returns (q: Path)
    requires IsMinimalCover(paths, cover) && p in paths
    ensures q in cover && q <= p
    decreases |p|
  {
    if Uncovered(p, paths) {
      q := p;
    } else {
      var above :| above in paths && above <= p && above != p;
      q := CoverCovers(paths, cover, above);
    }
  }

  /** There is only one such list. */
  lemma CoverIsUnique(paths: seq<Path>, a: seq<Path>, b: seq<Path>)
    requires IsMinimalCover(paths, a) && IsMinimalCover(paths, b)
    ensures a == b
  {
    assert forall p :: p in a <==> p in b;
    SameMembers(a, b);
  }

  lemma {:induction false} SameMembers(a: seq<Path>, b: seq<Path>)
    requires StrictlySorted(a) && StrictlySorted(b) && forall p :: p in a <==> p in b
    ensures a == b
    decreases |a|
  {
    hide PathLess;
    assert (a != [] ==> a[0] in b) && (b != [] ==> b[0] in a);
    if a != [] {
      var i :| 0 <= i < |b| && b[i] == a[0];
      var j :| 0 <= j < |a| && a[j] == b[0];
      PathOrder(a[0], b[0]);
      assert a[0] == b[0];
      forall p ensures p in a[1..] <==> p in b[1..] {
        PathOrder(p, p);
        InTail(a, p);
        InTail(b, p);
      }
      SameMembers(a[1..], b[1..]);
      assert a == [a[0]] + a[1..] && b == [b[0]] + b[1..];
    }
  }

  lemma InTail(s: seq<Path>, p: Path)
    requires StrictlySorted(s) && s != []
    ensures p in s[1..] <==> p in s && p != s[0]
  {
    hide PathLess;
    assert s == [s[0]] + s[1..];
    if p in s[1..] {
      var k :| 0 <= k < |s| - 1 && s[1..][k] == p;
      PathOrder(p, p);
      assert PathLess(s[0], s[k + 1]);
    }
  }

  /** In order, the last path kept is the only one to look at. */
  lemma LastDecides(done: seq<Path>, unique: seq<Path>, path: Path)
    requires IsMinimalCover(done, unique) && StrictlySorted(done + [path])
    ensures (exists q :: q in done && StartsWith(path, q))
       <==> unique != [] && StartsWith(path, unique[|unique| - 1])
    ensures !exists q :: q in done && StartsWith(q, path)
  {
    hide PathLess;
    var all := done + [path];
    forall q | q in done ensures PathLess(q, path) && !StartsWith(q, path) {
      var i :| 0 <= i < |done| && done[i] == q;
      assert PathLess(all[i], all[|done|]);
      PathOrder(q, path);
      if StartsWith(q, path) && q != path { PrefixFirst(q, path); }
    }
    if q :| q in done && StartsWith(path, q) {
      var k := CoverCovers(done, unique, q);
      var last := unique[|unique| - 1];
      assert last in unique;
      var i :| 0 <= i < |unique| && unique[i] == k;
      DescendantsAreContiguous(k, last, path);
    }
    if unique != [] { assert unique[|unique| - 1] in unique; }
  }

  /** `deduplicate_paths`. */
  method DeduplicatePaths(paths: seq<Path>) returns (unique: seq<Path>)
    ensures IsMinimalCover(paths, unique)
  {
    if paths == [] {
      return [];
    }
    SortIsRight(paths);
    var sorted := Dedup(Sort(paths));
    unique := [];
    for i := 0 to |sorted|
      invariant IsMinimalCover(sorted[..i], unique)
    {
      var path := sorted[i];
      assert sorted[..i + 1] == sorted[..i] + [path];
      LastDecides(sorted[..i], unique, path);
      CoverGrows(sorted[..i], unique, path);
      if unique != [] && StartsWith(path, unique[|unique| - 1]) {
        continue;
      }
      unique := unique + [path];
    }
    assert sorted[..|sorted|] == sorted;
    SameCover(sorted, paths, unique);
  }

  lemma CoverGrows(done: seq<Path>, unique: seq<Path>, path: Path)
    requires IsMinimalCover(done, unique) && StrictlySorted(done + [path])
    requires !exists q :: q in done && StartsWith(q, path)
    ensures IsMinimalCover(done + [path],
                           if exists q :: q in done && StartsWith(path, q) then unique else unique + [path])
  {
    hide PathLess;
    var all := done + [path];
    forall q | q in done ensures PathLess(q, path) {
      var i :| 0 <= i < |done| && done[i] == q;
      assert PathLess(all[i], all[|done|]);
    }
    forall p ensures Uncovered(p, all) <==> Uncovered(p, done) && (path <= p ==> p == path) {
      assert forall q :: q in all <==> q in done || q == path;
      if Uncovered(p, all) {
        assert path in all;
        forall q | q in done && q <= p ensures q == p { assert q in all; }
      }
    }
    forall k | 0 <= k < |unique| ensures PathLess(unique[k], path) {
      assert unique[k] in unique;
    }
  }

  lemma SameCover(a: seq<Path>, b: seq<Path>, cover: seq<Path>)
    requires IsMinimalCover(a, cover) && forall p :: p in a <==> p in b
    ensures IsMinimalCover(b, cover)
  {
    forall p ensures Uncovered(p, a) <==> Uncovered(p, b) {
    }
  }
}
