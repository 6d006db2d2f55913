/** Paths as byte strings. */
module Paths {
  import opened Bytes

  const SLASH: byte := 47

  /** `PathBuf::push`: an absolute name replaces the path, else one separator is put between. */
  function PushPath(path: seq<byte>, name: seq<byte>): seq<byte> {
    if name != [] && name[0] == SLASH then name
    else if path == [] || path[|path| - 1] == SLASH then path + name
    else path + [SLASH] + name
  }

  /** An absolute name stands alone; any other one is all that is added, behind exactly one slash
      where there is something to separate. */
  lemma PushedOnce(path: seq<byte>, name: seq<byte>)
    ensures [47] <= name ==> PushPath(path, name) == name
    ensures !([47] <= name) ==> path <= PushPath(path, name) && name == PushPath(path, name)[|PushPath(path, name)| - |name|..]
    ensures !([47] <= name) ==>
              |PushPath(path, name)| == |path| + |name| + if path == [] || path[|path| - 1] == 47 then 0 else 1
    ensures !([47] <= name) && path != [] ==>
              PushPath(path, name)[|PushPath(path, name)| - |name| - 1] == 47
  {
  }

  function Separator(path: seq<byte>): seq<byte> {
    if path == [] || path[|path| - 1] == 47 then [] else [47]
  }

  lemma PushedRelative(path: seq<byte>, name: seq<byte>)
    ensures PushPath(path, name) == if [47] <= name then name else path + (Separator(path) + name)
  {
    if path != [] && path[|path| - 1] != 47 { assert path + [47] + name == path + ([47] + name); }
  }

  lemma SeparatorOfLast(path: seq<byte>, name: seq<byte>)
    ensures Separator(path + name) == if name == [] then Separator(path) else Separator(name)
    ensures Separator(path + Separator(path)) == []
    ensures ([47] <= path + name) <==> if path == [] then [47] <= name else [47] <= path
  {
    if name == [] { assert path + name == path; }
    if path == [] { assert path + name == name; }
  }

  /** Pushing two names one after the other is pushing the one with the other pushed onto it. */
  lemma PushIsAssociative(a: seq<byte>, b: seq<byte>, c: seq<byte>)
    ensures PushPath(PushPath(a, b), c) == PushPath(a, PushPath(b, c))
  {
    hide PushPath, Separator;
    var sep, sep' := Separator(a), Separator(b);
    PushedRelative(a, b);
    PushedRelative(b, c);
    PushedRelative(PushPath(a, b), c);
    PushedRelative(a, PushPath(b, c));
    if !([47] <= b) && !([47] <= c) {
      SeparatorOfLast(a, sep + b);
      SeparatorOfLast(sep, b);
      SeparatorOfLast(b, sep' + c);
      NoLeadingSlash(b, c);
      if b == [] {
        SeparatorOfLast(a, sep);
        assert sep + [] == sep && [] + ([] + c) == c;
        ConcatIsAssociative(a, sep, c);
      } else {
        ConcatIsAssociative(sep, b, sep' + c);
        ConcatIsAssociative(a, sep + b, sep' + c);
      }
    }
  }

  lemma NoLeadingSlash(b: seq<byte>, c: seq<byte>)
    ensures b == [] ==> Separator(b) == []
    ensures b == [] ==> b + (Separator(b) + c) == c
  {
  }

  // ---------------------------------------------------------------- paths as lists of names

  /** A name that is one component of a path. */
  predicate Proper(name: seq<byte>) {
    name != [] && 47 !in name
  }

  ghost predicate AllProper(names: seq<seq<byte>>) {
    forall i :: 0 <= i < |names| ==> Proper(names[i])
  }

  /** The names, each behind a slash. */
  function Slashed(names: seq<seq<byte>>): seq<byte> {
    Concat(seq(|names|, i requires 0 <= i < |names| => [47] + names[i]))
  }

  /** The absolute path of what `names` lead to, and the one relative to the root. */
  function Absolute(names: seq<seq<byte>>): seq<byte> {
    if names == [] then [47] else Slashed(names)
  }

  function Relative(names: seq<seq<byte>>): seq<byte> {
    if Slashed(names) == [] then [] else Slashed(names)[1..]
  }

  lemma SlashedNext(names: seq<seq<byte>>, name: seq<byte>)
    ensures Slashed(names + [name]) == Slashed(names) + ([47] + name)
  {
    var all := names + [name];
    var front := seq(|names|, i requires 0 <= i < |names| => [47] + names[i]);
    assert seq(|all|, i requires 0 <= i < |all| => [47] + all[i]) == front + [[47] + name];
    ConcatAppend(front, [47] + name);
  }

  lemma SlashedLast(names: seq<seq<byte>>)
    requires names != []
    ensures Slashed(names) == Slashed(names[..|names| - 1]) + ([47] + names[|names| - 1])
  {
    assert names == names[..|names| - 1] + [names[|names| - 1]];
    SlashedNext(names[..|names| - 1], names[|names| - 1]);
  }

  /** Pushing a name is going one component further down. */
  lemma PushedIsSlashed(names: seq<seq<byte>>, name: seq<byte>)
    requires AllProper(names) && Proper(name)
    ensures PushPath(Absolute(names), name) == Absolute(names + [name])
    ensures PushPath(Relative(names), name) == Relative(names + [name])
  {
    hide Slashed;
    SlashedNext(names, name);
    assert name[0] in name;
    if names == [] {
      assert Slashed([]) == [] by { NothingSlashed(); }
      assert [] + ([47] + name) == [47] + name;
    } else {
      var last := names[|names| - 1];
      SlashedLast(names);
      var path := Slashed(names);
      assert Proper(last) && last[|last| - 1] in last;
      assert path[|path| - 1] == last[|last| - 1];
      assert path + ([47] + name) == path + [47] + name;
      assert (path + ([47] + name))[1..] == path[1..] + [47] + name;
    }
  }

  lemma NothingSlashed()
    ensures Slashed([]) == []
  {
  }

  /** The path says which names were taken: two lists of proper names never give the same path. */
  lemma {:induction false} SlashedIsInjective(a: seq<seq<byte>>, b: seq<seq<byte>>)
    requires AllProper(a) && AllProper(b) && Slashed(a) == Slashed(b)
    ensures a == b
    decreases |a|
  {
    hide Slashed;
    NothingSlashed();
    if a == [] || b == [] {
      if a != [] { SlashedLast(a); }
      if b != [] { SlashedLast(b); }
    } else {
      SlashedLast(a);
      SlashedLast(b);
      var (x, y) := (a[|a| - 1], b[|b| - 1]);
      var (front, back) := (a[..|a| - 1], b[..|b| - 1]);
      SameLast(Slashed(front), x, Slashed(back), y);
      SlashedIsInjective(front, back);
      assert a == front + [x] && b == back + [y];
    }
  }

  /** What stands behind the last slash. */
  lemma SameLast(p: seq<byte>, x: seq<byte>, q: seq<byte>, y: seq<byte>)
    requires p + ([47] + x) == q + ([47] + y) && Proper(x) && Proper(y)
    ensures p == q && x == y
  {
    var s := p + ([47] + x);
    var t := q + ([47] + y);
    assert s[|p|] == 47 && t[|q|] == 47;
    assert s == t;
    assert forall i :: |p| < i < |s| ==> s[i] == x[i - |p| - 1];
    assert forall i :: |q| < i < |t| ==> t[i] == y[i - |q| - 1];
    if |p| < |q| {
      assert false;
    } else if |q| < |p| {
      assert false;
    } else {
      assert p == s[..|p|] && q == t[..|q|];
      assert x == s[|p| + 1..] && y == t[|q| + 1..];
    }
  }
}
