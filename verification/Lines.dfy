/** Where lines end. */
module Lines {
  import opened Bytes

  const NEWLINE: byte := 10

  function FirstNewline(s: seq<byte>): (pos: Option<nat>)
    ensures pos.Some? ==> pos.value < |s| && s[pos.value] == NEWLINE && NEWLINE !in s[..pos.value]
    ensures pos.None? ==> NEWLINE !in s
  {
    if s == [] then None
    else if s[0] == NEWLINE then Some(0)
    else
      var rest := FirstNewline(s[1..]);
      assert s == [s[0]] + s[1..];
      if rest.None? then None
      else
        assert s[..rest.value + 1] == [s[0]] + s[1..][..rest.value];
        Some(rest.value + 1)
  }

  lemma {:induction false} FirstNewlineConcat(a: seq<byte>, b: seq<byte>)
    ensures FirstNewline(a + b)
         == if FirstNewline(a).Some? then FirstNewline(a)
            else if FirstNewline(b).Some? then Some(|a| + FirstNewline(b).value)
            else None
  {
    if a == [] {
      assert a + b == b;
    } else {
      FirstNewlineConcat(a[1..], b);
      assert (a + b)[1..] == a[1..] + b;
    }
  }

  /** The lines of `s`, each with its newline; the last one may have none. */
  function SplitLines(s: seq<byte>): (lines: seq<seq<byte>>)
    ensures s != [] <==> lines != []
  {
    if s == [] then []
    else
      match FirstNewline(s)
      case Some(pos) => [s[..pos + 1]] + SplitLines(s[pos + 1..])
      case None => [s]
  }

  /** Where a newline ends the first part, the lines of the whole are those of the parts. */
  lemma {:induction false} SplitConcat(a: seq<byte>, b: seq<byte>)
    requires a != [] ==> a[|a| - 1] == NEWLINE
    ensures SplitLines(a + b) == SplitLines(a) + SplitLines(b)
    decreases |a|
  {
    if a == [] {
      assert a + b == b;
    } else {
      FirstNewlineConcat(a, b);
      var n := FirstNewline(a).value + 1;
      assert (a + b)[..n] == a[..n] && (a + b)[n..] == a[n..] + b;
      SplitConcat(a[n..], b);
      ConcatIsAssociative([a[..n]], SplitLines(a[n..]), SplitLines(b));
      hide FirstNewline;
    }
  }

  lemma {:induction false} SplitJoins(s: seq<byte>)
    ensures Concat(SplitLines(s)) == s
    decreases |s|
  {
    if s != [] {
      match FirstNewline(s)
      case None =>
      case Some(pos) =>
        SplitJoins(s[pos + 1..]);
        assert s == s[..pos + 1] + s[pos + 1..];
    }
  }

  /** A line is never empty and has no newline but at its end, and only the last one may have none. */
  lemma {:induction false} LinesEndOnce(s: seq<byte>)
    ensures forall line :: line in SplitLines(s) ==> line != [] && 10 !in line[..|line| - 1]
    ensures forall i :: 0 <= i < |SplitLines(s)| - 1 ==> SplitLines(s)[i][|SplitLines(s)[i]| - 1] == 10
    decreases |s|
  {
    hide FirstNewline, SplitLines;
    LinesFirst(s);
    if s != [] {
      match FirstNewline(s)
      case None =>
      case Some(pos) =>
        LinesEndOnce(s[pos + 1..]);
        var line := s[..pos + 1];
        assert line[..pos] == s[..pos] && line[pos] == 10;
    }
  }

  lemma LinesFirst(s: seq<byte>)
    ensures SplitLines(s)
         == if s == [] then []
            else
              match FirstNewline(s)
              case Some(pos) => [s[..pos + 1]] + SplitLines(s[pos + 1..])
              case None => [s]
  {
  }
}
