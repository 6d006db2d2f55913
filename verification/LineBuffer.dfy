/** `LineBuffer`: cuts a stream of bytes, arriving in any pieces, into trimmed lines of bounded length. */
module LineBuffer {
  import opened Bytes
  import opened Lines

  const MAX_LINE_LENGTH: nat := 5120
  const COMPACT_THRESHOLD: nat := 10240

  // ---------------------------------------------------------------- one line of what is waiting

  /** A line before trimming, and whether a newline ended it. */
  datatype Piece = Piece(bytes: seq<byte>, newline: bool) {
    /** The bytes of the stream it accounts for. */
    function Raw(): seq<byte> {
      bytes + if newline then [NEWLINE] else []
    }
  }

  function NextPiece(waiting: seq<byte>): (piece: Option<Piece>)
    ensures piece.Some? ==> 0 < |piece.value.Raw()| <= |waiting|
  {
    match FirstNewline(waiting)
    case Some(pos) =>
      if pos <= MAX_LINE_LENGTH then Some(Piece(waiting[..pos], true))
      else Some(Piece(waiting[..MAX_LINE_LENGTH], false))
    case None =>
      if |waiting| > MAX_LINE_LENGTH then Some(Piece(waiting[..MAX_LINE_LENGTH], false)) else None
  }

  lemma NextPieceShape(waiting: seq<byte>)
    requires NextPiece(waiting).Some?
    ensures var piece := NextPiece(waiting).value;
            && piece.Raw() == waiting[..|piece.Raw()|]
            && |piece.bytes| <= MAX_LINE_LENGTH && NEWLINE !in piece.bytes
            && (!piece.newline ==> |piece.bytes| == MAX_LINE_LENGTH)
  {
    var piece := NextPiece(waiting).value;
    var pos := FirstNewline(waiting);
    if pos.Some? && pos.value > MAX_LINE_LENGTH {
      assert waiting[..MAX_LINE_LENGTH] == waiting[..pos.value][..MAX_LINE_LENGTH];
    }
  }

  /** All the lines that can be had, and what is left then. */
  function Pieces(waiting: seq<byte>): seq<Piece> {
    var piece := NextPiece(waiting);
    if piece.None? then [] else [piece.value] + Pieces(waiting[|piece.value.Raw()|..])
  }

  function Remainder(waiting: seq<byte>): seq<byte> {
    var piece := NextPiece(waiting);
    if piece.None? then waiting else Remainder(waiting[|piece.value.Raw()|..])
  }

  function Rebuilt(pieces: seq<Piece>): seq<byte> {
    if pieces == [] then [] else Rebuilt(pieces[..|pieces| - 1]) + pieces[|pieces| - 1].Raw()
  }

  /** A line that can be had stays the same whatever arrives later. */
  lemma NextPieceIsStable(a: seq<byte>, b: seq<byte>)
    requires NextPiece(a).Some?
    ensures NextPiece(a + b) == NextPiece(a)
  {
    FirstNewlineConcat(a, b);
    var n := |NextPiece(a).value.bytes|;
    assert (a + b)[..n] == a[..n];
  }

  /** Cutting what came first and then the rest is cutting all of it. */
  lemma {:induction false} CutInTwo(a: seq<byte>, b: seq<byte>)
    ensures Pieces(a + b) == Pieces(a) + Pieces(Remainder(a) + b)
    ensures Remainder(a + b) == Remainder(Remainder(a) + b)
    decreases |a|
  {
    hide NextPiece;
    var piece := NextPiece(a);
    if piece.Some? {
      var n := |piece.value.Raw()|;
      NextPieceIsStable(a, b);
      CutInTwo(a[n..], b);
      assert (a + b)[n..] == a[n..] + b;
    } else {
      assert Remainder(a) == a;
    }
  }

  /** Nothing is lost: the lines, their newlines and the remainder are the input. */
  lemma {:induction false} CutRebuilds(s: seq<byte>)
    ensures Rebuilt(Pieces(s)) + Remainder(s) == s
    decreases |s|
  {
    hide NextPiece;
    var piece := NextPiece(s);
    if piece.Some? {
      var raw := piece.value.Raw();
      NextPieceShape(s);
      CutRebuilds(s[|raw|..]);
      RebuiltFirst(piece.value, Pieces(s[|raw|..]));
      assert s == raw + s[|raw|..];
    }
  }

  lemma {:induction false} RebuiltFirst(first: Piece, pieces: seq<Piece>)
    ensures Rebuilt([first] + pieces) == first.Raw() + Rebuilt(pieces)
  {
    var all := [first] + pieces;
    if pieces == [] {
      assert all[..0] == [];
    } else {
      RebuiltFirst(first, pieces[..|pieces| - 1]);
      assert all[..|all| - 1] == [first] + pieces[..|pieces| - 1];
    }
  }

  /** Every line is within the limit, has no newline in it, and is cut short of one only at the limit;
      what is left is a line that has not ended and is not over the limit. */
  lemma {:induction false} CutIsBounded(s: seq<byte>)
    ensures forall p :: p in Pieces(s) ==>
              && |p.bytes| <= MAX_LINE_LENGTH && NEWLINE !in p.bytes
              && (p.newline || |p.bytes| == MAX_LINE_LENGTH)
    ensures |Remainder(s)| <= MAX_LINE_LENGTH && NEWLINE !in Remainder(s)
    decreases |s|
  {
    var piece := NextPiece(s);
    if piece.Some? {
      NextPieceShape(s);
      CutIsBounded(s[|piece.value.Raw()|..]);
    }
  }

  // ---------------------------------------------------------------- trimming

  predicate IsWhitespace(b: byte) {
    b in {9, 10, 12, 13, 32}
  }

  function TrimStart(s: seq<byte>): seq<byte> {
    if s != [] && IsWhitespace(s[0]) then TrimStart(s[1..]) else s
  }

  function TrimEnd(s: seq<byte>): seq<byte> {
    if s != [] && IsWhitespace(s[|s| - 1]) then TrimEnd(s[..|s| - 1]) else s
  }

  /** `trim_ascii`. */
  function Trim(s: seq<byte>): seq<byte> {
    TrimEnd(TrimStart(s))
  }

  lemma {:induction false} TrimStartCuts(s: seq<byte>) returns (n: nat)
    ensures n <= |s| && TrimStart(s) == s[n..] && forall i :: 0 <= i < n ==> IsWhitespace(s[i])
    ensures TrimStart(s) != [] ==> !IsWhitespace(TrimStart(s)[0])
  {
    n := 0;
    if s != [] && IsWhitespace(s[0]) {
      n := TrimStartCuts(s[1..]);
      n := n + 1;
      forall i | 0 <= i < n ensures IsWhitespace(s[i]) {
        if i > 0 { assert s[i] == s[1..][i - 1]; }
      }
    }
  }

  lemma {:induction false} TrimEndCuts(s: seq<byte>) returns (n: nat)
    ensures n <= |s| && TrimEnd(s) == s[..n] && forall i :: n <= i < |s| ==> IsWhitespace(s[i])
    ensures TrimEnd(s) != [] ==> !IsWhitespace(TrimEnd(s)[|TrimEnd(s)| - 1])
  {
    n := |s|;
    if s != [] && IsWhitespace(s[|s| - 1]) {
      n := TrimEndCuts(s[..|s| - 1]);
      assert s[..|s| - 1][..n] == s[..n];
    }
  }

  /** What is trimmed is white space at the ends, all of it. */
  lemma TrimCutsTheEnds(s: seq<byte>) returns (from: nat, to: nat)
    ensures from <= to <= |s| && Trim(s) == s[from..to]
    ensures forall i :: 0 <= i < from || to <= i < |s| ==> s[i] in {9, 10, 12, 13, 32}
    ensures from < to ==> s[from] !in {9, 10, 12, 13, 32} && s[to - 1] !in {9, 10, 12, 13, 32}
  {
    hide TrimStart, TrimEnd;
    from := TrimStartCuts(s);
    var n := TrimEndCuts(s[from..]);
    to := from + n;
    forall i | to <= i < |s| ensures IsWhitespace(s[i]) {
      assert s[i] == s[from..][i - from];
    }
    assert s[from..][..n] == s[from..to];
    if n > 0 {
      assert TrimStart(s)[0] == s[from] && TrimEnd(s[from..])[n - 1] == s[to - 1];
      if IsWhitespace(s[from]) { assert false; }
    }
  }

  // ---------------------------------------------------------------- the buffer

  function TrimAll(pieces: seq<Piece>): (lines: seq<seq<byte>>)
    ensures |lines| == |pieces|
  {
    seq(|pieces|, i requires 0 <= i < |pieces| => Trim(pieces[i].bytes))
  }

  class LineBuffer {
    var buffer: seq<byte>
    var lineStart: nat
    /** All that came in, and the lines that went out, before trimming. */
    ghost var input: seq<byte>
    ghost var given: seq<Piece>

    function Waiting(): seq<byte>
      requires lineStart <= |buffer|
      reads this
    {
      buffer[lineStart..]
    }

    /** What went out and what is waiting are the input cut up as if it had come in one piece. */
    ghost predicate Valid()
      reads this
    {
      && lineStart <= |buffer|
      && Pieces(input) == given + Pieces(Waiting())
      && Remainder(input) == Remainder(Waiting())
      && Rebuilt(given) + Waiting() == input
    }

    constructor ()
      ensures Valid() && input == [] && given == []
    {
      buffer, lineStart, input, given := [], 0, [], [];
    }

    method Extend(data: seq<byte>)
      requires Valid()
      modifies this
      ensures Valid() && input == old(input) + data && given == old(given)
    {
      hide Pieces, Remainder, Rebuilt;
      CutInTwo(input, data);
      CutInTwo(Waiting(), data);
      assert buffer[lineStart..] + data == (buffer + data)[lineStart..];
      buffer := buffer + data;
      input := input + data;
    }

    method NextLine() returns (line: Option<seq<byte>>)
      requires Valid()
      modifies this
      ensures Valid() && input == old(input)
      ensures line.None? ==> given == old(given) == Pieces(input) && Waiting() == Remainder(input)
      ensures line.Some? ==>
                && |given| == |old(given)| + 1 && old(given) <= given <= Pieces(input)
                && line.value == Trim(given[|old(given)|].bytes)
                && |Waiting()| < |old(Waiting())|
    {
      hide Pieces, Remainder, Rebuilt, Trim;
      ghost var waiting := Waiting();
      ghost var piece := NextPiece(waiting);
      var newline := FirstNewline(buffer[lineStart..]);
      var available := |buffer| - lineStart;
      var len, advance;
      match newline {
        case Some(pos) =>
          if pos <= MAX_LINE_LENGTH {
            len, advance := pos, pos + 1;
          } else {
            len, advance := MAX_LINE_LENGTH, MAX_LINE_LENGTH;
          }
        case None =>
          if available > MAX_LINE_LENGTH {
            len, advance := MAX_LINE_LENGTH, MAX_LINE_LENGTH;
          } else {
            NoneLeft(given, waiting);
            return None;
          }
      }
      assert piece == Some(Piece(waiting[..len], advance > len));
      hide NextPiece;
      Taken(given, piece.value, waiting);
      var start := lineStart;
      lineStart := lineStart + advance;
      assert Waiting() == waiting[advance..];
      assert buffer[start..start + len] == waiting[..len];
      given := given + [piece.value];
      line := Some(Trim(buffer[start..start + len]));
    }

    method Compact()
      requires Valid()
      modifies this`buffer, this`lineStart
      ensures Valid() && Waiting() == old(Waiting())
      ensures lineStart <= COMPACT_THRESHOLD || lineStart <= |buffer| / 2
      ensures buffer != old(buffer) || lineStart != old(lineStart) ==>
                lineStart == 0 && |old(buffer)| < 2 * old(lineStart) && old(lineStart) > 10240
    {
      if lineStart > COMPACT_THRESHOLD && lineStart > |buffer| / 2 {
        assert buffer[lineStart..][0..] == buffer[lineStart..];
        buffer := buffer[lineStart..];
        lineStart := 0;
      }
    }

    method Flush() returns (rest: Option<seq<byte>>)
      requires Valid()
      ensures rest == if Waiting() == [] then None else Some(Trim(Waiting()))
    {
      var waiting := buffer[lineStart..];
      rest := if waiting == [] then None else Some(Trim(waiting));
    }
  }

  lemma NoneLeft(given: seq<Piece>, waiting: seq<byte>)
    requires NextPiece(waiting).None?
    ensures given + Pieces(waiting) == given && Remainder(waiting) == waiting
  {
  }

  lemma Taken(given: seq<Piece>, piece: Piece, waiting: seq<byte>)
    requires NextPiece(waiting) == Some(piece)
    ensures var rest := waiting[|piece.Raw()|..];
            && given + Pieces(waiting) == given + [piece] + Pieces(rest)
            && Remainder(waiting) == Remainder(rest)
            && Rebuilt(given) + waiting == Rebuilt(given + [piece]) + rest
  {
    NextPieceShape(waiting);
    RebuiltMore(given, piece, waiting);
    hide NextPiece, Rebuilt;
    var later := Pieces(waiting[|piece.Raw()|..]);
    assert Pieces(waiting) == [piece] + later;
    ConcatIsAssociative(given, [piece], later);
  }

  lemma RebuiltMore(given: seq<Piece>, piece: Piece, waiting: seq<byte>)
    requires piece.Raw() <= waiting
    ensures Rebuilt(given) + waiting == Rebuilt(given + [piece]) + waiting[|piece.Raw()|..]
  {
    assert (given + [piece])[..|given|] == given;
    assert waiting == piece.Raw() + waiting[|piece.Raw()|..];
    ConcatIsAssociative(Rebuilt(given), piece.Raw(), waiting[|piece.Raw()|..]);
  }

  /** The reader of a container's output: the lines it emits depend only on the bytes, not on how they
      were cut into chunks. */
  method EmitLines(chunks: seq<seq<byte>>) returns (lines: seq<seq<byte>>)
    ensures var all := Concat(chunks);
            lines == TrimAll(Pieces(all)) + if Remainder(all) == [] then [] else [Trim(Remainder(all))]
  {
    hide Pieces, Remainder, Rebuilt, Trim, TrimAll, Concat;
    var lb := new LineBuffer();
    lines := [];
    Nothing();
    for i := 0 to |chunks|
      invariant fresh(lb) && lb.Valid() && lb.input == Concat(chunks[..i])
      invariant lb.given == Pieces(lb.input) && lb.Waiting() == Remainder(lb.input) && lines == TrimAll(lb.given)
    {
      ConcatNext(chunks, i);
      lb.Extend(chunks[i]);
      ghost var before := lb.given;
      var line := lb.NextLine();
      if line.Some? { GivenOneMore(before, lb.given); }
      while line.Some?
        invariant fresh(lb) && lb.Valid() && lb.input == Concat(chunks[..i + 1])
        invariant line.None? ==> lb.given == Pieces(lb.input) && lb.Waiting() == Remainder(lb.input)
        invariant TrimAll(lb.given) == if line.Some? then lines + [line.value] else lines
        decreases |lb.Waiting()|, line.Some?
      {
        lines := lines + [line.value];
        ghost var before := lb.given;
        line := lb.NextLine();
        if line.Some? { GivenOneMore(before, lb.given); }
      }
      lb.Compact();
    }
    assert chunks[..|chunks|] == chunks;
    var rest := lb.Flush();
    if rest.Some? {
      lines := lines + [rest.value];
    }
  }

  lemma Nothing()
    ensures Pieces([]) == [] && Remainder([]) == [] && TrimAll([]) == [] && Concat<byte>([]) == []
  {
  }

  lemma GivenOneMore(before: seq<Piece>, after: seq<Piece>)
    requires before <= after && |after| == |before| + 1
    ensures TrimAll(after) == TrimAll(before) + [Trim(after[|before|].bytes)]
  {
    hide Trim;
  }
}
