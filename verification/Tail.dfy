/** The two ways to the last lines: scanning a file backwards in blocks, and reading a stream forwards
    while keeping a window of capped lines. */
module Tail {
  import opened Bytes
  import opened Lines

  const MAX_LINE_LENGTH: nat := 10240

  // ---------------------------------------------------------------- backwards

  /** One more byte at the front: a new line if it is a newline with something after it. */
  lemma CountGrows(data: seq<byte>, i: nat)
    requires i < |data|
    ensures LinesFrom(data, i)
         == if i == |data| - 1 then 1
            else if data[i] == NEWLINE then LinesFrom(data, i + 1) + 1
            else LinesFrom(data, i + 1)
  {
    var s, rest := data[i..], data[i + 1..];
    assert s == [data[i]] + rest;
    if data[i] == NEWLINE {
      assert s[1..] == rest;
    } else if rest != [] {
      assert s[1..] == rest;
      var pos := FirstNewline(rest);
      if pos.Some? { assert s[pos.value + 2..] == rest[pos.value + 1..]; }
    }
  }

  function LinesFrom(data: seq<byte>, i: nat): nat
    requires i <= |data|
  {
    |SplitLines(data[i..])|
  }

  /** From `start` on there are the last `lines` lines, or all of them if there are fewer. */
  ghost predicate IsTail(data: seq<byte>, lines: nat, start: nat) {
    start <= |data| && SplitLines(data[start..]) == LastN(SplitLines(data), lines)
  }

  lemma TailAfterNewline(data: seq<byte>, start: nat)
    requires 0 < start <= |data| && data[start - 1] == NEWLINE
    ensures IsTail(data, LinesFrom(data, start), start)
  {
    assert data == data[..start] + data[start..];
    SplitConcat(data[..start], data[start..]);
  }

  lemma WholeTail(data: seq<byte>, lines: nat)
    requires LinesFrom(data, 0) <= lines
    ensures IsTail(data, lines, 0)
  {
    assert data[0..] == data;
  }

  lemma EmptyTails(data: seq<byte>, lines: nat)
    ensures IsTail(data, 0, |data|) && LinesFrom(data, |data|) == 0
    ensures data == [] ==> IsTail(data, lines, 0)
  {
    assert data[|data|..] == [];
    assert LastN(SplitLines(data), 0) == [];
  }

  /** `async_tail` over a file with bytes `data`, in blocks of any size: where the cursor is left. */
  method AsyncTail(data: seq<byte>, lines: nat, bufferSize: nat) returns (start: nat)
    requires bufferSize > 0
    ensures IsTail(data, lines, start)
  {
    hide *;
    EmptyTails(data, lines);
    if lines == 0 {
      return |data|;
    }
    var fileSize := |data|;
    if fileSize == 0 {
      return 0;
    }
    var currentPos: nat := fileSize;
    var linesFound: nat := 0;
    while currentPos > 0
      invariant currentPos <= fileSize && linesFound < lines
      invariant LinesFrom(data, currentPos) == linesFound + if currentPos < fileSize then 1 else 0
    {
      var readSize := if bufferSize < currentPos then bufferSize else currentPos;
      currentPos := currentPos - readSize;
      var chunk := data[currentPos..currentPos + readSize];
      var i: nat := readSize;
      while i > 0
        invariant i <= readSize && linesFound < lines
        invariant LinesFrom(data, currentPos + i) == linesFound + if currentPos + i < fileSize then 1 else 0
      {
        i := i - 1;
        CountGrows(data, currentPos + i);
        if chunk[i] == NEWLINE {
          if currentPos + i == fileSize - 1 {
            continue;
          }
          linesFound := linesFound + 1;
          if linesFound == lines {
            start := currentPos + i + 1;
            TailAfterNewline(data, start);
            return;
          }
        }
      }
    }
    WholeTail(data, lines);
    start := 0;
  }

  // ---------------------------------------------------------------- forwards

  /** A buffered reader; how much it has buffered at a time is its own affair. */
  class BufReader {
    const data: seq<byte>
    var pos: nat

    ghost predicate Valid()
      reads this
    {
      pos <= |data|
    }

    function Rest(): seq<byte>
      requires Valid()
      reads this
    {
      data[pos..]
    }

    constructor (data: seq<byte>)
      ensures Valid() && Rest() == data
    {
      this.data, pos := data, 0;
    }

    method FillBuf() returns (available: seq<byte>)
      requires Valid()
      ensures available <= Rest() && (available == [] <==> Rest() == [])
    {
      if pos == |data| {
        return [];
      }
      var n: nat :| 1 <= n <= |data| - pos;
      available := data[pos..][..n];
    }

    method Consume(n: nat)
      requires Valid() && n <= |Rest()|
      modifies this`pos
      ensures Valid() && Rest() == old(Rest())[n..]
    {
      pos := pos + n;
    }
  }

  /** What is kept of a line: all of it, or its first 10 KiB and its newline. */
  function Capped(line: seq<byte>): seq<byte> {
    if |line| <= MAX_LINE_LENGTH then line
    else line[..MAX_LINE_LENGTH] + if line[|line| - 1] == NEWLINE then [NEWLINE] else []
  }

  function CapAll(lines: seq<seq<byte>>): (r: seq<seq<byte>>)
    ensures |r| == |lines|
  {
    seq(|lines|, i requires 0 <= i < |lines| => Capped(lines[i]))
  }

  lemma FirstNewlineAt(s: seq<byte>, n: nat)
    requires 0 < n <= |s| && NEWLINE !in s[..n - 1] && (s[n - 1] == NEWLINE || n == |s|)
    ensures FirstNewline(s) == if s[n - 1] == NEWLINE then Some(n - 1) else None
  {
    FirstNewlineConcat(s[..n - 1], s[n - 1..]);
    assert s == s[..n - 1] + s[n - 1..];
    if s[n - 1] != NEWLINE {
      assert s[n - 1..] == [s[n - 1]];
    }
  }

  /** The first line of `s`. */
  lemma FirstLine(s: seq<byte>, n: nat)
    requires 0 < n <= |s| && NEWLINE !in s[..n - 1] && (s[n - 1] == NEWLINE || n == |s|)
    ensures SplitLines(s) == [s[..n]] + SplitLines(s[n..])
  {
    FirstNewlineAt(s, n);
    hide FirstNewline;
    if s[n - 1] != NEWLINE {
      assert s[..n] == s && s[n..] == [];
    }
  }

  /** Reading at `before` gives the first line, capped, and leaves the others. */
  ghost predicate LineRead(before: seq<byte>, r: Option<seq<byte>>, after: seq<byte>) {
    var lines := SplitLines(before);
    if lines == [] then r == None && after == []
    else r == Some(Capped(lines[0])) && SplitLines(after) == lines[1..]
  }

  /** What is kept after `n` bytes of a line. */
  function Kept(all: seq<byte>, n: nat): seq<byte>
    requires n <= |all|
  {
    all[..Min(n, MAX_LINE_LENGTH)]
  }

  /** `n` bytes of a line have been read and it has not ended. */
  ghost predicate Going(all: seq<byte>, n: nat) {
    n <= |all| && NEWLINE !in all[..n]
  }

  /** The line has been read: up to its newline, or to the end of the data. */
  ghost predicate Ended(all: seq<byte>, n: nat, hitNewline: bool) {
    && n <= |all|
    && if hitNewline then 0 < n && all[n - 1] == NEWLINE && NEWLINE !in all[..n - 1] else n == |all| && NEWLINE !in all
  }

  /** `line` is what is kept of `n` bytes, and `truncated` whether that is not all of them. */
  ghost predicate Keeps(all: seq<byte>, n: nat, line: seq<byte>, truncated: bool) {
    n <= |all| && line == Kept(all, n) && truncated == (n > |line|)
  }

  lemma KeepMore(all: seq<byte>, n: nat, line: seq<byte>, truncated: bool, available: seq<byte>, consumed: nat)
    requires Keeps(all, n, line, truncated) && available <= all[n..] && consumed <= |available| && consumed > 0
    ensures |line| < MAX_LINE_LENGTH ==>
              var take := Min(MAX_LINE_LENGTH - |line|, consumed);
              Keeps(all, n + consumed, line + available[..take], truncated || take < consumed)
    ensures |line| >= MAX_LINE_LENGTH ==> Keeps(all, n + consumed, line, true)
  {
    if |line| < MAX_LINE_LENGTH {
      TakeMore(all, n, available, Min(MAX_LINE_LENGTH - n, consumed));
    }
  }

  lemma ReadMore(all: seq<byte>, n: nat, available: seq<byte>)
    requires Going(all, n) && available <= all[n..]
    ensures match FirstNewline(available)
            case Some(pos) => Ended(all, n + pos + 1, true)
            case None => Going(all, n + |available|)
  {
    match FirstNewline(available) {
      case Some(pos) =>
        TakeMore(all, n, available, pos);
        assert all[n..][pos] == all[n + pos];
      case None =>
        TakeMore(all, n, available, |available|);
        assert available[..|available|] == available;
    }
  }

  lemma ReadAll(all: seq<byte>, n: nat)
    requires Going(all, n) && all[n..] == []
    ensures Ended(all, n, false)
  {
    assert all[..n] == all;
  }

  lemma LineEnds(all: seq<byte>, n: nat, line: seq<byte>, truncated: bool, hitNewline: bool)
    requires Keeps(all, n, line, truncated) && Ended(all, n, hitNewline)
    ensures line == [] ==> LineRead(all, None, all[n..])
    ensures line != [] ==>
              var ended := truncated && hitNewline && line[|line| - 1] != NEWLINE;
              LineRead(all, Some(if ended then line + [NEWLINE] else line), all[n..])
  {
    if n > 0 {
      FirstLine(all, n);
      CappedIsKept(all, n, hitNewline);
      hide SplitLines, Capped, Kept;
      assert SplitLines(all)[1..] == SplitLines(all[n..]);
    }
  }

  lemma CappedIsKept(all: seq<byte>, n: nat, hitNewline: bool)
    requires 0 < n <= |all| && NEWLINE !in all[..n - 1] && hitNewline == (all[n - 1] == NEWLINE)
    ensures var line := Kept(all, n);
            var ended := hitNewline && n > |line| && line[|line| - 1] != NEWLINE;
            Capped(all[..n]) == if ended then line + [NEWLINE] else line
  {
    var line := Kept(all, n);
    if n > |line| {
      assert all[..n][..MAX_LINE_LENGTH] == line;
      assert line[MAX_LINE_LENGTH - 1] == all[..n - 1][MAX_LINE_LENGTH - 1];
      assert line + [] == line;
    }
  }

  /** `read_line_capped`: one line, capped, whatever the pieces it arrives in. */
  method ReadLineCapped(reader: BufReader) returns (r: Option<seq<byte>>)
    requires reader.Valid()
    modifies reader
    ensures reader.Valid() && LineRead(old(reader.Rest()), r, reader.Rest())
  {
    hide LineRead, Keeps, Going, Ended, FirstNewline, SplitLines, Capped;
    var line: seq<byte> := [];
    var truncated := false;
    var hitNewline := false;
    ghost var all := reader.Rest();
    ghost var taken: nat := 0;
    NothingKept(all);
    while true
      invariant reader.Valid() && taken <= |all| && reader.Rest() == all[taken..]
      invariant Going(all, taken) && !hitNewline
      invariant Keeps(all, taken, line, truncated)
      decreases |all| - taken
    {
      var available := reader.FillBuf();
      if available == [] {
        ReadAll(all, taken);
        break;
      }
      var newline := FirstNewline(available);
      var consumed := if newline.Some? then newline.value + 1 else |available|;
      KeepMore(all, taken, line, truncated, available, consumed);
      ReadMore(all, taken, available);
      DropTwice(all, taken, consumed);
      if |line| < MAX_LINE_LENGTH {
        var take := Min(MAX_LINE_LENGTH - |line|, consumed);
        line := line + available[..take];
        if take < consumed {
          truncated := true;
        }
      } else {
        truncated := true;
      }
      reader.Consume(consumed);
      taken := taken + consumed;
      if newline.Some? {
        hitNewline := true;
        break;
      }
    }
    LineEnds(all, taken, line, truncated, hitNewline);
    if line == [] {
      return None;
    }
    if truncated && hitNewline && line[|line| - 1] != NEWLINE {
      line := line + [NEWLINE];
    }
    r := Some(line);
  }

  lemma NothingKept(all: seq<byte>)
    ensures Keeps(all, 0, [], false) && Going(all, 0) && all[0..] == all
  {
  }

  /** The last lines of a stream, capped. */
  function StreamTail(data: seq<byte>, lines: nat): seq<byte> {
    Concat(LastN(CapAll(SplitLines(data)), lines))
  }

  /** `n` lines have been read, of which `buffer` keeps the last, and then `line`, the next, if any. */
  ghost predicate Streaming(data: seq<byte>, n: nat, buffer: seq<seq<byte>>, lines: nat,
                            line: Option<seq<byte>>, rest: seq<byte>) {
    var all := SplitLines(data);
    && n <= |all| && buffer == LastN(CapAll(all)[..n], lines)
    && if n < |all| then line == Some(CapAll(all)[n]) && SplitLines(rest) == all[n + 1..] else line == None
  }

  lemma StreamStarts(before: seq<byte>, lines: nat, line: Option<seq<byte>>, after: seq<byte>)
    requires LineRead(before, line, after)
    ensures Streaming(before, 0, [], lines, line, after)
  {
    hide SplitLines, Capped;
  }

  /** The line is pushed, in place of the oldest when there are `lines` of them, and the next one read. */
  lemma StreamGoesOn(data: seq<byte>, n: nat, buffer: seq<seq<byte>>, lines: nat, line: Option<seq<byte>>,
                     rest: seq<byte>, next: Option<seq<byte>>, after: seq<byte>)
    requires Streaming(data, n, buffer, lines, line, rest) && line.Some? && lines > 0 && LineRead(rest, next, after)
    ensures n < |SplitLines(data)|
    ensures Streaming(data, n + 1, (if |buffer| == lines then buffer[1..] else buffer) + [line.value], lines, next, after)
  {
    hide SplitLines, Capped;
    LastNGrows(CapAll(SplitLines(data)), n, lines);
  }

  lemma StreamEnds(data: seq<byte>, n: nat, buffer: seq<seq<byte>>, lines: nat, rest: seq<byte>)
    requires Streaming(data, n, buffer, lines, None, rest)
    ensures Concat(buffer) == StreamTail(data, lines)
  {
    hide SplitLines;
    var capped := CapAll(SplitLines(data));
    assert capped[..|capped|] == capped;
  }

  lemma NoLines(data: seq<byte>)
    ensures StreamTail(data, 0) == []
  {
    assert LastN(CapAll(SplitLines(data)), 0) == [];
  }

  lemma LastNGrows(s: seq<seq<byte>>, i: nat, n: nat)
    requires n > 0 && i < |s|
    ensures var kept := LastN(s[..i], n);
            LastN(s[..i + 1], n) == (if |kept| == n then kept[1..] else kept) + [s[i]]
  {
    assert s[..i + 1] == s[..i] + [s[i]];
  }

  /** `async_tail_stream`. */
  method AsyncTailStream(reader: BufReader, lines: nat) returns (result: seq<byte>)
    requires reader.Valid()
    modifies reader
    ensures result == StreamTail(old(reader.Rest()), lines)
  {
    ghost var data := reader.Rest();
    hide SplitLines, Concat, LineRead, StreamTail, Streaming;
    if lines == 0 {
      NoLines(data);
      return [];
    }
    var buffer: seq<seq<byte>> := [];
    ghost var n: nat := 0;
    var line := ReadLineCapped(reader);
    StreamStarts(data, lines, line, reader.Rest());
    while line.Some?
      invariant reader.Valid() && Streaming(data, n, buffer, lines, line, reader.Rest())
      decreases |SplitLines(data)| - n
    {
      ghost var before, kept, read := reader.Rest(), buffer, line;
      if |buffer| == lines {
        buffer := buffer[1..];
      }
      buffer := buffer + [line.value];
      line := ReadLineCapped(reader);
      StreamGoesOn(data, n, kept, lines, read, before, line, reader.Rest());
      n := n + 1;
    }
    StreamEnds(data, n, buffer, lines, reader.Rest());
    result := Concat(buffer);
  }

  /** The two ways agree exactly if each of the last lines is kept whole. */
  lemma BothWaysAgree(data: seq<byte>, lines: nat, start: nat)
    requires IsTail(data, lines, start)
    ensures StreamTail(data, lines) == data[start..]
       <==> forall line :: line in LastN(SplitLines(data), lines) ==> Capped(line) == line
  {
    var all := SplitLines(data);
    var last := LastN(all, lines);
    assert LastN(CapAll(all), lines) == CapAll(last);
    SplitJoins(data[start..]);
    if forall line :: line in last ==> Capped(line) == line {
      assert CapAll(last) == last;
    } else {
      CappedIsShorter(last);
    }
  }

  /** What is not kept whole is lost in length, too. */
  lemma {:induction false} CappedIsShorter(lines: seq<seq<byte>>)
    ensures |Concat(CapAll(lines))| <= |Concat(lines)|
    ensures (exists line :: line in lines && Capped(line) != line) ==> |Concat(CapAll(lines))| < |Concat(lines)|
  {
    if lines != [] {
      CappedIsShorter(lines[1..]);
      CappedLength(lines[0]);
      assert CapAll(lines)[1..] == CapAll(lines[1..]);
      assert lines == [lines[0]] + lines[1..];
    }
  }

  lemma CappedLength(line: seq<byte>)
    ensures |Capped(line)| <= |line| && (|Capped(line)| == |line| ==> Capped(line) == line)
  {
    if |line| > MAX_LINE_LENGTH {
      assert line == line[..MAX_LINE_LENGTH] + line[MAX_LINE_LENGTH..];
    }
  }

  /** A line is kept whole exactly if what comes before its newline fits. */
  lemma KeptWhole(line: seq<byte>)
    ensures Capped(line) == line
       <==> |line| <= MAX_LINE_LENGTH || (|line| == MAX_LINE_LENGTH + 1 && line[MAX_LINE_LENGTH] == NEWLINE)
  {
    if |line| > MAX_LINE_LENGTH {
      assert line == line[..MAX_LINE_LENGTH] + line[MAX_LINE_LENGTH..];
    }
  }
}
