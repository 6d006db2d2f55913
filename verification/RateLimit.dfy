/** `LimitedReader`: at most so many bytes a window of one second, for any clock and any inner reader. */
module RateLimit {
  import opened Bytes

  /** One second, in nanoseconds. */
  const WINDOW: nat := 1_000_000_000

  /** Bytes let through, and when that was decided. */
  datatype Grant = Grant(time: nat, bytes: nat)

  /** The bytes let through from `from` on and before `to`. */
  function Granted(log: seq<Grant>, from: int, to: int): nat {
    if log == [] then 0
    else
      var last := log[|log| - 1];
      Granted(log[..|log| - 1], from, to) + if from <= last.time < to then last.bytes else 0
  }

  /** How many windows it takes to cover a length. */
  function Windows(length: int): nat {
    if length <= 0 then 0 else (length + WINDOW - 1) / WINDOW
  }

  /** Never more than the limit for each window that an interval covers, and one more. */
  ghost predicate RateBounded(log: seq<Grant>, limit: nat) {
    forall from: int, to: int :: Granted(log, from, to) <= limit * (Windows(to - from) + 1)
  }

  /** With the current window started at `start` and `used` bytes in it: what was let through from
      `from` on fits in the windows up to `start`, and what is used. */
  ghost predicate Accounted(log: seq<Grant>, limit: nat, start: nat, used: nat) {
    forall from: int, to: int :: Granted(log, from, to) <= used + limit * Windows(start - from)
  }

  ghost predicate Before(log: seq<Grant>, time: nat) {
    forall i :: 0 <= i < |log| ==> log[i].time < time
  }

  lemma NoneGranted(log: seq<Grant>, from: int, to: int)
    requires forall i :: 0 <= i < |log| ==> !(from <= log[i].time < to)
    ensures Granted(log, from, to) == 0
  {
  }

  lemma WindowsGrow(x: int, y: int)
    requires x <= y
    ensures Windows(x) <= Windows(y)
  {
  }

  lemma OneMoreWindow(x: int)
    requires x + WINDOW > 0
    ensures Windows(x + WINDOW) == Windows(x) + 1
  {
    if x > 0 {
      assert (x + WINDOW - 1 + WINDOW) / WINDOW == (x + WINDOW - 1) / WINDOW + 1;
    }
  }

  lemma Scaled(limit: nat, a: nat, b: nat)
    requires a <= b
    ensures limit * a <= limit * b
  {
  }

  /** A new window, not before the end of the old one, accounts for what the old one used. */
  lemma WindowMoves(log: seq<Grant>, limit: nat, start: nat, used: nat, next: nat)
    requires Accounted(log, limit, start, used) && used <= limit
    requires Before(log, start + WINDOW) && start + WINDOW <= next
    ensures Accounted(log, limit, next, 0)
  {
    hide Windows;
    forall from: int, to: int ensures Granted(log, from, to) <= 0 + limit * Windows(next - from) {
      if from >= start + WINDOW {
        NoneGranted(log, from, to);
      } else {
        OneMoreWindow(start - from);
        WindowsGrow(start + WINDOW - from, next - from);
        Scaled(limit, Windows(start - from) + 1, Windows(next - from));
        assert limit * (Windows(start - from) + 1) == limit * Windows(start - from) + limit;
      }
    }
  }

  /** A grant within the current window keeps the account and the bound. */
  lemma GrantAdds(log: seq<Grant>, limit: nat, start: nat, used: nat, grant: Grant)
    requires Accounted(log, limit, start, used) && RateBounded(log, limit)
    requires start <= grant.time && used + grant.bytes <= limit
    ensures Accounted(log + [grant], limit, start, used + grant.bytes)
    ensures RateBounded(log + [grant], limit)
  {
    hide Windows;
    var more := log + [grant];
    assert more[..|log|] == log;
    forall from: int, to: int
      ensures Granted(more, from, to) <= used + grant.bytes + limit * Windows(start - from)
      ensures Granted(more, from, to) <= limit * (Windows(to - from) + 1)
    {
      assert Granted(more, from, to) == Granted(log, from, to) + if from <= grant.time < to then grant.bytes else 0;
      if from <= grant.time < to {
        WindowsGrow(start - from, to - from);
        Scaled(limit, Windows(start - from), Windows(to - from));
        assert limit * (Windows(to - from) + 1) == limit * Windows(to - from) + limit;
      }
    }
  }

  // ---------------------------------------------------------------- the reader

  /** A clock that never goes back, and a sleep that is never short. */
  class Clock {
    var time: nat
    /** The sum of all sleeps that were asked for. */
    ghost var slept: nat

    constructor () {
      time, slept := 0, 0;
    }

    method Now() returns (t: nat)
      modifies this
      ensures t == time >= old(time) && slept == old(slept)
    {
      var passed: nat :| passed >= 0;
      time := time + passed;
      t := time;
    }

    method Sleep(d: nat)
      modifies this
      ensures time >= old(time) + d && slept == old(slept) + d
    {
      var passed: nat :| passed >= d;
      time := time + passed;
      slept := slept + d;
    }
  }

  /** The inner reader: of what is left it gives as much as it likes, up to what it is asked for, and
      nothing only at its end; or it fails, where it may. `asked` lists what it was asked for. */
  class InnerReader {
    const data: seq<byte>
    const mayFail: bool
    var pos: nat
    ghost var asked: seq<nat>

    ghost predicate Valid()
      reads this
    {
      pos <= |data|
    }

    constructor (data: seq<byte>, mayFail: bool)
      ensures Valid() && this.data == data && this.mayFail == mayFail && pos == 0 && asked == []
    {
      this.data, this.mayFail, pos, asked := data, mayFail, 0, [];
    }

    method Read(want: nat) returns (r: Result<seq<byte>>)
      requires Valid()
      modifies this
      ensures Valid() && asked == old(asked) + [want]
      ensures r.Ok? ==> old(pos) <= pos && |r.value| <= want && r.value == data[old(pos)..pos]
      ensures r.Ok? && r.value == [] && want > 0 ==> pos == |data|
      ensures r.Err? ==> mayFail && pos == old(pos)
    {
      asked := asked + [want];
      var fails: bool := *;
      if mayFail && fails {
        return Err("read failed");
      }
      if want == 0 || pos == |data| {
        return Ok([]);
      }
      var n: nat :| 1 <= n <= want && pos + n <= |data|;
      r := Ok(data[pos..pos + n]);
      pos := pos + n;
    }
  }

  class LimitedReader {
    const inner: InnerReader
    const bytesPerSecond: nat
    const clock: Clock
    var windowStart: nat
    var bytesReadInWindow: nat
    ghost var log: seq<Grant>

    ghost predicate Valid()
      reads this, clock, inner
    {
      inner.Valid() &&
      (bytesPerSecond > 0 ==>
         && windowStart <= clock.time && bytesReadInWindow <= bytesPerSecond
         && Before(log, windowStart + WINDOW)
         && Accounted(log, bytesPerSecond, windowStart, bytesReadInWindow)
         && RateBounded(log, bytesPerSecond))
    }

    constructor (inner: InnerReader, clock: Clock, bytesPerSecond: nat)
      requires inner.Valid()
      modifies clock
      ensures Valid() && this.inner == inner && this.clock == clock && this.bytesPerSecond == bytesPerSecond
      ensures log == [] && bytesReadInWindow == 0
    {
      this.inner := inner;
      this.clock := clock;
      this.bytesPerSecond := bytesPerSecond;
      log := [];
      bytesReadInWindow := 0;
      var now := clock.Now();
      windowStart := now;
      new;
      forall from: int, to: int
        ensures Granted([], from, to) <= 0 + bytesPerSecond * Windows(windowStart - from)
        ensures Granted([], from, to) <= bytesPerSecond * (Windows(to - from) + 1)
      {
        Scaled(bytesPerSecond, 0, Windows(windowStart - from));
        Scaled(bytesPerSecond, 0, Windows(to - from) + 1);
      }
    }

    /** `read`: the budget is what is left of the window, and a window that is used up is waited for.
        The inner reader is asked once, for the lesser of the buffer and what the window had left, and
        what it gives is handed on. */
    method Read(bufLen: nat) returns (r: Result<seq<byte>>)
      requires Valid()
      modifies this, clock, inner
      ensures Valid()
      ensures r.Ok? ==> old(inner.pos) <= inner.pos && |r.value| <= bufLen && r.value == inner.data[old(inner.pos)..inner.pos]
      ensures r.Ok? && r.value == [] && bufLen > 0 ==> inner.pos == |inner.data|
      ensures r.Err? ==> inner.mayFail && inner.pos == old(inner.pos)
      ensures bufLen == 0 ==> r == Ok([]) && inner.asked == old(inner.asked) && log == old(log)
      ensures bufLen > 0 && bytesPerSecond == 0 ==> inner.asked == old(inner.asked) + [bufLen]
      ensures bufLen > 0 && bytesPerSecond > 0 ==>
                var before := if windowStart == old(windowStart) then old(bytesReadInWindow) else 0;
                && before < bytesPerSecond
                && inner.asked == old(inner.asked) + [Min(bufLen, bytesPerSecond - before)]
                && bytesReadInWindow == before + (if r.Ok? then |r.value| else 0)
                && (windowStart == old(windowStart) || windowStart >= old(windowStart) + WINDOW)
      ensures r.Ok? && bytesPerSecond > 0 && bufLen > 0 ==>
                && |log| == |old(log)| + 1
                && log == old(log) + [Grant(log[|old(log)|].time, |r.value|)]
                && old(clock.time) <= log[|old(log)|].time <= clock.time
      ensures r.Err? ==> log == old(log)
      ensures clock.slept <= old(clock.slept) + WINDOW
      ensures clock.slept > old(clock.slept) ==> bytesPerSecond > 0 && old(bytesReadInWindow) == bytesPerSecond
    {
      if bufLen == 0 {
        return Ok([]);
      }
      if bytesPerSecond == 0 {
        r := inner.Read(bufLen);
        return;
      }
      hide Accounted, RateBounded, Windows;
      var now := clock.Now();
      if now - windowStart >= WINDOW {
        WindowMoves(log, bytesPerSecond, windowStart, bytesReadInWindow, now);
        windowStart := now;
        bytesReadInWindow := 0;
      }
      ghost var decided := now;
      var budget := bytesPerSecond - bytesReadInWindow;
      if budget == 0 {
        var sleep := WINDOW - (now - windowStart);
        if sleep > 0 {
          clock.Sleep(sleep);
        }
        var later := clock.Now();
        WindowMoves(log, bytesPerSecond, windowStart, bytesReadInWindow, later);
        windowStart := later;
        bytesReadInWindow := 0;
        budget := bytesPerSecond;
        decided := later;
      }
      var toRead := Min(bufLen, budget);
      r := inner.Read(toRead);
      if r.Ok? {
        GrantAdds(log, bytesPerSecond, windowStart, bytesReadInWindow, Grant(decided, |r.value|));
        bytesReadInWindow := bytesReadInWindow + |r.value|;
        log := log + [Grant(decided, |r.value|)];
      }
    }
  }

  /** A caller that reads with buffers of any size until nothing comes gets all that was left, or the
      failure of the inner reader; and it does come to an end. */
  method ReadToEnd(reader: LimitedReader) returns (r: Result<seq<byte>>)
    requires reader.Valid()
    modifies reader, reader.clock, reader.inner
    ensures reader.Valid()
    ensures r == Ok(reader.inner.data[old(reader.inner.pos)..]) || (reader.inner.mayFail && r.Err?)
  {
    var bytes: seq<byte> := [];
    ghost var start := reader.inner.pos;
    while true
      invariant reader.Valid() && start <= reader.inner.pos
      invariant bytes == reader.inner.data[start..reader.inner.pos]
      decreases |reader.inner.data| - reader.inner.pos
    {
      var bufLen: nat :| bufLen > 0;
      ghost var at := reader.inner.pos;
      var chunk :- reader.Read(bufLen);
      assert |chunk| == reader.inner.pos - at;
      assert reader.inner.data[start..reader.inner.pos] == bytes + chunk;
      if chunk == [] {
        assert reader.inner.data[start..] == bytes;
        return Ok(bytes);
      }
      bytes := bytes + chunk;
    }
  }
}
