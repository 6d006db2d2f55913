/** `PbsFileReader`: a file of the archive as a stream of bytes, read by polling. */
module FileReader {
  import opened Bytes
  import PxarAccessor

  /** A read under way: what it asked for, and whether it has been polled to its end already. */
  datatype Job = Job(offset: nat, want: nat, ended: bool)

  /** What one poll gives. `Panic` is a bug of the source, not an answer. */
  datatype Poll = Pending | Ready(data: seq<byte>) | Failed(error: string) | Panic

  /** How far a job has come when it is polled: not done, or done with this result. */
  type Outcome = Option<Result<seq<byte>>>

  /** `part` stands in `payload` at `start`; where nothing has come, `start` may lie behind its end. */
  ghost predicate StandsAt(payload: seq<byte>, start: nat, part: seq<byte>) {
    part != [] ==> start + |part| <= |payload| && part == payload[start..start + |part|]
  }

  class PbsFileReader {
    /** The file, where reading starts in it, how much is wanted, and what has come so far. */
    ghost const payload: seq<byte>
    ghost const start: nat
    ghost const len: nat
    ghost var delivered: seq<byte>

    var offset: nat
    var remaining: nat
    var pending: Option<Job>

    ghost predicate Valid()
      reads this
    {
      && offset == start + |delivered| && offset + remaining == start + len
      && StandsAt(payload, start, delivered)
      && (pending.Some? ==> pending.value.offset == offset && 0 < pending.value.want <= remaining)
    }

    constructor (ghost payload: seq<byte>, offset: nat, remaining: nat)
      ensures Valid() && delivered == [] && pending == None
      ensures this.payload == payload && start == offset && len == remaining
    {
      this.payload, start, len, delivered := payload, offset, remaining, [];
      this.offset, this.remaining, pending := offset, remaining, None;
    }

    /** The job a poll with `room` bytes to fill works on. */
    function Working(room: nat): Job
      reads this
    {
      if pending.Some? then pending.value else Job(offset, Min(room, remaining), false)
    }

    /** What the job a poll works on may come to. */
    ghost predicate Allowed(room: nat, outcome: Outcome)
      reads this
    {
      outcome.Some? && outcome.value.Ok? ==>
        PxarAccessor.Served(payload, Working(room).offset, Working(room).want, outcome.value.value)
    }

    /** There is nothing to read, or no room for it. */
    predicate Idle(room: nat)
      reads this
    {
      pending.None? && (room == 0 || remaining == 0)
    }

    /** The job that is polled has ended before, or has brought more than there is room for now. */
    predicate Panics(room: nat, outcome: Outcome)
      reads this
    {
      !Idle(room) && (Working(room).ended || (outcome.Some? && outcome.value.Ok? && |outcome.value.value| > room))
    }

    /** A poll goes on with the job under way, whatever room that was given. */
    method PollRead(room: nat, outcome: Outcome) returns (poll: Poll)
      requires Valid() && Allowed(room, outcome)
      modifies this
      ensures poll.Panic? <==> old(Panics(room, outcome))
      ensures var job := old(Working(room));
              var idle := old(Idle(room));
              && (poll.Pending? <==> !idle && !job.ended && outcome.None?)
              && (poll.Failed? <==> !idle && !job.ended && outcome.Some? && outcome.value.Err?)
      ensures !poll.Panic? ==> Valid()
      ensures poll.Ready? ==> delivered == old(delivered) + poll.data && |poll.data| <= room && pending.None?
      ensures poll.Ready? && poll.data == [] ==> room == 0 || remaining == 0 || offset >= |payload|
      ensures poll.Pending? || poll.Failed? ==>
                && delivered == old(delivered) && offset == old(offset) && remaining == old(remaining)
                && pending == Some(old(Working(room)).(ended := poll.Failed?))
    {
      ghost var job := Working(room);
      assert outcome.Some? && outcome.value.Ok? ==>
          && |outcome.value.value| <= job.want
          && PxarAccessor.Served(payload, offset, |outcome.value.value|, outcome.value.value)
          && (outcome.value.value == [] ==> job.want == 0 || offset >= |payload|);
      hide PxarAccessor.Served, StandsAt;
      if pending.None? {
        if remaining == 0 || room == 0 {
          return Ready([]);
        }
        pending := Some(Job(offset, Min(room, remaining), false));
      }
      if pending.value.ended {
        return Panic;
      }
      match outcome {
        case None =>
          return Pending;
        case Some(Err(error)) =>
          pending := Some(pending.value.(ended := true));
          return Failed(error);
        case Some(Ok(data)) =>
          pending := None;
          offset := offset + |data|;
          remaining := remaining - |data|;
          if |data| > room {
            return Panic;
          }
          ghost var before := delivered;
          delivered := delivered + data;
          Extends(payload, start, before, data);
          poll := Ready(data);
      }
    }
  }

  /** The most that a job can bring. */
  function CanBring(payload: seq<byte>, job: Job): nat {
    if job.offset >= |payload| then 0 else Min(job.want, |payload| - job.offset)
  }

  lemma BringsAtMost(payload: seq<byte>, job: Job, room: nat)
    ensures (exists data :: PxarAccessor.Served(payload, job.offset, job.want, data) && |data| > room)
       <==> CanBring(payload, job) > room
  {
    var n := CanBring(payload, job);
    if n > room {
      var data := payload[job.offset..job.offset + n];
      assert PxarAccessor.Served(payload, job.offset, job.want, data) && |data| > room;
    }
  }

  /** What a caller can rely on before it polls: the poll cannot panic exactly if nothing is under way,
      or what is has not failed and can bring no more than there is room for. */
  lemma SafeToPoll(reader: PbsFileReader, room: nat)
    requires reader.Valid()
    ensures (forall outcome :: reader.Allowed(room, outcome) ==> !reader.Panics(room, outcome))
       <==> reader.pending.None?
            || (!reader.pending.value.ended && CanBring(reader.payload, reader.pending.value) <= room)
  {
    var job := reader.Working(room);
    BringsAtMost(reader.payload, job, room);
    if reader.pending.Some? && reader.pending.value.ended {
      assert reader.Allowed(room, None) && reader.Panics(room, None);
    } else if data :| PxarAccessor.Served(reader.payload, job.offset, job.want, data) && |data| > room {
      assert reader.Allowed(room, Some(Ok(data)));
      assert reader.pending.Some? ==> reader.Panics(room, Some(Ok(data)));
    }
  }

  /** Four bytes asked for with room for four, and polled again with room for one. */
  method PanicsWithLessRoom() returns (first: Poll, second: Poll)
    ensures first.Pending? && second.Panic?
  {
    var payload: seq<byte> := [1, 2, 3, 4];
    var reader := new PbsFileReader(payload, 0, 4);
    first := reader.PollRead(4, None);
    assert payload[0..4] == payload;
    second := reader.PollRead(1, Some(Ok(payload)));
  }

  /** A failed read, and another poll. */
  method PanicsAfterFailure() returns (first: Poll, second: Poll)
    ensures first.Failed? && second.Panic?
  {
    var reader := new PbsFileReader([1, 2, 3, 4], 0, 4);
    first := reader.PollRead(4, Some(Err("read failed")));
    second := reader.PollRead(4, None);
  }

  lemma Extends(payload: seq<byte>, start: nat, before: seq<byte>, data: seq<byte>)
    requires StandsAt(payload, start, before)
    requires PxarAccessor.Served(payload, start + |before|, |data|, data)
    ensures StandsAt(payload, start, before + data)
  {
    if data == [] {
      assert before + data == before;
    } else {
      assert payload[start..start + |before + data|]
          == payload[start..start + |before|] + payload[start + |before|..start + |before| + |data|];
    }
  }

  /** What a range of a file holds: less than its length where the file is shorter. */
  function Range(payload: seq<byte>, start: nat, len: nat): seq<byte> {
    if start >= |payload| then [] else payload[start..Min(start + len, |payload|)]
  }

  /** A caller that polls with the same buffer until it is served, buffers of any non-zero size, and
      reads that end after any number of polls: it gets exactly the range, or an error. */
  method ReadAll(payload: seq<byte>, reader: PbsFileReader, mayFail: bool) returns (r: Result<seq<byte>>)
    requires payload == reader.payload && reader.Valid() && reader.delivered == [] && reader.pending == None
    modifies reader
    ensures r == Ok(Range(payload, reader.start, reader.len)) || (mayFail && r.Err?)
  {
    var bytes: seq<byte> := [];
    var room: nat := 1;
    var patience: nat := 0;
    while true
      invariant reader.Valid() && bytes == reader.delivered
      invariant reader.pending.Some? ==> !reader.pending.value.ended && reader.pending.value.want <= room
      invariant room > 0
      decreases reader.remaining, reader.pending.None?, patience
    {
      if reader.pending.None? {
        room :| room > 0;
        patience := *;
      }
      var job := reader.Working(room);
      var outcome: Outcome := None;
      if reader.pending.Some? && patience == 0 {
        var read := PxarAccessor.ReadAt(payload, job.offset, job.want, mayFail);
        outcome := Some(read);
      }
      var poll := reader.PollRead(room, outcome);
      match poll {
        case Pending =>
          if patience > 0 { patience := patience - 1; }
        case Failed(error) =>
          return Err(error);
        case Ready(data) =>
          if data == [] {
            return Ok(bytes);
          }
          bytes := bytes + data;
      }
    }
  }
}
