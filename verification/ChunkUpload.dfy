/** `upload_archive_named`: a producer that deduplicates and compresses chunks, a bounded channel,
    and a consumer that uploads new chunks and registers all of them in batches. The two run
    concurrently, so the model is a state machine; each step is what one of them does between two
    points where the other can run. */
module ChunkUpload {
  import opened Bytes

  const INDEX_BATCH_SIZE: nat := 256
  const CHANNEL_CAPACITY: nat := 4

  type Chunk = seq<byte>
  type Digest = seq<byte>

  /** The chunks the stream is cut into, the digests the server is known to hold, the number of
      compression threads, and SHA-256. */
  datatype Job = Job(chunks: seq<Chunk>, known: set<Digest>, threads: nat, sha: Chunk -> Digest) {
    function Window(): nat {
      if threads > 1 then threads else 1
    }

    function DigestOf(i: nat): Digest
      requires i < |chunks|
    {
      sha(chunks[i])
    }
  }

  datatype Message = Known(digest: Digest, size: nat) | New(digest: Digest, plaintext: Chunk)

  datatype Item = Good(message: Message) | Failure

  datatype Slot = Slot(item: Item, ready: bool)

  /** What the server sees. */
  datatype Event =
    | Upload(digest: Digest, plaintext: Chunk)
    | Register(digests: seq<Digest>, offsets: seq<nat>)
    | Close(count: nat, size: nat)

  datatype Phase = Running | Finished | Failed

  datatype State = State(
    next: nat, known: set<Digest>, window: seq<Slot>, stopped: bool,   // the producer
    channel: seq<Item>,
    entries: seq<(nat, Digest)>, digestList: seq<Digest>, offsetList: seq<nat>, endOffset: nat, phase: Phase,   // the consumer
    log: seq<Event>)

  function Init(job: Job): State {
    State(0, job.known, [], false, [], [], [], [], 0, Running, [])
  }

  // ---------------------------------------------------------------- producer steps

  function Classify(job: Job, s: State): Message
    requires s.next < |job.chunks|
  {
    var digest := job.DigestOf(s.next);
    if digest in s.known then Known(digest, |job.chunks[s.next]|) else New(digest, job.chunks[s.next])
  }

  /** The next chunk enters the window; a known one is ready at once, a new one when compressed. */
  predicate PullChunk(job: Job, s: State, t: State) {
    && !s.stopped && |s.window| < job.Window() && s.next < |job.chunks|
    && var message := Classify(job, s);
       t == s.(next := s.next + 1,
               known := s.known + {message.digest},
               window := s.window + [Slot(Good(message), message.Known?)])
  }

  /** The stream fails to read. */
  predicate PullError(job: Job, s: State, t: State) {
    && !s.stopped && |s.window| < job.Window()
    && t == s.(window := s.window + [Slot(Failure, true)])
  }

  /** The compression of a chunk ends, in any order, perhaps badly. */
  predicate Compressed(s: State, t: State, i: nat, ok: bool) {
    && i < |s.window| && !s.window[i].ready
    && t == s.(window := s.window[i := Slot(if ok then s.window[i].item else Failure, true)])
  }

  /** The oldest item, once ready, is sent; a failure is the last thing sent. */
  predicate Send(s: State, t: State) {
    && !s.stopped && s.window != [] && s.window[0].ready && |s.channel| < CHANNEL_CAPACITY
    && var item := s.window[0].item;
       t == s.(channel := s.channel + [item],
               window := if item.Failure? then [] else s.window[1..],
               stopped := item.Failure?)
  }

  /** The stream is exhausted, or the receiver is gone. */
  predicate Stop(job: Job, s: State, t: State) {
    && !s.stopped
    && ((s.window == [] && s.next == |job.chunks|) || s.phase == Failed)
    && t == s.(window := [], stopped := true)
  }

  // ---------------------------------------------------------------- consumer steps

  function Record(s: State, digest: Digest, size: nat): State {
    s.(entries := s.entries + [(s.endOffset + size, digest)],
       digestList := s.digestList + [digest],
       offsetList := s.offsetList + [s.endOffset],
       endOffset := s.endOffset + size)
  }

  /** The next message: a new chunk is uploaded before it is listed. */
  predicate Receive(s: State, t: State, ok: bool) {
    && s.phase == Running && |s.digestList| < INDEX_BATCH_SIZE && s.channel != []
    && var rest := s.(channel := s.channel[1..]);
       match s.channel[0]
       case Failure => t == rest.(phase := Failed)
       case Good(Known(digest, size)) => t == Record(rest, digest, size)
       case Good(New(digest, plaintext)) =>
         t == if ok then Record(rest, digest, |plaintext|).(log := s.log + [Upload(digest, plaintext)])
              else rest.(phase := Failed)
  }

  /** A full batch, or at the end what is left, is registered. */
  predicate RegisterBatch(s: State, t: State, ok: bool) {
    && s.phase == Running
    && (|s.digestList| >= INDEX_BATCH_SIZE || (s.digestList != [] && s.stopped && s.channel == []))
    && t == if ok then s.(log := s.log + [Register(s.digestList, s.offsetList)], digestList := [], offsetList := [])
            else s.(phase := Failed)
  }

  predicate CloseIndex(s: State, t: State, ok: bool) {
    && s.phase == Running && s.stopped && s.channel == [] && s.digestList == []
    && t == if ok then s.(log := s.log + [Close(|s.entries|, s.endOffset)], phase := Finished)
            else s.(phase := Failed)
  }

  ghost predicate Next(job: Job, s: State, t: State) {
    || PullChunk(job, s, t)
    || PullError(job, s, t)
    || (exists i: nat, ok: bool :: Compressed(s, t, i, ok))
    || Send(s, t)
    || Stop(job, s, t)
    || (exists ok: bool :: Receive(s, t, ok))
    || (exists ok: bool :: RegisterBatch(s, t, ok))
    || (exists ok: bool :: CloseIndex(s, t, ok))
  }

  ghost predicate IsRun(job: Job, run: seq<State>) {
    && run != [] && run[0] == Init(job)
    && forall i :: 0 <= i < |run| - 1 ==> Next(job, run[i], run[i + 1])
  }

  // ---------------------------------------------------------------- what the server makes of it

  /** `contents` are the chunks it holds, `digests` and `offsets` what has been registered. */
  datatype Server = Server(contents: map<Digest, Chunk>, digests: seq<Digest>, offsets: seq<nat>,
                           closed: Option<(nat, nat)>)

  /** A strict server: it refuses a chunk it already holds or that is not what its digest says, a batch that lists one it does not hold,
      an empty or oversized batch, and anything after the index is closed. */
  function ServeNext(sha: Chunk -> Digest, served: Option<Server>, event: Event): Option<Server> {
    if served.None? || served.value.closed.Some? then None
    else
      var v := served.value;
      match event
      case Upload(digest, plaintext) =>
        if digest in v.contents || sha(plaintext) != digest then None
        else Some(v.(contents := v.contents[digest := plaintext]))
      case Register(digests, offsets) =>
        if 0 < |digests| == |offsets| <= INDEX_BATCH_SIZE && forall d :: d in digests ==> d in v.contents
        then Some(v.(digests := v.digests + digests, offsets := v.offsets + offsets))
        else None
      case Close(count, size) => Some(v.(closed := Some((count, size))))
  }

  function Serve(sha: Chunk -> Digest, initial: map<Digest, Chunk>, log: seq<Event>): Option<Server> {
    if log == [] then Some(Server(initial, [], [], None))
    else ServeNext(sha, Serve(sha, initial, log[..|log| - 1]), log[|log| - 1])
  }

  // ---------------------------------------------------------------- the invariant

  /** The total size of the first `n` chunks. */
  function Total(chunks: seq<Chunk>, n: nat): nat
    requires n <= |chunks|
  {
    if n == 0 then 0 else Total(chunks, n - 1) + |chunks[n - 1]|
  }

  /** The digests known when chunk `n` is looked at. */
  function Seen(job: Job, n: nat): set<Digest>
    requires n <= |job.chunks|
  {
    if n == 0 then job.known else Seen(job, n - 1) + {job.DigestOf(n - 1)}
  }

  /** The message chunk `i` gives, whatever else happens. */
  function Expected(job: Job, i: nat): Message
    requires i < |job.chunks|
  {
    var digest := job.DigestOf(i);
    if digest in Seen(job, i) then Known(digest, |job.chunks[i]|) else New(digest, job.chunks[i])
  }

  function WindowItems(window: seq<Slot>): (items: seq<Item>)
    ensures |items| == |window|
  {
    seq(|window|, i requires 0 <= i < |window| => window[i].item)
  }

  /** Everything on its way to the consumer, oldest first. */
  function InFlight(s: State): seq<Item> {
    s.channel + WindowItems(s.window)
  }

  /** Up to the first failure, `items` are the messages of the chunks from `from` on. */
  ghost predicate Ordered(job: Job, items: seq<Item>, from: nat) {
    items != [] && items[0].Good? ==>
      from < |job.chunks| && items[0] == Good(Expected(job, from)) && Ordered(job, items[1..], from + 1)
  }

  ghost predicate ProducerInv(job: Job, s: State) {
    && s.next <= |job.chunks| && s.known == Seen(job, s.next)
    && (s.stopped ==> s.window == [])
  }

  /** While the consumer has not failed, what is in flight continues what is recorded. */
  ghost predicate FlightInv(job: Job, s: State) {
    var n := |s.entries|;
    && Ordered(job, InFlight(s), n)
    && (!s.stopped ==> Failure !in s.channel)
    && (!s.stopped && Failure !in InFlight(s) ==> n + |InFlight(s)| == s.next)
    && (s.stopped ==> Failure in s.channel || n + |s.channel| == |job.chunks|)
  }

  ghost predicate ConsumerInv(job: Job, s: State) {
    var n := |s.entries|;
    && n <= |job.chunks| && s.endOffset == Total(job.chunks, n)
    && (forall i :: 0 <= i < n ==> s.entries[i] == (Total(job.chunks, i + 1), job.DigestOf(i)))
    && |s.digestList| == |s.offsetList| <= INDEX_BATCH_SIZE
    && (s.phase == Finished ==> n == |job.chunks| && s.digestList == [] && s.stopped && s.channel == [])
  }

  ghost predicate Inv(job: Job, s: State) {
    ProducerInv(job, s) && ConsumerInv(job, s) && (s.phase != Failed ==> FlightInv(job, s))
  }

  /** Item `i` of what is registered and listed, in order, is chunk `i`. */
  ghost predicate Listed(job: Job, digests: seq<Digest>, offsets: seq<nat>, n: nat)
    requires n <= |job.chunks|
  {
    && |digests| == |offsets| == n
    && forall i :: 0 <= i < n ==> digests[i] == job.DigestOf(i) && offsets[i] == Total(job.chunks, i)
  }

  ghost predicate IsChunk(job: Job, n: nat, digest: Digest, chunk: Chunk)
    requires n <= |job.chunks|
  {
    exists i :: 0 <= i < n && job.DigestOf(i) == digest && job.chunks[i] == chunk
  }

  /** Every chunk held is one it held before, or one of the stream's under its own digest. */
  ghost predicate Stored(job: Job, contents: map<Digest, Chunk>, initial: map<Digest, Chunk>, n: nat)
    requires n <= |job.chunks|
  {
    && contents.Keys == Seen(job, n)
    && forall d :: d in contents ==> if d in initial then contents[d] == initial[d] else IsChunk(job, n, d, contents[d])
  }

  /** The server accepts the log, and has registered exactly what is recorded and not still listed. */
  ghost predicate LogInv(job: Job, s: State, initial: map<Digest, Chunk>) {
    var n := |s.entries|;
    var served := Serve(job.sha, initial, s.log);
    && n <= |job.chunks| && served.Some?
    && Listed(job, served.value.digests + s.digestList, served.value.offsets + s.offsetList, n)
    && |served.value.digests| == |served.value.offsets|
    && Stored(job, served.value.contents, initial, n)
    && served.value.closed == if s.phase == Finished then Some((n, Total(job.chunks, n))) else None
  }

  // ---------------------------------------------------------------- every step keeps it

  lemma SeenHas(job: Job, n: nat, i: nat)
    requires i < n <= |job.chunks|
    ensures job.DigestOf(i) in Seen(job, n)
  {
    if i < n - 1 { SeenHas(job, n - 1, i); }
  }

  lemma InitInv(job: Job)
    ensures Inv(job, Init(job))
  {
    assert InFlight(Init(job)) == [];
  }

  lemma {:induction false} OrderedAppend(job: Job, items: seq<Item>, from: nat, last: Item)
    requires Ordered(job, items, from)
    requires Failure in items || last.Failure?
             || (from + |items| < |job.chunks| && last == Good(Expected(job, from + |items|)))
    ensures Ordered(job, items + [last], from)
  {
    if items != [] && items[0].Good? {
      OrderedAppend(job, items[1..], from + 1, last);
      assert items == [items[0]] + items[1..];
      assert (items + [last])[1..] == items[1..] + [last];
    }
  }

  lemma {:induction false} OrderedCut(job: Job, items: seq<Item>, from: nat, n: nat)
    requires Ordered(job, items, from) && n <= |items|
    ensures Ordered(job, items[..n], from)
  {
    if n > 0 && items[0].Good? {
      OrderedCut(job, items[1..], from + 1, n - 1);
      assert items[..n][1..] == items[1..][..n - 1];
    }
  }

  lemma {:induction false} OrderedFailing(job: Job, items: seq<Item>, from: nat, i: nat)
    requires Ordered(job, items, from) && i < |items|
    ensures Ordered(job, items[i := Failure], from)
  {
    if i > 0 && items[0].Good? {
      OrderedFailing(job, items[1..], from + 1, i - 1);
      assert items[i := Failure][1..] == items[1..][i - 1 := Failure];
    }
  }

  lemma PullChunkInv(job: Job, s: State, t: State)
    requires Inv(job, s) && PullChunk(job, s, t)
    ensures Inv(job, t)
  {
    hide Ordered;
    var message := Classify(job, s);
    assert InFlight(t) == InFlight(s) + [Good(message)];
    if s.phase != Failed {
      OrderedAppend(job, InFlight(s), |s.entries|, Good(message));
    }
  }

  lemma PullErrorInv(job: Job, s: State, t: State)
    requires Inv(job, s) && PullError(job, s, t)
    ensures Inv(job, t)
  {
    hide Ordered;
    assert InFlight(t) == InFlight(s) + [Failure];
    if s.phase != Failed {
      OrderedAppend(job, InFlight(s), |s.entries|, Failure);
    }
  }

  lemma CompressedInv(job: Job, s: State, t: State, i: nat, ok: bool)
    requires Inv(job, s) && Compressed(s, t, i, ok)
    ensures Inv(job, t)
  {
    hide Ordered;
    var before := InFlight(s);
    var j := |s.channel| + i;
    if ok {
      assert InFlight(t) == before;
    } else if s.phase != Failed {
      assert InFlight(t) == before[j := Failure];
      assert before[j := Failure][j] == Failure;
      OrderedFailing(job, before, |s.entries|, j);
    }
  }

  lemma SendInv(job: Job, s: State, t: State)
    requires Inv(job, s) && Send(s, t)
    ensures Inv(job, t)
  {
    hide Ordered;
    var before := InFlight(s);
    var item := s.window[0].item;
    if item.Failure? {
      assert InFlight(t) == before[..|s.channel| + 1];
      assert t.channel[|s.channel|] == Failure;
      if s.phase != Failed { OrderedCut(job, before, |s.entries|, |s.channel| + 1); }
    } else {
      assert WindowItems(s.window) == [item] + WindowItems(s.window[1..]);
      assert InFlight(t) == before;
    }
  }

  lemma StopInv(job: Job, s: State, t: State)
    requires Inv(job, s) && Stop(job, s, t)
    ensures Inv(job, t)
  {
    if s.phase != Failed {
      assert WindowItems([]) == [];
      assert InFlight(t) == InFlight(s) == s.channel;
    }
  }

  lemma OrderedHead(job: Job, items: seq<Item>, head: Item, from: nat)
    requires Ordered(job, [head] + items, from) && head.Good?
    ensures from < |job.chunks| && head == Good(Expected(job, from)) && Ordered(job, items, from + 1)
  {
    assert ([head] + items)[1..] == items;
  }

  lemma ReceiveInv(job: Job, s: State, t: State, ok: bool)
    requires Inv(job, s) && Receive(s, t, ok)
    ensures Inv(job, t)
  {
    hide FlightInv, Total;
    if t.phase != Failed {
      FlightMovesOn(job, s, t);
      Recorded(job, |s.entries|);
    }
  }

  /** The oldest item in flight is taken off and recorded. */
  lemma FlightMovesOn(job: Job, s: State, t: State)
    requires FlightInv(job, s) && s.channel != [] && s.channel[0].Good?
    requires t.channel == s.channel[1..] && t.window == s.window && t.stopped == s.stopped && t.next == s.next
    requires |t.entries| == |s.entries| + 1
    ensures FlightInv(job, t) && |s.entries| < |job.chunks| && s.channel[0] == Good(Expected(job, |s.entries|))
  {
    hide Ordered, WindowItems;
    var head := s.channel[0];
    assert s.channel == [head] + t.channel;
    ConcatIsAssociative([head], t.channel, WindowItems(s.window));
    OrderedHead(job, InFlight(t), head, |s.entries|);
    FailureBehind(head, t.channel);
    FailureBehind(head, InFlight(t));
  }

  lemma FailureBehind(head: Item, items: seq<Item>)
    requires head.Good?
    ensures Failure in [head] + items <==> Failure in items
  {
  }

  lemma Recorded(job: Job, n: nat)
    requires n < |job.chunks|
    ensures Total(job.chunks, n + 1) == Total(job.chunks, n) + |job.chunks[n]|
  {
  }

  lemma InvNext(job: Job, s: State, t: State)
    requires Inv(job, s) && Next(job, s, t)
    ensures Inv(job, t)
  {
    if PullChunk(job, s, t) {
      PullChunkInv(job, s, t);
    } else if PullError(job, s, t) {
      PullErrorInv(job, s, t);
    } else if i: nat, ok: bool :| Compressed(s, t, i, ok) {
      CompressedInv(job, s, t, i, ok);
    } else if Send(s, t) {
      SendInv(job, s, t);
    } else if Stop(job, s, t) {
      StopInv(job, s, t);
    } else if ok: bool :| Receive(s, t, ok) {
      ReceiveInv(job, s, t, ok);
    } else if ok: bool :| RegisterBatch(s, t, ok) {
      assert t.phase != Failed ==> InFlight(t) == InFlight(s);
    } else {
      var ok: bool :| CloseIndex(s, t, ok);
      assert t.phase != Failed ==> InFlight(t) == InFlight(s);
    }
  }

  // ---------------------------------------------------------------- what the server sees

  lemma ServeOne(job: Job, initial: map<Digest, Chunk>, log: seq<Event>, event: Event)
    ensures Serve(job.sha, initial, log + [event]) == ServeNext(job.sha, Serve(job.sha, initial, log), event)
  {
    assert (log + [event])[..|log|] == log;
  }

  lemma ListedAppend(job: Job, digests: seq<Digest>, offsets: seq<nat>, n: nat)
    requires n < |job.chunks| && Listed(job, digests, offsets, n)
    ensures Listed(job, digests + [job.DigestOf(n)], offsets + [Total(job.chunks, n)], n + 1)
  {
    hide Total;
  }

  lemma RecordLog(job: Job, s: State, t: State, initial: map<Digest, Chunk>, ok: bool)
    requires Inv(job, s) && LogInv(job, s, initial) && initial.Keys == job.known
    requires Receive(s, t, ok) && t.phase != Failed
    ensures LogInv(job, t, initial)
  {
    hide Ordered, Serve, InFlight, FlightInv, Listed, Stored;
    OrderedHeadOf(job, s);
    var n := |s.entries|;
    var v := Serve(job.sha, initial, s.log).value;
    var digest, chunk := job.DigestOf(n), job.chunks[n];
    assert v.digests + t.digestList == (v.digests + s.digestList) + [digest];
    assert v.offsets + t.offsetList == (v.offsets + s.offsetList) + [Total(job.chunks, n)];
    ListedAppend(job, v.digests + s.digestList, v.offsets + s.offsetList, n);
    if digest in Seen(job, n) {
      StoredKnown(job, v.contents, initial, n);
    } else {
      StoredNew(job, v.contents, initial, n);
      ServeOne(job, initial, s.log, Upload(digest, chunk));
    }
  }

  lemma StoredKnown(job: Job, contents: map<Digest, Chunk>, initial: map<Digest, Chunk>, n: nat)
    requires n < |job.chunks| && Stored(job, contents, initial, n) && job.DigestOf(n) in Seen(job, n)
    ensures Stored(job, contents, initial, n + 1)
  {
  }

  lemma StoredNew(job: Job, contents: map<Digest, Chunk>, initial: map<Digest, Chunk>, n: nat)
    requires n < |job.chunks| && Stored(job, contents, initial, n) && job.DigestOf(n) !in Seen(job, n)
    requires initial.Keys == job.known
    ensures job.DigestOf(n) !in contents
    ensures Stored(job, contents[job.DigestOf(n) := job.chunks[n]], initial, n + 1)
  {
    SeenKnown(job, n);
  }

  lemma SeenKnown(job: Job, n: nat)
    requires n <= |job.chunks|
    ensures job.known <= Seen(job, n)
  {
  }

  lemma OrderedHeadOf(job: Job, s: State)
    requires Inv(job, s) && s.phase == Running && s.channel != [] && s.channel[0].Good?
    ensures |s.entries| < |job.chunks| && s.channel[0] == Good(Expected(job, |s.entries|))
  {
    assert InFlight(s)[0] == s.channel[0];
  }

  lemma RegisterLog(job: Job, s: State, t: State, initial: map<Digest, Chunk>)
    requires Inv(job, s) && LogInv(job, s, initial) && RegisterBatch(s, t, true)
    ensures LogInv(job, t, initial)
  {
    hide Ordered, Serve, InFlight, FlightInv, ProducerInv, Listed, Stored, Total;
    var n := |s.entries|;
    var v := Serve(job.sha, initial, s.log).value;
    ServeOne(job, initial, s.log, Register(s.digestList, s.offsetList));
    ListedAreHeld(job, v, initial, s.digestList, v.offsets + s.offsetList, n);
    assert v.digests + s.digestList + [] == v.digests + s.digestList;
    assert v.offsets + s.offsetList + [] == v.offsets + s.offsetList;
  }

  lemma ListedAreHeld(job: Job, v: Server, initial: map<Digest, Chunk>, digestList: seq<Digest>, offsets: seq<nat>, n: nat)
    requires n <= |job.chunks| && Listed(job, v.digests + digestList, offsets, n) && Stored(job, v.contents, initial, n)
    ensures forall d :: d in digestList ==> d in v.contents
  {
    forall d | d in digestList ensures d in v.contents {
      var k :| 0 <= k < |digestList| && digestList[k] == d;
      assert (v.digests + digestList)[|v.digests| + k] == d;
      SeenHas(job, n, |v.digests| + k);
    }
  }

  lemma LogKept(job: Job, s: State, t: State, initial: map<Digest, Chunk>)
    requires LogInv(job, s, initial) && t.log == s.log && t.entries == s.entries
    requires t.digestList == s.digestList && t.offsetList == s.offsetList
    requires t.phase == Finished <==> s.phase == Finished
    ensures LogInv(job, t, initial)
  {
  }

  lemma LogNext(job: Job, s: State, t: State, initial: map<Digest, Chunk>)
    requires Inv(job, s) && LogInv(job, s, initial) && initial.Keys == job.known && Next(job, s, t)
    ensures LogInv(job, t, initial)
  {
    hide LogInv, Inv, Classify;
    if ok: bool :| Receive(s, t, ok) {
      if t.phase == Failed { LogKept(job, s, t, initial); } else { RecordLog(job, s, t, initial, ok); }
    } else if ok: bool :| RegisterBatch(s, t, ok) {
      if ok { RegisterLog(job, s, t, initial); } else { LogKept(job, s, t, initial); }
    } else if ok: bool :| CloseIndex(s, t, ok) {
      if ok { CloseLog(job, s, t, initial); } else { LogKept(job, s, t, initial); }
    } else {
      LogKept(job, s, t, initial);
    }
  }

  lemma CloseLog(job: Job, s: State, t: State, initial: map<Digest, Chunk>)
    requires Inv(job, s) && LogInv(job, s, initial) && CloseIndex(s, t, true)
    ensures LogInv(job, t, initial)
  {
    hide Ordered, Serve, InFlight, FlightInv, Listed, Stored;
    ServeOne(job, initial, s.log, Close(|s.entries|, s.endOffset));
  }

  lemma InitLog(job: Job, initial: map<Digest, Chunk>)
    requires initial.Keys == job.known
    ensures LogInv(job, Init(job), initial)
  {
  }

  /** In every run, whatever the timing and whatever fails, the server accepts all it is sent. */
  lemma {:induction false} EveryRunIsServed(job: Job, initial: map<Digest, Chunk>, run: seq<State>)
    requires initial.Keys == job.known && IsRun(job, run)
    ensures Inv(job, run[|run| - 1]) && LogInv(job, run[|run| - 1], initial)
    decreases |run|
  {
    hide Next, Inv, LogInv;
    var last := |run| - 1;
    if last == 0 {
      InitInv(job);
      InitLog(job, initial);
    } else {
      var before := run[..last];
      forall i | 0 <= i < |before| - 1 ensures Next(job, before[i], before[i + 1]) {
        assert before[i] == run[i] && before[i + 1] == run[i + 1];
      }
      EveryRunIsServed(job, initial, before);
      assert Next(job, run[last - 1], run[last]);
      InvNext(job, run[last - 1], run[last]);
      LogNext(job, run[last - 1], run[last], initial);
    }
  }

  // ---------------------------------------------------------------- what that means for the protocol

  lemma {:induction false} AcceptedPrefix(job: Job, initial: map<Digest, Chunk>, log: seq<Event>, k: nat)
    requires Serve(job.sha, initial, log).Some? && k <= |log|
    ensures Serve(job.sha, initial, log[..k]).Some?
  {
    if k < |log| {
      AcceptedPrefix(job, initial, log[..|log| - 1], k);
      assert log[..|log| - 1][..k] == log[..k];
    } else {
      assert log[..k] == log;
    }
  }

  lemma {:induction false} HeldWasUploaded(job: Job, initial: map<Digest, Chunk>, log: seq<Event>,
                                             digest: Digest)
    requires Serve(job.sha, initial, log).Some?
    ensures digest in Serve(job.sha, initial, log).value.contents
            <==> digest in initial || exists u :: 0 <= u < |log| && log[u].Upload? && log[u].digest == digest
  {
    if log != [] {
      var before := log[..|log| - 1];
      HeldWasUploaded(job, initial, before, digest);
      assert forall u :: 0 <= u < |before| ==> before[u] == log[u];
    }
  }

  /** One event of an accepted log, against the events before it. */
  lemma AcceptedEvent(job: Job, initial: map<Digest, Chunk>, log: seq<Event>, e: nat)
    requires Serve(job.sha, initial, log).Some? && e < |log|
    ensures var served := Serve(job.sha, initial, log[..e]);
            served.Some? && ServeNext(job.sha, served, log[e]).Some?
            && Serve(job.sha, initial, log[..e + 1]) == ServeNext(job.sha, served, log[e])
  {
    AcceptedPrefix(job, initial, log, e);
    AcceptedPrefix(job, initial, log, e + 1);
    assert log[..e + 1] == log[..e] + [log[e]];
    ServeOne(job, initial, log[..e], log[e]);
  }

  lemma OnlyTheLastCloses(job: Job, initial: map<Digest, Chunk>, log: seq<Event>, e: nat)
    requires Serve(job.sha, initial, log).Some? && e + 1 < |log|
    ensures !log[e].Close?
  {
    hide Serve;
    AcceptedEvent(job, initial, log, e);
    AcceptedEvent(job, initial, log, e + 1);
  }

  /** `digest` was uploaded before event `e`. */
  ghost predicate UploadedBefore(log: seq<Event>, e: nat, digest: Digest)
    requires e <= |log|
  {
    exists u :: 0 <= u < e && log[u].Upload? && log[u].digest == digest
  }

  /** A listed digest was known or has been uploaded before; no batch is empty or over the limit;
      nothing is uploaded that was known or uploaded before, or under another digest; nothing follows
      the closing of the index. */
  ghost predicate EventSafe(job: Job, log: seq<Event>, e: nat)
    requires e < |log|
  {
    match log[e]
    case Register(digests, offsets) =>
      && 0 < |digests| == |offsets| <= INDEX_BATCH_SIZE
      && forall d :: d in digests ==> d in job.known || UploadedBefore(log, e, d)
    case Upload(digest, plaintext) =>
      digest == job.sha(plaintext) && digest !in job.known && !UploadedBefore(log, e, digest)
    case Close(_, _) => e == |log| - 1
  }

  lemma AcceptedIsSafe(job: Job, initial: map<Digest, Chunk>, log: seq<Event>, e: nat)
    requires initial.Keys == job.known && Serve(job.sha, initial, log).Some? && e < |log|
    ensures EventSafe(job, log, e)
  {
    hide Serve;
    AcceptedEvent(job, initial, log, e);
    assert forall u :: 0 <= u < e ==> log[..e][u] == log[u];
    match log[e] {
      case Register(digests, offsets) =>
        forall d | d in digests ensures d in job.known || UploadedBefore(log, e, d) {
          HeldWasUploaded(job, initial, log[..e], d);
        }
      case Upload(digest, plaintext) =>
        HeldWasUploaded(job, initial, log[..e], digest);
      case Close(_, _) =>
        if e + 1 < |log| { OnlyTheLastCloses(job, initial, log, e); }
    }
  }

  /** At every point of every run, whatever the compression timing and whatever fails. */
  lemma UploadProtocol(job: Job, run: seq<State>, e: nat)
    requires IsRun(job, run) && e < |run[|run| - 1].log|
    ensures EventSafe(job, run[|run| - 1].log, e)
  {
    hide Inv, Serve, EventSafe;
    var initial: map<Digest, Chunk> := map d | d in job.known :: [];
    EveryRunIsServed(job, initial, run);
    AcceptedIsSafe(job, initial, run[|run| - 1].log, e);
  }

  /** What has been registered by the end, and that only a complete index is closed. */
  lemma IndexIsTheStream(job: Job, initial: map<Digest, Chunk>, run: seq<State>)
    requires initial.Keys == job.known && IsRun(job, run)
    ensures var s := run[|run| - 1];
            var served := Serve(job.sha, initial, s.log);
            var n := |job.chunks|;
            && served.Some?
            && (s.phase == Finished <==> served.value.closed.Some?)
            && (s.phase == Finished ==>
                  && Listed(job, served.value.digests, served.value.offsets, n)
                  && served.value.closed == Some((n, Total(job.chunks, n))) && |s.entries| == n
                  && forall i :: 0 <= i < n ==> s.entries[i] == (Total(job.chunks, i + 1), job.DigestOf(i)))
  {
    hide Serve, Total;
    EveryRunIsServed(job, initial, run);
    var s := run[|run| - 1];
    var v := Serve(job.sha, initial, s.log).value;
    if s.phase == Finished {
      assert v.digests + s.digestList == v.digests && v.offsets + s.offsetList == v.offsets;
    }
  }

  /** SHA-256 tells the chunks of the stream from one another and from those the server holds. */
  ghost predicate NoCollisions(job: Job, initial: map<Digest, Chunk>) {
    && (forall i, d :: 0 <= i < |job.chunks| && d in initial && d == job.DigestOf(i) ==> initial[d] == job.chunks[i])
    && (forall i, j :: 0 <= i < |job.chunks| && 0 <= j < |job.chunks| && job.DigestOf(i) == job.DigestOf(j) ==>
          job.chunks[i] == job.chunks[j])
  }

  /** Once the index is closed, fetching what it lists, in order, gives back the stream. */
  lemma IndexReadsBack(job: Job, initial: map<Digest, Chunk>, run: seq<State>)
    requires initial.Keys == job.known && NoCollisions(job, initial)
    requires IsRun(job, run) && run[|run| - 1].phase == Finished
    ensures var s := run[|run| - 1];
            var served := Serve(job.sha, initial, s.log);
            && served.Some? && |s.entries| == |job.chunks|
            && forall i :: 0 <= i < |s.entries| ==>
                 var digest := s.entries[i].1;
                 digest in served.value.contents && served.value.contents[digest] == job.chunks[i]
  {
    hide Serve, Total;
    EveryRunIsServed(job, initial, run);
    var n := |job.chunks|;
    forall i | 0 <= i < n ensures job.DigestOf(i) in Seen(job, n) {
      SeenHas(job, n, i);
    }
  }

  // ---------------------------------------------------------------- and it ends

  /** A step in which nothing fails. */
  ghost predicate Progress(job: Job, s: State, t: State) {
    || PullChunk(job, s, t)
    || (exists i: nat :: Compressed(s, t, i, true))
    || Send(s, t)
    || Stop(job, s, t)
    || Receive(s, t, true)
    || RegisterBatch(s, t, true)
    || CloseIndex(s, t, true)
  }

  /** What is left to do for a slot. A failed read that waits in the window takes up room there for
      good, which is worth a step. */
  function Cost(slot: Slot): int {
    if !slot.ready then 4 else if slot.item.Failure? then -1 else 3
  }

  function Pending(window: seq<Slot>): int {
    if window == [] then 0 else Cost(window[0]) + Pending(window[1..])
  }

  function Work(job: Job, s: State): int {
    5 * (|job.chunks| - s.next) + Pending(s.window) + 2 * |s.channel| + |s.digestList|
    + (if s.stopped then 0 else 4 * job.Window() + 1) + (if s.phase == Running then 1 else 0)
  }

  lemma {:induction false} PendingAppend(window: seq<Slot>, slot: Slot)
    ensures Pending(window + [slot]) == Pending(window) + Cost(slot)
  {
    if window == [] {
      assert window + [slot] == [slot];
    } else {
      PendingAppend(window[1..], slot);
      assert (window + [slot])[1..] == window[1..] + [slot];
    }
  }

  lemma {:induction false} PendingReady(window: seq<Slot>, i: nat, item: Item)
    requires i < |window| && !window[i].ready
    ensures Pending(window[i := Slot(item, true)]) < Pending(window)
  {
    if i == 0 {
      assert window[0 := Slot(item, true)][1..] == window[1..];
    } else {
      PendingReady(window[1..], i - 1, item);
      assert window[i := Slot(item, true)][1..] == window[1..][i - 1 := Slot(item, true)];
    }
  }

  lemma {:induction false} PendingBound(window: seq<Slot>)
    ensures -|window| <= Pending(window)
  {
    if window != [] { PendingBound(window[1..]); }
  }

  /** Every step, a failing one too, leaves less to do, and the window within its size. */
  lemma StepShrinks(job: Job, s: State, t: State)
    requires Next(job, s, t) && |s.window| <= job.Window()
    ensures Work(job, t) < Work(job, s) && |t.window| <= job.Window()
  {
    hide Work, PullChunk, PullError, Compressed, Send, Stop, Receive, RegisterBatch, CloseIndex;
    if PullChunk(job, s, t) || PullError(job, s, t) {
      PullShrinks(job, s, t);
    } else if i: nat, ok: bool :| Compressed(s, t, i, ok) {
      CompressedShrinks(job, s, t, i, ok);
    } else if Send(s, t) || Stop(job, s, t) {
      ProducerShrinks(job, s, t);
    } else {
      ConsumerShrinks(job, s, t);
    }
  }

  lemma PullShrinks(job: Job, s: State, t: State)
    requires PullChunk(job, s, t) || PullError(job, s, t)
    ensures Work(job, t) < Work(job, s) && |t.window| <= job.Window()
  {
    hide Classify;
    PendingAppend(s.window, t.window[|s.window|]);
  }

  lemma CompressedShrinks(job: Job, s: State, t: State, i: nat, ok: bool)
    requires Compressed(s, t, i, ok)
    ensures Work(job, t) < Work(job, s) && |t.window| == |s.window|
  {
    PendingReady(s.window, i, t.window[i].item);
  }

  lemma ProducerShrinks(job: Job, s: State, t: State)
    requires (Send(s, t) || Stop(job, s, t)) && |s.window| <= job.Window()
    ensures Work(job, t) < Work(job, s) && |t.window| <= job.Window()
  {
    PendingBound(s.window);
  }

  lemma ConsumerShrinks(job: Job, s: State, t: State)
    requires (exists ok: bool :: Receive(s, t, ok) || RegisterBatch(s, t, ok) || CloseIndex(s, t, ok))
    ensures Work(job, t) < Work(job, s) && t.window == s.window
  {
  }

  /** Until it has finished or failed, a run can take a step in which nothing fails. */
  lemma NeverStuck(job: Job, run: seq<State>) returns (t: State)
    requires IsRun(job, run) && run[|run| - 1].phase == Running
    ensures Progress(job, run[|run| - 1], t)
  {
    hide Next, Serve, LogInv;
    var initial: map<Digest, Chunk> := map d | d in job.known :: [];
    EveryRunIsServed(job, initial, run);
    t := CanStep(job, run[|run| - 1]);
  }

  lemma CanStep(job: Job, s: State) returns (t: State)
    requires Inv(job, s) && s.phase == Running
    ensures Progress(job, s, t)
  {
    hide Ordered;
    if |s.digestList| >= INDEX_BATCH_SIZE || (s.stopped && s.channel == [] && s.digestList != []) {
      t := s.(log := s.log + [Register(s.digestList, s.offsetList)], digestList := [], offsetList := []);
    } else if s.channel != [] {
      var rest := s.(channel := s.channel[1..]);
      t := match s.channel[0]
        case Failure => rest.(phase := Failed)
        case Good(Known(digest, size)) => Record(rest, digest, size)
        case Good(New(digest, plaintext)) =>
          Record(rest, digest, |plaintext|).(log := s.log + [Upload(digest, plaintext)]);
      assert Receive(s, t, true);
    } else if s.stopped {
      t := s.(log := s.log + [Close(|s.entries|, s.endOffset)], phase := Finished);
    } else if s.window != [] && !s.window[0].ready {
      t := s.(window := s.window[0 := Slot(s.window[0].item, true)]);
      assert Compressed(s, t, 0, true);
    } else if s.window != [] {
      var item := s.window[0].item;
      t := s.(channel := s.channel + [item],
              window := if item.Failure? then [] else s.window[1..],
              stopped := item.Failure?);
      assert Send(s, t);
    } else if s.next < |job.chunks| {
      var message := Classify(job, s);
      t := s.(next := s.next + 1,
              known := s.known + {message.digest},
              window := s.window + [Slot(Good(message), message.Known?)]);
      assert PullChunk(job, s, t);
    } else {
      t := s.(window := [], stopped := true);
    }
  }

  /** Every run is over after at most five steps a chunk and four a place in the window, and two,
      whatever fails on the way. */
  lemma {:induction false} RunsEnd(job: Job, run: seq<State>)
    requires IsRun(job, run)
    ensures |run| - 1 <= 5 * |job.chunks| + 4 * job.Window() + 2
  {
    var initial: map<Digest, Chunk> := map d | d in job.known :: [];
    EveryRunIsServed(job, initial, run);
    WorkIsDone(job, run);
    var s := run[|run| - 1];
    PendingBound(s.window);
  }

  lemma {:induction false} WorkIsDone(job: Job, run: seq<State>)
    requires IsRun(job, run)
    ensures |run| - 1 + Work(job, run[|run| - 1]) <= 5 * |job.chunks| + 4 * job.Window() + 2
    ensures |run[|run| - 1].window| <= job.Window()
    decreases |run|
  {
    hide Next;
    var last := |run| - 1;
    if last > 0 {
      var before := run[..last];
      forall i | 0 <= i < |before| - 1 ensures Next(job, before[i], before[i + 1]) {
        assert before[i] == run[i] && before[i + 1] == run[i + 1];
      }
      WorkIsDone(job, before);
      assert Next(job, run[last - 1], run[last]);
      StepShrinks(job, run[last - 1], run[last]);
    }
  }

  // ---------------------------------------------------------------- batches and buffers

  ghost predicate Short(event: Event) {
    event.Register? && |event.digests| != 256
  }

  /** No batch but the last is short, and behind a short one nothing is left to register. */
  ghost predicate Batched(s: State) {
    && |s.digestList| <= 256
    && (forall i, j :: 0 <= i < j < |s.log| && s.log[i].Register? && s.log[j].Register? ==> !Short(s.log[i]))
    && (forall i :: 0 <= i < |s.log| && Short(s.log[i]) ==> s.stopped && s.channel == [] && s.digestList == [])
  }

  /** No more chunks are held back than there are compression threads, or one if there are none, and the
      channel has places. */
  ghost predicate Bounded(job: Job, s: State) {
    (|s.window| <= 1 || |s.window| <= job.threads) && |s.channel| <= 4
  }

  lemma BatchedNext(job: Job, s: State, t: State)
    requires Batched(s) && Bounded(job, s) && Next(job, s, t)
    ensures Batched(t) && Bounded(job, t)
  {
    hide Classify;
    if PullChunk(job, s, t) || PullError(job, s, t) || Stop(job, s, t) || Send(s, t) {
      assert t.log == s.log;
    } else if i: nat, ok: bool :| Compressed(s, t, i, ok) {
    } else if ok: bool :| Receive(s, t, ok) {
      ReceiveBatched(job, s, t, ok);
    } else if ok: bool :| RegisterBatch(s, t, ok) {
      RegisterBatched(job, s, t, ok);
    } else {
      var ok: bool :| CloseIndex(s, t, ok);
    }
  }

  lemma ReceiveBatched(job: Job, s: State, t: State, ok: bool)
    requires Batched(s) && Bounded(job, s) && Receive(s, t, ok)
    ensures Batched(t) && Bounded(job, t)
  {
    assert forall i :: 0 <= i < |s.log| ==> t.log[i] == s.log[i];
    assert forall i :: |s.log| <= i < |t.log| ==> t.log[i].Upload?;
  }

  lemma RegisterBatched(job: Job, s: State, t: State, ok: bool)
    requires Batched(s) && Bounded(job, s) && RegisterBatch(s, t, ok)
    ensures Batched(t) && Bounded(job, t)
  {
    assert forall i :: 0 <= i < |s.log| ==> t.log[i] == s.log[i];
    assert ok ==> t.log[|s.log|] == Register(s.digestList, s.offsetList);
  }

  /** In every run every batch but the last is full, and memory is bounded: no more chunks are held back
      than the compression window and the channel have places. */
  lemma {:induction false} BatchesAreFull(job: Job, run: seq<State>)
    requires IsRun(job, run)
    ensures Batched(run[|run| - 1]) && Bounded(job, run[|run| - 1])
    decreases |run|
  {
    hide Next, Batched, Bounded;
    var last := |run| - 1;
    if last == 0 {
      NothingBatched(job);
    } else {
      var before := run[..last];
      forall i | 0 <= i < |before| - 1 ensures Next(job, before[i], before[i + 1]) {
        assert before[i] == run[i] && before[i + 1] == run[i + 1];
      }
      BatchesAreFull(job, before);
      assert Next(job, run[last - 1], run[last]);
      BatchedNext(job, run[last - 1], run[last]);
    }
  }

  lemma NothingBatched(job: Job)
    ensures Batched(Init(job)) && Bounded(job, Init(job))
  {
  }

  /** A stream that fails to read before its first chunk: the failure is sent, the upload fails, and
      nothing has been uploaded, registered or closed. */
  lemma ReadErrorFails(job: Job) returns (run: seq<State>)
    ensures IsRun(job, run) && run[|run| - 1].phase == Failed && run[|run| - 1].log == []
  {
    var s0 := Init(job);
    var s1 := s0.(window := [Slot(Failure, true)]);
    var s2 := s1.(channel := [Failure], window := [], stopped := true);
    var s3 := s2.(channel := [], phase := Failed);
    assert s0.window + [Slot(Failure, true)] == [Slot(Failure, true)];
    assert PullError(job, s0, s1);
    assert s1.channel + [Failure] == [Failure] && Send(s1, s2);
    assert s2.channel[1..] == [] && Receive(s2, s3, true);
    run := [s0, s1, s2, s3];
  }

  /** A new chunk whose compression fails is as good as a stream that cannot be read. */
  lemma CompressionFails(job: Job) returns (run: seq<State>)
    requires job.chunks != [] && job.DigestOf(0) !in job.known
    ensures IsRun(job, run) && run[|run| - 1].phase == Failed && run[|run| - 1].log == []
  {
    var s0 := Init(job);
    var slot := Slot(Good(Classify(job, s0)), false);
    var s1 := s0.(next := 1, known := s0.known + {job.DigestOf(0)}, window := [slot]);
    var s2 := s1.(window := [Slot(Failure, true)]);
    var s3 := s2.(channel := [Failure], window := [], stopped := true);
    var s4 := s3.(channel := [], phase := Failed);
    assert s0.window + [slot] == [slot] && PullChunk(job, s0, s1);
    assert s1.window[0 := Slot(Failure, true)] == [Slot(Failure, true)] && Compressed(s1, s2, 0, false);
    assert s2.channel + [Failure] == [Failure] && Send(s2, s3);
    assert s3.channel[1..] == [] && Receive(s3, s4, true);
    run := [s0, s1, s2, s3, s4];
  }

  /** And the window can be filled: as many chunks may be compressed at a time as there are threads. */
  lemma {:induction false} WindowFills(job: Job, n: nat) returns (run: seq<State>)
    requires n <= |job.chunks| && (n <= 1 || n <= job.threads)
    ensures IsRun(job, run)
    ensures var s := run[|run| - 1]; |s.window| == s.next == n && !s.stopped
  {
    if n == 0 {
      run := [Init(job)];
    } else {
      run := WindowFills(job, n - 1);
      var s := run[|run| - 1];
      var message := Classify(job, s);
      var t := s.(next := s.next + 1, known := s.known + {message.digest},
                  window := s.window + [Slot(Good(message), message.Known?)]);
      assert PullChunk(job, s, t);
      RunGrows(job, run, t);
      run := run + [t];
    }
  }

  lemma RunGrows(job: Job, run: seq<State>, t: State)
    requires IsRun(job, run) && Next(job, run[|run| - 1], t)
    ensures IsRun(job, run + [t])
  {
    hide Next;
    var longer := run + [t];
    forall i | 0 <= i < |longer| - 1 ensures Next(job, longer[i], longer[i + 1]) {
      if i < |run| - 1 { assert longer[i] == run[i] && longer[i + 1] == run[i + 1]; }
    }
  }
}
