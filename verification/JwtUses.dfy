/** `JwtClient::limited_jwt_id` and the sweeper, as the steps of any number of threads between the
    points where another can run: taking and giving back the read or the write lock, and the load and
    the compare-and-swap that make up `fetch_update`. */
module JwtUses {
  type Id = string

  /** Where a thread is: outside; waiting for the read lock; under it; waiting for the write lock;
      under that; about to load the count of an entry, or to swap it, under either. */
  datatype Phase =
    | Idle
    | WantRead(id: Id)
    | Reading(id: Id)
    | WantWrite(id: Id)
    | Writing(id: Id)
    | Claiming(id: Id, exclusive: bool)
    | Loaded(id: Id, exclusive: bool, count: nat)
    | Sweeping

  datatype State = State(seen: map<Id, nat>, threads: map<nat, Phase>, wins: map<Id, nat>)

  /** The uses of `id` that were let through since it was last swept away. */
  function Wins(s: State, id: Id): nat {
    if id in s.wins then s.wins[id] else 0
  }

  predicate HoldsWrite(phase: Phase) {
    phase.Writing? || phase.Sweeping? || ((phase.Claiming? || phase.Loaded?) && phase.exclusive)
  }

  predicate HoldsLock(phase: Phase) {
    phase.Reading? || phase.Claiming? || phase.Loaded? || HoldsWrite(phase)
  }

  predicate Init(s: State) {
    s.seen == map[] && s.wins == map[] && forall t :: t in s.threads ==> s.threads[t] == Idle
  }

  // ---------------------------------------------------------------- the steps

  predicate At(s: State, t: nat, phase: Phase) {
    t in s.threads && s.threads[t] == phase
  }

  function Goto(s: State, t: nat, phase: Phase): State {
    s.(threads := s.threads[t := phase])
  }

  function Win(s: State, id: Id): State {
    s.(wins := s.wins[id := Wins(s, id) + 1])
  }

  predicate Call(s: State, u: State, t: nat, id: Id) {
    At(s, t, Idle) && u == Goto(s, t, WantRead(id))
  }

  predicate LockRead(s: State, u: State, t: nat) {
    && t in s.threads && s.threads[t].WantRead?
    && (forall o :: o in s.threads ==> !HoldsWrite(s.threads[o]))
    && u == Goto(s, t, Reading(s.threads[t].id))
  }

  /** A known id is claimed under the read lock; otherwise the lock is given back. */
  predicate Look(s: State, u: State, t: nat) {
    && t in s.threads && s.threads[t].Reading?
    && var id := s.threads[t].id;
       u == Goto(s, t, if id in s.seen then Claiming(id, false) else WantWrite(id))
  }

  predicate LockWrite(s: State, u: State, t: nat) {
    && t in s.threads && s.threads[t].WantWrite?
    && (forall o :: o in s.threads ==> !HoldsLock(s.threads[o]))
    && u == Goto(s, t, Writing(s.threads[t].id))
  }

  /** By now another thread may have put the id in. */
  predicate Enter(s: State, u: State, t: nat) {
    && t in s.threads && s.threads[t].Writing?
    && var id := s.threads[t].id;
       u == if id in s.seen then Goto(s, t, Claiming(id, true))
            else Win(Goto(s, t, Idle).(seen := s.seen[id := 1]), id)
  }

  predicate Load(s: State, u: State, t: nat) {
    && t in s.threads && s.threads[t].Claiming?
    && var (id, exclusive) := (s.threads[t].id, s.threads[t].exclusive);
       id in s.seen && u == Goto(s, t, Loaded(id, exclusive, s.seen[id]))
  }

  /** A count that is used up ends the call with a refusal. */
  predicate Refuse(max: nat, s: State, u: State, t: nat) {
    && t in s.threads && s.threads[t].Loaded? && s.threads[t].count >= max
    && u == Goto(s, t, Idle)
  }

  /** The swap succeeds only if the count is still the one that was loaded, and may fail even then
      (`fetch_update` uses a weak compare-and-swap); after a failure the count is loaded again. */
  predicate Swap(max: nat, s: State, u: State, t: nat) {
    && t in s.threads && s.threads[t].Loaded? && s.threads[t].count < max
    && var (id, count) := (s.threads[t].id, s.threads[t].count);
       id in s.seen
       && (u == Goto(s, t, Claiming(id, s.threads[t].exclusive))
           || (s.seen[id] == count && u == Win(Goto(s, t, Idle).(seen := s.seen[id := count + 1]), id)))
  }

  predicate LockSweep(s: State, u: State, t: nat) {
    && At(s, t, Idle)
    && (forall o :: o in s.threads ==> !HoldsLock(s.threads[o]))
    && u == Goto(s, t, Sweeping)
  }

  /** The sweeper removes the entries that are old enough, whichever those are. */
  predicate Sweep(s: State, u: State, t: nat, expired: set<Id>) {
    At(s, t, Sweeping) && u == Goto(s, t, Idle).(seen := s.seen - expired, wins := s.wins - expired)
  }

  /** The steps that neither let a use through nor forget one. */
  ghost predicate Quiet(max: nat, s: State, u: State, t: nat) {
    || (exists id: Id :: Call(s, u, t, id))
    || LockRead(s, u, t)
    || Look(s, u, t)
    || LockWrite(s, u, t)
    || Load(s, u, t)
    || Refuse(max, s, u, t)
    || LockSweep(s, u, t)
  }

  ghost predicate Next(max: nat, s: State, u: State) {
    || (exists t: nat :: Quiet(max, s, u, t))
    || (exists t: nat :: Enter(s, u, t))
    || (exists t: nat :: Swap(max, s, u, t))
    || (exists t: nat, expired: set<Id> :: Sweep(s, u, t, expired))
  }

  /** With a limit of zero nothing is counted, so a run has a limit of at least one. */
  ghost predicate IsRun(max: nat, run: seq<State>) {
    && max >= 1 && run != [] && Init(run[0])
    && forall i :: 0 <= i < |run| - 1 ==> Next(max, run[i], run[i + 1])
  }

  // ---------------------------------------------------------------- the invariant

  /** One writer at most, and then nobody else under the lock. */
  ghost predicate Exclusive(s: State) {
    forall t, o :: t in s.threads && o in s.threads && t != o && HoldsWrite(s.threads[t]) ==> !HoldsLock(s.threads[o])
  }

  /** A thread that claims a use holds the entry, and the count it loaded is not ahead of it. */
  ghost predicate Claims(s: State) {
    forall t :: t in s.threads ==>
      && (s.threads[t].Claiming? ==> s.threads[t].id in s.seen)
      && (s.threads[t].Loaded? ==> s.threads[t].id in s.seen && s.threads[t].count <= s.seen[s.threads[t].id])
  }

  /** The stored count is the number of uses let through, and within the limit. */
  ghost predicate Exact(max: nat, s: State) {
    && s.wins.Keys == s.seen.Keys
    && forall id :: id in s.seen ==> 1 <= s.seen[id] == s.wins[id] <= max
  }

  ghost predicate Inv(max: nat, s: State) {
    Exclusive(s) && Claims(s) && Exact(max, s)
  }

  /** A step that only moves one thread, without giving it a lock. */
  lemma MoveInv(max: nat, s: State, t: nat, phase: Phase)
    requires Inv(max, s) && t in s.threads
    requires HoldsWrite(phase) ==> HoldsWrite(s.threads[t])
    requires HoldsLock(phase) ==> HoldsLock(s.threads[t])
    requires phase.Claiming? ==> phase.id in s.seen
    requires phase.Loaded? ==> phase.id in s.seen && phase.count <= s.seen[phase.id]
    ensures Inv(max, Goto(s, t, phase))
  {
  }

  /** A step that takes a lock: the read lock if nobody writes, the write lock if nobody holds any. */
  lemma LockInv(max: nat, s: State, t: nat, phase: Phase)
    requires Inv(max, s) && t in s.threads && HoldsLock(phase) && !phase.Claiming? && !phase.Loaded?
    requires if HoldsWrite(phase) then forall o :: o in s.threads ==> !HoldsLock(s.threads[o])
             else forall o :: o in s.threads ==> !HoldsWrite(s.threads[o])
    ensures Inv(max, Goto(s, t, phase))
  {
  }

  /** A use is let through. */
  lemma WinInv(max: nat, s: State, t: nat, id: Id)
    requires max >= 1 && Inv(max, s) && t in s.threads
    requires if id in s.seen then s.seen[id] < max else HoldsWrite(s.threads[t])
    ensures var count := if id in s.seen then s.seen[id] + 1 else 1;
            Inv(max, Win(Goto(s, t, Idle).(seen := s.seen[id := count]), id))
  {
  }

  lemma SweepInv(max: nat, s: State, t: nat, expired: set<Id>)
    requires Inv(max, s) && At(s, t, Sweeping)
    ensures Inv(max, Goto(s, t, Idle).(seen := s.seen - expired, wins := s.wins - expired))
  {
  }

  lemma QuietInv(max: nat, s: State, u: State, t: nat)
    requires Inv(max, s) && Quiet(max, s, u, t)
    ensures Inv(max, u)
  {
    assert Claims(s);
    hide Inv, Exclusive, Exact, Claims;
    if LockRead(s, u, t) || LockWrite(s, u, t) || LockSweep(s, u, t) {
      LockInv(max, s, t, u.threads[t]);
    } else {
      MoveInv(max, s, t, u.threads[t]);
    }
  }

  lemma EnterInv(max: nat, s: State, u: State, t: nat)
    requires max >= 1 && Inv(max, s) && Enter(s, u, t)
    ensures Inv(max, u)
  {
    hide Inv, Exclusive, Exact, Claims;
    var id := s.threads[t].id;
    if id in s.seen { MoveInv(max, s, t, Claiming(id, true)); } else { WinInv(max, s, t, id); }
  }

  lemma SwapInv(max: nat, s: State, u: State, t: nat)
    requires max >= 1 && Inv(max, s) && Swap(max, s, u, t)
    ensures Inv(max, u)
  {
    hide Inv, Exclusive, Exact, Claims;
    var p := s.threads[t];
    if u == Goto(s, t, Claiming(p.id, p.exclusive)) {
      MoveInv(max, s, t, Claiming(p.id, p.exclusive));
    } else {
      WinInv(max, s, t, p.id);
    }
  }

  lemma InvNext(max: nat, s: State, u: State)
    requires max >= 1 && Inv(max, s) && Next(max, s, u)
    ensures Inv(max, u)
  {
    hide Inv, Quiet, Enter, Swap;
    if t: nat :| Enter(s, u, t) {
      EnterInv(max, s, u, t);
    } else if t: nat :| Swap(max, s, u, t) {
      SwapInv(max, s, u, t);
    } else if t: nat, expired: set<Id> :| Sweep(s, u, t, expired) {
      SweepInv(max, s, t, expired);
    } else {
      var t: nat :| Quiet(max, s, u, t);
      QuietInv(max, s, u, t);
    }
  }

  /** In every interleaving, for every id: the uses let through since the last sweep of it are what is
      stored for it, and no more than the limit. */
  lemma {:induction false} UsesAreLimited(max: nat, run: seq<State>, id: Id)
    requires IsRun(max, run)
    ensures Inv(max, run[|run| - 1])
    ensures var s := run[|run| - 1]; Wins(s, id) <= max && Wins(s, id) == if id in s.seen then s.seen[id] else 0
    decreases |run|
  {
    if |run| > 1 {
      hide Next;
      var before := run[..|run| - 1];
      forall i | 0 <= i < |before| - 1 ensures Next(max, before[i], before[i + 1]) {
        assert before[i] == run[i] && before[i + 1] == run[i + 1];
      }
      UsesAreLimited(max, before, id);
      var i := |run| - 2;
      assert Next(max, run[i], run[i + 1]);
      InvNext(max, run[i], run[i + 1]);
    }
  }

  /** The use that a thread is asking for. */
  predicate Asks(phase: Phase, id: Id) {
    !phase.Idle? && !phase.Sweeping? && phase.id == id
  }

  /** What may have become, in one step, of a thread that asks for a use of `id`. */
  ghost predicate Answered(max: nat, s: State, u: State, t: nat, id: Id) {
    t in u.threads
    && (Asks(u.threads[t], id) || (u.threads[t] == Idle && (Wins(u, id) == Wins(s, id) + 1 || Refuse(max, s, u, t))))
  }

  /** A call never just ends: it goes on asking for the same use, or that use has been let through, or it
      has been refused. */
  lemma CallEnds(max: nat, s: State, u: State, t: nat, id: Id)
    requires Next(max, s, u) && t in s.threads && Asks(s.threads[t], id)
    ensures Answered(max, s, u, t, id)
  {
    hide Quiet, Enter, Swap, Sweep, Answered;
    if o: nat :| Enter(s, u, o) {
      EnterAnswers(max, s, u, o, t, id);
    } else if o: nat :| Swap(max, s, u, o) {
      SwapAnswers(max, s, u, o, t, id);
    } else if o: nat, expired: set<Id> :| Sweep(s, u, o, expired) {
      SweepAnswers(max, s, u, o, expired, t, id);
    } else {
      var o: nat :| Quiet(max, s, u, o);
      QuietAnswers(max, s, u, o, t, id);
    }
  }

  lemma EnterAnswers(max: nat, s: State, u: State, o: nat, t: nat, id: Id)
    requires Enter(s, u, o) && t in s.threads && Asks(s.threads[t], id)
    ensures Answered(max, s, u, t, id)
  {
  }

  lemma SwapAnswers(max: nat, s: State, u: State, o: nat, t: nat, id: Id)
    requires Swap(max, s, u, o) && t in s.threads && Asks(s.threads[t], id)
    ensures Answered(max, s, u, t, id)
  {
  }

  lemma SweepAnswers(max: nat, s: State, u: State, o: nat, expired: set<Id>, t: nat, id: Id)
    requires Sweep(s, u, o, expired) && t in s.threads && Asks(s.threads[t], id)
    ensures Answered(max, s, u, t, id)
  {
  }

  lemma QuietAnswers(max: nat, s: State, u: State, o: nat, t: nat, id: Id)
    requires Quiet(max, s, u, o) && t in s.threads && Asks(s.threads[t], id)
    ensures Answered(max, s, u, t, id)
  {
    if o == t {
      MoverAnswers(max, s, u, t, id);
    } else {
      assert u.threads[t] == s.threads[t];
    }
  }

  lemma MoverAnswers(max: nat, s: State, u: State, t: nat, id: Id)
    requires Quiet(max, s, u, t) && t in s.threads && Asks(s.threads[t], id)
    ensures Answered(max, s, u, t, id)
  {
    assert !(exists i: Id :: Call(s, u, t, i));
    hide HoldsLock, HoldsWrite;
  }

  /** A use is refused only when the limit has been reached. */
  lemma RefusedMeansUsedUp(max: nat, run: seq<State>, u: State, t: nat)
    requires IsRun(max, run) && Refuse(max, run[|run| - 1], u, t)
    ensures var s := run[|run| - 1]; Wins(s, s.threads[t].id) == max
  {
    var s := run[|run| - 1];
    UsesAreLimited(max, run, s.threads[t].id);
  }
}
