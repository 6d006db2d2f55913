/** `SshLimiter::open_handle` and its guard, as the interleaved atomic steps of any number of threads,
    with a configuration that may be reloaded at any time. */
module HandleLimit {
  /** What a thread is about to do: add without a limit, add with one, compare the count it was given,
      or take a refused attempt back. */
  datatype Phase = Idle | Unlimited | Limited | Added(current: nat) | Refused

  /** `live` counts the guards in existence. */
  datatype State = State(max: nat, openHandles: int, live: nat, threads: map<nat, Phase>)

  predicate Init(s: State) {
    s.openHandles == 0 && s.live == 0 && forall t :: t in s.threads ==> s.threads[t] == Idle
  }

  // ---------------------------------------------------------------- the steps

  predicate At(s: State, t: nat, phase: Phase) {
    t in s.threads && s.threads[t] == phase
  }

  function Goto(s: State, t: nat, phase: Phase): State {
    s.(threads := s.threads[t := phase])
  }

  predicate LoadLimit(s: State, u: State, t: nat) {
    At(s, t, Idle) && u == Goto(s, t, if s.max == 0 then Unlimited else Limited)
  }

  predicate AddFreely(s: State, u: State, t: nat) {
    At(s, t, Unlimited) && u == Goto(s, t, Idle).(openHandles := s.openHandles + 1, live := s.live + 1)
  }

  predicate Add(s: State, u: State, t: nat) {
    At(s, t, Limited) && s.openHandles >= 0
    && u == Goto(s, t, Added(s.openHandles)).(openHandles := s.openHandles + 1)
  }

  /** The limit is loaded a second time here. */
  predicate Compare(s: State, u: State, t: nat) {
    t in s.threads && s.threads[t].Added?
    && u == if s.threads[t].current >= s.max then Goto(s, t, Refused) else Goto(s, t, Idle).(live := s.live + 1)
  }

  predicate TakeBack(s: State, u: State, t: nat) {
    At(s, t, Refused) && u == Goto(s, t, Idle).(openHandles := s.openHandles - 1)
  }

  predicate DropGuard(s: State, u: State) {
    s.live > 0 && u == s.(openHandles := s.openHandles - 1, live := s.live - 1)
  }

  predicate Reload(s: State, u: State) {
    u == s.(max := u.max)
  }

  ghost predicate Next(s: State, u: State) {
    || (exists t: nat :: LoadLimit(s, u, t))
    || (exists t: nat :: AddFreely(s, u, t))
    || (exists t: nat :: Add(s, u, t))
    || (exists t: nat :: Compare(s, u, t))
    || (exists t: nat :: TakeBack(s, u, t))
    || DropGuard(s, u)
    || Reload(s, u)
  }

  ghost predicate IsRun(run: seq<State>) {
    && run != [] && Init(run[0])
    && forall i :: 0 <= i < |run| - 1 ==> Next(run[i], run[i + 1])
  }

  // ---------------------------------------------------------------- what is counted

  /** Attempts that have been added and have neither a guard nor been taken back. */
  function Undecided(threads: map<nat, Phase>): set<nat> {
    set t | t in threads && (threads[t].Added? || threads[t].Refused?)
  }

  /** Those of them that a limit of `cap` would let through. */
  function Admissible(threads: map<nat, Phase>, cap: nat): set<nat> {
    set t | t in threads && threads[t].Added? && threads[t].current < cap
  }

  ghost predicate Counted(s: State) {
    s.openHandles == s.live + |Undecided(s.threads)|
  }

  /** Nothing is under way without a limit, and what lives or may yet live is within `cap`. */
  ghost predicate Capped(s: State, cap: nat) {
    && (forall t :: t in s.threads ==> !s.threads[t].Unlimited?)
    && s.live + |Admissible(s.threads, cap)| <= cap
  }

  lemma UndecidedMoves(threads: map<nat, Phase>, t: nat, phase: Phase)
    requires t in threads
    ensures |Undecided(threads[t := phase])|
         == |Undecided(threads)|
            + (if phase.Added? || phase.Refused? then 1 else 0)
            - (if threads[t].Added? || threads[t].Refused? then 1 else 0)
  {
    var rest := Undecided(threads) - {t};
    assert Undecided(threads) == if threads[t].Added? || threads[t].Refused? then rest + {t} else rest;
    assert Undecided(threads[t := phase]) == if phase.Added? || phase.Refused? then rest + {t} else rest;
  }

  lemma AdmissibleMoves(threads: map<nat, Phase>, t: nat, phase: Phase, cap: nat)
    requires t in threads
    ensures |Admissible(threads[t := phase], cap)|
         == |Admissible(threads, cap)|
            + (if phase.Added? && phase.current < cap then 1 else 0)
            - (if threads[t].Added? && threads[t].current < cap then 1 else 0)
  {
    var rest := Admissible(threads, cap) - {t};
    assert Admissible(threads, cap) == if threads[t].Added? && threads[t].current < cap then rest + {t} else rest;
    assert Admissible(threads[t := phase], cap) == if phase.Added? && phase.current < cap then rest + {t} else rest;
  }

  /** Every step moves at most one thread. */
  lemma CountedNext(s: State, u: State)
    requires Counted(s) && Next(s, u)
    ensures Counted(u)
  {
    hide Undecided;
    if t: nat :| LoadLimit(s, u, t) {
      UndecidedMoves(s.threads, t, u.threads[t]);
    } else if t: nat :| AddFreely(s, u, t) {
      UndecidedMoves(s.threads, t, u.threads[t]);
    } else if t: nat :| Add(s, u, t) {
      UndecidedMoves(s.threads, t, u.threads[t]);
    } else if t: nat :| Compare(s, u, t) {
      UndecidedMoves(s.threads, t, u.threads[t]);
    } else if t: nat :| TakeBack(s, u, t) {
      UndecidedMoves(s.threads, t, u.threads[t]);
    }
  }

  lemma AdmissibleAreUndecided(threads: map<nat, Phase>, cap: nat)
    ensures |Admissible(threads, cap)| <= |Undecided(threads)|
  {
    var others := Undecided(threads) - Admissible(threads, cap);
    assert Undecided(threads) == Admissible(threads, cap) + others;
  }

  lemma CappedNext(s: State, u: State, cap: nat)
    requires Counted(s) && Capped(s, cap) && Next(s, u)
    requires 1 <= s.max <= cap
    ensures Capped(u, cap)
  {
    AdmissibleAreUndecided(s.threads, cap);
    hide Undecided, Admissible;
    if t: nat :| LoadLimit(s, u, t) {
      AdmissibleMoves(s.threads, t, u.threads[t], cap);
    } else if t: nat :| Add(s, u, t) {
      AdmissibleMoves(s.threads, t, u.threads[t], cap);
    } else if t: nat :| Compare(s, u, t) {
      AdmissibleMoves(s.threads, t, u.threads[t], cap);
    } else if t: nat :| TakeBack(s, u, t) {
      AdmissibleMoves(s.threads, t, u.threads[t], cap);
    }
  }

  lemma RunStep(run: seq<State>)
    requires IsRun(run) && |run| > 1
    ensures IsRun(run[..|run| - 1]) && Next(run[|run| - 2], run[|run| - 1])
  {
    var before := run[..|run| - 1];
    forall i | 0 <= i < |before| - 1 ensures Next(before[i], before[i + 1]) {
      assert before[i] == run[i] && before[i + 1] == run[i + 1];
    }
    var i := |run| - 2;
    assert Next(run[i], run[i + 1]);
  }

  /** In every interleaving the counter is the live guards and the undecided attempts; it never goes
      below zero. */
  lemma {:induction false} CounterIsExact(run: seq<State>)
    requires IsRun(run)
    ensures Counted(run[|run| - 1]) && run[|run| - 1].openHandles >= run[|run| - 1].live
    decreases |run|
  {
    if |run| == 1 {
      assert Undecided(run[0].threads) == {};
    } else {
      hide Next, Counted;
      RunStep(run);
      CounterIsExact(run[..|run| - 1]);
      CountedNext(run[|run| - 2], run[|run| - 1]);
    }
    CountedBound(run[|run| - 1]);
  }

  lemma CountedBound(s: State)
    ensures Counted(s) ==> s.openHandles >= s.live
  {
  }

  /** In every interleaving, however the limit is changed as long as it is between 1 and `cap`, there
      are at most `cap` live guards. */
  lemma {:induction false} LiveHandlesAreCapped(run: seq<State>, cap: nat)
    requires IsRun(run) && forall i :: 0 <= i < |run| ==> 1 <= run[i].max <= cap
    ensures Capped(run[|run| - 1], cap) && run[|run| - 1].live <= cap
    decreases |run|
  {
    if |run| == 1 {
      assert Admissible(run[0].threads, cap) == {};
    } else {
      RunStep(run);
      var before := run[..|run| - 1];
      assert forall i :: 0 <= i < |before| ==> before[i] == run[i];
      LiveHandlesAreCapped(before, cap);
      CounterIsExact(before);
      CappedNext(run[|run| - 2], run[|run| - 1], cap);
    }
  }

  /** Any earlier part of a run is a run. */
  lemma RunPrefix(run: seq<State>, n: nat)
    requires IsRun(run) && 0 < n <= |run|
    ensures IsRun(run[..n])
  {
    var before := run[..n];
    forall i | 0 <= i < |before| - 1 ensures Next(before[i], before[i + 1]) {
      assert before[i] == run[i] && before[i + 1] == run[i + 1];
    }
  }

  /** The attempt of thread `t`: added by step `i`, compared by step `j`, and not moved in between. */
  ghost predicate Attempt(run: seq<State>, t: nat, i: nat, j: nat) {
    && IsRun(run) && i < j < |run| - 1
    && Add(run[i], run[i + 1], t) && Compare(run[j], run[j + 1], t)
    && run[j].threads[t] == run[i + 1].threads[t]
  }

  /** An attempt is refused exactly if, when it was added, the live guards and the attempts that were
      undecided then were together as many as the limit that is loaded when it is compared. */
  lemma RefusalIsExact(run: seq<State>, t: nat, i: nat, j: nat)
    requires Attempt(run, t, i, j)
    ensures At(run[j + 1], t, Refused) <==> run[i].live + |Undecided(run[i].threads)| >= run[j].max
    ensures run[j + 1].live == if At(run[j + 1], t, Refused) then run[j].live else run[j].live + 1
  {
    RunPrefix(run, i + 1);
    CounterIsExact(run[..i + 1]);
  }

  /** So it is refused with handles free exactly if undecided attempts made up the rest. */
  lemma RefusedWithHandlesFree(run: seq<State>, t: nat, i: nat, j: nat)
    requires Attempt(run, t, i, j)
    ensures At(run[j + 1], t, Refused) && run[i].live < run[j].max
       <==> run[i].live < run[j].max <= run[i].live + |Undecided(run[i].threads)|
    ensures At(run[j + 1], t, Refused) && run[i].live < run[j].max ==> Undecided(run[i].threads) != {}
  {
    RefusalIsExact(run, t, i, j);
  }

  /** With no other attempt under way when it is added, it is let through exactly if a handle was free. */
  lemma AloneIsExact(run: seq<State>, t: nat, i: nat, j: nat)
    requires Attempt(run, t, i, j) && Undecided(run[i].threads) == {}
    ensures !At(run[j + 1], t, Refused) <==> run[i].live < run[j].max
  {
    RefusalIsExact(run, t, i, j);
  }

  /** Nothing is counted against a limit, or refused. */
  ghost predicate Unhindered(s: State) {
    forall t :: t in s.threads ==> s.threads[t] == Idle || s.threads[t] == Unlimited
  }

  lemma UnhinderedNext(s: State, u: State)
    requires Unhindered(s) && s.max == 0 && Next(s, u)
    ensures Unhindered(u)
  {
    if t: nat :| LoadLimit(s, u, t) {
      assert u.threads == s.threads[t := Unlimited];
    } else if t: nat :| AddFreely(s, u, t) {
      assert u.threads == s.threads[t := Idle];
    } else {
      assert u.threads == s.threads;
    }
  }

  /** While the limit is zero, no attempt is counted against it and none is refused. */
  lemma {:induction false} NoLimitNoRefusal(run: seq<State>)
    requires IsRun(run) && forall i :: 0 <= i < |run| ==> run[i].max == 0
    ensures Unhindered(run[|run| - 1])
    decreases |run|
  {
    if |run| > 1 {
      hide Next, Unhindered;
      RunStep(run);
      var before := run[..|run| - 1];
      assert forall i :: 0 <= i < |before| ==> before[i] == run[i];
      NoLimitNoRefusal(before);
      UnhinderedNext(run[|run| - 2], run[|run| - 1]);
    }
  }

  /** A thread that is to add without a limit can only do so. */
  lemma FreeStep(s: State, u: State, t: nat)
    requires Next(s, u) && At(s, t, Unlimited) && !At(u, t, Unlimited)
    ensures At(u, t, Idle) && u.live == s.live + 1
  {
    if o: nat :| AddFreely(s, u, o) {
      assert o == t;
    }
  }

  /** An attempt that has found the limit to be zero is let through by its next step, whatever the limit
      is by then. */
  lemma FreeIsLetThrough(run: seq<State>, t: nat, i: nat, j: nat)
    requires IsRun(run) && i < j < |run| - 1 && LoadLimit(run[i], run[i + 1], t) && run[i].max == 0
    requires t in run[j].threads && run[j].threads[t] == run[i + 1].threads[t]
    requires !At(run[j + 1], t, run[j].threads[t])
    ensures At(run[j + 1], t, Idle) && run[j + 1].live == run[j].live + 1
  {
    FreeStep(run[j], run[j + 1], t);
  }

  /** With others it may be refused although none is live: with a limit of one, while another attempt
      that was refused has not been taken back yet. */
  lemma RefusedWithNoneLive() returns (run: seq<State>)
    ensures IsRun(run) && (forall i :: 0 <= i < |run| ==> run[i].max == 1)
    ensures var s := run[|run| - 1]; At(s, 2, Refused) && s.live == 0
  {
    var s0 := State(1, 0, 0, map[0 := Idle, 1 := Idle, 2 := Idle]);
    var s1 := Goto(s0, 0, Limited);
    var s2 := Goto(s1, 0, Added(0)).(openHandles := 1);
    var s3 := Goto(s2, 0, Idle).(live := 1);
    var s4 := Goto(s3, 1, Limited);
    var s5 := Goto(s4, 1, Added(1)).(openHandles := 2);
    var s6 := s5.(openHandles := 1, live := 0);
    var s7 := Goto(s6, 2, Limited);
    var s8 := Goto(s7, 2, Added(1)).(openHandles := 2);
    var s9 := Goto(s8, 2, Refused);
    assert LoadLimit(s0, s1, 0) && Add(s1, s2, 0) && Compare(s2, s3, 0);
    assert LoadLimit(s3, s4, 1) && Add(s4, s5, 1) && DropGuard(s5, s6);
    assert LoadLimit(s6, s7, 2) && Add(s7, s8, 2) && Compare(s8, s9, 2);
    run := [s0, s1, s2, s3, s4, s5, s6, s7, s8, s9];
  }
}
