/** The reusable threshold barrier of the Windows lab: a mutex, a counter and a pulsed event. */
module Barrier {

  /** Where a thread is in its next call of WaitThresholdBarrier. `Between` exists only when signalling the
      mutex and waiting for the event are two steps. */
  datatype Pc = Outside | Guarded | Counted | Between | Waiting | Reset | Pulsed | Leaving

  datatype Owner = Free | By(thread: nat)

  /** `done[t]` is the number of calls that thread `t` has returned from; `phase` counts the pulses. */
  datatype State = State(pc: seq<Pc>, done: seq<nat>, count: nat, guard: Owner, phase: nat)

  // ---- Steps ----

  function Init(threads: nat): State {
    State(seq(threads, _ => Outside), seq(threads, _ => 0), 0, Free, 0)
  }

  ghost predicate WellFormed(s: State) { |s.pc| == |s.done| >= 1 }

  /** PulseEvent on a manual-reset event: every thread that waits is released, later ones are not. */
  function Wake(pc: seq<Pc>): (woken: seq<Pc>)
    ensures |woken| == |pc|
    ensures forall i | 0 <= i < |pc| :: woken[i] == if pc[i] == Waiting then Leaving else pc[i]
  {
    seq(|pc|, i requires 0 <= i < |pc| => if pc[i] == Waiting then Leaving else pc[i])
  }

  ghost predicate Enabled(s: State, t: nat, calls: nat)
    requires WellFormed(s)
  {
    && t < |s.pc|
    && s.pc[t] != Waiting
    && (s.pc[t] == Outside ==> s.done[t] < calls && s.guard == Free)
  }

  /** The next step of thread `t`, for as many threads as the threshold. `atomic` says whether
      SignalObjectAndWait is one step. */
  ghost function Step(s: State, t: nat, calls: nat, atomic: bool): (s': State)
    requires WellFormed(s) && Enabled(s, t, calls)
    ensures WellFormed(s') && |s'.pc| == |s.pc|
  {
    match s.pc[t]
    case Outside => s.(pc := s.pc[t := Guarded], guard := By(t))
    case Guarded => s.(pc := s.pc[t := Counted], count := s.count + 1)
    case Counted =>
      if s.count < |s.pc| then s.(pc := s.pc[t := if atomic then Waiting else Between], guard := Free)
      else s.(pc := s.pc[t := Reset], count := 0)
    case Between => s.(pc := s.pc[t := Waiting])
    case Reset => s.(pc := Wake(s.pc)[t := Pulsed], phase := s.phase + 1)
    case Pulsed => s.(pc := s.pc[t := Leaving], guard := Free)
    case Leaving => s.(pc := s.pc[t := Outside], done := s.done[t := s.done[t] + 1])
  }

  /** A schedule names the thread that takes each step, the latest last. */
  ghost predicate Possible(threads: nat, schedule: seq<nat>, calls: nat, atomic: bool)
    requires threads >= 1
    decreases |schedule|, 0
  {
    schedule == [] ||
    var before, t := schedule[..|schedule| - 1], schedule[|schedule| - 1];
    Possible(threads, before, calls, atomic) && Enabled(After(threads, before, calls, atomic), t, calls)
  }

  ghost function After(threads: nat, schedule: seq<nat>, calls: nat, atomic: bool): (s: State)
    requires threads >= 1 && Possible(threads, schedule, calls, atomic)
    ensures WellFormed(s) && |s.pc| == threads
    decreases |schedule|, 1
  {
    if schedule == [] then Init(threads)
    else Step(After(threads, schedule[..|schedule| - 1], calls, atomic), schedule[|schedule| - 1], calls, atomic)
  }

  ghost predicate Finished(s: State, calls: nat)
    requires WellFormed(s)
  {
    forall t | 0 <= t < |s.pc| :: s.pc[t] == Outside && s.done[t] == calls
  }

  // ---- Counting arrivals ----

  predicate Arrived(pc: Pc) { pc == Counted || pc == Between || pc == Waiting }

  /** The threads counted in some phase, and those counted in the current one. */
  ghost function Here(s: State): (marks: seq<bool>)
    requires WellFormed(s)
    ensures |marks| == |s.pc| && forall t | 0 <= t < |marks| :: marks[t] == Arrived(s.pc[t])
  {
    seq(|s.pc|, t requires 0 <= t < |s.pc| => Arrived(s.pc[t]))
  }

  ghost function Current(s: State): (marks: seq<bool>)
    requires WellFormed(s)
    ensures |marks| == |s.pc|
    ensures forall t | 0 <= t < |marks| :: marks[t] == (Arrived(s.pc[t]) && s.done[t] == s.phase)
  {
    seq(|s.pc|, t requires 0 <= t < |s.pc| => Arrived(s.pc[t]) && s.done[t] == s.phase)
  }

  ghost function Count(marks: seq<bool>): nat {
    if marks == [] then 0 else Count(marks[..|marks| - 1]) + if marks[|marks| - 1] then 1 else 0
  }

  lemma {:induction false} CountUpdate(marks: seq<bool>, t: nat, to: bool)
    requires t < |marks|
    ensures Count(marks[t := to]) == Count(marks) - (if marks[t] then 1 else 0) + (if to then 1 else 0)
    decreases |marks|
  {
    var last := |marks| - 1;
    if t < last {
      CountUpdate(marks[..last], t, to);
      assert marks[t := to][..last] == marks[..last][t := to];
    } else {
      assert marks[t := to][..last] == marks[..last];
    }
  }

  lemma {:induction false} CountAll(marks: seq<bool>)
    ensures Count(marks) <= |marks|
    ensures Count(marks) == |marks| <==> forall i | 0 <= i < |marks| :: marks[i]
    ensures Count(marks) == 0 <==> forall i | 0 <= i < |marks| :: !marks[i]
    decreases |marks|
  {
    if marks != [] {
      CountAll(marks[..|marks| - 1]);
    }
  }

  // ---- The invariant ----

  predicate Holds(pc: Pc) { pc == Guarded || pc == Counted || pc == Reset || pc == Pulsed }

  /** The threads inside the mutex are its owner. */
  ghost predicate Exclusive(s: State) {
    && (s.guard.By? ==> s.guard.thread < |s.pc|)
    && forall t: nat | t < |s.pc| :: Holds(s.pc[t]) <==> s.guard == By(t)
  }

  /** Every thread is in the current phase, except those that have not yet left the last one: on their way
      out, or having missed the pulse. */
  ghost predicate InPhase(s: State, calls: nat) {
    && WellFormed(s)
    && forall t: nat | t < |s.pc| ::
         && (if s.pc[t] == Pulsed || s.pc[t] == Leaving then s.done[t] + 1 == s.phase
             else s.done[t] == s.phase
                  || (s.done[t] + 1 == s.phase && (s.pc[t] == Between || s.pc[t] == Waiting)))
         && s.done[t] + (if s.pc[t] == Outside then 0 else 1) <= calls
  }

  ghost predicate OwnerAt(s: State, pc: Pc) {
    s.guard.By? && s.guard.thread < |s.pc| && s.pc[s.guard.thread] == pc
  }

  /** The counter counts the arrivals of the phase; while the last thread has reset it but not pulsed, the
      others of the phase wait or are about to. */
  ghost predicate CountOk(s: State)
    requires WellFormed(s)
  {
    if OwnerAt(s, Reset) then
      && s.count == 0
      && forall t: nat | t < |s.pc| && t != s.guard.thread ::
           s.done[t] == s.phase && (s.pc[t] == Between || s.pc[t] == Waiting)
    else s.count == Count(Current(s)) && (s.count == |s.pc| ==> OwnerAt(s, Counted))
  }

  ghost predicate Inv(s: State, calls: nat) {
    InPhase(s, calls) && Exclusive(s) && CountOk(s)
  }

  /** With signal-and-wait as one step no thread is between the two, and none misses a pulse. */
  ghost predicate NoneMissed(s: State)
    requires WellFormed(s)
  {
    forall t: nat | t < |s.pc| :: s.pc[t] != Between && (s.pc[t] == Waiting ==> s.done[t] == s.phase)
  }

  lemma InitInv(threads: nat, calls: nat)
    requires threads >= 1
    ensures Inv(Init(threads), calls) && NoneMissed(Init(threads))
  {
    CountAll(Current(Init(threads)));
  }

  lemma StepInPhase(s: State, t: nat, calls: nat, atomic: bool)
    requires Inv(s, calls) && Enabled(s, t, calls)
    ensures InPhase(Step(s, t, calls, atomic), calls)
  {}

  lemma StepExclusive(s: State, t: nat, calls: nat, atomic: bool)
    requires Inv(s, calls) && Enabled(s, t, calls)
    ensures Exclusive(Step(s, t, calls, atomic))
  {}

  lemma CountArrival(s: State, t: nat, calls: nat, atomic: bool)
    requires Inv(s, calls) && Enabled(s, t, calls) && s.pc[t] == Guarded
    ensures CountOk(Step(s, t, calls, atomic))
  {
    assert s.guard == By(t);
    CountAll(Current(s));
    CountUpdate(Current(s), t, true);
    assert Current(Step(s, t, calls, atomic)) == Current(s)[t := true];
  }

  /** The last arrival finds all the others counted in this phase and out of the mutex. */
  lemma CountReset(s: State, t: nat, calls: nat, atomic: bool)
    requires Inv(s, calls) && Enabled(s, t, calls) && s.pc[t] == Counted && s.count >= |s.pc|
    ensures CountOk(Step(s, t, calls, atomic))
  {
    assert s.guard == By(t);
    CountAll(Current(s));
    assert forall u: nat | u < |s.pc| && u != t :: Current(s)[u] && !Holds(s.pc[u]);
  }

  lemma CountPulse(s: State, t: nat, calls: nat, atomic: bool)
    requires Inv(s, calls) && Enabled(s, t, calls) && s.pc[t] == Reset
    ensures CountOk(Step(s, t, calls, atomic))
  {
    assert s.guard == By(t);
    CountAll(Current(Step(s, t, calls, atomic)));
  }

  lemma CountSame(s: State, t: nat, calls: nat, atomic: bool)
    requires Inv(s, calls) && Enabled(s, t, calls) && s.pc[t] != Guarded && s.pc[t] != Reset
    requires s.pc[t] == Counted ==> s.count < |s.pc|
    ensures CountOk(Step(s, t, calls, atomic))
  {
    assert Holds(s.pc[t]) ==> s.guard == By(t);
    assert Current(Step(s, t, calls, atomic)) == Current(s);
  }

  lemma StepCount(s: State, t: nat, calls: nat, atomic: bool)
    requires Inv(s, calls) && Enabled(s, t, calls)
    ensures CountOk(Step(s, t, calls, atomic))
  {
    if s.pc[t] == Guarded {
      CountArrival(s, t, calls, atomic);
    } else if s.pc[t] == Reset {
      CountPulse(s, t, calls, atomic);
    } else if s.pc[t] == Counted && s.count >= |s.pc| {
      CountReset(s, t, calls, atomic);
    } else {
      CountSame(s, t, calls, atomic);
    }
  }

  lemma StepNoneMissed(s: State, t: nat, calls: nat)
    requires Inv(s, calls) && NoneMissed(s) && Enabled(s, t, calls)
    ensures NoneMissed(Step(s, t, calls, true))
  {}

  lemma StepInv(s: State, t: nat, calls: nat, atomic: bool)
    requires Inv(s, calls) && Enabled(s, t, calls)
    ensures Inv(Step(s, t, calls, atomic), calls)
    ensures atomic && NoneMissed(s) ==> NoneMissed(Step(s, t, calls, atomic))
  {
    StepInPhase(s, t, calls, atomic);
    StepExclusive(s, t, calls, atomic);
    StepCount(s, t, calls, atomic);
    if atomic && NoneMissed(s) {
      StepNoneMissed(s, t, calls);
    }
  }

  lemma {:induction false} AlwaysInv(threads: nat, schedule: seq<nat>, calls: nat, atomic: bool)
    requires threads >= 1 && Possible(threads, schedule, calls, atomic)
    ensures Inv(After(threads, schedule, calls, atomic), calls)
    ensures atomic ==> NoneMissed(After(threads, schedule, calls, atomic))
    decreases |schedule|
  {
    if schedule == [] {
      InitInv(threads, calls);
    } else {
      AlwaysInv(threads, schedule[..|schedule| - 1], calls, atomic);
      StepInv(After(threads, schedule[..|schedule| - 1], calls, atomic), schedule[|schedule| - 1], calls, atomic);
    }
  }

  // ---- Safety ----

  /** No thread leaves a phase before every thread has entered it, and the completed phases of two
      threads differ by at most one, in every state of every run, whichever way a thread starts to wait:
      a thread that is one behind has been counted and is on its way out. */
  lemma BarrierSafe(threads: nat, schedule: seq<nat>, calls: nat, atomic: bool, t: nat, u: nat)
    requires threads >= 1 && Possible(threads, schedule, calls, atomic) && t < threads && u < threads
    ensures var s := After(threads, schedule, calls, atomic);
            || s.done[t] <= s.done[u]
            || (s.done[t] == s.done[u] + 1
                && (s.pc[u] == Between || s.pc[u] == Waiting || s.pc[u] == Pulsed || s.pc[u] == Leaving))
  {
    AlwaysInv(threads, schedule, calls, atomic);
  }

  // ---- Progress ----

  /** An unfinished run always has a thread that can take a step. */
  lemma NeverStuck(threads: nat, schedule: seq<nat>, calls: nat)
    requires threads >= 1 && Possible(threads, schedule, calls, true)
    requires !Finished(After(threads, schedule, calls, true), calls)
    ensures exists t :: Possible(threads, schedule + [t], calls, true)
  {
    var s := After(threads, schedule, calls, true);
    AlwaysInv(threads, schedule, calls, true);
    var t := Runnable(s, calls);
    assert (schedule + [t])[..|schedule|] == schedule;
    assert Possible(threads, schedule + [t], calls, true);
  }

  lemma Runnable(s: State, calls: nat) returns (t: nat)
    requires Inv(s, calls) && NoneMissed(s) && !Finished(s, calls)
    ensures Enabled(s, t, calls)
  {
    if s.guard.By? {
      t := s.guard.thread;
    } else {
      CountAll(Current(s));
      t :| t < |s.pc| && !Current(s)[t];
      if s.pc[t] == Outside && s.done[t] == calls {
        // every call of the phase is over, so the unfinished thread is on its way out
        t :| t < |s.pc| && !(s.pc[t] == Outside && s.done[t] == calls);
      }
    }
  }

  // ---- Termination ----

  function Rank(pc: Pc): nat {
    match pc
    case Outside => 0
    case Guarded => 1
    case Counted => 2
    case Between => 3
    case Waiting => 4
    case Reset => 3
    case Pulsed => 4
    case Leaving => 5
  }

  /** An upper bound on the steps the threads can still take. */
  ghost function Budget(pc: seq<Pc>, done: seq<nat>, calls: nat): int
    requires |pc| == |done|
  {
    if pc == [] then 0
    else
      var last := |pc| - 1;
      Budget(pc[..last], done[..last], calls) + 6 * (calls - done[last]) - Rank(pc[last])
  }

  lemma {:induction false} BudgetUpdate(pc: seq<Pc>, done: seq<nat>, calls: nat, t: nat, to: Pc, d: nat)
    requires |pc| == |done| && t < |pc|
    ensures Budget(pc[t := to], done[t := d], calls)
         == Budget(pc, done, calls) - 6 * (d - done[t]) - Rank(to) + Rank(pc[t])
    decreases |pc|
  {
    var last := |pc| - 1;
    if t < last {
      BudgetUpdate(pc[..last], done[..last], calls, t, to, d);
      assert pc[t := to][..last] == pc[..last][t := to] && done[t := d][..last] == done[..last][t := d];
    } else {
      assert pc[t := to][..last] == pc[..last] && done[t := d][..last] == done[..last];
    }
  }

  lemma {:induction false} BudgetWake(pc: seq<Pc>, done: seq<nat>, calls: nat)
    requires |pc| == |done|
    ensures Budget(Wake(pc), done, calls) <= Budget(pc, done, calls)
    decreases |pc|
  {
    if pc != [] {
      var last := |pc| - 1;
      BudgetWake(pc[..last], done[..last], calls);
      assert Wake(pc)[..last] == Wake(pc[..last]);
    }
  }

  lemma {:induction false} BudgetNonNegative(pc: seq<Pc>, done: seq<nat>, calls: nat)
    requires |pc| == |done|
    requires forall t: nat | t < |pc| :: done[t] + (if pc[t] == Outside then 0 else 1) <= calls
    ensures Budget(pc, done, calls) >= 0
    decreases |pc|
  {
    if pc != [] {
      BudgetNonNegative(pc[..|pc| - 1], done[..|pc| - 1], calls);
    }
  }

  lemma StepSpends(s: State, t: nat, calls: nat, atomic: bool)
    requires Inv(s, calls) && Enabled(s, t, calls)
    ensures var s' := Step(s, t, calls, atomic);
            Budget(s'.pc, s'.done, calls) < Budget(s.pc, s.done, calls)
  {
    var s' := Step(s, t, calls, atomic);
    if s.pc[t] == Reset {
      BudgetWake(s.pc, s.done, calls);
      BudgetUpdate(Wake(s.pc), s.done, calls, t, Pulsed, s.done[t]);
    } else {
      BudgetUpdate(s.pc, s.done, calls, t, s'.pc[t], s'.done[t]);
    }
    assert s.done[t := s.done[t]] == s.done;
  }

  lemma {:induction false} InitBudget(threads: nat, calls: nat)
    ensures Budget(Init(threads).pc, Init(threads).done, calls) == 6 * calls * threads
  {
    if threads > 0 {
      InitBudget(threads - 1, calls);
      assert Init(threads).pc[..threads - 1] == Init(threads - 1).pc;
      assert Init(threads).done[..threads - 1] == Init(threads - 1).done;
    }
  }

  lemma {:induction false} RunSpends(threads: nat, schedule: seq<nat>, calls: nat, atomic: bool)
    requires threads >= 1 && Possible(threads, schedule, calls, atomic)
    ensures var s := After(threads, schedule, calls, atomic);
            |schedule| + Budget(s.pc, s.done, calls) <= 6 * calls * threads
    decreases |schedule|
  {
    if schedule == [] {
      InitBudget(threads, calls);
    } else {
      var before := schedule[..|schedule| - 1];
      RunSpends(threads, before, calls, atomic);
      AlwaysInv(threads, before, calls, atomic);
      StepSpends(After(threads, before, calls, atomic), schedule[|schedule| - 1], calls, atomic);
    }
  }

  /** No run goes on for ever, however unfairly it is scheduled and whichever way a thread starts to wait. */
  lemma EveryRunEnds(threads: nat, schedule: seq<nat>, calls: nat, atomic: bool)
    requires threads >= 1 && Possible(threads, schedule, calls, atomic)
    ensures |schedule| <= 6 * calls * threads
  {
    var s := After(threads, schedule, calls, atomic);
    RunSpends(threads, schedule, calls, atomic);
    AlwaysInv(threads, schedule, calls, atomic);
    BudgetNonNegative(s.pc, s.done, calls);
  }

  /** A run that cannot be extended has brought every thread through every phase. */
  lemma EveryRunCompletes(threads: nat, schedule: seq<nat>, calls: nat)
    requires threads >= 1 && Possible(threads, schedule, calls, true)
    requires forall t :: !Possible(threads, schedule + [t], calls, true)
    ensures var s := After(threads, schedule, calls, true); Finished(s, calls) && s.phase == calls
  {
    var s := After(threads, schedule, calls, true);
    AlwaysInv(threads, schedule, calls, true);
    if !Finished(s, calls) {
      NeverStuck(threads, schedule, calls);
    }
    assert s.pc[0] == Outside;
  }

  // ---- Atomicity is needed ----

  /** However the run goes on, some thread never gets through its calls. */
  ghost predicate Doomed(threads: nat, schedule: seq<nat>, calls: nat, atomic: bool)
    requires threads >= 1
  {
    forall longer | schedule <= longer && Possible(threads, longer, calls, atomic) ::
      !Finished(After(threads, longer, calls, atomic), calls)
  }

  ghost predicate CanDoom(threads: nat, calls: nat, atomic: bool)
    requires threads >= 1
  {
    exists schedule :: Possible(threads, schedule, calls, atomic) && Doomed(threads, schedule, calls, atomic)
  }

  lemma Extend(threads: nat, schedule: seq<nat>, calls: nat, t: nat) returns (longer: seq<nat>)
    requires threads >= 1 && Possible(threads, schedule, calls, false)
    requires Enabled(After(threads, schedule, calls, false), t, calls)
    ensures Possible(threads, longer, calls, false)
    ensures After(threads, longer, calls, false) == Step(After(threads, schedule, calls, false), t, calls, false)
  {
    longer := schedule + [t];
    assert longer[..|schedule|] == schedule;
  }

  /** With the atomic operation every run can be completed. */
  lemma {:induction false} CanFinish(threads: nat, schedule: seq<nat>, calls: nat) returns (longer: seq<nat>)
    requires threads >= 1 && Possible(threads, schedule, calls, true)
    ensures schedule <= longer && Possible(threads, longer, calls, true)
    ensures Finished(After(threads, longer, calls, true), calls)
    decreases 6 * calls * threads - |schedule|
  {
    longer := schedule;
    if !Finished(After(threads, schedule, calls, true), calls) {
      NeverStuck(threads, schedule, calls);
      var t :| Possible(threads, schedule + [t], calls, true);
      EveryRunEnds(threads, schedule + [t], calls, true);
      longer := CanFinish(threads, schedule + [t], calls);
    }
  }

  /** A lone thread never waits, so for it the two kinds of steps are the same. */
  lemma {:induction false} LoneThread(schedule: seq<nat>, calls: nat)
    ensures Possible(1, schedule, calls, false) <==> Possible(1, schedule, calls, true)
    ensures Possible(1, schedule, calls, true) ==> After(1, schedule, calls, false) == After(1, schedule, calls, true)
    decreases |schedule|
  {
    if schedule != [] {
      var before := schedule[..|schedule| - 1];
      LoneThread(before, calls);
      if Possible(1, before, calls, true) {
        var s := After(1, before, calls, true);
        AlwaysInv(1, before, calls, true);
        CountAll(Current(s));
      }
    }
  }

  /** Threads that missed the pulse, and too few arrivals for another one. */
  ghost predicate Missed(s: State) {
    && WellFormed(s) && (s.pc[0] == Between || s.pc[0] == Waiting)
    && s.count < Count(Here(s))
    && forall t: nat | t < |s.pc| :: s.pc[t] != Reset && s.pc[t] != Pulsed
  }

  lemma StepMissed(s: State, t: nat, calls: nat)
    requires Missed(s) && Enabled(s, t, calls)
    ensures Missed(Step(s, t, calls, false))
  {
    var s' := Step(s, t, calls, false);
    CountAll(Here(s));
    CountUpdate(Here(s), t, Arrived(s'.pc[t]));
    assert Here(s') == Here(s)[t := Arrived(s'.pc[t])];
  }

  lemma {:induction false} MissedForEver(threads: nat, schedule: seq<nat>, longer: seq<nat>, calls: nat)
    requires threads >= 1 && Possible(threads, schedule, calls, false) && Missed(After(threads, schedule, calls, false))
    requires schedule <= longer && Possible(threads, longer, calls, false)
    ensures Missed(After(threads, longer, calls, false))
    decreases |longer|
  {
    if longer != schedule {
      var before := longer[..|longer| - 1];
      MissedForEver(threads, schedule, before, calls);
      StepMissed(After(threads, before, calls, false), longer[|longer| - 1], calls);
    }
  }

  /** The first `k` threads have released the mutex but do not wait yet. */
  ghost predicate Parked(s: State, k: nat) {
    && WellFormed(s) && k <= |s.pc| && s.count == k && s.guard == Free
    && forall t: nat | t < |s.pc| :: s.done[t] == 0 && s.pc[t] == if t < k then Between else Outside
  }

  /** Three steps take the next thread there. */
  lemma ParkNext(s: State, k: nat, calls: nat)
    requires k + 1 < |s.pc| && Parked(s, k) && calls >= 1
    ensures Enabled(s, k, calls)
    ensures var s1 := Step(s, k, calls, false);
            Enabled(s1, k, calls) && var s2 := Step(s1, k, calls, false);
            Enabled(s2, k, calls) && Parked(Step(s2, k, calls, false), k + 1)
  {}

  lemma {:induction false} Park(threads: nat, calls: nat, k: nat) returns (schedule: seq<nat>)
    requires k < threads && calls >= 1
    ensures Possible(threads, schedule, calls, false) && Parked(After(threads, schedule, calls, false), k)
    decreases k
  {
    schedule := [];
    if k > 0 {
      schedule := Park(threads, calls, k - 1);
      ParkNext(After(threads, schedule, calls, false), k - 1, calls);
      schedule := Extend(threads, schedule, calls, k - 1);
      schedule := Extend(threads, schedule, calls, k - 1);
      schedule := Extend(threads, schedule, calls, k - 1);
    }
  }

  /** The last thread arrives, pulses and leaves. */
  lemma LastPulses(s: State, t: nat, calls: nat)
    requires t + 1 == |s.pc| && t >= 1 && Parked(s, t) && calls >= 1
    ensures Enabled(s, t, calls)
    ensures var s1 := Step(s, t, calls, false);
            Enabled(s1, t, calls) && var s2 := Step(s1, t, calls, false);
            Enabled(s2, t, calls) && var s3 := Step(s2, t, calls, false);
            Enabled(s3, t, calls) && var s4 := Step(s3, t, calls, false);
            Enabled(s4, t, calls) && Missed(Step(s4, t, calls, false))
  {
    var s1 := Step(s, t, calls, false);
    var s2 := Step(s1, t, calls, false);
    var s3 := Step(s2, t, calls, false);
    var s4 := Step(s3, t, calls, false);
    var s5 := Step(s4, t, calls, false);
    assert s3.pc == s.pc[t := Reset];
    assert s5.pc == s.pc[t := Leaving] && s5.count == 0;
    CountAll(Here(s5));
    assert Here(s5)[0];
  }

  /** All the other threads are between releasing the mutex and waiting when the last one pulses. */
  lemma LostPulse(threads: nat, calls: nat) returns (schedule: seq<nat>)
    requires threads >= 2 && calls >= 1
    ensures Possible(threads, schedule, calls, false) && Doomed(threads, schedule, calls, false)
  {
    var last := threads - 1;
    schedule := Park(threads, calls, last);
    LastPulses(After(threads, schedule, calls, false), last, calls);
    schedule := Extend(threads, schedule, calls, last);
    schedule := Extend(threads, schedule, calls, last);
    schedule := Extend(threads, schedule, calls, last);
    schedule := Extend(threads, schedule, calls, last);
    schedule := Extend(threads, schedule, calls, last);
    forall longer | schedule <= longer && Possible(threads, longer, calls, false)
      ensures !Finished(After(threads, longer, calls, false), calls)
    {
      MissedForEver(threads, schedule, longer, calls);
    }
  }

  /** With releasing the mutex and waiting as two steps, some run can no longer be completed exactly when
      there are two threads and a call; with one step, never. */
  lemma PulseIsLostExactly(threads: nat, calls: nat)
    requires threads >= 1
    ensures CanDoom(threads, calls, false) <==> threads >= 2 && calls >= 1
    ensures !CanDoom(threads, calls, true)
  {
    forall schedule | Possible(threads, schedule, calls, true) ensures !Doomed(threads, schedule, calls, true) {
      var longer := CanFinish(threads, schedule, calls);
    }
    if threads >= 2 && calls >= 1 {
      var schedule := LostPulse(threads, calls);
    } else {
      forall schedule | Possible(threads, schedule, calls, false)
        ensures !Doomed(threads, schedule, calls, false)
      {
        if threads == 1 {
          LoneThread(schedule, calls);
          var longer := CanFinish(1, schedule, calls);
          LoneThread(longer, calls);
        } else {
          NoCalls(threads, schedule);
        }
      }
    }
  }

  lemma {:induction false} NoCalls(threads: nat, schedule: seq<nat>)
    requires threads >= 1 && Possible(threads, schedule, 0, false)
    ensures After(threads, schedule, 0, false) == Init(threads)
    decreases |schedule|
  {
    if schedule != [] {
      NoCalls(threads, schedule[..|schedule| - 1]);
    }
  }
}
