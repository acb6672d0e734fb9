/** The counter of the Interlocked module, with each round inside a mutex and a plain `count++`. */
module MutexCounter {
  import opened Basics
  import opened Interlocked

  /** `Loaded(v)`: the increment has read `v` and has not yet written. */
  datatype Pc = Outside | Locked | Loaded(v: nat) | Stored | AtLimit | Leaving

  datatype Owner = Free | Held(thread: nat)

  datatype MState = MState(count: nat, mutex: Owner, pc: seq<Pc>, incs: seq<nat>, resets: nat)

  function Start(threads: nat): MState {
    MState(0, Free, seq(threads, _ => Outside), seq(threads, _ => 0), 0)
  }

  predicate Sized(s: MState) { |s.pc| == |s.incs| }

  predicate CanStep(s: MState, t: nat, rounds: nat) {
    Sized(s) && t < |s.pc| && (s.pc[t] == Outside ==> s.mutex == Free && s.incs[t] < rounds)
  }

  function Next(s: MState, t: nat, rounds: nat, limit: nat): (s': MState)
    requires CanStep(s, t, rounds)
    ensures Sized(s') && |s'.pc| == |s.pc|
  {
    match s.pc[t]
    case Outside => s.(pc := s.pc[t := Locked], mutex := Held(t))
    case Locked => s.(pc := s.pc[t := Loaded(s.count)])
    case Loaded(v) => s.(pc := s.pc[t := Stored], count := v + 1, incs := s.incs[t := s.incs[t] + 1])
    case Stored => s.(pc := s.pc[t := if s.count == limit then AtLimit else Leaving])
    case AtLimit => s.(pc := s.pc[t := Leaving], count := 0, resets := s.resets + 1)
    case Leaving => s.(pc := s.pc[t := Outside], mutex := Free)
  }

  predicate Runs(threads: nat, schedule: seq<nat>, rounds: nat, limit: nat)
    decreases |schedule|, 0
  {
    schedule == [] ||
    var before, t := schedule[..|schedule| - 1], schedule[|schedule| - 1];
    Runs(threads, before, rounds, limit) && CanStep(Reached(threads, before, rounds, limit), t, rounds)
  }

  function Reached(threads: nat, schedule: seq<nat>, rounds: nat, limit: nat): (s: MState)
    requires Runs(threads, schedule, rounds, limit)
    ensures Sized(s) && |s.pc| == threads
    decreases |schedule|, 1
  {
    if schedule == [] then Start(threads)
    else Next(Reached(threads, schedule[..|schedule| - 1], rounds, limit), schedule[|schedule| - 1], rounds, limit)
  }

  /** Only the owner is inside, and what it has read is still the counter. */
  predicate Guarded(s: MState) {
    && Sized(s) && (s.mutex.Held? ==> s.mutex.thread < |s.pc|)
    && forall t: nat | t < |s.pc| ::
         && (s.pc[t] != Outside <==> s.mutex == Held(t))
         && (s.pc[t].Loaded? ==> s.pc[t].v == s.count)
  }

  predicate OwnerAt(s: MState, pc: Pc) {
    s.mutex.Held? && s.mutex.thread < |s.pc| && s.pc[s.mutex.thread] == pc
  }

  predicate InLimit(s: MState, limit: nat) {
    && s.count <= limit
    && (OwnerAt(s, AtLimit) ==> s.count == limit)
    && (s.count == limit ==> OwnerAt(s, Stored) || OwnerAt(s, AtLimit))
  }

  /** Every increment is in the counter or was taken away by a reset. */
  predicate Counted(s: MState, rounds: nat, limit: nat) {
    && Sized(s) && Sum(s.incs) == s.count + Taken(s.resets, limit)
    && forall t | 0 <= t < |s.incs| ::
         s.incs[t] <= rounds && (s.pc[t] == Locked || s.pc[t].Loaded? ==> s.incs[t] < rounds)
  }

  predicate MInv(s: MState, rounds: nat, limit: nat) {
    Guarded(s) && InLimit(s, limit) && Counted(s, rounds, limit)
  }

  lemma NextGuarded(s: MState, t: nat, rounds: nat, limit: nat)
    requires Guarded(s) && CanStep(s, t, rounds)
    ensures Guarded(Next(s, t, rounds, limit))
    ensures s.pc[t] != Outside ==> s.mutex == Held(t)
    ensures s.pc[t].Loaded? ==> s.pc[t].v == s.count
  {}

  lemma NextCounted(s: MState, t: nat, rounds: nat, limit: nat)
    requires Counted(s, rounds, limit) && CanStep(s, t, rounds)
    requires s.pc[t].Loaded? ==> s.pc[t].v == s.count
    requires s.pc[t] == AtLimit ==> s.count == limit
    ensures Counted(Next(s, t, rounds, limit), rounds, limit)
  {
    SumUpdate(s.incs, t, s.incs[t] + 1);
  }

  lemma NextInv(s: MState, t: nat, rounds: nat, limit: nat)
    requires limit >= 1 && MInv(s, rounds, limit) && CanStep(s, t, rounds)
    ensures MInv(Next(s, t, rounds, limit), rounds, limit)
  {
    NextGuarded(s, t, rounds, limit);
    NextCounted(s, t, rounds, limit);
  }

  lemma {:induction false} AlwaysMInv(threads: nat, schedule: seq<nat>, rounds: nat, limit: nat)
    requires limit >= 1 && Runs(threads, schedule, rounds, limit)
    ensures MInv(Reached(threads, schedule, rounds, limit), rounds, limit)
    decreases |schedule|
  {
    if schedule == [] {
      SumOfZeros(threads);
    } else {
      AlwaysMInv(threads, schedule[..|schedule| - 1], rounds, limit);
      NextInv(Reached(threads, schedule[..|schedule| - 1], rounds, limit), schedule[|schedule| - 1], rounds, limit);
    }
  }

  /** Whenever the mutex is free the counter is the number of increments modulo the limit; it never
      exceeds the limit, and no increment is lost. */
  lemma CountIsRemainder(threads: nat, schedule: seq<nat>, rounds: nat, limit: nat)
    requires limit >= 1 && Runs(threads, schedule, rounds, limit)
    ensures var s := Reached(threads, schedule, rounds, limit);
            && s.count <= limit && s.count % limit == Sum(s.incs) % limit
            && (s.mutex == Free ==> s.count == Sum(s.incs) % limit)
  {
    var s := Reached(threads, schedule, rounds, limit);
    AlwaysMInv(threads, schedule, rounds, limit);
    Congruent(Sum(s.incs), s.count, s.resets, limit);
    if s.count < limit {
      ModUnique(s.count, 0, s.count, limit);
    }
  }

  predicate AllDone(s: MState, rounds: nat)
    requires Sized(s)
  {
    forall t | 0 <= t < |s.pc| :: s.pc[t] == Outside && s.incs[t] == rounds
  }

  /** The final value does not depend on the interleaving. */
  lemma FinalValue(threads: nat, schedule: seq<nat>, rounds: nat, limit: nat)
    requires limit >= 1 && Runs(threads, schedule, rounds, limit)
    requires AllDone(Reached(threads, schedule, rounds, limit), rounds)
    ensures Reached(threads, schedule, rounds, limit).count == threads * rounds % limit
  {
    var s := Reached(threads, schedule, rounds, limit);
    AlwaysMInv(threads, schedule, rounds, limit);
    CountIsRemainder(threads, schedule, rounds, limit);
    SumBound(s.incs, rounds);
  }
}
