/** A shared counter that is to be reset on reaching a limit, by any number of threads that each go through
    the same number of rounds: once with two interlocked operations a round, once under a mutex. */
module Interlocked {
  import opened Basics

  // ---- Sums over threads ----

  function Sum(xs: seq<nat>): nat {
    if xs == [] then 0 else Sum(xs[..|xs| - 1]) + xs[|xs| - 1]
  }

  lemma {:induction false} SumUpdate(xs: seq<nat>, t: nat, x: nat)
    requires t < |xs|
    ensures Sum(xs[t := x]) == Sum(xs) - xs[t] + x
    decreases |xs|
  {
    var last := |xs| - 1;
    if t < last {
      SumUpdate(xs[..last], t, x);
      assert xs[t := x][..last] == xs[..last][t := x];
    } else {
      assert xs[t := x][..last] == xs[..last];
    }
  }

  lemma {:induction false} SumBound(xs: seq<nat>, bound: nat)
    requires forall t | 0 <= t < |xs| :: xs[t] <= bound
    ensures Sum(xs) <= |xs| * bound
    ensures (forall t | 0 <= t < |xs| :: xs[t] == bound) ==> Sum(xs) == |xs| * bound
    decreases |xs|
  {
    if xs != [] {
      SumBound(xs[..|xs| - 1], bound);
      assert |xs| * bound == (|xs| - 1) * bound + bound;
    }
  }

  lemma {:induction false} SumOfZeros(n: nat)
    ensures Sum(seq(n, _ => 0)) == 0
    decreases n
  {
    if n > 0 {
      SumOfZeros(n - 1);
      assert seq<nat>(n, _ => 0)[..n - 1] == seq<nat>(n - 1, _ => 0);
    }
  }

  /** What `resets` resets have taken away. */
  function Taken(resets: nat, limit: nat): nat {
    if resets == 0 then 0 else Taken(resets - 1, limit) + limit
  }

  lemma {:induction false} TakenIsProduct(resets: nat, limit: nat)
    ensures Taken(resets, limit) == resets * limit
    decreases resets
  {
    if resets > 0 {
      TakenIsProduct(resets - 1, limit);
    }
  }

  lemma Congruent(x: nat, count: nat, q: nat, limit: nat)
    requires limit > 0 && x == count + Taken(q, limit)
    ensures x % limit == count % limit
  {
    TakenIsProduct(q, limit);
    var p, r := count / limit, count % limit;
    assert x == (p + q) * limit + r;
    ModUnique(x, p + q, r, limit);
  }

  // ---- The interlocked version ----

  /** `between[t]`: thread `t` has incremented but not yet compared. `incs[t]` counts its increments, and
      `resets` the exchanges that took place. */
  datatype State = State(count: nat, between: seq<bool>, incs: seq<nat>, resets: nat)

  function Init(threads: nat): State { State(0, seq(threads, _ => false), seq(threads, _ => 0), 0) }

  predicate WellFormed(s: State) { |s.between| == |s.incs| }

  predicate Enabled(s: State, t: nat, rounds: nat) {
    WellFormed(s) && t < |s.incs| && (s.between[t] || s.incs[t] < rounds)
  }

  function Step(s: State, t: nat, rounds: nat, limit: nat): (s': State)
    requires Enabled(s, t, rounds)
    ensures WellFormed(s') && |s'.incs| == |s.incs|
  {
    if !s.between[t] then s.(count := s.count + 1, between := s.between[t := true], incs := s.incs[t := s.incs[t] + 1])
    else if s.count == limit then s.(count := 0, between := s.between[t := false], resets := s.resets + 1)
    else s.(between := s.between[t := false])
  }

  /** A schedule names the thread that takes each step, the latest last. */
  predicate Possible(threads: nat, schedule: seq<nat>, rounds: nat, limit: nat)
    decreases |schedule|, 0
  {
    schedule == [] ||
    var before, t := schedule[..|schedule| - 1], schedule[|schedule| - 1];
    Possible(threads, before, rounds, limit) && Enabled(After(threads, before, rounds, limit), t, rounds)
  }

  function After(threads: nat, schedule: seq<nat>, rounds: nat, limit: nat): (s: State)
    requires Possible(threads, schedule, rounds, limit)
    ensures WellFormed(s) && |s.incs| == threads
    decreases |schedule|, 1
  {
    if schedule == [] then Init(threads)
    else Step(After(threads, schedule[..|schedule| - 1], rounds, limit), schedule[|schedule| - 1], rounds, limit)
  }

  lemma Extend(threads: nat, schedule: seq<nat>, rounds: nat, limit: nat, t: nat)
    requires Possible(threads, schedule, rounds, limit) && Enabled(After(threads, schedule, rounds, limit), t, rounds)
    ensures Possible(threads, schedule + [t], rounds, limit)
    ensures After(threads, schedule + [t], rounds, limit)
         == Step(After(threads, schedule, rounds, limit), t, rounds, limit)
  {
    assert (schedule + [t])[..|schedule|] == schedule;
  }

  predicate Inv(s: State, rounds: nat, limit: nat) {
    && WellFormed(s)
    && Sum(s.incs) == s.count + Taken(s.resets, limit)
    && forall t | 0 <= t < |s.incs| :: s.incs[t] <= rounds
  }

  lemma StepInv(s: State, t: nat, rounds: nat, limit: nat)
    requires Inv(s, rounds, limit) && Enabled(s, t, rounds)
    ensures Inv(Step(s, t, rounds, limit), rounds, limit)
  {
    SumUpdate(s.incs, t, s.incs[t] + 1);
  }

  lemma {:induction false} AlwaysInv(threads: nat, schedule: seq<nat>, rounds: nat, limit: nat)
    requires Possible(threads, schedule, rounds, limit)
    ensures Inv(After(threads, schedule, rounds, limit), rounds, limit)
    decreases |schedule|
  {
    if schedule == [] {
      SumOfZeros(threads);
    } else {
      AlwaysInv(threads, schedule[..|schedule| - 1], rounds, limit);
      StepInv(After(threads, schedule[..|schedule| - 1], rounds, limit), schedule[|schedule| - 1], rounds, limit);
    }
  }

  /** In every state of every run the counter is congruent to the number of increments, and not above it:
      a reset takes away exactly the limit, whatever other threads did between the two operations. */
  lemma CountIsIncrements(threads: nat, schedule: seq<nat>, rounds: nat, limit: nat)
    requires limit >= 1 && Possible(threads, schedule, rounds, limit)
    ensures var s := After(threads, schedule, rounds, limit);
            s.count % limit == Sum(s.incs) % limit && s.count <= Sum(s.incs) <= threads * rounds
  {
    var s := After(threads, schedule, rounds, limit);
    AlwaysInv(threads, schedule, rounds, limit);
    Congruent(Sum(s.incs), s.count, s.resets, limit);
    SumBound(s.incs, rounds);
  }

  predicate Finished(s: State, rounds: nat)
    requires WellFormed(s)
  {
    forall t | 0 <= t < |s.incs| :: !s.between[t] && s.incs[t] == rounds
  }

  lemma FinalCount(threads: nat, schedule: seq<nat>, rounds: nat, limit: nat)
    requires limit >= 1 && Possible(threads, schedule, rounds, limit)
    requires Finished(After(threads, schedule, rounds, limit), rounds)
    ensures After(threads, schedule, rounds, limit).count % limit == threads * rounds % limit
  {
    CountIsIncrements(threads, schedule, rounds, limit);
    SumBound(After(threads, schedule, rounds, limit).incs, rounds);
  }

  // ---- The comparison is with exactly the limit ----

  /** A thread that compares finds exactly the limit and leaves 0, or leaves the counter as it is; either way
      its round is over. */
  lemma ComparesWithLimit(threads: nat, schedule: seq<nat>, rounds: nat, limit: nat, t: nat)
    requires Possible(threads, schedule, rounds, limit) && t < threads
    requires After(threads, schedule, rounds, limit).between[t]
    ensures Possible(threads, schedule + [t], rounds, limit)
    ensures var s, s' := After(threads, schedule, rounds, limit), After(threads, schedule + [t], rounds, limit);
            && s'.incs == s.incs && s'.between == s.between[t := false]
            && if s.count == limit then s'.count == 0 else s'.count == s.count
  {
    Extend(threads, schedule, rounds, limit, t);
  }

  /** Once above the limit the counter is never reset again: it grows with every increment. */
  lemma {:induction false} StaysAbove(threads: nat, schedule: seq<nat>, more: seq<nat>, rounds: nat, limit: nat)
    requires Possible(threads, schedule, rounds, limit) && Possible(threads, schedule + more, rounds, limit)
    requires After(threads, schedule, rounds, limit).count > limit
    ensures var s, s' := After(threads, schedule, rounds, limit), After(threads, schedule + more, rounds, limit);
            s'.count - s.count == Sum(s'.incs) - Sum(s.incs) >= 0
    decreases |more|
  {
    if more == [] {
      assert schedule + more == schedule;
    } else {
      var before, t := more[..|more| - 1], more[|more| - 1];
      var longer := schedule + more;
      assert longer[..|longer| - 1] == schedule + before;
      StaysAbove(threads, schedule, before, rounds, limit);
      StepAbove(After(threads, schedule + before, rounds, limit), t, rounds, limit);
    }
  }

  lemma StepAbove(s: State, t: nat, rounds: nat, limit: nat)
    requires Enabled(s, t, rounds) && s.count > limit
    ensures var s' := Step(s, t, rounds, limit); s'.count - s.count == Sum(s'.incs) - Sum(s.incs) >= 0
  {
    SumUpdate(s.incs, t, s.incs[t] + 1);
  }

  // ---- The limit can be overshot ----

  ghost predicate NeverAbove(threads: nat, rounds: nat, limit: nat) {
    forall schedule | Possible(threads, schedule, rounds, limit) ::
      After(threads, schedule, rounds, limit).count <= limit
  }

  /** The counter stays within its limit exactly when there is one thread, or too few increments to pass it. */
  lemma StaysWithinLimit(threads: nat, rounds: nat, limit: nat)
    requires limit >= 1
    ensures NeverAbove(threads, rounds, limit) <==> threads <= 1 || threads * rounds <= limit
  {
    if threads <= 1 || threads * rounds <= limit {
      forall schedule | Possible(threads, schedule, rounds, limit)
        ensures After(threads, schedule, rounds, limit).count <= limit
      {
        CountIsIncrements(threads, schedule, rounds, limit);
        if threads <= 1 {
          AloneWithinLimit(threads, schedule, rounds, limit);
        }
      }
    } else {
      var schedule := Overshoot(threads, rounds, limit);
      assert After(threads, schedule, rounds, limit).count > limit;
    }
  }

  lemma {:induction false} AloneWithinLimit(threads: nat, schedule: seq<nat>, rounds: nat, limit: nat)
    requires limit >= 1 && threads <= 1 && Possible(threads, schedule, rounds, limit)
    ensures var s := After(threads, schedule, rounds, limit);
            s.count <= limit && (s.count == limit ==> threads == 1 && s.between[0])
    decreases |schedule|
  {
    if schedule != [] {
      AloneWithinLimit(threads, schedule[..|schedule| - 1], rounds, limit);
    }
  }

  /** Whose turn the `k`-th increment of a round robin is. */
  function Turn(k: nat, n: nat): (t: nat)
    requires n > 0
    ensures t < n
  {
    if k == 0 || Turn(k - 1, n) + 1 == n then 0 else Turn(k - 1, n) + 1
  }

  /** The full laps before the `k`-th increment. */
  function Lap(k: nat, n: nat): nat
    requires n > 0
  {
    if k == 0 then 0 else Lap(k - 1, n) + if Turn(k - 1, n) + 1 == n then 1 else 0
  }

  lemma {:induction false} LapAndTurn(k: nat, n: nat)
    requires n > 0
    ensures k == Lap(k, n) * n + Turn(k, n)
    decreases k
  {
    if k > 0 {
      LapAndTurn(k - 1, n);
      assert (Lap(k - 1, n) + 1) * n == Lap(k - 1, n) * n + n;
    }
  }

  lemma LapIsOpen(k: nat, n: nat, rounds: nat)
    requires n > 0 && k < n * rounds
    ensures Lap(k, n) < rounds
  {
    LapAndTurn(k, n);
    if Lap(k, n) >= rounds {
      MulMono(rounds, Lap(k, n), n);
      assert false;
    }
  }

  /** The state after `k` increments by the threads in turn, each compared at once. */
  ghost predicate RoundRobin(s: State, k: nat) {
    && WellFormed(s) && |s.incs| > 0 && s.count == k
    && forall t: nat | t < |s.incs| ::
         !s.between[t] && s.incs[t] == Lap(k, |s.incs|) + if t < Turn(k, |s.incs|) then 1 else 0
  }

  lemma RobinStep(s: State, k: nat, rounds: nat, limit: nat)
    requires RoundRobin(s, k) && Lap(k, |s.incs|) < rounds && k + 1 < limit
    ensures var t := Turn(k, |s.incs|);
            && Enabled(s, t, rounds) && Enabled(Step(s, t, rounds, limit), t, rounds)
            && RoundRobin(Step(Step(s, t, rounds, limit), t, rounds, limit), k + 1)
  {}

  lemma {:induction false} Robin(threads: nat, rounds: nat, limit: nat, k: nat) returns (schedule: seq<nat>)
    requires threads >= 1 && k < limit && k <= threads * rounds
    ensures Possible(threads, schedule, rounds, limit) && RoundRobin(After(threads, schedule, rounds, limit), k)
    decreases k
  {
    schedule := [];
    if k > 0 {
      schedule := Robin(threads, rounds, limit, k - 1);
      LapIsOpen(k - 1, threads, rounds);
      var t := Turn(k - 1, threads);
      RobinStep(After(threads, schedule, rounds, limit), k - 1, rounds, limit);
      Extend(threads, schedule, rounds, limit, t);
      schedule := schedule + [t];
      Extend(threads, schedule, rounds, limit, t);
      schedule := schedule + [t];
    }
  }

  /** Two threads increment, to the limit and past it, before either compares. */
  lemma Overshoot(threads: nat, rounds: nat, limit: nat) returns (schedule: seq<nat>)
    requires threads >= 2 && limit >= 1 && limit < threads * rounds
    ensures Possible(threads, schedule, rounds, limit) && After(threads, schedule, rounds, limit).count == limit + 1
  {
    schedule := Robin(threads, rounds, limit, limit - 1);
    LapIsOpen(limit - 1, threads, rounds);
    LapIsOpen(limit, threads, rounds);
    var t, u := Turn(limit - 1, threads), Turn(limit, threads);
    Extend(threads, schedule, rounds, limit, t);
    schedule := schedule + [t];
    Extend(threads, schedule, rounds, limit, u);
    schedule := schedule + [u];
  }
}
