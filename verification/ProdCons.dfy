/** The producer/consumer monitor: one mutex, two condition variables signalled only on the edges, and a
    buffer that is a stack. The capacity (BUFFER_SIZE) and the number of iterations are parameters. */
module ProdCons {

  // ---- The buffer, changed in place ----

  class Buffer {
    const buff: array<nat>
    var count: int

    ghost predicate Valid()
      reads this
    {
      0 <= count <= buff.Length
    }

    ghost function Contents(): (items: seq<nat>)
      requires Valid()
      reads this, buff
      ensures |items| == count
    {
      buff[..count]
    }

    constructor (capacity: nat)
      ensures Valid() && Contents() == [] && buff.Length == capacity && fresh(buff)
    {
      buff := new nat[capacity](_ => 0);
      count := 0;
    }

    method InsertItem(item: nat)
      requires Valid() && count < buff.Length
      modifies this, buff
      ensures Valid() && Contents() == Pushed(old(Contents()), item)
    {
      buff[count] := item;
      count := count + 1;
    }

    method RemoveItem() returns (item: nat)
      requires Valid() && count > 0
      modifies this
      ensures Valid() && Contents() == Popped(old(Contents())) && item == Top(old(Contents()))
    {
      count := count - 1;
      return buff[count];
    }
  }

  function Pushed(items: seq<nat>, item: nat): seq<nat> { items + [item] }

  function Popped(items: seq<nat>): seq<nat>
    requires items != []
  {
    items[..|items| - 1]
  }

  function Top(items: seq<nat>): nat
    requires items != []
  {
    items[|items| - 1]
  }

  // ---- Steps ----

  /** `Asleep` is inside pthread_cond_wait, `Woken` is waiting there to get the mutex back, `Act` is before
      the insertion or removal, `Signal` before the test that follows it. */
  datatype Pc = Start | Check | Asleep | Woken | Act | Signal | Unlock

  datatype Who = Producer | Consumer

  datatype Owner = Free | Held(holder: Who)

  /** `i` counts the finished iterations; it is also the item that the producer inserts next. */
  datatype Thread = Thread(pc: Pc, i: nat)

  datatype State = State(prod: Thread, cons: Thread, mutex: Owner, buff: seq<nat>, taken: seq<nat>)

  datatype Action = Run(who: Who) | SpuriousWakeup(who: Who)

  const INIT := State(Thread(Start, 0), Thread(Start, 0), Free, [], [])

  function At(s: State, who: Who): Thread {
    if who == Producer then s.prod else s.cons
  }

  function Move(s: State, who: Who, pc: Pc): State {
    if who == Producer then s.(prod := s.prod.(pc := pc)) else s.(cons := s.cons.(pc := pc))
  }

  function Other(who: Who): Who { if who == Producer then Consumer else Producer }

  predicate MustWait(s: State, who: Who, capacity: nat) {
    if who == Producer then |s.buff| == capacity else |s.buff| == 0
  }

  /** Whether the thread that has just inserted or removed signals. */
  predicate Edge(s: State, who: Who, capacity: nat) {
    if who == Producer then |s.buff| == 1 else |s.buff| == capacity - 1
  }

  predicate Enabled(s: State, a: Action, capacity: nat, n: nat) {
    var t := At(s, a.who);
    match a
    case SpuriousWakeup(_) => t.pc == Asleep
    case Run(who) =>
      match t.pc
      case Start => t.i < n && s.mutex == Free
      case Woken => s.mutex == Free
      case Asleep => false
      case Act => if who == Producer then |s.buff| < capacity else |s.buff| > 0
      case _ => true
  }

  function Next(s: State, a: Action, capacity: nat, n: nat): State
    requires Enabled(s, a, capacity, n)
  {
    var who := a.who;
    match a
    case SpuriousWakeup(_) => Move(s, who, Woken)
    case Run(_) =>
      match At(s, who).pc
      case Start => Move(s, who, Check).(mutex := Held(who))
      case Woken => Move(s, who, Check).(mutex := Held(who))
      case Check => if MustWait(s, who, capacity) then Move(s, who, Asleep).(mutex := Free) else Move(s, who, Act)
      case Act =>
        if who == Producer then Move(s, who, Signal).(buff := Pushed(s.buff, s.prod.i))
        else Move(s, who, Signal).(buff := Popped(s.buff), taken := s.taken + [Top(s.buff)])
      case Signal =>
        if Edge(s, who, capacity) && At(s, Other(who)).pc == Asleep then Move(Move(s, who, Unlock), Other(who), Woken)
        else Move(s, who, Unlock)
      case Unlock =>
        if who == Producer then s.(prod := Thread(Start, s.prod.i + 1), mutex := Free)
        else s.(cons := Thread(Start, s.cons.i + 1), mutex := Free)
  }

  predicate Possible(run: seq<Action>, capacity: nat, n: nat)
    decreases |run|, 0
  {
    run == [] ||
    var before, a := run[..|run| - 1], run[|run| - 1];
    Possible(before, capacity, n) && Enabled(After(before, capacity, n), a, capacity, n)
  }

  function After(run: seq<Action>, capacity: nat, n: nat): State
    requires Possible(run, capacity, n)
    decreases |run|, 1
  {
    if run == [] then INIT
    else Next(After(run[..|run| - 1], capacity, n), run[|run| - 1], capacity, n)
  }

  predicate Finished(t: Thread, n: nat) { t.pc == Start && t.i == n }

  // ---- The monitor invariant ----

  predicate Inside(pc: Pc) { pc == Check || pc == Act || pc == Signal || pc == Unlock }

  /** The number of insertions or removals a thread has made. */
  function Moved(t: Thread): nat {
    t.i + if t.pc == Signal || t.pc == Unlock then 1 else 0
  }

  predicate ThreadOk(s: State, who: Who, capacity: nat, n: nat) {
    var t := At(s, who);
    && (Inside(t.pc) <==> s.mutex == Held(who))
    && t.i <= n && (t.pc != Start ==> t.i < n)
    && (t.pc == Act ==> !MustWait(s, who, capacity))
    // a sleeper's reason to sleep holds, or its signal is about to be sent
    && (t.pc == Asleep ==> MustWait(s, who, capacity)
                           || (At(s, Other(who)).pc == Signal && Edge(s, Other(who), capacity)))
  }

  predicate Inv(s: State, capacity: nat, n: nat) {
    && (forall who :: ThreadOk(s, who, capacity, n))
    && |s.buff| <= capacity && Moved(s.prod) == |s.buff| + Moved(s.cons) && |s.taken| == Moved(s.cons)
  }

  lemma StepInv(s: State, a: Action, capacity: nat, n: nat)
    requires capacity >= 1 && Inv(s, capacity, n) && Enabled(s, a, capacity, n)
    ensures Inv(Next(s, a, capacity, n), capacity, n)
  {
    assert ThreadOk(s, Producer, capacity, n) && ThreadOk(s, Consumer, capacity, n);
  }

  lemma {:induction false} AlwaysInv(run: seq<Action>, capacity: nat, n: nat)
    requires capacity >= 1 && Possible(run, capacity, n)
    ensures Inv(After(run, capacity, n), capacity, n)
    decreases |run|
  {
    if run != [] {
      AlwaysInv(run[..|run| - 1], capacity, n);
      StepInv(After(run[..|run| - 1], capacity, n), run[|run| - 1], capacity, n);
    }
  }

  /** No wakeup is lost: the two threads never sleep together, and while either is unfinished one of them
      can step without a spurious wakeup. */
  lemma NoLostWakeup(run: seq<Action>, capacity: nat, n: nat)
    requires capacity >= 1 && Possible(run, capacity, n)
    ensures var s := After(run, capacity, n);
            && !(s.prod.pc == Asleep && s.cons.pc == Asleep)
            && ((Finished(s.prod, n) && Finished(s.cons, n)) || exists who :: Possible(run + [Run(who)], capacity, n))
  {
    var s := After(run, capacity, n);
    AlwaysInv(run, capacity, n);
    assert ThreadOk(s, Producer, capacity, n) && ThreadOk(s, Consumer, capacity, n);
    forall who | Enabled(s, Run(who), capacity, n) ensures Possible(run + [Run(who)], capacity, n) {
      assert (run + [Run(who)])[..|run|] == run;
    }
    if !(Finished(s.prod, n) && Finished(s.cons, n)) {
      assert Enabled(s, Run(Producer), capacity, n) || Enabled(s, Run(Consumer), capacity, n);
    }
  }

  // ---- Termination ----

  /** Steps left in the current iteration, up to a constant. A sleeper that is woken gains two. */
  function Rank(pc: Pc): int {
    match pc
    case Start => 0
    case Woken => 0
    case Check => -1
    case Asleep => -2
    case Act => -2
    case Signal => -3
    case Unlock => -6
  }

  function Budget(s: State, n: nat): int {
    7 * (n - s.prod.i) + Rank(s.prod.pc) + 7 * (n - s.cons.i) + Rank(s.cons.pc)
  }

  function Spurious(run: seq<Action>): nat {
    if run == [] then 0 else Spurious(run[..|run| - 1]) + if run[|run| - 1].SpuriousWakeup? then 1 else 0
  }

  lemma {:induction false} RunSpends(run: seq<Action>, capacity: nat, n: nat)
    requires capacity >= 1 && Possible(run, capacity, n)
    ensures |run| + Budget(After(run, capacity, n), n) <= 14 * n + 3 * Spurious(run)
    decreases |run|
  {
    if run != [] {
      var before := run[..|run| - 1];
      var s := After(before, capacity, n);
      RunSpends(before, capacity, n);
      AlwaysInv(before, capacity, n);
      assert ThreadOk(s, Producer, capacity, n) && ThreadOk(s, Consumer, capacity, n);
    }
  }

  lemma {:induction false} NoneSpurious(run: seq<Action>)
    ensures (forall i | 0 <= i < |run| :: !run[i].SpuriousWakeup?) ==> Spurious(run) == 0
    decreases |run|
  {
    if run != [] {
      NoneSpurious(run[..|run| - 1]);
    }
  }

  /** A run is no longer than its spurious wakeups make it, and one that cannot be extended has moved
      every item through the buffer. */
  lemma EveryRunCompletes(run: seq<Action>, capacity: nat, n: nat)
    requires capacity >= 1 && Possible(run, capacity, n)
    ensures |run| <= 14 * n + 3 * Spurious(run)
    ensures (forall i | 0 <= i < |run| :: !run[i].SpuriousWakeup?) ==> |run| <= 14 * n
    ensures (forall who :: !Possible(run + [Run(who)], capacity, n))
      ==> var s := After(run, capacity, n);
          Finished(s.prod, n) && Finished(s.cons, n) && s.buff == [] && |s.taken| == n
  {
    var s := After(run, capacity, n);
    RunSpends(run, capacity, n);
    NoneSpurious(run);
    AlwaysInv(run, capacity, n);
    NoLostWakeup(run, capacity, n);
    assert ThreadOk(s, Producer, capacity, n) && ThreadOk(s, Consumer, capacity, n);
  }

  // ---- What is consumed, and in which order ----

  /** The items 0 .. m - 1. */
  function Items(m: nat): multiset<nat> {
    if m == 0 then multiset{} else Items(m - 1) + multiset{m - 1}
  }

  /** Consumed and buffered items are the produced ones, each once. */
  predicate Conserved(taken: seq<nat>, buff: seq<nat>, made: nat) {
    multiset(taken) + multiset(buff) == Items(made)
  }

  /** The buffer increases towards its top, and nothing comes from the future. */
  predicate Increasing(taken: seq<nat>, buff: seq<nat>, made: nat) {
    && (forall x, y | 0 <= x < y < |buff| :: buff[x] < buff[y])
    && (forall x | 0 <= x < |buff| :: buff[x] < made)
    && (forall i | 0 <= i < |taken| :: taken[i] < made)
  }

  /** Once an item is out, what is below it comes out from the top down. */
  predicate TopDown(taken: seq<nat>, buff: seq<nat>) {
    forall i, j, x | 0 <= i < j < |taken| && 0 <= x < |buff| ::
      taken[j] < taken[i] && buff[x] < taken[i] ==> buff[x] < taken[j]
  }

  /** No `c`, then `a`, then `b` with `a < b < c`. */
  predicate StackOrder(taken: seq<nat>) {
    forall i, j, k | 0 <= i < j < k < |taken| :: !(taken[j] < taken[k] < taken[i])
  }

  predicate Ordered(taken: seq<nat>, buff: seq<nat>, made: nat) {
    Conserved(taken, buff, made) && Increasing(taken, buff, made) && TopDown(taken, buff) && StackOrder(taken)
  }

  lemma InsertOrdered(taken: seq<nat>, buff: seq<nat>, made: nat)
    requires Ordered(taken, buff, made)
    ensures Ordered(taken, Pushed(buff, made), made + 1)
  {
    InsertConserves(taken, buff, made);
    InsertIncreasing(taken, buff, made);
    InsertTopDown(taken, buff, made);
  }

  lemma InsertConserves(taken: seq<nat>, buff: seq<nat>, made: nat)
    requires Conserved(taken, buff, made)
    ensures Conserved(taken, Pushed(buff, made), made + 1)
  {}

  lemma InsertIncreasing(taken: seq<nat>, buff: seq<nat>, made: nat)
    requires Increasing(taken, buff, made)
    ensures Increasing(taken, Pushed(buff, made), made + 1)
  {}

  lemma InsertTopDown(taken: seq<nat>, buff: seq<nat>, made: nat)
    requires Increasing(taken, buff, made) && TopDown(taken, buff)
    ensures TopDown(taken, Pushed(buff, made))
  {}

  lemma RemoveOrdered(taken: seq<nat>, buff: seq<nat>, made: nat)
    requires Ordered(taken, buff, made) && buff != []
    ensures Ordered(taken + [Top(buff)], Popped(buff), made)
  {
    RemoveConserves(taken, buff, made);
    RemoveIncreasing(taken, buff, made);
    RemoveKeepsOrder(taken, buff, made);
  }

  lemma RemoveConserves(taken: seq<nat>, buff: seq<nat>, made: nat)
    requires Conserved(taken, buff, made) && buff != []
    ensures Conserved(taken + [Top(buff)], Popped(buff), made)
  {
    assert buff == Popped(buff) + [Top(buff)];
  }

  lemma RemoveIncreasing(taken: seq<nat>, buff: seq<nat>, made: nat)
    requires Increasing(taken, buff, made) && buff != []
    ensures Increasing(taken + [Top(buff)], Popped(buff), made)
  {}

  lemma RemoveKeepsOrder(taken: seq<nat>, buff: seq<nat>, made: nat)
    requires Increasing(taken, buff, made) && TopDown(taken, buff) && StackOrder(taken) && buff != []
    ensures TopDown(taken + [Top(buff)], Popped(buff)) && StackOrder(taken + [Top(buff)])
  {}

  /** What a step can do to the stack: nothing, push the next item, or pop. */
  predicate StackStep(taken: seq<nat>, buff: seq<nat>, made: nat, taken': seq<nat>, buff': seq<nat>, made': nat) {
    || (taken' == taken && buff' == buff && made' == made)
    || (taken' == taken && buff' == Pushed(buff, made) && made' == made + 1)
    || (buff != [] && taken' == taken + [Top(buff)] && buff' == Popped(buff) && made' == made)
  }

  lemma NextIsStackStep(s: State, a: Action, capacity: nat, n: nat)
    requires Enabled(s, a, capacity, n)
    ensures var s' := Next(s, a, capacity, n);
            StackStep(s.taken, s.buff, Moved(s.prod), s'.taken, s'.buff, Moved(s'.prod))
  {}

  lemma StepOrdered(taken: seq<nat>, buff: seq<nat>, made: nat, taken': seq<nat>, buff': seq<nat>, made': nat)
    requires Ordered(taken, buff, made) && StackStep(taken, buff, made, taken', buff', made')
    ensures Ordered(taken', buff', made')
  {
    if made' > made {
      InsertOrdered(taken, buff, made);
    } else if taken' != taken {
      RemoveOrdered(taken, buff, made);
    }
  }

  lemma {:induction false} AlwaysOrdered(run: seq<Action>, capacity: nat, n: nat)
    requires Possible(run, capacity, n)
    ensures var s := After(run, capacity, n); Ordered(s.taken, s.buff, Moved(s.prod))
    decreases |run|
  {
    if run != [] {
      AlwaysOrdered(run[..|run| - 1], capacity, n);
      var s, s' := After(run[..|run| - 1], capacity, n), After(run, capacity, n);
      NextIsStackStep(s, run[|run| - 1], capacity, n);
      StepOrdered(s.taken, s.buff, Moved(s.prod), s'.taken, s'.buff, Moved(s'.prod));
    }
  }

  /** At every point of every run the consumed sequence is a stack permutation of what was produced. */
  lemma StackPermutation(run: seq<Action>, capacity: nat, n: nat)
    requires Possible(run, capacity, n)
    ensures var s := After(run, capacity, n);
            multiset(s.taken) + multiset(s.buff) == Items(Moved(s.prod)) && StackOrder(s.taken)
  {
    AlwaysOrdered(run, capacity, n);
  }

  /** When both threads have finished, every item has been consumed exactly once. */
  lemma AllConsumed(run: seq<Action>, capacity: nat, n: nat)
    requires capacity >= 1 && Possible(run, capacity, n)
    requires var s := After(run, capacity, n); Finished(s.prod, n) && Finished(s.cons, n)
    ensures var s := After(run, capacity, n); s.buff == [] && multiset(s.taken) == Items(n)
  {
    StackPermutation(run, capacity, n);
    AlwaysInv(run, capacity, n);
    assert multiset(After(run, capacity, n).buff) == multiset{};
  }
}
