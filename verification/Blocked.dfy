/** Two threads search their ranges for a number with some property; each tells the other through a flag
    that a mutex guards. */
module Blocked {

  datatype Who = X | Y

  datatype Owner = Free | Held(holder: Who)

  /** Where a thread is in its loop: `Lock…` before a call of pthread_mutex_lock, `In…` after it. */
  datatype Pc = Test | LockOwn | InOwn | SetFound | SetVal | UnlockOwn | LockOther | InOther | UnlockOther | Next | Done

  /** A thread and its thd_data_t. */
  datatype Side = Side(pc: Pc, i: int, finished: bool, found: bool, val: int, mutex: Owner)

  datatype State = State(x: Side, y: Side)

  /** The ranges, and the property searched for. */
  datatype Config = Config(hit: int -> bool, startX: int, stopX: int, startY: int, stopY: int) {
    function Start(who: Who): int { if who == X then startX else startY }

    function Stop(who: Who): int { if who == X then stopX else stopY }

    predicate InRange(who: Who, k: int) { Start(who) <= k < Stop(who) }
  }

  function Other(who: Who): Who { if who == X then Y else X }

  function Get(s: State, who: Who): Side { if who == X then s.x else s.y }

  function Put(s: State, who: Who, side: Side): State {
    if who == X then s.(x := side) else s.(y := side)
  }

  function SetMutex(s: State, whose: Who, owner: Owner): State {
    Put(s, whose, Get(s, whose).(mutex := owner))
  }

  function Init(c: Config): State {
    State(Side(Test, c.startX, false, false, -1, Free), Side(Test, c.startY, false, false, -1, Free))
  }

  // ---- Steps ----

  predicate Enabled(s: State, who: Who) {
    match Get(s, who).pc
    case Done => false
    case LockOwn => Get(s, who).mutex == Free
    case LockOther => Get(s, Other(who)).mutex == Free
    case _ => true
  }

  function Step(c: Config, s: State, who: Who): State
    requires Enabled(s, who)
  {
    var t := Get(s, who);
    var other := Other(who);
    match t.pc
    case Test => Put(s, who, t.(pc := if t.i < c.Stop(who) && !t.finished then LockOwn else Done))
    case LockOwn => Put(s, who, t.(pc := InOwn, mutex := Held(who)))
    case InOwn =>
      if !c.hit(t.i) then Put(s, who, t.(pc := LockOther, mutex := Free))
      // X releases its mutex before it writes the result, Y after
      else if who == X then Put(s, who, t.(pc := SetFound, finished := true, mutex := Free))
      else Put(s, who, t.(pc := SetFound, finished := true))
    case SetFound => Put(s, who, t.(pc := SetVal, found := true))
    case SetVal => Put(s, who, t.(pc := if who == X then Next else UnlockOwn, val := t.i))
    case UnlockOwn => Put(s, who, t.(pc := Next, mutex := Free))
    case LockOther => SetMutex(Put(s, who, t.(pc := InOther)), other, Held(who))
    case InOther => Put(s, who, t.(pc := UnlockOther, finished := t.finished || Get(s, other).found))
    case UnlockOther => SetMutex(Put(s, who, t.(pc := Next)), other, Free)
    case Next => Put(s, who, t.(pc := Test, i := t.i + 1))
  }

  /** A schedule names the thread that takes each step, the latest last. */
  predicate Possible(c: Config, schedule: seq<Who>)
    decreases |schedule|, 0
  {
    schedule == [] ||
    var before, who := schedule[..|schedule| - 1], schedule[|schedule| - 1];
    Possible(c, before) && Enabled(After(c, before), who)
  }

  function After(c: Config, schedule: seq<Who>): State
    requires Possible(c, schedule)
    decreases |schedule|, 1
  {
    if schedule == [] then Init(c)
    else Step(c, After(c, schedule[..|schedule| - 1]), schedule[|schedule| - 1])
  }

  // ---- Mutexes ----

  predicate HoldsOwn(who: Who, pc: Pc) {
    pc == InOwn || (who == Y && (pc == SetFound || pc == SetVal || pc == UnlockOwn))
  }

  predicate HoldsOther(pc: Pc) { pc == InOther || pc == UnlockOther }

  /** Each mutex is held by the thread that is between the lock and the unlock, and by nobody else. */
  predicate LocksOk(s: State) {
    && s.x.pc != UnlockOwn  // a step of Y only
    && (s.x.mutex == Held(X) <==> HoldsOwn(X, s.x.pc)) && (s.x.mutex == Held(Y) <==> HoldsOther(s.y.pc))
    && (s.y.mutex == Held(Y) <==> HoldsOwn(Y, s.y.pc)) && (s.y.mutex == Held(X) <==> HoldsOther(s.x.pc))
  }

  lemma StepLocks(c: Config, s: State, who: Who)
    requires LocksOk(s) && Enabled(s, who)
    ensures LocksOk(Step(c, s, who))
  {}

  lemma {:induction false} AlwaysLocks(c: Config, schedule: seq<Who>)
    requires Possible(c, schedule)
    ensures LocksOk(After(c, schedule))
    decreases |schedule|
  {
    if schedule != [] {
      AlwaysLocks(c, schedule[..|schedule| - 1]);
      StepLocks(c, After(c, schedule[..|schedule| - 1]), schedule[|schedule| - 1]);
    }
  }

  /** A thread holds at most one mutex, and none while it waits for one; so until both threads are done
      one of them can step, whatever the ranges and the property are. */
  lemma NeverDeadlocked(c: Config, schedule: seq<Who>, who: Who)
    requires Possible(c, schedule)
    ensures var s := After(c, schedule);
            && !(s.x.mutex == Held(who) && s.y.mutex == Held(who))
            && (Get(s, who).pc == LockOwn || Get(s, who).pc == LockOther ==>
                  s.x.mutex != Held(who) && s.y.mutex != Held(who))
            && ((s.x.pc == Done && s.y.pc == Done) || exists t :: Possible(c, schedule + [t]))
  {
    var s := After(c, schedule);
    AlwaysLocks(c, schedule);
    forall t | Enabled(s, t) ensures Possible(c, schedule + [t]) {
      assert (schedule + [t])[..|schedule|] == schedule;
    }
    assert Enabled(s, X) || Enabled(s, Y) || (s.x.pc == Done && s.y.pc == Done);
  }

  // ---- Termination ----

  function Rank(pc: Pc): nat {
    match pc
    case Test => 10
    case LockOwn => 9
    case InOwn => 8
    case SetFound => 7
    case SetVal => 6
    case UnlockOwn => 5
    case LockOther => 7
    case InOther => 6
    case UnlockOther => 5
    case Next => 4
    case Done => 0
  }

  function Left(c: Config, who: Who, i: int): nat {
    if i < c.Stop(who) then c.Stop(who) - i else 0
  }

  function Budget(c: Config, who: Who, t: Side): nat { 7 * Left(c, who, t.i) + Rank(t.pc) }

  // ---- What is found ----

  predicate NoHit(c: Config, lo: int, hi: int) { forall k | lo <= k < hi :: !c.hit(k) }

  /** What thread `who` has established. `otherFound` is the other thread's flag. */
  predicate SideOk(c: Config, who: Who, t: Side, otherFound: bool) {
    && c.Start(who) <= t.i
    && (t.pc != Test && t.pc != Done ==> t.i < c.Stop(who))
    // the search so far
    && (!t.finished ==> NoHit(c, c.Start(who), t.i))
    && (!t.finished && (t.pc == LockOther || HoldsOther(t.pc) || t.pc == Next) ==> !c.hit(t.i))
    && (!t.finished && t.pc == Done ==> t.i >= c.Stop(who))
    // the result
    && (t.pc == SetFound || t.pc == SetVal || t.pc == UnlockOwn ==> t.finished && FirstHit(c, who, t.i))
    && (t.pc == LockOwn || t.pc == InOwn || t.pc == LockOther || t.pc == InOther ==> !t.finished)
    && (t.pc == SetVal || t.pc == UnlockOwn ==> t.found)
    && (if t.found then t.finished else t.val == -1)
    && (t.found && t.pc != SetVal ==> FirstHit(c, who, t.val))
    && (t.finished ==> t.found || otherFound || t.pc == SetFound)
  }

  predicate FirstHit(c: Config, who: Who, k: int) {
    c.InRange(who, k) && c.hit(k) && NoHit(c, c.Start(who), k)
  }

  predicate SearchOk(c: Config, s: State) {
    SideOk(c, X, s.x, s.y.found) && SideOk(c, Y, s.y, s.x.found)
  }

  lemma StepSide(c: Config, s: State, who: Who)
    requires SideOk(c, who, Get(s, who), Get(s, Other(who)).found) && Enabled(s, who)
    ensures var s' := Step(c, s, who); SideOk(c, who, Get(s', who), Get(s', Other(who)).found)
    ensures Budget(c, who, Get(Step(c, s, who), who)) < Budget(c, who, Get(s, who))
  {}

  lemma StepOther(c: Config, s: State, who: Who)
    requires SideOk(c, Other(who), Get(s, Other(who)), Get(s, who).found) && Enabled(s, who)
    ensures var s' := Step(c, s, who); SideOk(c, Other(who), Get(s', Other(who)), Get(s', who).found)
    ensures Budget(c, Other(who), Get(Step(c, s, who), Other(who))) == Budget(c, Other(who), Get(s, Other(who)))
  {}

  lemma StepSearch(c: Config, s: State, who: Who)
    requires SearchOk(c, s) && Enabled(s, who)
    ensures SearchOk(c, Step(c, s, who))
    ensures var s' := Step(c, s, who);
            Budget(c, X, s'.x) + Budget(c, Y, s'.y) < Budget(c, X, s.x) + Budget(c, Y, s.y)
  {
    StepSide(c, s, who);
    StepOther(c, s, who);
  }

  lemma {:induction false} AlwaysSearch(c: Config, schedule: seq<Who>)
    requires Possible(c, schedule)
    ensures var s := After(c, schedule);
            && SearchOk(c, s)
            && |schedule| + Budget(c, X, s.x) + Budget(c, Y, s.y)
            <= 7 * (Left(c, X, c.startX) + Left(c, Y, c.startY)) + 20
    decreases |schedule|
  {
    if schedule != [] {
      AlwaysSearch(c, schedule[..|schedule| - 1]);
      StepSearch(c, After(c, schedule[..|schedule| - 1]), schedule[|schedule| - 1]);
    }
  }

  /** Every run ends, fair or not, within a bound given by the ranges. */
  lemma EveryRunEnds(c: Config, schedule: seq<Who>)
    requires Possible(c, schedule)
    ensures |schedule| <= 7 * (Left(c, X, c.startX) + Left(c, Y, c.startY)) + 20
    ensures (forall t :: !Possible(c, schedule + [t])) ==>
              After(c, schedule).x.pc == Done && After(c, schedule).y.pc == Done
  {
    AlwaysSearch(c, schedule);
    NeverDeadlocked(c, schedule, X);
  }

  /** What is left of the loop for a thread that is stopped at number `i`. */
  predicate Stopped(t: Side, i: int) {
    && t.finished
    && if t.pc == UnlockOther || t.pc == Next then t.i == i else t.i == i + 1 && (t.pc == Test || t.pc == Done)
  }

  /** A thread that reads the other's flag up examines no further number. */
  lemma {:induction false} StopsOnOthersHit(c: Config, schedule: seq<Who>, who: Who, more: seq<Who>)
    requires Possible(c, schedule) && Possible(c, schedule + [who]) && Possible(c, schedule + [who] + more)
    requires Get(After(c, schedule), who).pc == InOther && Get(After(c, schedule), Other(who)).found
    ensures Stopped(Get(After(c, schedule + [who] + more), who), Get(After(c, schedule), who).i)
    decreases |more|
  {
    if more == [] {
      assert schedule + [who] + more == schedule + [who] && (schedule + [who])[..|schedule|] == schedule;
    } else {
      var longer, before := schedule + [who] + more, more[..|more| - 1];
      assert longer[..|longer| - 1] == schedule + [who] + before;
      StopsOnOthersHit(c, schedule, who, before);
    }
  }

  /** When both threads are done, one of them has found something exactly if there was something to find,
      and what a thread has found is the first hit of its range; the value of the other is as it was. */
  lemma Outcome(c: Config, schedule: seq<Who>)
    requires Possible(c, schedule)
    requires After(c, schedule).x.pc == Done && After(c, schedule).y.pc == Done
    ensures var s := After(c, schedule);
            && (s.x.found || s.y.found
                <==> exists k :: c.hit(k) && (c.startX <= k < c.stopX || c.startY <= k < c.stopY))
            && (if s.x.found then c.startX <= s.x.val < c.stopX && c.hit(s.x.val) && NoHit(c, c.startX, s.x.val)
                else s.x.val == -1)
            && (if s.y.found then c.startY <= s.y.val < c.stopY && c.hit(s.y.val) && NoHit(c, c.startY, s.y.val)
                else s.y.val == -1)
  {
    AlwaysSearch(c, schedule);
  }
}
