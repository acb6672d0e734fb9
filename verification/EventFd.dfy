/** The exit protocol over an eventfd: clients announce their end by adding a value of at least 2^63 to a
    64-bit counter, and the server decodes one client from each value it reads. */
module EventFd {
  import opened Basics

  /** A client's number: a non-negative `int`. */
  type Index = x: bv64 | x < 0x8000_0000

  const MAGIC_EXIT: bv64 := 0x8000_0000_0000_0000
  const MAGIC_MASK: bv64 := 0xFF

  /** The largest value the counter of an eventfd can hold. */
  const COUNTER_MAX: bv64 := 0xFFFF_FFFF_FFFF_FFFE

  function SetEvent(index: Index): bv64 { MAGIC_EXIT | index }

  function GetIndex(event: bv64): Index { MAGIC_MASK & event }

  predicate IsExit(event: bv64) { ((event & MAGIC_EXIT) >> 32) == (MAGIC_EXIT >> 32) }

  /** write(2) on an eventfd blocks when the counter would exceed its maximum. */
  predicate WriteBlocks(counter: bv64, value: bv64) { counter > COUNTER_MAX - value }

  /** The kernel's limit, and what the server takes for an exit. */
  lemma CounterLimit(event: bv64)
    ensures WriteBlocks(0xFFFF_FFFF_FFFF_FFFD, 2) && !WriteBlocks(0xFFFF_FFFF_FFFF_FFFD, 1)
    ensures !WriteBlocks(0, COUNTER_MAX)
    ensures IsExit(event) <==> event >= 0x8000_0000_0000_0000
  {}

  lemma DecodesExactlyBytes(i: Index)
    ensures GetIndex(SetEvent(i)) == i <==> i < 256
  {}

  /** Two exits do not fit into the counter, one does, and an exit is recognised. */
  lemma ExitEvents(i: Index, j: Index)
    ensures SetEvent(i) != 0 && IsExit(SetEvent(i))
    ensures WriteBlocks(SetEvent(i), SetEvent(j)) && !WriteBlocks(0, SetEvent(j)) && 0 + SetEvent(j) == SetEvent(j)
  {}

  // ---- Steps ----

  /** Each client is in one of the first three sets: it has written nothing, its message, or also its exit
      event. `unread` holds the clients whose message is still in the pipe, `closed` the indices whose
      read end the server has closed, in order. */
  datatype State = State(idle: set<Index>, messaged: set<Index>, notified: set<Index>,
                         unread: set<Index>, counter: bv64, closed: seq<Index>, recvMsgs: nat)

  datatype Action = Message(client: Index) | Notify(client: Index) | ReadPipe(client: Index) | ReadEvent

  function Init(ids: set<Index>): State { State(ids, {}, {}, {}, 0, [], 0) }

  predicate Enabled(s: State, a: Action, ids: set<Index>) {
    match a
    case Message(i) => i in s.idle
    case Notify(i) => i in s.messaged && !WriteBlocks(s.counter, SetEvent(i))
    case ReadPipe(i) => s.recvMsgs < |ids| && i in s.unread && i !in s.closed
    case ReadEvent => s.recvMsgs < |ids| && s.counter != 0
  }

  function Next(s: State, a: Action): State {
    match a
    case Message(i) => s.(idle := s.idle - {i}, messaged := s.messaged + {i}, unread := s.unread + {i})
    case Notify(i) =>
      s.(messaged := s.messaged - {i}, notified := s.notified + {i}, counter := s.counter + SetEvent(i))
    case ReadPipe(i) => s.(unread := s.unread - {i})
    case ReadEvent =>
      if IsExit(s.counter) then
        s.(counter := 0, closed := s.closed + [GetIndex(s.counter)], recvMsgs := s.recvMsgs + 1)
      else s.(counter := 0)
  }

  predicate Possible(ids: set<Index>, run: seq<Action>)
    decreases |run|, 0
  {
    run == [] ||
    var before, a := run[..|run| - 1], run[|run| - 1];
    Possible(ids, before) && Enabled(After(ids, before), a, ids)
  }

  function After(ids: set<Index>, run: seq<Action>): State
    requires Possible(ids, run)
    decreases |run|, 1
  {
    if run == [] then Init(ids) else Next(After(ids, run[..|run| - 1]), run[|run| - 1])
  }

  lemma Extend(ids: set<Index>, run: seq<Action>, a: Action)
    requires Possible(ids, run) && Enabled(After(ids, run), a, ids)
    ensures Possible(ids, run + [a]) && After(ids, run + [a]) == Next(After(ids, run), a)
  {
    assert (run + [a])[..|run|] == run;
  }

  // ---- The invariant ----

  /** Every client is in exactly one of the three sets. */
  ghost predicate Partitioned(s: State, ids: set<Index>) {
    && s.idle + s.messaged + s.notified == ids
    && s.idle !! s.messaged && s.idle !! s.notified && s.messaged !! s.notified
  }

  /** The closed pipes belong to clients that announced their exit, each was closed once and counted once. */
  ghost predicate ClosedOk(s: State) {
    Elements(s.closed) <= s.notified && NoDuplicates(s.closed) && s.recvMsgs == |s.closed|
  }

  /** The counter is empty or carries the exit of exactly one client, the only one not yet served. */
  ghost predicate OneAtATime(s: State) {
    var pending := s.notified - Elements(s.closed);
    || (s.counter == 0 && pending == {})
    || exists i :: pending == {i} && s.counter == SetEvent(i)
  }

  ghost predicate Inv(s: State, ids: set<Index>) {
    Partitioned(s, ids) && ClosedOk(s) && OneAtATime(s)
  }

  ghost predicate Bytes(ids: set<Index>) { forall i | i in ids :: i < 256 }

  lemma StepInv(s: State, a: Action, ids: set<Index>)
    requires Bytes(ids) && Inv(s, ids) && Enabled(s, a, ids)
    ensures Inv(Next(s, a), ids)
  {
    match a {
      case Message(i) =>
      case Notify(i) => NotifyInv(s, i, ids);
      case ReadPipe(i) =>
      case ReadEvent => ReadEventInv(s, ids);
    }
  }

  lemma NotifyInv(s: State, i: Index, ids: set<Index>)
    requires Inv(s, ids) && Enabled(s, Notify(i), ids)
    ensures Inv(Next(s, Notify(i)), ids) && s.counter == 0
  {
    var closed := Elements(s.closed);
    forall j ensures WriteBlocks(SetEvent(j), SetEvent(i)) {
      ExitEvents(j, i);
    }
    ExitEvents(i, i);
    assert s.notified + {i} - closed == {i};
  }

  lemma ReadEventInv(s: State, ids: set<Index>)
    requires Bytes(ids) && Inv(s, ids) && Enabled(s, ReadEvent, ids)
    ensures Inv(Next(s, ReadEvent), ids)
    ensures exists i :: i in s.notified && i !in s.closed && Next(s, ReadEvent).closed == s.closed + [i]
  {
    var closed := Elements(s.closed);
    var j :| s.notified - closed == {j} && s.counter == SetEvent(j);
    assert j in s.notified - closed;
    ExitEvents(j, j);
    DecodesExactlyBytes(j);
    ElementsSnoc(s.closed, j);
    assert s.notified - (closed + {j}) == {};
  }

  lemma {:induction false} AlwaysInv(ids: set<Index>, run: seq<Action>)
    requires Bytes(ids) && Possible(ids, run)
    ensures Inv(After(ids, run), ids)
    decreases |run|
  {
    if run != [] {
      AlwaysInv(ids, run[..|run| - 1]);
      StepInv(After(ids, run[..|run| - 1]), run[|run| - 1], ids);
    }
  }

  // ---- The protocol is right exactly for byte-sized indices ----

  /** Only pipes of clients that announced their exit are closed, none twice, and all are counted. */
  ghost predicate AlwaysRight(ids: set<Index>) {
    forall run | Possible(ids, run) :: ClosedOk(After(ids, run))
  }

  lemma RightExactlyForBytes(ids: set<Index>)
    ensures AlwaysRight(ids) <==> Bytes(ids)
  {
    if Bytes(ids) {
      forall run | Possible(ids, run) ensures ClosedOk(After(ids, run)) {
        AlwaysInv(ids, run);
      }
    } else {
      var i :| i in ids && i >= 256;
      WrongPipe(ids, i);
    }
  }

  /** An index that does not fit the mask makes the server close another client's pipe. */
  lemma WrongPipe(ids: set<Index>, i: Index)
    requires i in ids && i >= 256
    ensures exists run :: Possible(ids, run) && !ClosedOk(After(ids, run))
  {
    var run := OneExit(ids, i);
    ClosesWrongPipe(After(ids, run), i);
    assert |ids| > 0 by { assert ids == ids - {i} + {i}; }
    Extend(ids, run, ReadEvent);
  }

  /** Client `i` writes its message and then its exit event, before anything else happens. */
  lemma OneExit(ids: set<Index>, i: Index) returns (run: seq<Action>)
    requires i in ids
    ensures Possible(ids, run)
    ensures After(ids, run) == State(ids - {i}, {}, {i}, {i}, SetEvent(i), [], 0)
  {
    ExitEvents(i, i);
    Extend(ids, [], Message(i));
    assert After(ids, [] + [Message(i)]) == State(ids - {i}, {i}, {}, {i}, 0, [], 0);
    Extend(ids, [] + [Message(i)], Notify(i));
    run := [] + [Message(i)] + [Notify(i)];
  }

  lemma ClosesWrongPipe(s: State, i: Index)
    requires s.counter == SetEvent(i) && i >= 256 && s.notified == {i} && s.closed == []
    ensures !ClosedOk(Next(s, ReadEvent))
  {
    ExitEvents(i, i);
    DecodesExactlyBytes(i);
    var s' := Next(s, ReadEvent);
    assert s'.closed[0] in Elements(s'.closed);
  }

  // ---- Progress ----

  /** Until every client has been served, some client or the server can step. */
  lemma NeverStuck(ids: set<Index>, run: seq<Action>)
    requires Bytes(ids) && Possible(ids, run) && After(ids, run).recvMsgs < |ids|
    ensures exists a :: Possible(ids, run + [a])
  {
    var s := After(ids, run);
    AlwaysInv(ids, run);
    var a: Action;
    if s.counter != 0 {
      a := ReadEvent;
    } else if s.idle != {} {
      var i :| i in s.idle;
      a := Message(i);
    } else if s.messaged != {} {
      var i :| i in s.messaged;
      ExitEvents(i, i);
      a := Notify(i);
    } else {
      AllServed(s, ids);
      assert false;
    }
    Extend(ids, run, a);
  }

  lemma AllServed(s: State, ids: set<Index>)
    requires Inv(s, ids) && s.counter == 0 && s.idle == {} && s.messaged == {}
    ensures s.recvMsgs == |ids|
  {
    forall i ensures SetEvent(i) != 0 {
      ExitEvents(i, i);
    }
    DistinctSize(s.closed);
    assert s.notified - Elements(s.closed) == {};
    assert Elements(s.closed) == ids;
  }

  // ---- Termination and outcome ----

  function Budget(s: State): nat {
    4 * |s.idle| + 2 * |s.messaged| + |s.unread| + if s.counter == 0 then 0 else 1
  }

  /** Moving `i` from one set to another that does not shrink. */
  lemma Moves(a: set<Index>, b: set<Index>, i: Index)
    requires i in a
    ensures |a - {i}| == |a| - 1 && |b + {i}| <= |b| + 1
  {}

  lemma StepSpends(s: State, a: Action, ids: set<Index>)
    requires Enabled(s, a, ids) && (a.Notify? ==> s.counter == 0)
    ensures Budget(Next(s, a)) < Budget(s)
  {
    match a {
      case Message(i) =>
        Moves(s.idle, s.messaged, i);
        Moves(s.idle, s.unread, i);
      case Notify(i) =>
        Moves(s.messaged, s.notified, i);
      case ReadPipe(i) =>
        Moves(s.unread, {}, i);
      case ReadEvent =>
    }
  }

  lemma {:induction false} RunSpends(ids: set<Index>, run: seq<Action>)
    requires Bytes(ids) && Possible(ids, run)
    ensures |run| + Budget(After(ids, run)) <= 4 * |ids|
    decreases |run|
  {
    if run != [] {
      var s, a := After(ids, run[..|run| - 1]), run[|run| - 1];
      RunSpends(ids, run[..|run| - 1]);
      AlwaysInv(ids, run[..|run| - 1]);
      if a.Notify? {
        NotifyInv(s, a.client, ids);
      }
      StepSpends(s, a, ids);
    }
  }

  /** No run goes on for ever, and one that cannot be extended has closed the pipe of every client exactly once. */
  lemma EveryRunCompletes(ids: set<Index>, run: seq<Action>)
    requires Bytes(ids) && Possible(ids, run)
    ensures |run| <= 4 * |ids|
    ensures (forall a :: !Possible(ids, run + [a])) ==>
              var s := After(ids, run);
              s.recvMsgs == |ids| && Elements(s.closed) == ids && NoDuplicates(s.closed)
  {
    RunSpends(ids, run);
    AlwaysInv(ids, run);
    if forall a :: !Possible(ids, run + [a]) {
      var s := After(ids, run);
      if s.recvMsgs < |ids| {
        NeverStuck(ids, run);
      }
      DistinctSize(s.closed);
      SubsetSize(Elements(s.closed), ids);
    }
  }

  // ---- Messages ----

  /** A run that cannot be extended. */
  ghost predicate Complete(ids: set<Index>, run: seq<Action>) {
    Possible(ids, run) && forall a :: !Possible(ids, run + [a])
  }

  /** A message still in the pipe when the server closes it stays there for the rest of the run. */
  lemma {:induction false} RunOut(ids: set<Index>, run: seq<Action>, i: Index) returns (longer: seq<Action>)
    requires Bytes(ids) && Possible(ids, run)
    requires i in After(ids, run).closed && i in After(ids, run).unread
    ensures Complete(ids, longer) && i in After(ids, longer).unread
    decreases 4 * |ids| - |run|
  {
    longer := run;
    if !Complete(ids, run) {
      var a :| Possible(ids, run + [a]);
      StaysUnread(ids, run, a, i);
      RunSpends(ids, run + [a]);
      longer := RunOut(ids, run + [a], i);
    }
  }

  lemma StaysUnread(ids: set<Index>, run: seq<Action>, a: Action, i: Index)
    requires Possible(ids, run) && Possible(ids, run + [a])
    requires i in After(ids, run).closed && i in After(ids, run).unread
    ensures i in After(ids, run + [a]).closed && i in After(ids, run + [a]).unread
  {
    assert (run + [a])[..|run|] == run;
  }

  /** Whatever the other clients are, the message of each client is lost in some run: nothing orders a
      client's message and its exit in epoll. */
  lemma MessageCanBeLost(ids: set<Index>, i: Index)
    requires Bytes(ids) && i in ids
    ensures exists run :: Complete(ids, run) && i in After(ids, run).unread
  {
    var run := OneExit(ids, i);
    ExitEvents(i, i);
    DecodesExactlyBytes(i);
    assert |ids| > 0 by { assert ids == ids - {i} + {i}; }
    Extend(ids, run, ReadEvent);
    assert After(ids, run + [ReadEvent]).closed == [] + [i];
    var longer := RunOut(ids, run + [ReadEvent], i);
  }

  /** Every run delivers all messages exactly when there is nothing to deliver. */
  lemma AllReadOnlyWithoutClients(ids: set<Index>)
    requires Bytes(ids)
    ensures (forall run | Complete(ids, run) :: After(ids, run).unread == {}) <==> ids == {}
  {
    if ids == {} {
      forall run | Complete(ids, run) ensures After(ids, run).unread == {} {
        RunSpends(ids, run);
        assert run == [];
      }
    } else {
      var i :| i in ids;
      MessageCanBeLost(ids, i);
    }
  }
}
