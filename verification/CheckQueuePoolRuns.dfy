/**
 * The pool of script-check queues over whole runs (src/checkqueuepool.h): which queues are
 * idle and which checkers run, with which value and start time, in terms of the events alone,
 * and what every queue of the pool has been asked to do.
 */
module CheckQueuePoolRuns {
  import opened Wrappers
  import opened Sets
  import Q = CheckQueue
  import Safety = CheckQueueSafety
  import History = CheckQueueHistory
  import opened CheckQueuePool

  // ---------------------------------------------------------------------------
  // Single steps
  // ---------------------------------------------------------------------------

  /** GetChecker hands out the queue that is idle longest and registers value and time with it. */
  lemma AcquireExact(p: Pool, value: int, now: int, canceled: bool)
    requires Inv(p) && p.idle != []
    ensures DoAcquire(p, value, now, canceled).Some?
    ensures var p', q := DoAcquire(p, value, now, canceled).value, p.idle[0];
            && p'.idle == p.idle[1..] && p'.running == p.running + [Running(q, value, now)]
            && |p'.queues| == |p.queues| && q < |p.queues|
            && (forall x :: 0 <= x < |p.queues| && x != q ==> p'.queues[x] == p.queues[x])
            && p'.queues[q].hasToken && p'.queues[q].canceled == canceled && !p'.queues[q].waitCalled
            && p'.queues[q].added == 0 && p'.queues[q].ran == map[] && p'.queues[q].allOk == Some(true)
  {
    AcquireKeeps(p, value, now, canceled);
  }

  /**
   * A request with a queue idle, or worth no more than the worst running checker, changes
   * nothing; any other cancels exactly the session of the worst checker.
   */
  lemma RequestExact(p: Pool, value: int, w: nat)
    requires Inv(p) && p.queues != []
    ensures DoRequest(p, value).Some?
    ensures p.idle != [] ==> DoRequest(p, value).value == p
    ensures p.idle == [] && IsWorst(p.running, w) ==>
              var p', q := DoRequest(p, value).value, p.running[w].queue;
              && q < |p.queues|
              && (p.running[w].value >= value ==> p' == p)
              && (p.running[w].value < value ==>
                    p' == p.(queues := p.queues[q := p.queues[q].(canceled := true)]) && p'.queues[q].canceled)
  {
    RequestKeeps(p, value);
    if p.idle == [] && IsWorst(p.running, w) {
      WorstUnique(p.running, w, Worst(p.running));
      assert Ids(p.running)[w] in p.idle + Ids(p.running);
    }
  }

  /** Without the checkers of queue q. */
  function Without(running: seq<Running>, q: nat): seq<Running> {
    if running == [] then []
    else
      var n := |running| - 1;
      Without(running[..n], q) + (if running[n].queue == q then [] else [running[n]])
  }

  lemma {:induction false} WithoutNone(running: seq<Running>, q: nat)
    requires forall i :: 0 <= i < |running| ==> running[i].queue != q
    ensures Without(running, q) == running
  {
    if running != [] {
      WithoutNone(running[..|running| - 1], q);
    }
  }

  lemma {:induction false} WithoutOne(running: seq<Running>, q: nat, i: nat)
    requires i < |running| && running[i].queue == q
    requires forall j :: 0 <= j < |running| && j != i ==> running[j].queue != q
    ensures Without(running, q) == running[..i] + running[i + 1..]
    decreases |running|
  {
    var n := |running| - 1;
    if i == n {
      WithoutNone(running[..n], q);
      assert running[n + 1..] == [];
    } else {
      WithoutOne(running[..n], q, i);
      assert running[i + 1..] == running[..n][i + 1..] + [running[n]];
      assert running[..n][..i] == running[..i];
    }
  }

  /** A returned queue is idle last of all, and no longer running. */
  lemma GiveBackExact(p: Pool, q: nat)
    requires Inv(p) && Enabled(p, GiveBack(q))
    ensures DoGiveBack(p, q).Some?
    ensures var p' := DoGiveBack(p, q).value;
            p'.idle == p.idle + [q] && p'.running == Without(p.running, q) && p'.queues == p.queues
  {
    GiveBackKeeps(p, q);
    assert Partition(p);
    hide Inv, Partition, Without, Position;
    var i := Position(p.running, q).value;
    RunsOnce(p, i);
    WithoutOne(p.running, q, i);
  }

  lemma RunsOnce(p: Pool, i: nat)
    requires Partition(p) && i < |p.running|
    ensures forall j :: 0 <= j < |p.running| && j != i ==> p.running[j].queue != p.running[i].queue
  {
    var all := p.idle + Ids(p.running);
    forall j | 0 <= j < |p.running| && j != i ensures p.running[j].queue != p.running[i].queue {
      assert all[|p.idle| + i] == p.running[i].queue && all[|p.idle| + j] == p.running[j].queue;
    }
  }

  // ---------------------------------------------------------------------------
  // Whole runs
  // ---------------------------------------------------------------------------

  function Numbers(n: nat): (s: seq<nat>)
    ensures |s| == n && forall i :: 0 <= i < n ==> s[i] == i
  {
    seq(n, i => i)
  }

  /** The idle queues after a run, first in first out. */
  function IdleAfter(size: nat, events: seq<Event>): seq<nat> {
    if events == [] then Numbers(size)
    else
      var idle := IdleAfter(size, events[..|events| - 1]);
      match events[|events| - 1]
      case Request(_) => idle
      case Acquire(_, _, _) => if idle == [] then [] else idle[1..]
      case Inner(_, _) => idle
      case GiveBack(q) => idle + [q]
  }

  /** The running checkers after a run, with the value and time of the call that got them. */
  function RunningAfter(size: nat, events: seq<Event>): seq<Running> {
    if events == [] then []
    else
      var init := events[..|events| - 1];
      var running := RunningAfter(size, init);
      match events[|events| - 1]
      case Request(_) => running
      case Acquire(value, now, _) =>
        if IdleAfter(size, init) == [] then running else running + [Running(IdleAfter(size, init)[0], value, now)]
      case Inner(_, _) => running
      case GiveBack(q) => Without(running, q)
  }

  /** The last event of a run was possible in the state before it. */
  lemma {:induction false} LeadsLast(p: Pool, events: seq<Event>, p': Pool) returns (u: Pool)
    requires events != [] && Leads(p, events, p')
    ensures var e := events[|events| - 1];
            Leads(p, events[..|events| - 1], u) && Enabled(u, e) && Step(u, e) == Some(p')
    decreases |events|
  {
    if |events| == 1 {
      u := p;
    } else {
      var next := Step(p, events[0]).value;
      u := LeadsLast(next, events[1..], p');
      assert events[1..][..|events| - 2] == events[..|events| - 1][1..];
    }
  }

  /** In every run the two lists are the ones that the events give. */
  lemma {:induction false} RunLists(size: nat, workers: nat, batchSize: nat, events: seq<Event>, p: Pool)
    requires size > 0 && Leads(Init(size, workers, batchSize), events, p)
    ensures Inv(p) && |p.queues| == size
    ensures p.idle == IdleAfter(size, events) && p.running == RunningAfter(size, events)
    decreases |events|
  {
    hide Inv, Enabled, DoRequest, DoAcquire, DoGiveBack;
    if events == [] {
      InitKeeps(size, workers, batchSize);
      assert p.idle == Numbers(size);
    } else {
      var init, e := events[..|events| - 1], events[|events| - 1];
      var u := LeadsLast(Init(size, workers, batchSize), events, p);
      RunLists(size, workers, batchSize, init, u);
      StepKeeps(u, e);
      StepLists(u, e);
    }
  }

  lemma StepLists(p: Pool, e: Event)
    requires Inv(p) && p.queues != [] && Enabled(p, e) && Step(p, e).Some?
    ensures var p' := Step(p, e).value;
            match e
            case Request(_) => p'.idle == p.idle && p'.running == p.running
            case Acquire(value, now, _) =>
              && p.idle != [] && p'.idle == p.idle[1..]
              && p'.running == p.running + [Running(p.idle[0], value, now)]
            case Inner(_, _) => p'.idle == p.idle && p'.running == p.running
            case GiveBack(q) => p'.idle == p.idle + [q] && p'.running == Without(p.running, q)
  {
    match e
    case Request(value) =>
    case Acquire(value, now, canceled) => AcquireExact(p, value, now, canceled);
    case Inner(_, _) =>
    case GiveBack(q) => GiveBackExact(p, q);
  }

  /**
   * After every run, a request for a more valuable validation while nothing is idle cancels
   * the least valuable running one, the longest running of these, and nothing else; any other
   * request cancels nothing.
   */
  lemma RequestInRun(size: nat, workers: nat, batchSize: nat, events: seq<Event>, p: Pool, value: int, w: nat)
    requires size > 0 && Leads(Init(size, workers, batchSize), events, p)
    ensures Step(p, Request(value)).Some?
    ensures IdleAfter(size, events) != [] ==> Step(p, Request(value)).value == p
    ensures IdleAfter(size, events) == [] && IsWorst(RunningAfter(size, events), w) ==>
              var p', r := Step(p, Request(value)).value, RunningAfter(size, events)[w];
              && r.queue < size && |p'.queues| == |p.queues| == size
              && (r.value >= value ==> p' == p)
              && (r.value < value ==> p'.queues[r.queue].canceled)
              && (forall q :: 0 <= q < size && q != r.queue ==> p'.queues[q] == p.queues[q])
  {
    RunLists(size, workers, batchSize, events, p);
    RequestExact(p, value, w);
  }

  // ---------------------------------------------------------------------------
  // The queues of the pool
  // ---------------------------------------------------------------------------

  /** What a pool event means for queue q. */
  function QueueEvents(size: nat, events: seq<Event>, q: nat): seq<Q.Event> {
    if events == [] then []
    else
      var init := events[..|events| - 1];
      QueueEvents(size, init, q) + Meaning(IdleAfter(size, init), RunningAfter(size, init), events[|events| - 1], q)
  }

  function Meaning(idle: seq<nat>, running: seq<Running>, e: Event, q: nat): seq<Q.Event> {
    match e
    case Request(value) =>
      if idle == [] && running != [] && running[Worst(running)].queue == q && running[Worst(running)].value < value
      then [Q.Cancel] else []
    case Acquire(_, _, canceled) => if idle != [] && idle[0] == q then [Q.CheckIdle, Q.Begin(canceled)] else []
    case Inner(x, inner) => if x == q then [inner] else []
    case GiveBack(_) => []
  }

  lemma {:induction false} RunMore(s: Q.State, events: seq<Q.Event>, e: Q.Event)
    requires Safety.Run(s, events).Some?
    requires Q.Enabled(Safety.Run(s, events).value, e) && Q.Counted(Safety.Run(s, events).value)
    ensures Safety.Run(s, events + [e]) == Some(Q.Apply(Safety.Run(s, events).value, e))
    decreases |events|
  {
    if events == [] {
      assert [e][1..] == [];
    } else {
      RunMore(Q.Apply(s, events[0]), events[1..], e);
      assert (events + [e])[1..] == events[1..] + [e];
    }
  }

  /** Every queue that is handed out has had a session. */
  ghost predicate Tokens(p: Pool) {
    forall q :: 0 <= q < |p.queues| && q in Ids(p.running) ==> p.queues[q].hasToken
  }

  lemma TokensKept(p: Pool, e: Event)
    requires Inv(p) && p.queues != [] && Enabled(p, e) && Tokens(p) && Step(p, e).Some?
    ensures Tokens(Step(p, e).value)
  {
    hide Inv, Tokens, DoRequest, DoAcquire, DoGiveBack, Q.Apply, Q.Enabled, Q.Counted;
    match e
    case Request(value) => RequestTokens(p, value);
    case Acquire(value, now, canceled) => AcquireTokens(p, value, now, canceled);
    case Inner(q, inner) => InnerTokens(p, q, inner);
    case GiveBack(q) => GiveBackTokens(p, q);
  }

  lemma RequestTokens(p: Pool, value: int)
    requires Tokens(p) && DoRequest(p, value).Some?
    ensures Tokens(DoRequest(p, value).value)
  {
    hide Worst, Ids;
  }

  lemma AcquireTokens(p: Pool, value: int, now: int, canceled: bool)
    requires Inv(p) && p.idle != [] && Tokens(p) && DoAcquire(p, value, now, canceled).Some?
    ensures Tokens(DoAcquire(p, value, now, canceled).value)
  {
    AcquireExact(p, value, now, canceled);
    var p' := DoAcquire(p, value, now, canceled).value;
    assert Ids(p'.running) == Ids(p.running) + [p.idle[0]];
    hide DoAcquire, Inv, Ids;
  }

  lemma InnerTokens(p: Pool, q: nat, e: Q.Event)
    requires Inv(p) && Tokens(p) && Enabled(p, Inner(q, e)) && Step(p, Inner(q, e)).Some?
    ensures Tokens(Step(p, Inner(q, e)).value)
  {
    StageOf(p, q);
    Safety.CountsHold(p.queues[q]);
    History.StepRecord(p.queues[q], e);
    hide Inv, Safety.Inv, Q.Apply, Q.Enabled, Q.Counted, Ids;
  }

  lemma GiveBackTokens(p: Pool, q: nat)
    requires Inv(p) && Tokens(p) && Enabled(p, GiveBack(q)) && DoGiveBack(p, q).Some?
    ensures Tokens(DoGiveBack(p, q).value)
  {
    GiveBackPartition(p, Position(p.running, q).value);
    hide Inv, Ids, Position;
  }

  /** Each queue of the pool does exactly what the events mean for it. */
  lemma StepQueue(p: Pool, e: Event, q: nat, start: Q.State, events: seq<Q.Event>)
    requires Inv(p) && p.queues != [] && Enabled(p, e) && Tokens(p) && Step(p, e).Some?
    requires q < |p.queues| && Safety.Run(start, events) == Some(p.queues[q])
    ensures q < |Step(p, e).value.queues|
    ensures Safety.Run(start, events + Meaning(p.idle, p.running, e, q)) == Some(Step(p, e).value.queues[q])
  {
    hide Safety.Run, Q.Apply, Q.Enabled;
    var s, what := p.queues[q], Meaning(p.idle, p.running, e, q);
    StageOf(p, q);
    Safety.CountsHold(s);
    assert events + [] == events;
    match e
    case Request(value) =>
      if p.idle == [] {
        RequestExact(p, value, Worst(p.running));
        if what != [] {
          CancelIs(s, p, q);
          RunMore(start, events, Q.Cancel);
        }
      }
    case Acquire(value, now, canceled) =>
      AcquireExact(p, value, now, canceled);
      if p.idle[0] == q {
        StartRun(p, q, start, events, canceled);
      }
    case Inner(x, inner) =>
      if x == q {
        RunMore(start, events, inner);
      }
    case GiveBack(x) =>
  }

  lemma CancelIs(s: Q.State, p: Pool, q: nat)
    requires Inv(p) && Tokens(p) && q < |p.queues| && s == p.queues[q] && q in Ids(p.running)
    ensures Q.Enabled(s, Q.Cancel) && (Q.Counted(s) ==> Q.Apply(s, Q.Cancel) == s.(canceled := true))
  {
    StageOf(p, q);
  }

  lemma StartRun(p: Pool, q: nat, start: Q.State, events: seq<Q.Event>, canceled: bool)
    requires Inv(p) && q < |p.queues| && Safety.Run(start, events) == Some(p.queues[q])
    requires p.idle != [] && p.idle[0] == q
    ensures Q.Enabled(p.queues[q], Q.CheckIdle) && Q.Counted(p.queues[q])
    ensures var s := Q.Apply(p.queues[q], Q.CheckIdle);
            && Q.Enabled(s, Q.Begin(canceled)) && Q.Counted(s)
            && Safety.Run(start, events + [Q.CheckIdle, Q.Begin(canceled)]) == Some(Q.Apply(s, Q.Begin(canceled)))
  {
    hide Safety.Run;
    var s := p.queues[q];
    AcquireKeeps(p, 0, 0, canceled);
    StartAccepted(s, canceled);
    Safety.CountsHold(s);
    RunMore(start, events, Q.CheckIdle);
    RunMore(start, events + [Q.CheckIdle], Q.Begin(canceled));
    assert events + [Q.CheckIdle] + [Q.Begin(canceled)] == events + [Q.CheckIdle, Q.Begin(canceled)];
  }

  /** In every run of the pool, each queue is in the state that a queue reaches by its own events. */
  lemma {:induction false} QueueRuns(size: nat, workers: nat, batchSize: nat, events: seq<Event>, p: Pool, q: nat)
    requires q < size && Leads(Init(size, workers, batchSize), events, p)
    ensures Inv(p) && |p.queues| == size && Tokens(p)
    ensures Safety.Run(Q.Init(workers, batchSize), QueueEvents(size, events, q)) == Some(p.queues[q])
    decreases |events|
  {
    hide Inv, Tokens, Enabled, Step, Safety.Run, Meaning;
    RunLists(size, workers, batchSize, events, p);
    if events == [] {
      StartQueue(size, workers, batchSize, q);
    } else {
      var init, e := events[..|events| - 1], events[|events| - 1];
      var u := LeadsLast(Init(size, workers, batchSize), events, p);
      QueueRuns(size, workers, batchSize, init, u, q);
      RunLists(size, workers, batchSize, init, u);
      TokensKept(u, e);
      StepQueue(u, e, q, Q.Init(workers, batchSize), QueueEvents(size, init, q));
    }
  }

  lemma StartQueue(size: nat, workers: nat, batchSize: nat, q: nat)
    requires q < size
    ensures var p := Init(size, workers, batchSize);
            && Tokens(p) && q < |p.queues|
            && Safety.Run(Q.Init(workers, batchSize), []) == Some(p.queues[q])
  {
  }

  /**
   * The answer of a pooled checker: true only if every check added since the queue was handed
   * out was executed and passed, false only if one of them reported false, empty only if the
   * session was canceled, by its owner or by a more valuable request, or a check reported empty.
   */
  lemma PooledVerdict(size: nat, workers: nat, batchSize: nat, events: seq<Event>, p: Pool, q: nat)
    requires q < size && Leads(Init(size, workers, batchSize), events, p)
    requires q < |p.queues| && p.queues[q].threads != [] && p.queues[q].threads[Q.MASTER].Leaving?
    ensures var session := History.Session(QueueEvents(size, events, q));
            var result := p.queues[q].threads[Q.MASTER].result;
            && session != []
            && (result == Some(true) ==> History.AllRan(session))
            && (result == Some(false) ==> History.SomeRan(session, Some(false)))
            && (result == None ==> History.Canceled(session) || History.SomeRan(session, None))
  {
    hide Safety.Run, QueueEvents, Inv;
    QueueRuns(size, workers, batchSize, events, p, q);
    History.WaitVerdict(workers, batchSize, QueueEvents(size, events, q), p.queues[q]);
  }
}
