/**
 * The pool of script-check queues (src/checkqueuepool.h).  One step is one critical section
 * of the pool's lock or one step of one of its queues.  A step whose C++ code would throw or
 * fail an assertion has no successor state, and the theorems say that this never happens.
 */
module CheckQueuePool {
  import opened Wrappers
  import opened Sets
  import Q = CheckQueue
  import Safety = CheckQueueSafety

  /** CRunningChecker: the queue handed out, its priority, and when validation started. */
  datatype Running = Running(queue: nat, value: int, started: int)

  /** Where the holder of a queue is: it may still add checks, or its Wait() has returned. */
  datatype Handle = Open | Waited

  datatype Pool = Pool(
    queues: seq<Q.State>,
    idle: seq<nat>,
    running: seq<Running>,
    handles: map<nat, Handle>
  )

  datatype Event =
    | Request(value: int)                               // GetChecker up to the blocking wait
    | Acquire(value: int, now: int, canceled: bool)     // GetChecker once a queue is idle
    | Inner(queue: nat, event: Q.Event)                 // a step inside a queue
    | GiveBack(queue: nat)                              // ReturnQueueToPool

  function Ids(running: seq<Running>): (ids: seq<nat>)
    ensures |ids| == |running| && forall i :: 0 <= i < |ids| ==> ids[i] == running[i].queue
  {
    seq(|running|, i requires 0 <= i < |running| => running[i].queue)
  }

  function Init(size: nat, workers: nat, batchSize: nat): Pool {
    Pool(seq(size, _ => Q.Init(workers, batchSize)), seq(size, i => i), [], map[])
  }

  // ---------------------------------------------------------------------------
  // Choosing the checker to terminate
  // ---------------------------------------------------------------------------

  /** `a` has a strictly lower priority than `b`: lower value, or same value and running longer. */
  predicate Worse(a: Running, b: Running) {
    a.value < b.value || (a.value == b.value && a.started < b.started)
  }

  /** `w` is the first of the running checkers that no other is worse than. */
  ghost predicate IsWorst(running: seq<Running>, w: nat) {
    && w < |running|
    && (forall i :: 0 <= i < |running| ==> !Worse(running[i], running[w]))
    && (forall i :: 0 <= i < w ==> Worse(running[w], running[i]))
  }

  lemma WorstUnique(running: seq<Running>, a: nat, b: nat)
    requires IsWorst(running, a) && IsWorst(running, b)
    ensures a == b
  {
    assert !Worse(running[b], running[a]) && !Worse(running[a], running[b]);
  }

  function Worst(running: seq<Running>): (w: nat)
    requires running != []
    ensures IsWorst(running, w)
  {
    if |running| == 1 then 0
    else
      var n := |running| - 1;
      var w := Worst(running[..n]);
      assert forall i :: 0 <= i < n ==> running[..n][i] == running[i];
      if Worse(running[n], running[w]) then n else w
  }

  method FindWorst(running: seq<Running>) returns (worst: nat)
    requires running != []
    ensures worst == Worst(running)
  {
    worst := 0;
    var i := 1;
    while i < |running|
      invariant 1 <= i <= |running|
      invariant IsWorst(running[..i], worst)
    {
      if running[worst].value > running[i].value {
        worst := i;
      } else if running[worst].value == running[i].value
                && running[worst].started > running[i].started {
        worst := i;
      }
      i := i + 1;
    }
    assert running[..i] == running;
    WorstUnique(running, worst, Worst(running));
  }

  // ---------------------------------------------------------------------------
  // The steps
  // ---------------------------------------------------------------------------

  /** The session token of a queue is canceled (a token once canceled stays so). */
  function CancelQueue(p: Pool, q: nat): Pool
    requires q < |p.queues|
  {
    p.(queues := p.queues[q := p.queues[q].(canceled := true)])
  }

  predicate Enabled(p: Pool, e: Event) {
    match e
    case Request(_) => true
    case Acquire(_, _, _) => p.idle != []
    case Inner(q, e) =>
      && q < |p.queues| && Q.Enabled(p.queues[q], e)
      && !e.CheckIdle? && !e.Begin?
      && (e.Add? || e == Q.EnterLoop(Q.MASTER) ==> q in p.handles && p.handles[q] == Open)
    case GiveBack(q) => q in p.handles && p.handles[q] == Waited
  }

  function Position(running: seq<Running>, q: nat): (i: Option<nat>)
    ensures i.Some? <==> q in Ids(running)
    ensures i.Some? ==> i.value < |running| && running[i.value].queue == q
  {
    if running == [] then None
    else if running[0].queue == q then assert Ids(running)[0] == q; Some(0)
    else
      assert Ids(running) == [running[0].queue] + Ids(running[1..]);
      match Position(running[1..], q)
      case None => None
      case Some(i) => Some(i + 1)
  }

  /** GetChecker before it blocks: with no queue idle, cancel the worst checker if it is worth less. */
  function DoRequest(p: Pool, value: int): Option<Pool> {
    if p.idle != [] then Some(p)
    else if p.running == [] then None   // assert(mRunningCheckers.begin() != mRunningCheckers.end())
    else
      var worst := p.running[Worst(p.running)];
      if worst.value >= value then Some(p)
      else if worst.queue >= |p.queues| then None
      else Some(CancelQueue(p, worst.queue))
  }

  /** GetChecker after a queue became idle: pop it, register it and start a session on it. */
  function DoAcquire(p: Pool, value: int, now: int, canceled: bool): Option<Pool>
    requires p.idle != []
  {
    var q := p.idle[0];
    if q >= |p.queues| || !Q.Enabled(p.queues[q], Q.CheckIdle) || !Q.Counted(p.queues[q]) then
      None   // StartCheckingSession throws "Session already in progress!"
    else
      var s := Q.Apply(Q.Apply(p.queues[q], Q.CheckIdle), Q.Begin(canceled));
      Some(Pool(p.queues[q := s], p.idle[1..], p.running + [Running(q, value, now)], p.handles[q := Open]))
  }

  function DoGiveBack(p: Pool, q: nat): Option<Pool> {
    if q >= |p.queues| || !Q.IsIdle(p.queues[q]) then None   // assert(queue.IsIdle())
    else
      match Position(p.running, q)
      case None => None                                       // assert(found)
      case Some(i) =>
        Some(p.(idle := p.idle + [q], running := p.running[..i] + p.running[i + 1..], handles := p.handles - {q}))
  }

  /** The successor state, or `None` when an assertion fails or an exception is thrown. */
  function Step(p: Pool, e: Event): Option<Pool>
    requires Enabled(p, e)
  {
    match e
    case Request(value) => DoRequest(p, value)
    case Acquire(value, now, canceled) => DoAcquire(p, value, now, canceled)
    case Inner(q, e) =>
      if !Q.Counted(p.queues[q]) then None
      else
        var p' := p.(queues := p.queues[q := Q.Apply(p.queues[q], e)]);
        Some(if e.Return? then p'.(handles := p.handles[q := Waited]) else p')
    case GiveBack(q) => DoGiveBack(p, q)
  }

  // ---------------------------------------------------------------------------
  // The invariant
  // ---------------------------------------------------------------------------

  /** Every queue is in exactly one of the two lists, exactly once. */
  ghost predicate Partition(p: Pool) {
    && |p.idle| + |p.running| == |p.queues|
    && Distinct(p.idle + Ids(p.running))
    && (forall q :: q in p.idle + Ids(p.running) ==> q < |p.queues|)
  }

  /** The queue is between sessions: Wait() has returned or no session was ever opened. */
  ghost predicate AtRest(s: Q.State) {
    s.threads != [] && s.waitCalled && s.threads[Q.MASTER].Outside? && !s.starting
  }

  /** The handle's holder is adding checks or is inside Wait(). */
  ghost predicate InSession(s: Q.State) {
    && s.threads != [] && s.hasToken && !s.starting
    && (s.waitCalled <==> !s.threads[Q.MASTER].Outside?)
  }

  ghost predicate Inv(p: Pool) {
    && Partition(p)
    && (forall q :: 0 <= q < |p.queues| ==> Safety.Inv(p.queues[q]))
    && (forall q :: q in p.handles <==> q in Ids(p.running))
    && (forall q :: 0 <= q < |p.queues| && (q in p.handles ==> p.handles[q] == Waited) ==> AtRest(p.queues[q]))
    && (forall q :: q in p.handles && p.handles[q] == Open ==> q < |p.queues| && InSession(p.queues[q]))
  }

  lemma InitKeeps(size: nat, workers: nat, batchSize: nat)
    ensures Inv(Init(size, workers, batchSize))
  {
    var p := Init(size, workers, batchSize);
    Safety.InitKeeps(workers, batchSize);
    assert p.idle + Ids(p.running) == p.idle;
  }

  /** Replacing one queue's state by one in the same stage of its session. */
  lemma ReplaceKeeps(p: Pool, q: nat, s: Q.State)
    requires Inv(p) && q < |p.queues| && Safety.Inv(s)
    requires AtRest(p.queues[q]) ==> AtRest(s)
    requires InSession(p.queues[q]) ==> InSession(s)
    ensures Inv(p.(queues := p.queues[q := s]))
  {
    hide Safety.Inv, AtRest, InSession, Distinct, Ids;
  }

  lemma RequestKeeps(p: Pool, value: int)
    requires Inv(p) && p.queues != []
    ensures DoRequest(p, value).Some? && Inv(DoRequest(p, value).value)
  {
    if p.idle == [] {
      var w := Worst(p.running);
      var q := p.running[w].queue;
      assert Ids(p.running)[w] == q && q in p.idle + Ids(p.running);
      Safety.CancelKeeps(p.queues[q]);
      ReplaceKeeps(p, q, p.queues[q].(canceled := true));
    }
  }

  lemma AcquirePartition(p: Pool, r: Running)
    requires Partition(p) && p.idle != [] && r.queue == p.idle[0]
    ensures Partition(p.(idle := p.idle[1..], running := p.running + [r]))
    ensures r.queue < |p.queues| && r.queue !in Ids(p.running)
    ensures forall x :: x in Ids(p.running + [r]) <==> x in Ids(p.running) || x == r.queue
  {
    var all := p.idle + Ids(p.running);
    assert all[0] == r.queue && r.queue in all;
    assert Ids(p.running + [r]) == Ids(p.running) + [r.queue];
    assert p.idle[1..] + Ids(p.running + [r]) == all[1..] + [r.queue];
    assert forall x :: x in all[1..] + [r.queue] ==> x in all;
    forall i | 0 <= i < |p.running| ensures Ids(p.running)[i] != r.queue {
      assert all[|p.idle| + i] == Ids(p.running)[i];
    }
  }

  /** Starting a session on a queue at rest is always accepted. */
  lemma StartAccepted(s: Q.State, canceled: bool)
    requires Safety.Inv(s) && AtRest(s)
    ensures Q.Enabled(s, Q.CheckIdle)
    ensures var s' := Q.Apply(Q.Apply(s, Q.CheckIdle), Q.Begin(canceled)); Safety.Inv(s') && InSession(s')
  {
    Safety.IdleFromInv(s);
    Safety.StepKeeps(s, Q.CheckIdle);
    Safety.StepKeeps(Q.Apply(s, Q.CheckIdle), Q.Begin(canceled));
  }

  lemma AcquireKeeps(p: Pool, value: int, now: int, canceled: bool)
    requires Inv(p) && p.idle != []
    ensures DoAcquire(p, value, now, canceled).Some?
    ensures Inv(DoAcquire(p, value, now, canceled).value)
  {
    var q := p.idle[0];
    AcquirePartition(p, Running(q, value, now));
    StartAccepted(p.queues[q], canceled);
  }

  lemma InnerKeeps(p: Pool, q: nat, e: Q.Event)
    requires Inv(p) && Enabled(p, Inner(q, e))
    ensures Step(p, Inner(q, e)).Some? && Inv(Step(p, Inner(q, e)).value)
  {
    hide Inv, Safety.Inv, Q.Apply, Q.Counted, Q.Enabled, AtRest, InSession;
    var s := p.queues[q];
    StageOf(p, q);
    Safety.CountsHold(s);
    Safety.StepKeeps(s, e);
    if q in p.handles && p.handles[q] == Open {
      OpenStage(s, e);
      if e.Return? {
        CloseKeeps(p, q, Q.Apply(s, e));
      } else {
        ReplaceKeeps(p, q, Q.Apply(s, e));
      }
    } else {
      RestStage(s, e);
      ReplaceKeeps(p, q, Q.Apply(s, e));
    }
  }

  lemma StageOf(p: Pool, q: nat)
    requires Inv(p) && q < |p.queues|
    ensures Safety.Inv(p.queues[q])
    ensures if q in p.handles && p.handles[q] == Open then InSession(p.queues[q]) else AtRest(p.queues[q])
  {
    hide Partition, Safety.Inv, AtRest, InSession;
  }

  /** Wait() has returned: the queue is at rest and its handle may be given back. */
  lemma CloseKeeps(p: Pool, q: nat, s: Q.State)
    requires Inv(p) && q < |p.queues| && q in p.handles && Safety.Inv(s) && AtRest(s)
    ensures Inv(p.(queues := p.queues[q := s], handles := p.handles[q := Waited]))
  {
    hide Safety.Inv, AtRest, InSession, Distinct, Ids;
  }

  /** A step of an open session: only the return of Wait() ends it. */
  lemma OpenStage(s: Q.State, e: Q.Event)
    requires Safety.Inv(s) && InSession(s) && Q.Enabled(s, e) && Q.Counted(s) && !e.CheckIdle? && !e.Begin?
    ensures if e.Return? then AtRest(Q.Apply(s, e)) else InSession(Q.Apply(s, e))
    ensures !AtRest(s)
  {
    hide Safety.Inv;
  }

  /** Between sessions the workers' steps leave the queue at rest. */
  lemma RestStage(s: Q.State, e: Q.Event)
    requires Safety.Inv(s) && AtRest(s) && Q.Enabled(s, e) && Q.Counted(s) && !e.CheckIdle? && !e.Begin?
    requires !e.Add? && e != Q.EnterLoop(Q.MASTER)
    ensures AtRest(Q.Apply(s, e)) && !e.Return? && !InSession(s)
  {
    hide Safety.Inv;
  }

  lemma GiveBackPartition(p: Pool, i: nat)
    requires Partition(p) && i < |p.running|
    ensures var q := p.running[i].queue;
            var rest := p.running[..i] + p.running[i + 1..];
            && q < |p.queues|
            && Partition(p.(idle := p.idle + [q], running := rest))
            && forall x :: x in Ids(rest) <==> x in Ids(p.running) && x != q
  {
    var q := p.running[i].queue;
    var rest := p.running[..i] + p.running[i + 1..];
    var before, after := Ids(p.running)[..i], Ids(p.running)[i + 1..];
    assert Ids(p.running) == before + [q] + after && Ids(rest) == before + after;
    assert p.idle + Ids(p.running) == p.idle + before + [q] + after;
    assert (p.idle + [q]) + Ids(rest) == p.idle + [q] + before + after;
    MoveKeepsDistinct(p.idle, before, q, after);
    assert q in p.idle + before + [q] + after;
    NotAround(p.idle + before, q, after);
  }

  lemma NotAround(a: seq<nat>, x: nat, b: seq<nat>)
    requires Distinct(a + [x] + b)
    ensures x !in a && x !in b
  {
    var s := a + [x] + b;
    assert s[|a|] == x;
    assert forall i :: 0 <= i < |a| ==> s[i] == a[i];
    assert forall i :: 0 <= i < |b| ==> s[|a| + 1 + i] == b[i];
  }

  lemma GiveBackKeeps(p: Pool, q: nat)
    requires Inv(p) && Enabled(p, GiveBack(q))
    ensures DoGiveBack(p, q).Some? && Inv(DoGiveBack(p, q).value)
  {
    hide Distinct, Safety.Inv, AtRest, InSession, Q.IsIdle, Ids;
    var i := Position(p.running, q).value;
    GiveBackPartition(p, i);
    RestIsIdle(p.queues[q]);
  }

  lemma RestIsIdle(s: Q.State)
    requires Safety.Inv(s) && AtRest(s)
    ensures Q.IsIdle(s)
  {
    Safety.IdleFromInv(s);
  }

  lemma MoveKeepsDistinct(a: seq<nat>, b: seq<nat>, x: nat, c: seq<nat>)
    requires Distinct(a + b + [x] + c)
    ensures Distinct(a + [x] + b + c)
    ensures forall y :: y in a + [x] + b + c <==> y in a + b + [x] + c
  {
    var s, s' := a + b + [x] + c, a + [x] + b + c;
    forall i, j | 0 <= i < j < |s'| ensures s'[i] != s'[j] {
      assert s'[i] == s[Origin(|a|, |b|, i)] && s'[j] == s[Origin(|a|, |b|, j)];
    }
  }

  /** Where in a + b + [x] + c the element at index `i` of a + [x] + b + c comes from. */
  function Origin(a: nat, b: nat, i: nat): nat {
    if i < a then i else if i == a then a + b else if i <= a + b then i - 1 else i
  }

  /** No possible step of the pool throws or fails an assertion, and each keeps the invariant. */
  lemma StepKeeps(p: Pool, e: Event)
    requires Inv(p) && p.queues != [] && Enabled(p, e)
    ensures Step(p, e).Some? && Inv(Step(p, e).value) && |Step(p, e).value.queues| == |p.queues|
  {
    match e
    case Request(value) => RequestKeeps(p, value);
    case Acquire(value, now, canceled) => AcquireKeeps(p, value, now, canceled);
    case Inner(q, e) => InnerKeeps(p, q, e);
    case GiveBack(q) => GiveBackKeeps(p, q);
  }

  /** Every sequence of possible steps leads from `p` to `p'`. */
  ghost predicate Leads(p: Pool, events: seq<Event>, p': Pool)
    decreases |events|
  {
    if events == [] then p' == p
    else Enabled(p, events[0]) && Step(p, events[0]).Some? && Leads(Step(p, events[0]).value, events[1..], p')
  }

  lemma {:induction false} LeadsKeeps(p: Pool, events: seq<Event>, p': Pool)
    requires Inv(p) && p.queues != [] && Leads(p, events, p')
    ensures Inv(p') && |p'.queues| == |p.queues|
    decreases |events|
  {
    if events != [] {
      StepKeeps(p, events[0]);
      LeadsKeeps(Step(p, events[0]).value, events[1..], p');
    }
  }

  /**
   * In every state of every run of a non-empty pool: no possible step throws or fails an
   * assertion, and every queue is either idle or running, never both, and listed once.
   */
  lemma PoolSafe(size: nat, workers: nat, batchSize: nat, events: seq<Event>, p: Pool)
    requires size > 0 && Leads(Init(size, workers, batchSize), events, p)
    ensures forall e :: Enabled(p, e) ==> Step(p, e).Some?
    ensures |p.idle| + |p.running| == size == |p.queues|
    ensures forall q :: 0 <= q < size ==> ((q in p.idle) != (q in Ids(p.running)))
    ensures forall q :: q in p.idle ==> q < size && Q.IsIdle(p.queues[q])
  {
    InitKeeps(size, workers, batchSize);
    LeadsKeeps(Init(size, workers, batchSize), events, p);
    forall e | Enabled(p, e) ensures Step(p, e).Some? {
      StepKeeps(p, e);
    }
    var all := p.idle + Ids(p.running);
    forall q | q in p.idle ensures q !in Ids(p.running) && q < size && Q.IsIdle(p.queues[q]) {
      var i :| 0 <= i < |p.idle| && p.idle[i] == q;
      assert all[i] == q && q in all;
      forall j | 0 <= j < |p.running| ensures Ids(p.running)[j] != q {
        assert all[|p.idle| + j] == Ids(p.running)[j];
      }
      assert AtRest(p.queues[q]);
      Safety.IdleFromInv(p.queues[q]);
    }
    forall q | 0 <= q < size ensures q in p.idle || q in Ids(p.running) {
      Pigeonhole(all, size, q);
      assert q in all;
    }
  }

  /** A request disturbs at most one session: the worst one, and only for a more valuable one. */
  lemma RequestCancelsWorst(p: Pool, value: int, q: nat)
    requires Inv(p) && p.queues != [] && q < |p.queues|
    requires DoRequest(p, value).Some? && DoRequest(p, value).value.queues[q] != p.queues[q]
    ensures p.idle == []
    ensures exists w: nat :: IsWorst(p.running, w) && p.running[w].queue == q && p.running[w].value < value
    ensures DoRequest(p, value).value == CancelQueue(p, q)
  {
    var w := Worst(p.running);
    assert IsWorst(p.running, w);
  }
}
