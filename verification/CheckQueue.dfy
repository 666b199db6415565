/**
 * The script-check queue (src/checkqueue.h) as a system of atomic steps.
 *
 * One step is one critical section of the queue's mutex, one executed check, or one
 * action of the cancellation source.  A check is known by its ticket, its position in
 * the order in which the current session's checks were added.  Thread 0 is the master.
 */
module CheckQueue {
  import opened Wrappers

  /** What a check or a whole session reports; `None` means "validation was canceled". */
  type Verdict = Option<bool>

  const PASSED: Verdict := Some(true)

  const MASTER := 0

  datatype Phase =
    | Outside                                             // not counted in nTotal
    | Holding                                             // inside a critical section
    | Waiting                                             // in cond.wait, counted in nIdle
    | Working(batch: seq<nat>, next: nat, ok: Verdict)    // vChecks, loop position, fOk
    | Leaving(result: Verdict)                            // return value fixed, guard not yet run

  datatype State = State(
    batchSize: nat,
    queue: seq<nat>,
    idle: int,
    total: int,
    allOk: Verdict,
    todo: int,
    hasToken: bool,
    canceled: bool,
    waitCalled: bool,
    starting: bool,          // master is between IsIdle() and the session assignment
    notified: bool,          // a condMaster notification is pending
    threads: seq<Phase>,
    added: nat,              // tickets handed out in the current session
    ran: map<nat, Verdict>   // checks executed in the current session
  )

  function Init(workers: nat, batchSize: nat): State {
    State(batchSize, [], 0, 0, PASSED, 0, false, false, true, false, false,
          seq(workers + 1, _ => Outside), 0, map[])
  }

  predicate IsIdle(s: State) {
    s.total == s.idle && s.todo == 0
  }

  // ---------------------------------------------------------------------------
  // The steps
  // ---------------------------------------------------------------------------

  function Min(a: int, b: int): int { if a < b then a else b }

  function Max(a: int, b: int): int { if a < b then b else a }

  lemma QuotientAtMost(x: nat, d: int)
    requires d >= 1
    ensures x / d <= x
  {
    assert x == d * (x / d) + x % d;
  }

  /** How many queued checks a thread takes at once: some, and never more than there are. */
  function BatchLength(s: State): (n: nat)
    requires s.total >= 0 && s.idle >= 0 && s.queue != []
    ensures 1 <= n <= |s.queue| && n <= Max(1, s.batchSize)
  {
    QuotientAtMost(|s.queue|, s.total + s.idle + 1);
    Max(1, Min(s.batchSize, |s.queue| / (s.total + s.idle + 1)))
  }

  /**
   * A batch is as large as the batch size and a fair share allow: with every thread and one
   * more taking as many, the queue would suffice, unless it is a single check.
   */
  lemma BatchExact(s: State)
    requires s.total >= 0 && s.idle >= 0 && s.queue != []
    ensures var n, share := BatchLength(s), s.total + s.idle + 1;
            && (n > 1 ==> n <= s.batchSize && n * share <= |s.queue|)
            && (n >= s.batchSize || |s.queue| < (n + 1) * share)
  {
    ShareExact(|s.queue|, s.total + s.idle + 1);
  }

  lemma ShareExact(x: nat, d: int)
    requires d >= 1
    ensures (x / d) * d <= x < (x / d + 1) * d
    ensures x < d ==> x / d == 0
  {
    assert x == d * (x / d) + x % d;
  }

  /** The session verdict after merging the verdict of a finished batch. */
  function Merge(allOk: Verdict, ok: Verdict): Verdict {
    if allOk.Some? && ok.Some? then Some(allOk.value && ok.value) else None
  }

  /** The master found all work done: fix the result of Wait(). */
  function Leave(s: State): State
    requires |s.threads| > 0
  {
    var result := if s.canceled then None else s.allOk;
    s.(allOk := result, threads := s.threads[MASTER := Leaving(result)])
  }

  /** Nothing to do now: block on the condition variable. */
  function Sleep(s: State, t: nat): State
    requires t < |s.threads|
  {
    s.(idle := s.idle + 1,
       notified := if t == MASTER then false else s.notified,
       threads := s.threads[t := Waiting])
  }

  /** Move the first `n` queued checks into the thread's own batch. */
  function Take(s: State, t: nat, n: nat): State
    requires t < |s.threads| && n <= |s.queue|
  {
    s.(queue := s.queue[n..], threads := s.threads[t := Working(s.queue[..n], 0, s.allOk)])
  }

  /** The tail of the critical section. */
  function Dispatch(s: State, t: nat): State
    requires t < |s.threads| && s.total >= 0 && s.idle >= 0
  {
    if s.queue != [] then Take(s, t, BatchLength(s))
    else if t == MASTER && s.todo == 0 then Leave(s)
    else Sleep(s, t)
  }

  /** Clean-up after a batch: merge the verdict, account for it, drain if canceled. */
  function Cleanup(s: State, t: nat): State
    requires t < |s.threads| && s.threads[t].Working?
  {
    var p := s.threads[t];
    var left := s.todo - |p.batch|;
    var todo := if s.canceled then left - |s.queue| else left;
    s.(allOk := Merge(s.allOk, p.ok),
       todo := todo,
       queue := if s.canceled then [] else s.queue,
       notified := s.notified || (todo == 0 && t != MASTER && s.threads[MASTER].Waiting?),
       threads := s.threads[t := Holding])
  }

  function Enter(s: State, t: nat): State
    requires t < |s.threads|
  {
    s.(total := s.total + 1,
       waitCalled := s.waitCalled || t == MASTER,
       threads := s.threads[t := Holding])
  }

  function Rise(s: State, t: nat): State
    requires t < |s.threads|
  {
    s.(idle := s.idle - 1,
       notified := if t == MASTER then false else s.notified,
       threads := s.threads[t := Holding])
  }

  datatype Event =
    | CheckIdle                          // StartCheckingSession: IsIdle() answered true
    | Begin(canceled: bool)              // StartCheckingSession: install token, reset verdict
    | Add(count: nat)
    | EnterLoop(thread: nat)             // a worker starts, or the master calls Wait()
    | Execute(thread: nat, check: nat, result: Verdict)
    | Finish(thread: nat)
    | WakeUp(thread: nat)                // notified or spurious
    | Return                             // the master's scope guard runs, Wait() returns
    | Cancel

  /** The master is not inside a call. */
  predicate MasterFree(s: State) {
    |s.threads| > 0 && s.threads[MASTER].Outside? && !s.starting
  }

  predicate Enabled(s: State, e: Event) {
    && |s.threads| > 0
    && match e
       case CheckIdle => MasterFree(s) && s.waitCalled && IsIdle(s)
       case Begin(_) => s.starting
       case Add(_) => MasterFree(s) && s.hasToken && !s.waitCalled
       case EnterLoop(t) =>
         t < |s.threads| && s.threads[t].Outside? && (t == MASTER ==> s.hasToken && !s.starting)
       case Execute(t, k, _) =>
         t < |s.threads| && s.threads[t].Working? && s.threads[t].next < |s.threads[t].batch|
         && k == s.threads[t].batch[s.threads[t].next] && s.threads[t].ok == PASSED && !s.canceled
       case Finish(t) =>
         t < |s.threads| && s.threads[t].Working?
         && (s.threads[t].next >= |s.threads[t].batch| || s.threads[t].ok != PASSED || s.canceled)
       case WakeUp(t) => t < |s.threads| && s.threads[t].Waiting?
       case Return => s.threads[MASTER].Leaving?
       case Cancel => s.hasToken
  }

  /** nIdle and nTotal count the sleeping threads and the threads inside Loop. */
  predicate Counted(s: State) {
    s.idle == Total(Asleep, s.threads) && s.total == Total(Inside, s.threads)
  }

  function Apply(s: State, e: Event): (s': State)
    requires Enabled(s, e) && Counted(s)
    ensures |s'.threads| == |s.threads|
  {
    match e
    case CheckIdle => s.(starting := true)
    case Begin(c) =>
      s.(hasToken := true, canceled := c, allOk := PASSED, waitCalled := false,
         starting := false, added := 0, ran := map[])
    case Add(n) =>
      s.(queue := s.queue + seq(n, i requires 0 <= i => s.added + i),
         todo := s.todo + n, added := s.added + n)
    case EnterLoop(t) => Dispatch(Enter(s, t), t)
    case Execute(t, k, r) =>
      var p := s.threads[t];
      s.(ran := s.ran[k := r],
         threads := s.threads[t := Working(p.batch, p.next + 1, r)])
    case Finish(t) => Dispatch(Cleanup(s, t), t)
    case WakeUp(t) => TotalAtLeast(Asleep, s.threads, t); Dispatch(Rise(s, t), t)
    case Return => s.(total := s.total - 1, threads := s.threads[MASTER := Outside])
    case Cancel => s.(canceled := true)
  }

  // ---------------------------------------------------------------------------
  // Counting over threads
  // ---------------------------------------------------------------------------

  datatype Measure = Inside | Asleep | InFlight | Unexecuted

  function Weight(m: Measure, p: Phase): nat {
    match m
    case Inside => if p.Outside? then 0 else 1
    case Asleep => if p.Waiting? then 1 else 0
    case InFlight => if p.Working? then |p.batch| else 0
    case Unexecuted => if p.Working? && p.next <= |p.batch| then |p.batch| - p.next else 0
  }

  function Total(m: Measure, ts: seq<Phase>): nat {
    if ts == [] then 0 else Weight(m, ts[0]) + Total(m, ts[1..])
  }

  lemma {:induction false} TotalUpdate(m: Measure, ts: seq<Phase>, t: nat, p: Phase)
    requires t < |ts|
    ensures Total(m, ts[t := p]) == Total(m, ts) - Weight(m, ts[t]) + Weight(m, p)
  {
    if t == 0 {
      assert ts[t := p][1..] == ts[1..];
    } else {
      assert ts[t := p][1..] == ts[1..][t - 1 := p];
      TotalUpdate(m, ts[1..], t - 1, p);
    }
  }

  lemma {:induction false} TotalAtLeast(m: Measure, ts: seq<Phase>, t: nat)
    requires t < |ts|
    ensures Weight(m, ts[t]) <= Total(m, ts)
  {
    if t > 0 {
      TotalAtLeast(m, ts[1..], t - 1);
    }
  }

  lemma {:induction false} TotalWitness(m: Measure, ts: seq<Phase>) returns (t: nat)
    requires Total(m, ts) > 0
    ensures t < |ts| && Weight(m, ts[t]) > 0
  {
    if Weight(m, ts[0]) > 0 {
      t := 0;
    } else {
      t := TotalWitness(m, ts[1..]);
      t := t + 1;
    }
  }

  lemma {:induction false} TotalAtRest(ts: seq<Phase>)
    requires forall t :: 0 <= t < |ts| ==> ts[t].Outside? || ts[t].Waiting?
    ensures Total(Inside, ts) == Total(Asleep, ts) && Total(InFlight, ts) == 0
  {
    if ts != [] {
      TotalAtRest(ts[1..]);
    }
  }

  lemma {:induction false} TotalAllOutside(m: Measure, ts: seq<Phase>)
    requires forall t :: 0 <= t < |ts| ==> ts[t].Outside?
    ensures Total(m, ts) == 0
  {
    if ts != [] {
      TotalAllOutside(m, ts[1..]);
    }
  }
}
