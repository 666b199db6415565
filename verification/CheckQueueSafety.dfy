/**
 * Safety of the script-check queue over every interleaving of the master, the workers and
 * a cancellation source that never takes a cancellation back.
 */
module CheckQueueSafety {
  import opened Wrappers
  import opened CheckQueue
  import opened Sets

  // ---------------------------------------------------------------------------
  // Runs
  // ---------------------------------------------------------------------------

  /** The state reached by a sequence of events, if every event was possible when it occurred. */
  ghost function Run(s: State, events: seq<Event>): Option<State>
    decreases |events|
  {
    if events == [] then Some(s)
    else if !Enabled(s, events[0]) || !Counted(s) then None
    else Run(Apply(s, events[0]), events[1..])
  }

  // ---------------------------------------------------------------------------
  // The invariant
  // ---------------------------------------------------------------------------

  /** The tickets a thread has taken from the queue and not yet given back. */
  function Held(p: Phase): seq<nat> {
    if p.Working? then p.batch else []
  }

  ghost predicate Disjoint(a: seq<nat>, b: seq<nat>) {
    forall x :: x in a ==> x !in b
  }

  /** nTodo is exactly what is queued or held by a thread. */
  predicate Accounted(s: State) {
    Counted(s) && s.todo == |s.queue| + Total(InFlight, s.threads)
  }

  /** A batch is a non-empty list of different tickets whose first `next` have been executed. */
  ghost predicate BatchOk(s: State, p: Phase) {
    p.Working? ==>
      && p.batch != [] && p.next <= |p.batch| && Distinct(p.batch)
      && (forall i :: 0 <= i < |p.batch| ==> p.batch[i] < s.added)
      && (forall i :: 0 <= i < p.next ==> p.batch[i] in s.ran)
      && (forall i :: p.next <= i < |p.batch| ==> p.batch[i] !in s.ran)
      && (p.ok == PASSED ==> forall i :: 0 <= i < p.next ==> s.ran[p.batch[i]] == PASSED)
  }

  ghost predicate QueueOk(s: State) {
    && Distinct(s.queue)
    && (forall i :: 0 <= i < |s.queue| ==> s.queue[i] < s.added && s.queue[i] !in s.ran)
    && (forall k :: k in s.ran ==> k < s.added)
  }

  ghost predicate BatchesOk(s: State) {
    forall t :: 0 <= t < |s.threads| ==> BatchOk(s, s.threads[t]) && Disjoint(s.queue, Held(s.threads[t]))
  }

  ghost predicate Separate(ts: seq<Phase>) {
    forall t, u :: 0 <= t < u < |ts| ==> Disjoint(Held(ts[t]), Held(ts[u]))
  }

  /** Every ticket is queued at most once, held by at most one thread, and never both. */
  ghost predicate Owned(s: State) {
    QueueOk(s) && BatchesOk(s) && Separate(s.threads)
  }

  /** Some executed check of the session reported `v`. */
  ghost predicate Reported(s: State, v: Verdict) {
    exists k :: k in s.ran && s.ran[k] == v
  }

  /** A verdict other than "passed" always has a cause. */
  ghost predicate Justified(s: State, v: Verdict) {
    && (v == Some(false) ==> Reported(s, v))
    && (v == None ==> s.canceled || Reported(s, v))
  }

  ghost predicate Pending(s: State, k: nat) {
    k in s.queue || exists t :: 0 <= t < |s.threads| && k in Held(s.threads[t])
  }

  /** While the session verdict is "passed", every ticket is pending, passed or drained. */
  ghost predicate Sound(s: State) {
    && Justified(s, s.allOk)
    && (forall t :: 0 <= t < |s.threads| && s.threads[t].Working? ==> Justified(s, s.threads[t].ok))
    && (s.allOk == PASSED && !s.canceled ==>
          forall k :: 0 <= k < s.added ==> Pending(s, k) || (k in s.ran && s.ran[k] == PASSED))
  }

  /** What Wait() is about to return is right about the checks of the session. */
  ghost predicate ResultOk(s: State, r: Verdict) {
    && Justified(s, r)
    && (r == PASSED ==> AllPassed(s))
  }

  ghost predicate AllPassed(s: State) {
    forall k :: 0 <= k < s.added ==> k in s.ran && s.ran[k] == PASSED
  }

  /** The master's protocol: sessions, Add and Wait alternate, and Wait leaves nothing behind. */
  ghost predicate Protocol(s: State) {
    && |s.threads| > 0
    && (forall t :: 0 < t < |s.threads| ==> !s.threads[t].Leaving?)
    && (!s.threads[MASTER].Outside? ==> s.waitCalled && s.hasToken && !s.starting)
    && (s.threads[MASTER].Leaving? ==>
          s.todo == 0 && s.threads[MASTER].result == s.allOk && ResultOk(s, s.allOk))
    && (s.waitCalled && s.threads[MASTER].Outside? ==> s.todo == 0)
    && (s.starting ==> s.waitCalled)
    && (s.threads[MASTER].Waiting? ==> s.queue == [] && (s.todo == 0 ==> s.notified))
    && (s.todo > 0 ==> s.hasToken)
    && (!s.waitCalled ==> s.hasToken)
  }

  ghost predicate Released(s: State) {
    forall t :: 0 <= t < |s.threads| ==> !s.threads[t].Holding?
  }

  ghost predicate Inv(s: State) {
    Accounted(s) && Owned(s) && Sound(s) && Protocol(s) && Released(s)
  }

  /** The invariant while thread `t` is inside its critical section. */
  ghost predicate InvHolding(s: State, t: nat) {
    && Accounted(s) && Owned(s) && Sound(s) && Protocol(s)
    && t < |s.threads| && s.threads[t].Holding?
    && (forall u :: 0 <= u < |s.threads| && u != t ==> !s.threads[u].Holding?)
  }

  // ---------------------------------------------------------------------------
  // Entering and leaving the critical section
  // ---------------------------------------------------------------------------

  lemma NothingHeld(s: State)
    requires Accounted(s) && Owned(s) && s.todo == 0
    ensures s.queue == []
    ensures forall t :: 0 <= t < |s.threads| ==> !s.threads[t].Working?
  {
    forall t | 0 <= t < |s.threads| ensures !s.threads[t].Working? {
      TotalAtLeast(InFlight, s.threads, t);
      assert BatchOk(s, s.threads[t]);
    }
  }

  lemma LeaveKeeps(s: State)
    requires InvHolding(s, MASTER) && s.todo == 0
    ensures Inv(Leave(s))
  {
    var s' := Leave(s);
    NothingHeld(s);
    TotalUpdate(Inside, s.threads, MASTER, s'.threads[MASTER]);
    TotalUpdate(Asleep, s.threads, MASTER, s'.threads[MASTER]);
    TotalUpdate(InFlight, s.threads, MASTER, s'.threads[MASTER]);
    assert forall u :: 0 <= u < |s.threads| ==> Held(s.threads[u]) == [];
    assert forall k :: !Pending(s, k);
  }

  lemma SeparateUpdate(ts: seq<Phase>, t: nat, p: Phase)
    requires t < |ts| && Separate(ts)
    requires forall u :: 0 <= u < |ts| && u != t ==> Disjoint(Held(p), Held(ts[u]))
    ensures Separate(ts[t := p])
  {
    var ts' := ts[t := p];
    forall u, v | 0 <= u < v < |ts'| ensures Disjoint(Held(ts'[u]), Held(ts'[v])) {
      if u == t {
        assert ts'[v] == ts[v];
      } else if v == t {
        assert ts'[u] == ts[u] && Disjoint(Held(p), Held(ts[u]));
      } else {
        assert ts'[u] == ts[u] && ts'[v] == ts[v];
      }
    }
  }

  /** A thread that holds no batch before and after a step does not matter to ownership. */
  lemma OwnedFrame(s: State, s': State, t: nat)
    requires Owned(s) && t < |s.threads| && !s.threads[t].Working?
    requires s'.queue == s.queue && s'.ran == s.ran && s'.added == s.added
    requires exists p: Phase :: !p.Working? && s'.threads == s.threads[t := p]
    ensures Owned(s')
    ensures forall k :: Pending(s, k) ==> Pending(s', k)
  {
    var p: Phase :| !p.Working? && s'.threads == s.threads[t := p];
    SeparateUpdate(s.threads, t, p);
    forall u | 0 <= u < |s.threads|
      ensures BatchOk(s', s'.threads[u]) && Held(s'.threads[u]) == Held(s.threads[u])
    {
      assert BatchOk(s, s.threads[u]);
    }
    SamePending(s, s');
  }

  lemma SleepKeeps(s: State, t: nat)
    requires InvHolding(s, t) && s.queue == [] && (t == MASTER ==> s.todo != 0)
    ensures Inv(Sleep(s, t))
  {
    TotalUpdate(Inside, s.threads, t, Waiting);
    TotalUpdate(Asleep, s.threads, t, Waiting);
    TotalUpdate(InFlight, s.threads, t, Waiting);
    OwnedFrame(s, Sleep(s, t), t);
  }

  /** Pending tickets depend only on the queue and on what the threads hold. */
  lemma SamePending(s: State, s': State)
    requires s'.queue == s.queue && |s'.threads| == |s.threads|
    requires forall u :: 0 <= u < |s.threads| ==> Held(s.threads[u]) == Held(s'.threads[u])
    ensures forall k :: Pending(s, k) ==> Pending(s', k)
  {
    forall k | Pending(s, k) && k !in s.queue ensures Pending(s', k) {
      var u :| 0 <= u < |s.threads| && k in Held(s.threads[u]);
      assert k in Held(s'.threads[u]);
    }
  }

  lemma TakeOwned(s: State, t: nat, n: nat)
    requires Owned(s) && t < |s.threads| && s.threads[t].Holding? && 0 < n <= |s.queue|
    ensures Owned(Take(s, t, n))
  {
    var s' := Take(s, t, n);
    var p := s'.threads[t];
    assert s.queue == p.batch + s'.queue;
    assert forall x :: x in p.batch || x in s'.queue ==> x in s.queue;
    forall u | 0 <= u < |s.threads| && u != t
      ensures Disjoint(p.batch, Held(s.threads[u]))
      ensures BatchOk(s', s.threads[u]) && Disjoint(s'.queue, Held(s.threads[u]))
    {
      assert BatchOk(s, s.threads[u]) && Disjoint(s.queue, Held(s.threads[u]));
    }
    SeparateUpdate(s.threads, t, p);
    assert BatchOk(s', p) && Disjoint(s'.queue, p.batch);
  }

  lemma TakeSound(s: State, t: nat, n: nat)
    requires Sound(s) && t < |s.threads| && s.threads[t].Holding? && 0 < n <= |s.queue|
    ensures Sound(Take(s, t, n))
  {
    var s' := Take(s, t, n);
    forall k | Pending(s, k) ensures Pending(s', k) {
      if k in s.queue {
        assert s.queue == s'.threads[t].batch + s'.queue;
        assert k in s'.queue || k in Held(s'.threads[t]);
      } else {
        var u :| 0 <= u < |s.threads| && k in Held(s.threads[u]);
        assert k in Held(s'.threads[u]);
      }
    }
  }

  lemma TakeKeeps(s: State, t: nat, n: nat)
    requires InvHolding(s, t) && 0 < n <= |s.queue|
    ensures Inv(Take(s, t, n))
  {
    var p := Take(s, t, n).threads[t];
    TotalUpdate(Inside, s.threads, t, p);
    TotalUpdate(Asleep, s.threads, t, p);
    TotalUpdate(InFlight, s.threads, t, p);
    TakeOwned(s, t, n);
    TakeSound(s, t, n);
  }

  lemma DispatchKeeps(s: State, t: nat)
    requires InvHolding(s, t)
    ensures Inv(Dispatch(s, t))
  {
    if s.queue != [] {
      TakeKeeps(s, t, BatchLength(s));
    } else if t == MASTER && s.todo == 0 {
      LeaveKeeps(s);
    } else {
      SleepKeeps(s, t);
    }
  }

  lemma EnterKeeps(s: State, t: nat)
    requires Inv(s) && Enabled(s, EnterLoop(t))
    ensures InvHolding(Enter(s, t), t)
  {
    TotalUpdate(Inside, s.threads, t, Holding);
    TotalUpdate(Asleep, s.threads, t, Holding);
    TotalUpdate(InFlight, s.threads, t, Holding);
    OwnedFrame(s, Enter(s, t), t);
  }

  lemma RiseKeeps(s: State, t: nat)
    requires Inv(s) && Enabled(s, WakeUp(t))
    ensures InvHolding(Rise(s, t), t)
  {
    TotalUpdate(Inside, s.threads, t, Holding);
    TotalUpdate(Asleep, s.threads, t, Holding);
    TotalUpdate(InFlight, s.threads, t, Holding);
    OwnedFrame(s, Rise(s, t), t);
  }

  lemma CleanupOwned(s: State, t: nat)
    requires Owned(s) && t < |s.threads| && s.threads[t].Working?
    ensures Owned(Cleanup(s, t))
  {
    var s' := Cleanup(s, t);
    SeparateUpdate(s.threads, t, Holding);
    forall u | 0 <= u < |s.threads|
      ensures BatchOk(s', s'.threads[u]) && Disjoint(s'.queue, Held(s'.threads[u]))
    {
      assert BatchOk(s, s.threads[u]) && Disjoint(s.queue, Held(s.threads[u]));
    }
  }

  /** A batch that reports "passed" in a session that was not canceled ran to its end. */
  lemma CleanupSound(s: State, t: nat)
    requires Owned(s) && Sound(s) && Enabled(s, Finish(t))
    ensures Sound(Cleanup(s, t))
  {
    var s' := Cleanup(s, t);
    var p := s.threads[t];
    assert BatchOk(s, p);
    if s'.allOk == PASSED && !s.canceled {
      assert s.allOk == PASSED && p.ok == PASSED && p.next == |p.batch|;
      forall k | 0 <= k < s.added ensures Pending(s', k) || (k in s.ran && s.ran[k] == PASSED) {
        if Pending(s, k) && k !in s.queue {
          var u :| 0 <= u < |s.threads| && k in Held(s.threads[u]);
          if u == t {
            assert k in p.batch;
          } else {
            assert k in Held(s'.threads[u]);
          }
        }
      }
    }
  }

  lemma CleanupKeeps(s: State, t: nat)
    requires Inv(s) && Enabled(s, Finish(t))
    ensures InvHolding(Cleanup(s, t), t)
  {
    var s' := Cleanup(s, t);
    TotalUpdate(Inside, s.threads, t, Holding);
    TotalUpdate(Asleep, s.threads, t, Holding);
    TotalUpdate(InFlight, s.threads, t, Holding);
    CleanupOwned(s, t);
    CleanupSound(s, t);
    TotalAtLeast(InFlight, s.threads, t);
    assert BatchOk(s, s.threads[t]);
  }

  lemma ExecuteOwned(s: State, t: nat, k: nat, r: Verdict)
    requires Owned(s) && Counted(s) && Enabled(s, Execute(t, k, r))
    ensures Owned(Apply(s, Execute(t, k, r)))
    ensures k !in s.ran
  {
    var s' := Apply(s, Execute(t, k, r));
    var p, p' := s.threads[t], s'.threads[t];
    assert BatchOk(s, p) && Disjoint(s.queue, Held(p));
    assert k in Held(p);
    SeparateUpdate(s.threads, t, p') by {
      forall u | 0 <= u < |s.threads| && u != t ensures Disjoint(Held(p'), Held(s.threads[u])) {
        HeldApart(s, t, u);
      }
    }
    forall u | 0 <= u < |s.threads| && u != t ensures BatchOk(s', s'.threads[u]) {
      assert BatchOk(s, s.threads[u]);
      HeldApart(s, t, u);
      assert k !in Held(s.threads[u]);
    }
    assert BatchOk(s', p');
  }

  lemma HeldApart(s: State, t: nat, u: nat)
    requires Separate(s.threads) && t < |s.threads| && u < |s.threads| && t != u
    ensures Disjoint(Held(s.threads[t]), Held(s.threads[u]))
  {
    if u < t {
      assert Disjoint(Held(s.threads[u]), Held(s.threads[t]));
    }
  }

  lemma ExecuteSound(s: State, t: nat, k: nat, r: Verdict)
    requires Owned(s) && Counted(s) && Sound(s) && Enabled(s, Execute(t, k, r))
    ensures Sound(Apply(s, Execute(t, k, r)))
  {
    var s' := Apply(s, Execute(t, k, r));
    assert BatchOk(s, s.threads[t]);
    assert k !in s.ran;
    hide Owned, QueueOk, BatchesOk, BatchOk, Separate, Counted;
    assert s'.ran[k] == r && Reported(s', r);
    forall v | Reported(s, v) ensures Reported(s', v) {
      var j :| j in s.ran && s.ran[j] == v;
      assert j in s'.ran && s'.ran[j] == v;
    }
    assert forall u :: 0 <= u < |s.threads| ==> Held(s.threads[u]) == Held(s'.threads[u]);
    SamePending(s, s');
  }

  lemma ExecuteKeeps(s: State, t: nat, k: nat, r: Verdict)
    requires Inv(s) && Enabled(s, Execute(t, k, r))
    ensures Inv(Apply(s, Execute(t, k, r)))
  {
    var p' := Apply(s, Execute(t, k, r)).threads[t];
    TotalUpdate(Inside, s.threads, t, p');
    TotalUpdate(Asleep, s.threads, t, p');
    TotalUpdate(InFlight, s.threads, t, p');
    ExecuteOwned(s, t, k, r);
    ExecuteSound(s, t, k, r);
    assert BatchOk(s, s.threads[t]);
    TotalAtLeast(InFlight, s.threads, t);
  }

  lemma AddKeeps(s: State, n: nat)
    requires Inv(s) && Enabled(s, Add(n))
    ensures Inv(Apply(s, Add(n)))
  {
    var s' := Apply(s, Add(n));
    forall u | 0 <= u < |s.threads|
      ensures BatchOk(s', s'.threads[u]) && Disjoint(s'.queue, Held(s'.threads[u]))
    {
      assert BatchOk(s, s.threads[u]) && Disjoint(s.queue, Held(s.threads[u]));
    }
    forall k: nat | Pending(s, k) || s.added <= k < s'.added ensures Pending(s', k) {
      if k >= s.added {
        assert k < s'.added ==> s'.queue[|s.queue| + k - s.added] == k;
      }
    }
  }

  lemma BeginKeeps(s: State, c: bool)
    requires Inv(s) && Enabled(s, Begin(c))
    ensures Inv(Apply(s, Begin(c)))
    ensures forall t :: 0 <= t < |s.threads| ==> !s.threads[t].Working?
  {
    NothingHeld(s);
  }

  lemma ReturnKeeps(s: State)
    requires Inv(s) && Enabled(s, Return)
    ensures Inv(Apply(s, Return))
  {
    TotalUpdate(Inside, s.threads, MASTER, Outside);
    TotalUpdate(Asleep, s.threads, MASTER, Outside);
    TotalUpdate(InFlight, s.threads, MASTER, Outside);
    OwnedFrame(s, Apply(s, Return), MASTER);
  }

  lemma CancelKeeps(s: State)
    requires Inv(s)
    ensures Inv(s.(canceled := true))
  {
  }

  lemma StepKeeps(s: State, e: Event)
    requires Inv(s) && Enabled(s, e)
    ensures Inv(Apply(s, e))
  {
    hide Inv, InvHolding, Total, IsIdle;
    CountsHold(s);
    match e
    case CheckIdle => IdleSeenKeeps(s);
    case Begin(c) => BeginKeeps(s, c);
    case Add(n) => AddKeeps(s, n);
    case EnterLoop(t) => EnterKeeps(s, t); DispatchKeeps(Enter(s, t), t);
    case Execute(t, k, r) => ExecuteKeeps(s, t, k, r);
    case Finish(t) => CleanupKeeps(s, t); DispatchKeeps(Cleanup(s, t), t);
    case WakeUp(t) => RiseKeeps(s, t); DispatchKeeps(Rise(s, t), t);
    case Return => ReturnKeeps(s);
    case Cancel => CancelKeeps(s);
  }

  lemma CountsHold(s: State)
    requires Inv(s)
    ensures Counted(s)
  {
  }

  lemma IdleSeenKeeps(s: State)
    requires Inv(s) && Enabled(s, CheckIdle)
    ensures Inv(s.(starting := true))
  {
  }

  // ---------------------------------------------------------------------------
  // Theorems over every run
  // ---------------------------------------------------------------------------

  lemma InitKeeps(workers: nat, batchSize: nat)
    ensures Inv(Init(workers, batchSize))
  {
    var s := Init(workers, batchSize);
    TotalAllOutside(Inside, s.threads);
    TotalAllOutside(Asleep, s.threads);
    TotalAllOutside(InFlight, s.threads);
  }

  lemma {:induction false} RunKeeps(s: State, events: seq<Event>)
    requires Inv(s)
    ensures Run(s, events).Some? ==> Inv(Run(s, events).value)
    decreases |events|
  {
    if events != [] && Enabled(s, events[0]) {
      StepKeeps(s, events[0]);
      RunKeeps(Apply(s, events[0]), events[1..]);
    }
  }

  /** `s` occurs in some run of a queue with the given number of workers. */
  ghost predicate Reachable(workers: nat, batchSize: nat, s: State) {
    exists events :: Run(Init(workers, batchSize), events) == Some(s)
  }

  lemma ReachableInv(workers: nat, batchSize: nat, s: State)
    requires Reachable(workers, batchSize, s)
    ensures Inv(s)
  {
    var events :| Run(Init(workers, batchSize), events) == Some(s);
    InitKeeps(workers, batchSize);
    RunKeeps(Init(workers, batchSize), events);
  }

  /**
   * Once Wait() has returned nothing of the session is left: the queue is idle, so the next
   * StartCheckingSession is accepted and the pool may take the queue back.
   */
  lemma IdleOnceWaited(workers: nat, batchSize: nat, s: State)
    requires Reachable(workers, batchSize, s) && s.threads != []
    requires s.waitCalled && s.threads[MASTER].Outside?
    ensures IsIdle(s) && s.queue == []
    ensures forall t :: 0 <= t < |s.threads| ==> s.threads[t].Outside? || s.threads[t].Waiting?
  {
    ReachableInv(workers, batchSize, s);
    IdleFromInv(s);
  }

  lemma IdleFromInv(s: State)
    requires Inv(s) && s.waitCalled && s.threads[MASTER].Outside?
    ensures IsIdle(s) && s.queue == []
    ensures forall t :: 0 <= t < |s.threads| ==> s.threads[t].Outside? || s.threads[t].Waiting?
  {
    NothingHeld(s);
    TotalAtRest(s.threads);
  }

  /** nTotal - nIdle counts the threads that hold a batch or are leaving. */
  lemma {:induction false} BusyCount(ts: seq<Phase>)
    requires forall t :: 0 <= t < |ts| ==> !ts[t].Holding?
    ensures Total(Inside, ts) - Total(Asleep, ts) == Busy(ts)
  {
    if ts != [] {
      BusyCount(ts[1..]);
    }
  }

  function Busy(ts: seq<Phase>): nat {
    if ts == [] then 0
    else (if ts[0].Working? || ts[0].Leaving? then 1 else 0) + Busy(ts[1..])
  }

  lemma CountersExact(workers: nat, batchSize: nat, s: State)
    requires Reachable(workers, batchSize, s)
    ensures s.total - s.idle == Busy(s.threads)
    ensures s.todo == |s.queue| + Total(InFlight, s.threads) >= 0
  {
    ReachableInv(workers, batchSize, s);
    BusyCount(s.threads);
  }

  /** A batch that finishes in a canceled session drains the queue; only batches in flight are left. */
  lemma CancelDrains(workers: nat, batchSize: nat, s: State, t: nat)
    requires Reachable(workers, batchSize, s) && Enabled(s, Finish(t)) && Counted(s) && s.canceled
    ensures var s' := Apply(s, Finish(t)); s'.queue == [] && s'.todo == Total(InFlight, s'.threads)
  {
    ReachableInv(workers, batchSize, s);
    StepKeeps(s, Finish(t));
  }

  /** A step that the master or a worker can take without being woken spuriously. */
  ghost predicate CanMove(s: State, e: Event) {
    Enabled(s, e) && (e.Execute? || e.Finish? || e.Return? || (e == WakeUp(MASTER) && s.notified))
  }

  /** A master inside Wait() is never stuck: it or a busy worker can always take a step. */
  lemma WaitNeverStuck(workers: nat, batchSize: nat, s: State)
    requires Reachable(workers, batchSize, s) && s.threads != [] && !s.threads[MASTER].Outside?
    ensures exists e :: CanMove(s, e)
    ensures s.threads[MASTER].Waiting? && s.todo > 0 ==>
              exists t :: 0 < t < |s.threads| && s.threads[t].Working?
  {
    ReachableInv(workers, batchSize, s);
    var t := MASTER;
    if s.threads[MASTER].Leaving? {
      assert CanMove(s, Return);
    } else if s.threads[MASTER].Waiting? && s.todo == 0 {
      assert CanMove(s, WakeUp(MASTER));
    } else {
      if s.threads[MASTER].Waiting? {
        t := TotalWitness(InFlight, s.threads);
      }
      assert s.threads[t].Working?;
      assert BatchOk(s, s.threads[t]);
      if !CanMove(s, Finish(t)) {
        assert CanMove(s, Execute(t, s.threads[t].batch[s.threads[t].next], PASSED));
      }
    }
  }

  /** Work left in a session: unfinished checks, and among them the unexecuted ones. */
  function Remaining(s: State): int {
    s.todo + |s.queue| + Total(Unexecuted, s.threads)
  }

  lemma TakeRemaining(s: State, t: nat, n: nat)
    requires t < |s.threads| && s.threads[t].Holding? && n <= |s.queue|
    ensures Remaining(Take(s, t, n)) == Remaining(s)
  {
    TotalUpdate(Unexecuted, s.threads, t, Take(s, t, n).threads[t]);
  }

  lemma DispatchRemaining(s: State, t: nat)
    requires Counted(s) && t < |s.threads| && s.threads[t].Holding?
    ensures Remaining(Dispatch(s, t)) == Remaining(s)
  {
    if s.queue != [] {
      TakeRemaining(s, t, BatchLength(s));
    } else {
      TotalUpdate(Unexecuted, s.threads, t, Dispatch(s, t).threads[t]);
    }
  }

  /**
   * While the master waits no step adds work, and every executed check and every finished
   * batch removes some; `Remaining` is never negative.
   */
  lemma WaitProgress(workers: nat, batchSize: nat, s: State, e: Event)
    requires Reachable(workers, batchSize, s) && Enabled(s, e) && Counted(s)
    requires s.threads[MASTER].Outside? ==> e == EnterLoop(MASTER)
    ensures 0 <= Remaining(Apply(s, e)) <= Remaining(s)
    ensures e.Execute? || e.Finish? ==> Remaining(Apply(s, e)) < Remaining(s)
  {
    ReachableInv(workers, batchSize, s);
    assert !s.starting;
    hide Reachable, Inv, InvHolding;
    match e
    case CheckIdle =>
    case Begin(c) =>
    case Add(n) =>
    case EnterLoop(t) =>
      EnterRemaining(s, t);
    case Execute(t, k, r) =>
      OwnBatch(s, t);
      TotalUpdate(Unexecuted, s.threads, t, Apply(s, e).threads[t]);
    case Finish(t) =>
      FinishRemaining(s, t);
    case WakeUp(t) =>
      WakeRemaining(s, t);
    case Return =>
      TotalUpdate(Unexecuted, s.threads, MASTER, Outside);
    case Cancel =>
  }

  lemma EnterRemaining(s: State, t: nat)
    requires Inv(s) && Enabled(s, EnterLoop(t)) && Counted(s)
    ensures Remaining(Apply(s, EnterLoop(t))) == Remaining(s)
  {
    hide Inv, InvHolding;
    TotalUpdate(Unexecuted, s.threads, t, Holding);
    EnterKeeps(s, t);
    HoldingCounts(Enter(s, t), t);
    DispatchRemaining(Enter(s, t), t);
  }

  lemma FinishRemaining(s: State, t: nat)
    requires Inv(s) && Enabled(s, Finish(t)) && Counted(s)
    ensures 0 <= Remaining(Apply(s, Finish(t))) < Remaining(s)
  {
    hide Inv, InvHolding, Counted, Dispatch, Cleanup, Remaining;
    OwnBatch(s, t);
    CleanupKeeps(s, t);
    HoldingCounts(Cleanup(s, t), t);
    CleanupRemaining(s, t);
    DispatchRemaining(Cleanup(s, t), t);
  }

  lemma CleanupRemaining(s: State, t: nat)
    requires t < |s.threads| && s.threads[t].Working? && s.threads[t].batch != [] && Cleanup(s, t).todo >= 0
    ensures 0 <= Remaining(Cleanup(s, t)) < Remaining(s)
  {
    hide Total;
    TotalUpdate(Unexecuted, s.threads, t, Holding);
  }

  lemma WakeRemaining(s: State, t: nat)
    requires Inv(s) && Enabled(s, WakeUp(t)) && Counted(s)
    ensures Remaining(Apply(s, WakeUp(t))) == Remaining(s)
  {
    hide Inv, InvHolding;
    TotalUpdate(Unexecuted, s.threads, t, Holding);
    RiseKeeps(s, t);
    HoldingCounts(Rise(s, t), t);
    DispatchRemaining(Rise(s, t), t);
  }

  lemma HoldingCounts(s: State, t: nat)
    requires InvHolding(s, t)
    ensures Counted(s) && t < |s.threads| && s.threads[t].Holding? && s.todo >= 0
  {
  }

  lemma OwnBatch(s: State, t: nat)
    requires Inv(s) && t < |s.threads|
    ensures BatchOk(s, s.threads[t])
  {
  }
}
