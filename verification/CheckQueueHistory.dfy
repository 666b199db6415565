/**
 * What Wait() answers, in terms of the events alone: which checks were added and executed
 * since the session began, with which results, and whether it was canceled.  None of the
 * definitions looks at a state of the queue.
 */
module CheckQueueHistory {
  import opened Wrappers
  import opened CheckQueue
  import opened CheckQueueSafety

  // ---------------------------------------------------------------------------
  // The current session
  // ---------------------------------------------------------------------------

  /** The events from the last StartCheckingSession on; none before the first. */
  function Session(events: seq<Event>): seq<Event> {
    if events == [] then []
    else Continued(Session(events[..|events| - 1]), events[|events| - 1])
  }

  function Continued(session: seq<Event>, e: Event): seq<Event> {
    if e.Begin? then [e] else if session == [] then [] else session + [e]
  }

  /** The number of checks that were added. */
  function Added(session: seq<Event>): nat {
    if session == [] then 0
    else
      var e := session[|session| - 1];
      Added(session[..|session| - 1]) + (if e.Add? then e.count else 0)
  }

  /** The token was canceled from the start or has been canceled since. */
  ghost predicate Canceled(session: seq<Event>) {
    Begin(true) in session || Cancel in session
  }

  /** Check k was executed and reported v. */
  ghost predicate Ran(session: seq<Event>, k: nat, v: Verdict) {
    exists t :: Execute(t, k, v) in session
  }

  ghost predicate SomeRan(session: seq<Event>, v: Verdict) {
    exists k :: Ran(session, k, v)
  }

  /** Every added check was executed and passed. */
  ghost predicate AllRan(session: seq<Event>) {
    forall k :: 0 <= k < Added(session) ==> Ran(session, k, Some(true))
  }

  ghost predicate WaitCalled(session: seq<Event>) {
    EnterLoop(MASTER) in session
  }

  // ---------------------------------------------------------------------------
  // The state agrees with the events
  // ---------------------------------------------------------------------------

  ghost predicate Agrees(s: State, session: seq<Event>) {
    && (s.hasToken <==> session != [])
    && s.added == Added(session)
    && (s.canceled <==> Canceled(session))
    && (s.waitCalled <==> session == [] || WaitCalled(session))
    && (forall k: nat, v :: Recorded(s, k, v) <==> Ran(session, k, v))
  }

  ghost predicate Recorded(s: State, k: nat, v: Verdict) {
    k in s.ran && s.ran[k] == v
  }

  /** Fields that the tail of a critical section leaves alone. */
  ghost predicate SameRecord(s: State, s': State) {
    && s'.hasToken == s.hasToken && s'.added == s.added && s'.canceled == s.canceled
    && s'.waitCalled == s.waitCalled && s'.ran == s.ran
  }

  lemma DispatchRecord(s: State, t: nat)
    requires t < |s.threads| && s.total >= 0 && s.idle >= 0
    ensures SameRecord(s, Dispatch(s, t))
  {
    hide BatchLength;
  }

  /** What one event does to the record; `ran` and `added` change only in the events named so. */
  lemma StepRecord(s: State, e: Event)
    requires Inv(s) && Enabled(s, e) && Counted(s)
    ensures var s' := Apply(s, e);
            && s'.hasToken == (s.hasToken || e.Begin?)
            && s'.added == (if e.Begin? then 0 else if e.Add? then s.added + e.count else s.added)
            && s'.canceled == (if e.Begin? then e.canceled else s.canceled || e.Cancel?)
            && s'.waitCalled == (!e.Begin? && (s.waitCalled || e == EnterLoop(MASTER)))
            && s'.ran == (if e.Begin? then map[] else if e.Execute? then s.ran[e.check := e.result] else s.ran)
    ensures e.Execute? ==> e.check < s.added && e.check !in s.ran && s.hasToken
  {
    hide Dispatch, Total, Inv;
    match e
    case CheckIdle =>
    case Begin(_) =>
    case Add(_) =>
    case EnterLoop(t) => DispatchRecord(Enter(s, t), t);
    case Execute(t, k, r) => ExecuteFacts(s, t, k, r);
    case Finish(t) => DispatchRecord(Cleanup(s, t), t);
    case WakeUp(t) => TotalAtLeast(Asleep, s.threads, t); DispatchRecord(Rise(s, t), t);
    case Return =>
    case Cancel =>
  }

  lemma ExecuteFacts(s: State, t: nat, k: nat, r: Verdict)
    requires Inv(s) && Enabled(s, Execute(t, k, r))
    ensures k < s.added && k !in s.ran && s.hasToken
  {
    assert BatchOk(s, s.threads[t]);
    TotalAtLeast(InFlight, s.threads, t);
  }

  lemma StepAgrees(s: State, session: seq<Event>, e: Event)
    requires Inv(s) && Enabled(s, e) && Counted(s) && Agrees(s, session)
    ensures Agrees(Apply(s, e), Continued(session, e))
  {
    StepRecord(s, e);
    EnabledToken(s, e);
    ContinuedFacts(session, e);
    var s', next := Apply(s, e), Continued(session, e);
    hide Apply, Enabled, Inv, Counted, Continued, Added, Canceled, WaitCalled, Ran;
    forall k: nat, v ensures Recorded(s', k, v) <==> Ran(next, k, v) {
      RanContinued(session, e, k, v);
      assert Recorded(s, k, v) <==> Ran(session, k, v);
      if e.Execute? && k == e.check {
        assert !Recorded(s, k, v);
      }
    }
  }

  lemma ContinuedFacts(session: seq<Event>, e: Event)
    ensures var next := Continued(session, e);
            && (next == [] <==> !e.Begin? && session == [])
            && Added(next) == (if e.Begin? || session == [] then 0 else if e.Add? then Added(session) + e.count
                               else Added(session))
            && (Canceled(next) <==> if e.Begin? then e.canceled else session != [] && (Canceled(session) || e.Cancel?))
            && (WaitCalled(next) <==> !e.Begin? && session != [] && (WaitCalled(session) || e == EnterLoop(MASTER)))
  {
    var next := Continued(session, e);
    if e.Begin? {
      assert next[..0] == [];
      assert forall x :: x in next <==> x == e;
    } else if session != [] {
      assert next[..|next| - 1] == session;
      assert forall x :: x in next <==> x in session || x == e;
    }
  }

  /** Without a session no check is added or executed, and nothing is canceled or waited for. */
  lemma EnabledToken(s: State, e: Event)
    requires Inv(s) && Enabled(s, e)
    ensures !s.hasToken ==> !e.Add? && !e.Execute? && !e.Cancel? && e != EnterLoop(MASTER) && s.waitCalled
  {
    if e.Execute? {
      ExecuteFacts(s, e.thread, e.check, e.result);
    }
  }

  lemma RanContinued(session: seq<Event>, e: Event, k: nat, v: Verdict)
    ensures var next := Continued(session, e);
            Ran(next, k, v) <==>
            && !e.Begin? && session != []
            && (Ran(session, k, v) || (e.Execute? && e.check == k && e.result == v))
  {
    var next := Continued(session, e);
    if !e.Begin? && session != [] {
      assert forall x :: x in next <==> x in session || x == e;
      if e.Execute? && e.check == k && e.result == v {
        assert Execute(e.thread, k, v) in next;
      }
    }
  }

  /** The last event of a run was possible in the state before it. */
  lemma {:induction false} RunLast(s: State, events: seq<Event>)
    requires events != [] && Run(s, events).Some?
    ensures var init, e := events[..|events| - 1], events[|events| - 1];
            && Run(s, init).Some? && Enabled(Run(s, init).value, e) && Counted(Run(s, init).value)
            && Run(s, events) == Some(Apply(Run(s, init).value, e))
    decreases |events|
  {
    var init := events[..|events| - 1];
    if |events| > 1 {
      var next := Apply(s, events[0]);
      RunLast(next, events[1..]);
      assert events[1..][..|events| - 2] == init[1..];
    }
  }

  /** No check that reported empty is forgotten: the session's verdict or a batch's is empty. */
  ghost predicate EmptyKept(s: State) {
    Reported(s, None) ==> s.allOk == None || exists t :: EmptyAt(s, t)
  }

  ghost predicate EmptyAt(s: State, t: int) {
    0 <= t < |s.threads| && s.threads[t].Working? && s.threads[t].ok == None
  }

  /** A step that changes at most the phase of thread t, which held no empty verdict. */
  lemma EmptyElsewhere(s: State, s': State, t: nat)
    requires EmptyKept(s) && s'.ran == s.ran && |s'.threads| == |s.threads| && !EmptyAt(s, t)
    requires s.allOk == None ==> s'.allOk == None
    requires forall u :: 0 <= u < |s.threads| && u != t ==> s'.threads[u] == s.threads[u]
    ensures EmptyKept(s')
  {
    if Reported(s, None) && s.allOk != None {
      var u :| EmptyAt(s, u);
      assert EmptyAt(s', u);
    }
  }

  lemma DispatchEmpty(s: State, t: nat)
    requires EmptyKept(s) && t < |s.threads| && s.threads[t].Holding? && s.total >= 0 && s.idle >= 0
    ensures EmptyKept(Dispatch(s, t))
  {
    hide EmptyKept, BatchLength;
    EmptyElsewhere(s, Dispatch(s, t), t);
  }

  lemma CleanupEmpty(s: State, t: nat)
    requires EmptyKept(s) && t < |s.threads| && s.threads[t].Working?
    ensures EmptyKept(Cleanup(s, t))
  {
    var s' := Cleanup(s, t);
    if Reported(s, None) && s'.allOk != None {
      var u :| EmptyAt(s, u);
      assert EmptyAt(s', u);
    }
  }

  lemma ExecuteEmpty(s: State, t: nat, k: nat, r: Verdict)
    requires Inv(s) && Counted(s) && EmptyKept(s) && Enabled(s, Execute(t, k, r))
    ensures EmptyKept(Apply(s, Execute(t, k, r)))
  {
    ExecuteFacts(s, t, k, r);
    hide Inv, Counted;
    var s' := Apply(s, Execute(t, k, r));
    if Reported(s', None) && s'.allOk != None {
      if r == None {
        assert EmptyAt(s', t);
      } else {
        var j :| j in s'.ran && s'.ran[j] == None;
        assert j in s.ran && s.ran[j] == None;
        var u :| EmptyAt(s, u);
        assert EmptyAt(s', u);
      }
    }
  }

  lemma StepEmpty(s: State, e: Event)
    requires Inv(s) && Enabled(s, e) && Counted(s) && EmptyKept(s)
    ensures EmptyKept(Apply(s, e))
  {
    hide EmptyKept, Dispatch, Inv, Total;
    match e
    case CheckIdle => EmptyElsewhere(s, Apply(s, e), |s.threads|);
    case Begin(_) => EmptyFresh(Apply(s, e));
    case Add(_) => EmptyElsewhere(s, Apply(s, e), |s.threads|);
    case EnterLoop(t) =>
      EmptyElsewhere(s, Enter(s, t), t);
      DispatchEmpty(Enter(s, t), t);
    case Execute(t, k, r) => ExecuteEmpty(s, t, k, r);
    case Finish(t) =>
      CleanupEmpty(s, t);
      DispatchEmpty(Cleanup(s, t), t);
    case WakeUp(t) =>
      TotalAtLeast(Asleep, s.threads, t);
      EmptyElsewhere(s, Rise(s, t), t);
      DispatchEmpty(Rise(s, t), t);
    case Return => EmptyElsewhere(s, Apply(s, e), MASTER);
    case Cancel => EmptyElsewhere(s, Apply(s, e), |s.threads|);
  }

  lemma EmptyFresh(s: State)
    requires s.ran == map[]
    ensures EmptyKept(s)
  {
  }

  /** After every run the state agrees with the events of the current session. */
  lemma {:induction false} RunAgrees(workers: nat, batchSize: nat, events: seq<Event>, s: State)
    requires Run(Init(workers, batchSize), events) == Some(s)
    ensures Inv(s) && Agrees(s, Session(events)) && EmptyKept(s)
    decreases |events|
  {
    hide Inv, Agrees, EmptyKept, Apply, Enabled, Counted;
    var start := Init(workers, batchSize);
    if events == [] {
      InitKeeps(workers, batchSize);
      InitAgrees(workers, batchSize);
    } else {
      var init, e := events[..|events| - 1], events[|events| - 1];
      RunLast(start, events);
      var u := Run(start, init).value;
      RunAgrees(workers, batchSize, init, u);
      StepKeeps(u, e);
      StepAgrees(u, Session(init), e);
      StepEmpty(u, e);
    }
  }

  lemma InitAgrees(workers: nat, batchSize: nat)
    ensures Agrees(Init(workers, batchSize), []) && EmptyKept(Init(workers, batchSize))
  {
  }

  // ---------------------------------------------------------------------------
  // What Wait() answers
  // ---------------------------------------------------------------------------

  /**
   * When Wait() is about to return, "true" means that every check added in the session was
   * executed and passed, "false" that some check reported false, and an empty result that
   * the session was canceled or some check reported empty.
   */
  lemma WaitVerdict(workers: nat, batchSize: nat, events: seq<Event>, s: State)
    requires Run(Init(workers, batchSize), events) == Some(s) && s.threads != [] && s.threads[MASTER].Leaving?
    ensures var session, result := Session(events), s.threads[MASTER].result;
            && session != [] && WaitCalled(session)
            && (result == Some(true) ==> AllRan(session))
            && (result == Some(false) ==> SomeRan(session, Some(false)))
            && (result == None ==> Canceled(session) || SomeRan(session, None))
            && (forall k: nat, v :: Ran(session, k, v) ==> k < Added(session))
  {
    RunAgrees(workers, batchSize, events, s);
    var session := Session(events);
    hide Session, Run;
    assert ResultOk(s, s.threads[MASTER].result);
    forall k | 0 <= k < s.added && s.threads[MASTER].result == Some(true) ensures Ran(session, k, Some(true)) {
      assert Recorded(s, k, Some(true));
    }
    ReportedRan(s, session);
    forall k: nat, v | Ran(session, k, v) ensures k < Added(session) {
      assert Recorded(s, k, v);
    }
  }

  lemma ReportedRan(s: State, session: seq<Event>)
    requires Agrees(s, session)
    ensures forall v :: Reported(s, v) <==> SomeRan(session, v)
  {
    forall v ensures Reported(s, v) <==> SomeRan(session, v) {
      if Reported(s, v) {
        var k :| k in s.ran && s.ran[k] == v;
        assert Recorded(s, k, v) && Ran(session, k, v);
      }
      if SomeRan(session, v) {
        var k :| Ran(session, k, v);
        assert Recorded(s, k, v);
      }
    }
  }

  /**
   * In the step that fixes the result it is exact: empty if and only if the session is
   * canceled or some check reported empty; otherwise true if and only if every added check
   * was executed and passed, and false if and only if some check reported false.
   */
  lemma WaitExact(workers: nat, batchSize: nat, events: seq<Event>, e: Event, s: State, s': State)
    requires Run(Init(workers, batchSize), events) == Some(s)
    requires Run(Init(workers, batchSize), events + [e]) == Some(s')
    requires s.threads != [] && s'.threads != []
    requires !s.threads[MASTER].Leaving? && s'.threads[MASTER].Leaving?
    ensures var session, result := Session(events + [e]), s'.threads[MASTER].result;
            && (result == None <==> Canceled(session) || SomeRan(session, None))
            && (result == Some(true) <==> !Canceled(session) && AllRan(session))
            && (result == Some(false) <==>
                !Canceled(session) && !SomeRan(session, None) && SomeRan(session, Some(false)))
  {
    var session, result := Session(events + [e]), s'.threads[MASTER].result;
    RunLast(Init(workers, batchSize), events + [e]);
    assert (events + [e])[..|events|] == events;
    RunAgrees(workers, batchSize, events, s);
    RunAgrees(workers, batchSize, events + [e], s');
    WaitVerdict(workers, batchSize, events + [e], s');
    LeavingResult(s, e);
    ReportedRan(s', session);
    OneVerdict(s', session);
    hide *;
    match result {
      case None =>
      case Some(b) => assert b == true || b == false;
    }
  }

  /** If all checks passed, none reported anything else. */
  lemma OneVerdict(s: State, session: seq<Event>)
    requires Inv(s) && Agrees(s, session)
    ensures AllRan(session) ==> !SomeRan(session, None) && !SomeRan(session, Some(false))
  {
    if AllRan(session) {
      forall k: nat, v | Ran(session, k, v) ensures v == Some(true) {
        assert Recorded(s, k, v) && k < s.added;
        assert Recorded(s, k, Some(true)) by {
          assert Ran(session, k, Some(true));
        }
      }
    }
  }

  /** The result is the verdict at that moment: empty if canceled, and no empty report is lost. */
  lemma LeavingResult(s: State, e: Event)
    requires Inv(s) && Enabled(s, e) && Counted(s)
    requires !s.threads[MASTER].Leaving? && Apply(s, e).threads[MASTER].Leaving?
    requires EmptyKept(Apply(s, e))
    ensures var s' := Apply(s, e);
            && (s'.canceled ==> s'.threads[MASTER].result == None)
            && (Reported(s', None) ==> s'.threads[MASTER].result == None)
  {
    StepKeeps(s, e);
    var s' := Apply(s, e);
    assert s'.threads[MASTER].result == s'.allOk && s'.todo == 0;
    NothingHeld(s');
    assert s'.canceled ==> s'.allOk == None;
  }

  /** Add() is accepted exactly while a session is open and Wait() has not been called in it. */
  lemma AddAccepted(workers: nat, batchSize: nat, events: seq<Event>, s: State, n: nat)
    requires Run(Init(workers, batchSize), events) == Some(s)
    ensures Enabled(s, Add(n)) <==> Session(events) != [] && !WaitCalled(Session(events))
  {
    RunAgrees(workers, batchSize, events, s);
    hide Session, Run;
  }

  /** Only added checks are executed, none twice in a session and none once it is canceled. */
  lemma ExecutedOnce(workers: nat, batchSize: nat, events: seq<Event>, t: nat, k: nat, r: Verdict)
    requires Run(Init(workers, batchSize), events + [Execute(t, k, r)]).Some?
    ensures var session := Session(events);
            k < Added(session) && !Canceled(session) && forall v :: !Ran(session, k, v)
  {
    var e := Execute(t, k, r);
    RunLast(Init(workers, batchSize), events + [e]);
    assert (events + [e])[..|events|] == events;
    var s := Run(Init(workers, batchSize), events).value;
    RunAgrees(workers, batchSize, events, s);
    ExecuteFacts(s, t, k, r);
    hide Session, Run, Inv;
    forall v ensures !Ran(Session(events), k, v) {
      assert !Recorded(s, k, v);
    }
  }
}
