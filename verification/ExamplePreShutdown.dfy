/**
  * Runs of the composed example service in which one PreShutdown is delivered: the exact progress
  * reports, and the reported state staying StopPending.
  */
module ExamplePreShutdown {
  import opened Wrappers
  import opened ServiceStatus
  import opened RunLoop
  import opened ExampleHandler
  import opened ExampleService
  import opened ExampleLiveness
  import opened ExampleRuns
  import opened ExampleWorker

  /** The run es1 from the start ends with the delivery of its only PreShutdown, in state s1. */
  predicate JustPreShutdown(h: nat, scm: Record, es1: seq<Label>, s1: Sys) {
    && Exec(Initial(h, scm), es1) == Some(s1)
    && PreShutdowns(es1) == 1
    && es1 != [] && Last(es1).ToHandler? && Last(es1).req.cmd == PRESHUTDOWN
  }

  lemma WorkerJustSpawned(h: nat, scm: Record, es1: seq<Label>, s1: Sys)
    requires JustPreShutdown(h, scm, es1, s1)
    ensures Inv(s1) && s1.svc.loop.pc == Selecting && s1.h.pc == Select
    ensures s1.w == Worker(Evaluating, 1, false)
  {
    var p := Exec(Initial(h, scm), DropLast(es1)).value;
    Reachable(h, scm, DropLast(es1), p);
    Reachable(h, scm, es1, s1);
    WorkerCountsPreShutdowns(h, scm, DropLast(es1), p);
    SpawnedBy(p, Last(es1).req, s1);
  }

  lemma SpawnedBy(p: Sys, req: ChangeRequest, s: Sys)
    requires Inv(p) && p.w.pc == NotStarted
    requires req.cmd == PRESHUTDOWN && Step(p, ToHandler(req)) == Some(s)
    ensures s.svc.loop.pc == Selecting && s.h.pc == Select && s.w == Worker(Evaluating, 1, false)
  {}

  // ---- When no command follows ----

  /** No command has followed the PreShutdown and nothing has failed: the handler leaves once shutdown is closed. */
  predicate Undirected(s: Sys) {
    && s.w.pc != NotStarted && s.w.pc != Overlapping
    && (s.svc.loop.pc == Selecting && s.h.pc != Select ==>
      s.h.pc == ReadCheckpoint || s.h.pc == SendStopping(31) || s.h.pc == Returning)
    && (s.svc.loop.pc != Selecting || s.h.pc != Select ==> s.w.pc == Finished)
  }

  /** What has then been reported besides the worker's reports. */
  function AfterRamp(s: Sys): seq<Status> {
    match s.svc.loop.pc
    case Selecting => if s.h.pc == Returning then [Stopping(31)] else []
    case Finishing => [Stopping(31)]
    case _ => [Stopping(31), STOPPED_STATUS]
  }

  lemma UndirectedStep(p: Sys, l: Label, s: Sys)
    requires Inv(p) && Undirected(p) && Step(p, l) == Some(s) && !IsDelivery(l) && !Failing(l)
    ensures Undirected(s)
    ensures if l.FromWorker? then AfterRamp(p) == AfterRamp(s) == [] && ReportOf(l) == [l.s]
      else AfterRamp(s) == AfterRamp(p) + ReportOf(l)
  {
    LoopForward(p, l, s);
    if l.WorkerAlone? || l.FromWorker? {
      assert s.h == p.h && (l.WorkerAlone? ==> s.svc == p.svc);
    } else {
      assert s.w == p.w;
    }
  }

  lemma {:induction false} UndirectedRuns(s1: Sys, es: seq<Label>, s2: Sys)
    requires Inv(s1) && Undirected(s1) && AfterRamp(s1) == [] && Exec(s1, es) == Some(s2)
    requires CountIf(es, IsDelivery) == 0 && FailureFree(es)
    ensures Undirected(s2) && Reports(es) == WorkerReports(es) + AfterRamp(s2)
  {
    if es != [] {
      var p, l := Exec(s1, DropLast(es)).value, Last(es);
      UndirectedRuns(s1, DropLast(es), p);
      InvRuns(s1, DropLast(es), p);
      UndirectedStep(p, l, s2);
      Assoc(WorkerReports(DropLast(es)), AfterRamp(p), ReportOf(l));
      assert WorkerReports(DropLast(es)) + [] == WorkerReports(DropLast(es));
      assert WorkerReports(es) + [] == WorkerReports(es);
    }
  }

  /** The k-th report after the PreShutdown, if no command follows: states 3 and 1 are STOP_PENDING and STOPPED. */
  function PlannedReport(k: nat): Status {
    if k <= 30 then Status(3, 0, k as uint32, 3000) else if k == 31 then Status(3, 0, 31, 0) else Status(1, 0, 0, 0)
  }

  lemma AsPlanned(r: seq<Status>)
    requires r == Ramp(30) + [Stopping(31)] + [STOPPED_STATUS]
    ensures |r| == 32 && forall k | 0 <= k < 32 :: r[k] == PlannedReport(k + 1)
  {}

  lemma {:induction false} LastAsPlanned(s1: Sys, es: seq<Label>, s2: Sys)
    requires Inv(s1) && Undirected(s1) && AfterRamp(s1) == [] && Exec(s1, es) == Some(s2)
    requires Made(s1.w) == 0 && s1.w.pc != Finished && CountIf(es, IsDelivery) == 0 && FailureFree(es)
    requires s2.svc.loop.pc == Selecting && Reports(es) != []
    ensures |Reports(es)| <= 31 && Last(Reports(es)) == PlannedReport(|Reports(es)|)
  {
    UndirectedRuns(s1, es, s2);
    WorkerRunsFromZero(s1, es, s2);
    InvRuns(s1, es, s2);
    if AfterRamp(s2) == [] {
      assert WorkerReports(es) + [] == WorkerReports(es);
    } else {
      SnocEnds(WorkerReports(es), Stopping(31));
    }
  }

  /** After each of them the SCM holds just that report. */
  lemma {:induction false} PlannedReportsShown(h: nat, scm: Record, es1: seq<Label>, s1: Sys, es2: seq<Label>, s2: Sys)
    requires JustPreShutdown(h, scm, es1, s1) && Exec(s1, es2) == Some(s2)
    requires CountIf(es2, IsDelivery) == 0 && FailureFree(es2) && Reports(es2) != []
    requires s2.svc.loop.pc == Selecting
    ensures |Reports(es2)| <= 31
    ensures Tells(s2.svc.loop.scm, PlannedReport(|Reports(es2)|), ExitCode(false, 0))
  {
    WorkerJustSpawned(h, scm, es1, s1);
    LastAsPlanned(s1, es2, s2);
    ExecConcat(Initial(h, scm), es1, es2);
    ReportsConcat(es1, es2);
    StatusIsLastReport(h, scm, es1 + es2, s2);
    RecordTells(s2.svc.loop.status, NO_EXIT);
  }

  lemma {:induction false} StatusIsLastReport(h: nat, scm: Record, es: seq<Label>, s: Sys)
    requires Exec(Initial(h, scm), es) == Some(s) && BeforeFinal(s.svc.loop) && Reports(es) != []
    ensures s.svc.loop.status == Last(Reports(es)) && s.svc.loop.scm == RecordOf(Last(Reports(es)), NO_EXIT)
  {
    SystemProjects(Initial(h, scm), es, s);
    CallbacksProject(Initial(h, scm).svc, SvcTrace(es), s.svc);
    ReportsArePublished(Initial(h, scm), es);
    StatusAgreement(h, scm, LoopEvents(SvcTrace(es)), s.svc.loop);
  }

  /**
    * A complete, failure-free run with one PreShutdown and no later command reports, after the
    * PreShutdown and in this order, StopPending with check points 1, 2, ..., 30 and wait hint 3000,
    * StopPending with check point 31, and Stopped; the channel shutdown is closed exactly once, after
    * the thirtieth report.
    */
  lemma {:induction false} PreShutdownProgress(h: nat, scm: Record, es1: seq<Label>, s1: Sys, es2: seq<Label>, s2: Sys)
    requires JustPreShutdown(h, scm, es1, s1)
    requires Exec(s1, es2) == Some(s2) && s2.svc.loop.pc == Returned
    requires CountIf(es2, IsDelivery) == 0 && FailureFree(es2)
    ensures Reports(es2) == Ramp(30) + [Stopping(31)] + [STOPPED_STATUS]
    ensures |Reports(es2)| == 32 && forall k | 0 <= k < 32 :: Reports(es2)[k] == PlannedReport(k + 1)
    ensures CountIf(es2, IsClose) == 1
    ensures forall k | 0 <= k < |es2| && IsClose(es2[k]) :: Reports(es2[..k]) == Ramp(30)
  {
    WorkerJustSpawned(h, scm, es1, s1);
    UndirectedRuns(s1, es2, s2);
    WorkerRunsFromZero(s1, es2, s2);
    Assoc(Ramp(30), [Stopping(31)], [STOPPED_STATUS]);
    AsPlanned(Reports(es2));
    forall k | 0 <= k < |es2| && IsClose(es2[k])
      ensures Reports(es2[..k]) == Ramp(30)
    {
      ReportedBeforeClose(s1, es2, s2, k);
    }
  }

  lemma {:induction false} ReportedBeforeClose(s1: Sys, es: seq<Label>, s2: Sys, k: nat)
    requires Inv(s1) && Undirected(s1) && AfterRamp(s1) == [] && Exec(s1, es) == Some(s2)
    requires Made(s1.w) == 0 && s1.w.pc != Finished && CountIf(es, IsDelivery) == 0 && FailureFree(es)
    requires k < |es| && IsClose(es[k])
    ensures Reports(es[..k]) == Ramp(30)
  {
    ClosedAfterThirty(s1, es, s2, k);
    QuietPrefix(es, k);
    var a, p := es[..k], Exec(s1, es[..k]).value;
    UndirectedRuns(s1, a, p);
    assert AfterRamp(p) == [];
    assert WorkerReports(a) + [] == WorkerReports(a);
  }

  lemma {:induction false} QuietPrefix(es: seq<Label>, k: nat)
    requires k <= |es| && CountIf(es, IsDelivery) == 0 && FailureFree(es)
    ensures CountIf(es[..k], IsDelivery) == 0 && FailureFree(es[..k])
  {
    assert es == es[..k] + es[k..];
    CountConcat(es[..k], es[k..], IsDelivery);
    FailureFreeConcat(es[..k], es[k..]);
  }

  /** A step that is always there after a PreShutdown: nothing fails, and no command is delivered. */
  lemma QuietStep(s: Sys) returns (l: Label)
    requires Inv(s) && s.w.pc != NotStarted && s.w.pc != Overlapping
    requires s.svc.loop.pc != Returned && s.svc.loop.h != 0
    ensures Internal(l) && !IsDelivery(l) && !Failing(l) && Step(s, l).Some?
  {
    match s.svc.loop.pc {
      case Finishing => l := Env(Other(Final(Ok)));
      case Signalling => l := Env(Other(Signal));
      case Selecting =>
        if Offers(s.h.pc).Some? {
          l := FromHandler(Offers(s.h.pc).value, Ok);
        } else {
          match s.h.pc {
            case Sleeping(_) => l := HandlerAlone(Wake);
            case ReadCheckpoint => l := HandlerAlone(Read(s.w.checkPoint));
            case Returning => l := HandlerExits(EXECUTE_RESULT);
            case Select => l := QuietStepAtSelect(s);
          }
        }
    }
  }

  lemma QuietStepAtSelect(s: Sys) returns (l: Label)
    requires Inv(s) && s.w.pc != NotStarted && s.w.pc != Overlapping
    requires s.svc.loop.pc == Selecting && s.h.pc == Select && s.svc.loop.h != 0
    ensures Internal(l) && !IsDelivery(l) && !Failing(l) && Step(s, l).Some?
  {
    match s.w.pc {
      case Evaluating => l := WorkerAlone(Evaluate);
      case Sending(cp) => l := FromWorker(Progress(cp), Ok);
      case Working => l := WorkerAlone(Work);
      case Counting => l := WorkerAlone(Count);
      case Closing => l := WorkerAlone(Close);
      case Finished => l := HandlerAlone(SeeShutdown);
    }
  }

  lemma QuietStays(s: Sys, l: Label, s': Sys)
    requires Step(s, l) == Some(s') && !IsDelivery(l)
    requires s.w.pc != NotStarted && s.w.pc != Overlapping
    ensures s'.w.pc != NotStarted && s'.w.pc != Overlapping && s'.svc.loop.h == s.svc.loop.h
  {}

  lemma {:induction false} QuietCompletion(s: Sys) returns (es: seq<Label>, s2: Sys)
    requires Inv(s) && s.w.pc != NotStarted && s.w.pc != Overlapping && s.svc.loop.h != 0
    ensures Exec(s, es) == Some(s2) && s2.svc.loop.pc == Returned
    ensures CountIf(es, IsDelivery) == 0 && FailureFree(es)
    decreases Measure(s)
  {
    if s.svc.loop.pc == Returned {
      es, s2 := [], s;
    } else {
      var l := QuietStep(s);
      var s' := Step(s, l).value;
      InvStep(s, l, s');
      QuietStays(s, l, s');
      MeasureStep(s, l, s');
      es, s2 := QuietCompletion(s');
      assert DropLast([l]) == [];
      ExecConcat(s, [l], es);
      FailureFreeConcat([l], es);
      CountConcat([l], es, IsDelivery);
      es := [l] + es;
    }
  }

  /**
    * Such runs exist: with a handle, whatever else has happened, a run with one PreShutdown extends to a
    * complete one without a further delivery or failure.
    */
  lemma PreShutdownCompletes(h: nat, scm: Record, es1: seq<Label>, s1: Sys)
    returns (es2: seq<Label>, s2: Sys)
    requires h != 0 && Exec(Initial(h, scm), es1) == Some(s1) && PreShutdowns(es1) == 1
    ensures Exec(s1, es2) == Some(s2) && s2.svc.loop.pc == Returned
    ensures CountIf(es2, IsDelivery) == 0 && FailureFree(es2)
  {
    Reachable(h, scm, es1, s1);
    WorkerCountsPreShutdowns(h, scm, es1, s1);
    SystemProjects(Initial(h, scm), es1, s1);
    CallbacksProject(Initial(h, scm).svc, SvcTrace(es1), s1.svc);
    CauseKnown(h, scm, LoopEvents(SvcTrace(es1)), s1.svc.loop);
    es2, s2 := QuietCompletion(s1);
  }

  /**
    * After a PreShutdown the service never falls idle again: whatever else is delivered and whichever
    * updates fail, a run that can go no further has returned from the loop and set cWaits.
    */
  lemma {:induction false} PreShutdownLeadsToStopped(h: nat, scm: Record, es: seq<Label>, s: Sys)
    requires Exec(Initial(h, scm), es) == Some(s) && PreShutdowns(es) == 1
    requires forall l | Internal(l) :: Step(s, l).None?
    ensures s.svc.loop.pc == Returned && s.svc.loop.cWaits
    ensures CountIf(es, Internal) <= 8 + 202 * CountIf(es, IsArrival)
  {
    Reachable(h, scm, es, s);
    WorkerCountsPreShutdowns(h, scm, es, s);
    ActivityIsBounded(h, scm, es, s);
    if s.svc.loop.pc != Returned {
      QuietIffIdle(h, scm, es, s);
    }
  }

  // ---- The reported state after a PreShutdown ----

  /**
    * The deliveries that make the handler report something other than StopPending: Pause, Continue, and an
    * Interrogate whose request carries another current status.
    */
  predicate Disturbs(l: Label) {
    && l.ToHandler?
    && (l.req.cmd == PAUSE || l.req.cmd == CONTINUE
        || (l.req.cmd == INTERROGATE && l.req.currentStatus.state != STOP_PENDING))
  }

  predicate AllStopPending(r: seq<Status>) {
    forall k | 0 <= k < |r| :: r[k].state == STOP_PENDING
  }

  /** Only StopPending has been reported, and then perhaps Stopped. */
  predicate StaysStopping(r: seq<Status>) {
    || AllStopPending(r)
    || (r != [] && Last(r) == STOPPED_STATUS && AllStopPending(DropLast(r)))
  }

  /** Whatever the handler is about to report is StopPending. */
  predicate Calm(pc: HandlerPc) {
    match pc
    case SendEcho1(c) => c.state == STOP_PENDING
    case Sleeping(c) => c.state == STOP_PENDING
    case SendEcho2(c) => c.state == STOP_PENDING
    case _ => pc == Select || Leaving(pc)
  }

  predicate Undisturbed(r: seq<Status>, s: Sys) {
    && Calm(s.h.pc)
    && s.w.pc != NotStarted
    && (if BeforeFinal(s.svc.loop) then AllStopPending(r) else StaysStopping(r))
  }

  lemma CalmReport(p: Sys, c: Status, s: Sys)
    requires Calm(p.h.pc) && Step(p, FromHandler(c, Ok)) == Some(s)
    ensures Calm(s.h.pc) && c.state == STOP_PENDING && BeforeFinal(p.svc.loop) && BeforeFinal(s.svc.loop)
  {}

  lemma CalmSilence(p: Sys, l: Label, s: Sys)
    requires Calm(p.h.pc) && Step(p, l) == Some(s) && !Disturbs(l) && !(l.FromHandler? && l.o == Ok)
    ensures Calm(s.h.pc)
  {}

  lemma UndisturbedStep(r: seq<Status>, p: Sys, l: Label, s: Sys)
    requires Inv(p) && Undisturbed(r, p) && Step(p, l) == Some(s) && !Disturbs(l)
    ensures Undisturbed(r + ReportOf(l), s)
  {
    LoopForward(p, l, s);
    if ReportOf(l) == [] {
      CalmSilence(p, l, s);
      assert r + [] == r;
    } else if l.FromHandler? {
      CalmReport(p, l.s, s);
    } else {
      CalmSilence(p, l, s);
      assert DropLast(r + ReportOf(l)) == r;
    }
  }

  /**
    * After a PreShutdown the reported state is StopPending until Stopped, provided no Pause, Continue or
    * stale Interrogate is delivered after it; failures and further Stops make no difference.
    */
  lemma {:induction false} PreShutdownStaysStopping(
    h: nat, scm: Record, es1: seq<Label>, s1: Sys, es2: seq<Label>, s2: Sys)
    requires JustPreShutdown(h, scm, es1, s1)
    requires Exec(s1, es2) == Some(s2) && CountIf(es2, Disturbs) == 0
    ensures StaysStopping(Reports(es2))
    ensures Undisturbed(Reports(es2), s2)
  {
    WorkerJustSpawned(h, scm, es1, s1);
    if es2 != [] {
      var p := Exec(s1, DropLast(es2)).value;
      PreShutdownStaysStopping(h, scm, es1, s1, DropLast(es2), p);
      InvRuns(s1, DropLast(es2), p);
      UndisturbedStep(Reports(DropLast(es2)), p, Last(es2), s2);
    }
  }

  /** Some report was neither StopPending nor Stopped. */
  predicate LeftStopping(r: seq<Status>) {
    exists k | 0 <= k < |r| :: r[k].state != STOP_PENDING && r[k].state != STOPPED
  }

  /** The handler has yet to report something other than StopPending. */
  predicate Unsettled(pc: HandlerPc) {
    match pc
    case SendEcho1(c) => c.state != STOP_PENDING
    case Sleeping(c) => c.state != STOP_PENDING
    case SendEcho2(c) => c.state != STOP_PENDING
    case _ => pc == SendPaused || pc == SendContinued
  }

  lemma UnsettledStep(p: Sys, l: Label, s: Sys)
    requires Inv(p) && p.svc.loop.pc == Selecting && Unsettled(p.h.pc)
    requires Step(p, l) == Some(s) && !Failing(l)
    ensures s.svc.loop.pc == Selecting
    ensures Unsettled(s.h.pc) || (ReportOf(l) != [] && LeftStopping(ReportOf(l)))
  {
    if l.FromHandler? {
      assert Active(l.s.state) && l.s.state != STOP_PENDING;
      assert ReportOf(l)[0].state != STOP_PENDING && ReportOf(l)[0].state != STOPPED;
    }
  }

  lemma DisturbedStep(p: Sys, l: Label, s: Sys)
    requires Inv(p) && Step(p, l) == Some(s) && Disturbs(l)
    ensures s.svc.loop.pc == Selecting && Unsettled(s.h.pc)
  {}

  lemma LeftConcat(r: seq<Status>, more: seq<Status>)
    ensures LeftStopping(r + more) <==> LeftStopping(r) || LeftStopping(more)
  {
    if LeftStopping(r) || LeftStopping(more) {
      LeftStays(r, more);
    }
  }

  lemma LeftStays(r: seq<Status>, more: seq<Status>)
    requires LeftStopping(r) || LeftStopping(more)
    ensures LeftStopping(r + more)
  {
    var r' := r + more;
    if LeftStopping(r) {
      var k :| 0 <= k < |r| && r[k].state != STOP_PENDING && r[k].state != STOPPED;
      assert r'[k] == r[k];
    } else {
      var k :| 0 <= k < |more| && more[k].state != STOP_PENDING && more[k].state != STOPPED;
      assert r'[|r| + k] == more[k];
    }
  }

  /** Sooner or later a disturbance, or a handler that is unsettled to begin with, shows in the reports. */
  lemma {:induction false} DisturbanceShows(s1: Sys, es: seq<Label>, s2: Sys)
    requires Inv(s1) && Exec(s1, es) == Some(s2) && FailureFree(es)
    requires CountIf(es, Disturbs) > 0 || (s1.svc.loop.pc == Selecting && Unsettled(s1.h.pc))
    ensures LeftStopping(Reports(es)) || (s2.svc.loop.pc == Selecting && Unsettled(s2.h.pc))
  {
    if es != [] {
      var (p, l) := (DropLast(es), Last(es));
      var s := Exec(s1, p).value;
      InvRuns(s1, p, s);
      if CountIf(p, Disturbs) > 0 || (s1.svc.loop.pc == Selecting && Unsettled(s1.h.pc)) {
        DisturbanceShows(s1, p, s);
        LeftConcat(Reports(p), ReportOf(l));
        if !LeftStopping(Reports(p)) {
          UnsettledStep(s, l, s2);
        }
      } else {
        DisturbedStep(s, l, s2);
      }
    }
  }

  /**
    * On complete, failure-free runs that proviso is exact: after a PreShutdown the reported state never
    * leaves StopPending before Stopped if and only if no Pause, Continue or stale Interrogate is delivered.
    */
  lemma {:induction false} StaysStoppingIff(h: nat, scm: Record, es1: seq<Label>, s1: Sys, es2: seq<Label>, s2: Sys)
    requires JustPreShutdown(h, scm, es1, s1)
    requires Exec(s1, es2) == Some(s2) && s2.svc.loop.pc == Returned && FailureFree(es2)
    ensures StaysStopping(Reports(es2)) <==> CountIf(es2, Disturbs) == 0
  {
    if CountIf(es2, Disturbs) == 0 {
      PreShutdownStaysStopping(h, scm, es1, s1, es2, s2);
    } else {
      WorkerJustSpawned(h, scm, es1, s1);
      DisturbanceShows(s1, es2, s2);
      var r := Reports(es2);
      var k :| 0 <= k < |r| && r[k].state != STOP_PENDING && r[k].state != STOPPED;
      assert k < |r| - 1 ==> DropLast(r)[k] == r[k];
    }
  }

  // ---- Going back from StopPending ----

  /** A reported StopPending is followed by StopPending and Stopped only. */
  predicate NeverBack(r: seq<Status>) {
    forall j, k | 0 <= j < k < |r| && r[j].state == STOP_PENDING :: r[k].state == STOP_PENDING || r[k].state == STOPPED
  }

  lemma NeverBackFrom(r: seq<Status>, c: Status, more: seq<Status>)
    requires NeverStopping(r) && c.state == STOP_PENDING
    ensures NeverBack(r + [c] + more) <==> !LeftStopping(more)
  {
    var r' := r + [c] + more;
    assert r'[|r|] == c && forall k | 0 <= k < |r| :: r'[k] == r[k];
    if LeftStopping(more) {
      var k :| 0 <= k < |more| && more[k].state != STOP_PENDING && more[k].state != STOPPED;
      assert r'[|r| + 1 + k] == more[k];
    } else {
      assert forall k | |r| < k < |r'| :: r'[k] == more[k - |r| - 1];
    }
  }

  /** The step l reports StopPending, which the run a before it has not. */
  predicate FirstStopping(a: seq<Label>, l: Label) {
    NeverStopping(Reports(a)) && ReportOf(l) != [] && ReportOf(l)[0].state == STOP_PENDING
  }

  /** The deliveries whose answer is not StopPending, whatever the current status. */
  predicate Resumes(l: Label) {
    l.ToHandler? && (l.req.cmd == PAUSE || l.req.cmd == CONTINUE)
  }

  /** StopPending is the current status and the only one the handler has yet to report. */
  predicate Settled(s: Sys) {
    && Calm(s.h.pc)
    && (s.svc.loop.pc == Selecting ==> s.svc.loop.status.state == STOP_PENDING)
  }

  lemma FirstStoppingStep(p: Sys, l: Label, s: Sys)
    requires Inv(p) && Step(p, l) == Some(s)
    requires ReportOf(l) != [] && ReportOf(l)[0].state == STOP_PENDING
    ensures s.svc.loop.pc == Selecting && (Settled(s) || Unsettled(s.h.pc))
  {
    assert l.FromHandler? || l.FromWorker?;
  }

  lemma SettledStep(p: Sys, l: Label, s: Sys)
    requires Settled(p) && Step(p, l) == Some(s) && !Resumes(l)
    ensures Settled(s) && !LeftStopping(ReportOf(l))
  {
    LoopForward(p, l, s);
    if l.Env? || l.ToHandler? {
      assert s.svc.loop.pc == Selecting ==> s.svc.loop.status == p.svc.loop.status;
    }
  }

  lemma {:induction false} SettledRuns(s1: Sys, es: seq<Label>, s2: Sys)
    requires Settled(s1) && Exec(s1, es) == Some(s2) && CountIf(es, Resumes) == 0
    ensures Settled(s2) && !LeftStopping(Reports(es))
  {
    if es != [] {
      var p := Exec(s1, DropLast(es)).value;
      SettledRuns(s1, DropLast(es), p);
      SettledStep(p, Last(es), s2);
      LeftConcat(Reports(DropLast(es)), ReportOf(Last(es)));
    }
  }

  lemma {:induction false} ResumesDisturb(es: seq<Label>)
    ensures CountIf(es, Resumes) <= CountIf(es, Disturbs)
  {
    if es != [] {
      ResumesDisturb(DropLast(es));
    }
  }

  /** Every complete, failure-free run reports StopPending, and so has a first such report. */
  lemma StoppingIsReported(h: nat, scm: Record, es: seq<Label>, s: Sys)
    returns (a: seq<Label>, l: Label, b: seq<Label>)
    requires Exec(Initial(h, scm), es) == Some(s) && s.svc.loop.pc == Returned && FailureFree(es)
    ensures es == a + [l] + b && FirstStopping(a, l)
  {
    CompletedRunsAreInLanguage(h, scm, es, s);
    a, l, b := FirstOf(es);
  }

  lemma {:induction false} FirstOf(es: seq<Label>) returns (a: seq<Label>, l: Label, b: seq<Label>)
    requires !NeverStopping(Reports(es))
    ensures es == a + [l] + b && FirstStopping(a, l)
  {
    if NeverStopping(Reports(DropLast(es))) {
      a, l, b := DropLast(es), Last(es), [];
    } else {
      a, l, b := FirstOf(DropLast(es));
      FirstExtends(es, a, l, b);
      b := b + [Last(es)];
    }
  }

  lemma FirstExtends(es: seq<Label>, a: seq<Label>, l: Label, b: seq<Label>)
    requires es != [] && DropLast(es) == a + [l] + b
    ensures es == a + [l] + (b + [Last(es)])
  {
    assert es == DropLast(es) + [Last(es)];
    Assoc(a + [l], b, [Last(es)]);
  }

  lemma AtFirstStopping(h: nat, scm: Record, a: seq<Label>, l: Label, sl: Sys)
    requires Exec(Initial(h, scm), a + [l]) == Some(sl) && FirstStopping(a, l)
    ensures Inv(sl) && sl.svc.loop.pc == Selecting && (Settled(sl) || Unsettled(sl.h.pc))
    ensures Reports(a + [l]) == Reports(a) + [ReportOf(l)[0]]
  {
    ConcatEnds(a, [l]);
    assert DropLast(a + [l]) == a;
    var p := Exec(Initial(h, scm), a).value;
    Reachable(h, scm, a, p);
    Reachable(h, scm, a + [l], sl);
    FirstStoppingStep(p, l, sl);
  }

  lemma LeavesIff(s1: Sys, es: seq<Label>, s2: Sys)
    requires Inv(s1) && s1.svc.loop.pc == Selecting && (Settled(s1) || Unsettled(s1.h.pc))
    requires Exec(s1, es) == Some(s2) && s2.svc.loop.pc == Returned && FailureFree(es)
    ensures LeftStopping(Reports(es)) <==> !Calm(s1.h.pc) || CountIf(es, Resumes) > 0
  {
    if Calm(s1.h.pc) && CountIf(es, Resumes) == 0 {
      SettledRuns(s1, es, s2);
    } else {
      ResumesDisturb(es);
      DisturbanceShows(s1, es, s2);
    }
  }

  /**
    * When the reported state goes back. On a complete, failure-free run let l be the step that first reports
    * StopPending. Nothing but StopPending and Stopped is reported after it if and only if, just after l, the
    * handler is not about to report another status, or between two echoes of one, and no Pause or Continue
    * is delivered from then on. By StoppingIsReported there always is such an l. (With a second PreShutdown
    * this, too, is about the model only.)
    */
  lemma {:induction false} NeverBackIff(
    h: nat, scm: Record, a: seq<Label>, l: Label, sl: Sys, b: seq<Label>, s: Sys)
    requires Exec(Initial(h, scm), a + [l]) == Some(sl) && FirstStopping(a, l)
    requires Exec(Initial(h, scm), a + [l] + b) == Some(s) && s.svc.loop.pc == Returned && FailureFree(a + [l] + b)
    ensures NeverBack(Reports(a + [l] + b)) <==> Calm(sl.h.pc) && CountIf(b, Resumes) == 0
  {
    AtFirstStopping(h, scm, a, l, sl);
    ExecConcat(Initial(h, scm), a + [l], b);
    FailureFreeConcat(a + [l], b);
    LeavesIff(sl, b, s);
    ReportsConcat(a + [l], b);
    NeverBackFrom(Reports(a), ReportOf(l)[0], Reports(b));
  }

  // ---- Runs that meet the hypotheses above ----

  lemma CountThree(es: seq<Label>, t: (Label, Label, Label), p: Label -> bool)
    ensures CountIf(es + [t.0] + [t.1] + [t.2], p)
         == CountIf(es, p) + (if p(t.0) then 1 else 0) + (if p(t.1) then 1 else 0) + (if p(t.2) then 1 else 0)
  {
    CountSnoc(es, t.0, p);
    CountSnoc(es + [t.0], t.1, p);
    CountSnoc(es + [t.0] + [t.1], t.2, p);
  }

  lemma ProgressCounts(es: seq<Label>, c: Status)
    ensures CountIf(es + [WorkerAlone(Evaluate)] + [FromWorker(c, Ok)] + [WorkerAlone(Work)] + [WorkerAlone(Count)], Disturbs)
         == CountIf(es, Disturbs)
  {
    CountThree(es, (WorkerAlone(Evaluate), FromWorker(c, Ok), WorkerAlone(Work)), Disturbs);
    CountSnoc(es + [WorkerAlone(Evaluate)] + [FromWorker(c, Ok)] + [WorkerAlone(Work)], WorkerAlone(Count), Disturbs);
  }

  lemma GoesBack(r: seq<Status>, a: Status, b: Status)
    requires a.state == STOP_PENDING && b.state != STOP_PENDING && b.state != STOPPED
    ensures !NeverBack(r + [a, b])
  {
    assert (r + [a, b])[|r|] == a && (r + [a, b])[|r| + 1] == b;
  }

  /** A PreShutdown is delivered as soon as the service runs. */
  lemma EarlyPreShutdown(scm: Record) returns (es: seq<Label>, s: Sys)
    ensures JustPreShutdown(1, scm, es, s)
    ensures Listening(s) && s.svc.loop.h == 1 && s.svc.loop.status == RUNNING_STATUS && s.w == Worker(Evaluating, 1, false)
  {
    es, s := Begin(1, scm);
    var t := Telling(s, PRESHUTDOWN);
    SnocEnds(es + [t.0] + [t.1], t.2);
    es := Tell(Initial(1, scm), es, s, [STARTING] + [RUNNING_STATUS], 0, PRESHUTDOWN);
    s := Told(s, PRESHUTDOWN);
  }

  /**
    * A run that goes back: an Interrogate delivered before the worker's first report captures the status
    * Running, and its echo goes out after that report, so the SCM sees StopPending and then Running.
    */
  lemma StaleEcho(scm: Record) returns (es1: seq<Label>, s1: Sys, es2: seq<Label>, s2: Sys)
    ensures JustPreShutdown(1, scm, es1, s1)
    ensures Exec(s1, es2) == Some(s2) && CountIf(es2, Disturbs) == 1 && FailureFree(es2)
    ensures Reports(es2) == [Progress(1), RUNNING_STATUS] && !NeverBack(Reports(es1 + es2))
  {
    es1, s1 := EarlyPreShutdown(scm);
    es2, s2 := LateEcho(s1);
    ReportsConcat(es1, es2);
    GoesBack(Reports(es1), Progress(1), RUNNING_STATUS);
  }

  lemma LateEcho(s1: Sys) returns (es: seq<Label>, s2: Sys)
    requires Listening(s1) && s1.svc.loop.h == 1 && s1.svc.loop.status == RUNNING_STATUS
    requires s1.w == Worker(Evaluating, 1, false)
    ensures Clean(s1, es, s2, [Progress(1), RUNNING_STATUS], 0) && CountIf(es, Disturbs) == 1
  {
    var s := Told(s1, INTERROGATE);
    es := Tell(s1, [], s1, [], 0, INTERROGATE);
    CountThree([], Telling(s1, INTERROGATE), Disturbs);
    es := ProgressThenEcho(s1, es, s, RUNNING_STATUS);
    s2 := Sent(AfterProgress(s));
  }

  lemma ProgressThenEcho(s1: Sys, es: seq<Label>, s: Sys, c: Status) returns (es': seq<Label>)
    requires Clean(s1, es, s, [], 0) && s.svc.loop.pc == Selecting && s.svc.loop.h != 0
    requires s.w == Worker(Evaluating, 1, false) && s.h.pc == SendEcho1(c)
    ensures Clean(s1, es', Sent(AfterProgress(s)), [Progress(1), c], 0)
    ensures CountIf(es', Disturbs) == CountIf(es, Disturbs)
  {
    es' := ProgressOnce(s1, es, s, [], 0);
    ProgressCounts(es, Progress(1));
    CountSnoc(es', FromHandler(c, Ok), Disturbs);
    es' := SendNext(s1, es', AfterProgress(s), [] + [Progress(1)], 0);
    assert [] + [Progress(1)] + [c] == [Progress(1), c];
  }
}
