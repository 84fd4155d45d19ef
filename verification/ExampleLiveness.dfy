/**
  * Progress of the composed example service: it never deadlocks, its internal activity is bounded, and
  * a delivered Stop leads to Stopped within a computed number of steps.
  */
module ExampleLiveness {
  import opened Wrappers
  import opened ServiceStatus
  import opened RunLoop
  import opened ExampleHandler
  import opened ExampleService

  /** Every step except a tick and the arrival of a new control. */
  predicate Internal(l: Label) {
    l != HandlerAlone(Tick) && !IsArrival(l)
  }

  predicate IsArrival(l: Label) {
    l.Env? && l.e.Arrive?
  }

  predicate IsDelivery(l: Label) {
    l.ToHandler?
  }

  predicate IsTake(l: Label) {
    l.Env? && l.e.Take?
  }

  predicate IsFinal(l: Label) {
    l.Env? && l.e.Other? && l.e.loopEvent.Final?
  }

  function CountIf(es: seq<Label>, p: Label -> bool): nat {
    if es == [] then 0 else CountIf(DropLast(es), p) + if p(Last(es)) then 1 else 0
  }

  lemma CountSnoc(es: seq<Label>, l: Label, p: Label -> bool)
    ensures CountIf(es + [l], p) == CountIf(es, p) + if p(l) then 1 else 0
  {
    SnocEnds(es, l);
  }

  lemma {:induction false} CountConcat(a: seq<Label>, b: seq<Label>, p: Label -> bool)
    ensures CountIf(a + b, p) == CountIf(a, p) + CountIf(b, p)
  {
    if b == [] {
      assert a + b == a;
    } else {
      CountConcat(a, DropLast(b), p);
      ConcatEnds(a, b);
    }
  }

  // ---- Deadlock freedom ----

  /** Nothing is left to do: the handler waits at its select and every callback has returned. */
  predicate Idle(s: Sys) {
    && s.svc.loop.pc == Selecting && !s.svc.loop.outch
    && s.h.pc == Select && s.w.pc == NotStarted
    && forall i | 0 <= i < |s.svc.callbacks| :: s.svc.callbacks[i].stage == Back
  }

  function UpdateOutcome(h: nat): Outcome {
    if h == 0 then NoHandle else Ok
  }

  /** Names an enabled internal step. */
  lemma SomeStep(s: Sys) returns (l: Label)
    requires Inv(s) && s.w.pc != Overlapping && s.svc.loop.pc != Returned && !Idle(s)
    ensures Internal(l) && Step(s, l).Some?
  {
    var o := UpdateOutcome(s.svc.loop.h);
    match s.svc.loop.pc {
      case Finishing => l := Env(Other(Final(o)));
      case Signalling => l := Env(Other(Signal));
      case Selecting =>
        if Offers(s.h.pc).Some? {
          l := FromHandler(Offers(s.h.pc).value, o);
        } else {
          match s.h.pc {
            case Sleeping(_) => l := HandlerAlone(Wake);
            case ReadCheckpoint => l := HandlerAlone(Read(s.w.checkPoint));
            case Returning => l := HandlerExits(EXECUTE_RESULT);
            case Select => l := StepAtSelect(s);
          }
        }
    }
  }

  lemma StepAtSelect(s: Sys) returns (l: Label)
    requires Inv(s) && s.w.pc != Overlapping && s.svc.loop.pc == Selecting && s.h.pc == Select && !Idle(s)
    ensures Internal(l) && Step(s, l).Some?
  {
    if s.svc.loop.outch {
      l := ToHandler(ChangeRequest(s.svc.loop.cmd, s.svc.loop.status));
    } else if i :| 0 <= i < |s.svc.callbacks| && s.svc.callbacks[i].stage != Back {
      l := if s.svc.callbacks[i].stage == Blocked then Env(Take(i, s.svc.callbacks[i].ctl)) else Env(Return(i));
    } else {
      match s.w.pc {
        case Evaluating => l := WorkerAlone(Evaluate);
        case Sending(cp) => l := FromWorker(Progress(cp), UpdateOutcome(s.svc.loop.h));
        case Working => l := WorkerAlone(Work);
        case Counting => l := WorkerAlone(Count);
        case Closing => l := WorkerAlone(Close);
        case Finished => l := HandlerAlone(SeeShutdown);
      }
    }
  }

  /**
    * Deadlock freedom with at most one PreShutdown: before the loop has returned, a reachable state has
    * no enabled internal step exactly when the system is idle.
    */
  lemma {:induction false} QuietIffIdle(h: nat, scm: Record, es: seq<Label>, s: Sys)
    requires Exec(Initial(h, scm), es) == Some(s) && PreShutdowns(es) <= 1
    requires s.svc.loop.pc != Returned
    ensures (forall l | Internal(l) :: Step(s, l).None?) <==> Idle(s)
  {
    Reachable(h, scm, es, s);
    WorkerCountsPreShutdowns(h, scm, es, s);
    if !Idle(s) {
      var l := SomeStep(s);
      assert Internal(l) && Step(s, l).Some?;
    }
  }

  // ---- Bounded activity ----

  function HandlerRank(pc: HandlerPc): nat {
    match pc
    case Gone => 0
    case Returning => 1
    case SendStopping(_) => 2
    case ReadCheckpoint => 3
    case Select => 4
    case SendPaused => 5
    case SendContinued => 5
    case SendEcho2(_) => 5
    case Sleeping(_) => 6
    case SendEcho1(_) => 7
    case SendRunning => 5
    case SendStarting => 6
  }

  /** Four steps for every report still to come, and one to close the channel. */
  function WorkerRank(w: Worker): nat {
    var left := if w.checkPoint <= 30 then 4 * (31 - w.checkPoint as int) else 0;
    match w.pc
    case Evaluating => left + 1
    case Sending(_) => left
    case Working => if left >= 1 then left - 1 else 0
    case Counting => if left >= 2 then left - 2 else 0
    case Closing => 1
    case _ => 0
  }

  function LoopRank(pc: LoopPc): nat {
    match pc
    case Selecting => 2
    case Finishing => 2
    case Signalling => 1
    case Returned => 0
  }

  /** A pending command is worth more than anything its delivery can set off. */
  const PENDING_RANK := 200

  function CallbackRank(stage: Stage): nat {
    match stage
    case Blocked => PENDING_RANK + 2
    case Taken => 1
    case Back => 0
  }

  function CallbacksRank(cbs: seq<Callback>): nat {
    if cbs == [] then 0 else CallbacksRank(DropLast(cbs)) + CallbackRank(Last(cbs).stage)
  }

  lemma {:induction false} CallbacksRankUpdate(cbs: seq<Callback>, i: nat, cb: Callback)
    requires i < |cbs|
    ensures CallbacksRank(cbs[i := cb])
         == CallbacksRank(cbs) - CallbackRank(cbs[i].stage) + CallbackRank(cb.stage)
  {
    if i < |cbs| - 1 {
      CallbacksRankUpdate(DropLast(cbs), i, cb);
      assert DropLast(cbs[i := cb]) == DropLast(cbs)[i := cb];
    } else {
      assert DropLast(cbs[i := cb]) == DropLast(cbs);
    }
  }

  function Measure(s: Sys): nat {
    HandlerRank(s.h.pc) + WorkerRank(s.w) + LoopRank(s.svc.loop.pc)
    + (if s.svc.loop.outch then PENDING_RANK else 0) + CallbacksRank(s.svc.callbacks)
  }

  lemma MeasureEnv(s: Sys, e: SvcEvent, s': Sys)
    requires Step(s, Env(e)) == Some(s')
    ensures e.Arrive? ==> Measure(s') == Measure(s) + PENDING_RANK + 2
    ensures !e.Arrive? ==> Measure(s') < Measure(s)
  {
    var cbs := s.svc.callbacks;
    match e {
      case Arrive(ctl, on) =>
        assert DropLast(s'.svc.callbacks) == cbs;
      case Take(i, ctl) => CallbacksRankUpdate(cbs, i, Callback(ctl, Taken));
      case Return(i) => CallbacksRankUpdate(cbs, i, cbs[i].(stage := Back));
      case Other(_) =>
    }
  }

  lemma MeasureHandler(s: Sys, l: Label, s': Sys)
    requires l.FromHandler? || l.HandlerExits? || l.HandlerAlone?
    requires Inv(s) && Step(s, l) == Some(s')
    ensures if l == HandlerAlone(Tick) then s' == s else Measure(s') < Measure(s)
  {
    assert s'.w == s.w && s'.svc.callbacks == s.svc.callbacks && s'.svc.loop.outch == s.svc.loop.outch;
  }

  lemma MeasureWorker(s: Sys, l: Label, s': Sys)
    requires l.FromWorker? || l.WorkerAlone?
    requires Inv(s) && Step(s, l) == Some(s') && s'.w.pc != Overlapping
    ensures Measure(s') < Measure(s)
  {
    assert s'.h == s.h && s'.svc.callbacks == s.svc.callbacks && s'.svc.loop.outch == s.svc.loop.outch;
  }

  /** Every internal step decreases the measure; only the arrival of a control increases it. */
  lemma MeasureStep(s: Sys, l: Label, s': Sys)
    requires Inv(s) && Step(s, l) == Some(s') && s'.w.pc != Overlapping
    ensures Internal(l) ==> Measure(s') < Measure(s)
    ensures l == HandlerAlone(Tick) ==> s' == s
    ensures IsArrival(l) ==> Measure(s') == Measure(s) + PENDING_RANK + 2
  {
    match l {
      case Env(e) => MeasureEnv(s, e, s');
      case ToHandler(req) => assert s'.svc.callbacks == s.svc.callbacks && s.svc.loop.outch && !s'.svc.loop.outch;
      case FromHandler(_, _) => MeasureHandler(s, l, s');
      case HandlerExits(_) => MeasureHandler(s, l, s');
      case HandlerAlone(_) => MeasureHandler(s, l, s');
      case FromWorker(_, _) => MeasureWorker(s, l, s');
      case WorkerAlone(_) => MeasureWorker(s, l, s');
    }
  }

  lemma OverlappingStays(s: Sys, l: Label, s': Sys)
    requires Step(s, l) == Some(s') && s.w.pc == Overlapping
    ensures s'.w.pc == Overlapping
  {}

  lemma {:induction false} MeasureRuns(s0: Sys, es: seq<Label>, s: Sys)
    requires Inv(s0) && Exec(s0, es) == Some(s) && s.w.pc != Overlapping
    ensures CountIf(es, Internal) + Measure(s) <= Measure(s0) + (PENDING_RANK + 2) * CountIf(es, IsArrival)
  {
    if es != [] {
      var p := Exec(s0, DropLast(es)).value;
      if p.w.pc == Overlapping {
        OverlappingStays(p, Last(es), s);
      }
      MeasureRuns(s0, DropLast(es), p);
      InvRuns(s0, DropLast(es), p);
      MeasureStep(p, Last(es), s);
    }
  }

  /** Every run with at most one PreShutdown takes at most 8 + 202 n internal steps for n arriving controls. */
  lemma {:induction false} ActivityIsBounded(h: nat, scm: Record, es: seq<Label>, s: Sys)
    requires Exec(Initial(h, scm), es) == Some(s) && PreShutdowns(es) <= 1
    ensures CountIf(es, Internal) <= 8 + 202 * CountIf(es, IsArrival)
  {
    WorkerCountsPreShutdowns(h, scm, es, s);
    MeasureRuns(Initial(h, scm), es, s);
  }

  // ---- Stop leads to Stopped ----

  /** The handler has left its loop. */
  predicate Leaving(pc: HandlerPc) {
    pc == ReadCheckpoint || pc.SendStopping? || pc == Returning || pc == Gone
  }

  /** How often each kind of step can still happen once the handler is leaving. */
  datatype Budget = Budget(takes: nat, reports: nat, progress: nat, exits: nat, finals: nat)

  /** The progress reports the worker has yet to make. */
  function ReportsLeft(w: Worker): nat {
    if w.checkPoint > 30 then 0
    else if w.pc == Evaluating || w.pc.Sending? then 31 - w.checkPoint as int
    else if w.pc == Working || w.pc == Counting then 30 - w.checkPoint as int
    else 0
  }

  function BudgetOf(s: Sys): Budget {
    var running := s.svc.loop.pc == Selecting;
    Budget(
      if running && s.svc.loop.inch then 1 else 0,
      if running && (s.h.pc == ReadCheckpoint || s.h.pc.SendStopping?) then 1 else 0,
      ReportsLeft(s.w),
      if running then 1 else 0,
      if BeforeFinal(s.svc.loop) then 1 else 0)
  }

  function Spent(es: seq<Label>): Budget {
    Budget(
      CountIf(es, IsTake), CountIf(es, (l: Label) => l.FromHandler?), CountIf(es, (l: Label) => l.FromWorker?),
      CountIf(es, (l: Label) => l.HandlerExits?), CountIf(es, IsFinal))
  }

  /** The step l is within the budget b and leaves b'. */
  predicate Spends(b: Budget, l: Label, b': Budget) {
    && b'.takes + (if IsTake(l) then 1 else 0) <= b.takes
    && b'.reports + (if l.FromHandler? then 1 else 0) <= b.reports
    && b'.progress + (if l.FromWorker? then 1 else 0) <= b.progress
    && b'.exits + (if l.HandlerExits? then 1 else 0) <= b.exits
    && b'.finals + (if IsFinal(l) then 1 else 0) == b.finals
  }

  lemma LeavingEnv(s: Sys, e: SvcEvent, s': Sys)
    requires Inv(s) && Leaving(s.h.pc) && Step(s, Env(e)) == Some(s')
    ensures s'.h == s.h && s'.w == s.w && Spends(BudgetOf(s), Env(e), BudgetOf(s'))
  {
    match e {
      case Take(_, _) => assert s'.svc.loop.pc == Selecting ==> !s'.svc.loop.inch;
      case Other(_) =>
      case _ => assert s'.svc.loop == s.svc.loop;
    }
  }

  lemma LeavingHandler(s: Sys, l: Label, s': Sys)
    requires l.FromHandler? || l.HandlerExits? || l.HandlerAlone?
    requires Inv(s) && Leaving(s.h.pc) && Step(s, l) == Some(s')
    ensures Leaving(s'.h.pc) && l != HandlerAlone(Tick)
    ensures s'.w == s.w && Spends(BudgetOf(s), l, BudgetOf(s'))
  {
    if l.HandlerAlone? {
      assert s'.svc == s.svc;
    } else {
      assert s.svc.loop.pc == Selecting && (s.svc.loop.inch == s'.svc.loop.inch);
    }
  }

  lemma LeavingWorker(s: Sys, l: Label, s': Sys)
    requires l.FromWorker? || l.WorkerAlone?
    requires Inv(s) && Leaving(s.h.pc) && Step(s, l) == Some(s')
    ensures s'.h == s.h && (s'.w.pc == Overlapping <==> s.w.pc == Overlapping)
    ensures Spends(BudgetOf(s), l, BudgetOf(s'))
  {}

  lemma LeavingStep(s: Sys, l: Label, s': Sys)
    requires Inv(s) && Leaving(s.h.pc) && Step(s, l) == Some(s')
    ensures Leaving(s'.h.pc) && !IsDelivery(l) && l != HandlerAlone(Tick)
    ensures s'.w.pc == Overlapping <==> s.w.pc == Overlapping
    ensures Spends(BudgetOf(s), l, BudgetOf(s'))
  {
    if l.Env? {
      LeavingEnv(s, l.e, s');
    } else if l.FromWorker? || l.WorkerAlone? {
      LeavingWorker(s, l, s');
    } else if l.ToHandler? {
      assert false;
    } else {
      LeavingHandler(s, l, s');
    }
  }

  lemma {:induction false} LeavingRuns(s1: Sys, es: seq<Label>, s2: Sys)
    requires Inv(s1) && Leaving(s1.h.pc) && Exec(s1, es) == Some(s2)
    ensures Leaving(s2.h.pc) && (s2.w.pc == Overlapping <==> s1.w.pc == Overlapping)
    ensures CountIf(es, IsDelivery) == 0 && CountIf(es, (l: Label) => l == HandlerAlone(Tick)) == 0
    ensures var (b1, b2, d) := (BudgetOf(s1), BudgetOf(s2), Spent(es));
      && d.takes + b2.takes <= b1.takes
      && d.reports + b2.reports <= b1.reports
      && d.progress + b2.progress <= b1.progress
      && d.exits + b2.exits <= b1.exits
      && d.finals + b2.finals == b1.finals
  {
    if es != [] {
      var p := Exec(s1, DropLast(es)).value;
      LeavingRuns(s1, DropLast(es), p);
      InvRuns(s1, DropLast(es), p);
      LeavingStep(p, Last(es), s2);
    }
  }

  /**
    * After a Stop or Shutdown has been delivered, whichever select cases win and whether or not an update
    * fails: at most one more control is received and none delivered, the handler makes at most one report,
    * the worker at most its remaining ones (never more than 30), and Execute returns at most once. The
    * number of internal steps is bounded, and a run that can go no further has attempted Stopped exactly
    * once, has set cWaits and has returned from the loop.
    */
  lemma {:induction false} StopLeadsToStopped(h: nat, scm: Record, es1: seq<Label>, s1: Sys, es2: seq<Label>, s2: Sys)
    requires Exec(Initial(h, scm), es1) == Some(s1) && PreShutdowns(es1) <= 1
    requires es1 != [] && Last(es1).ToHandler? && (Last(es1).req.cmd == STOP || Last(es1).req.cmd == SHUTDOWN)
    requires Exec(s1, es2) == Some(s2)
    ensures CountIf(es2, IsDelivery) == 0 && CountIf(es2, (l: Label) => l == HandlerAlone(Tick)) == 0
    ensures var d := Spent(es2);
      d.takes <= 1 && d.reports <= 1 && d.progress <= ReportsLeft(s1.w) <= 30 && d.exits <= 1
    ensures CountIf(es2, Internal) + Measure(s2) <= Measure(s1) + 202 * CountIf(es2, IsArrival)
    ensures (forall l | Internal(l) :: Step(s2, l).None?) ==>
      s2.svc.loop.pc == Returned && s2.svc.loop.cWaits && Spent(es2).finals == 1
  {
    var p := Exec(Initial(h, scm), DropLast(es1)).value;
    Reachable(h, scm, DropLast(es1), p);
    Reachable(h, scm, es1, s1);
    WorkerCountsPreShutdowns(h, scm, es1, s1);
    DeliveredStop(p, Last(es1).req, s1);
    LeavingRuns(s1, es2, s2);
    InvRuns(s1, es2, s2);
    MeasureRuns(s1, es2, s2);
    if s2.svc.loop.pc != Returned {
      var l := SomeStep(s2);
      assert Internal(l) && Step(s2, l).Some?;
    }
  }

  lemma DeliveredStop(p: Sys, req: ChangeRequest, s: Sys)
    requires Step(p, ToHandler(req)) == Some(s) && (req.cmd == STOP || req.cmd == SHUTDOWN)
    ensures s.h.pc == ReadCheckpoint && s.svc.loop.pc == Selecting
  {}
}
