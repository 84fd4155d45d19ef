/**
  * What the PreShutdown worker reports over whole runs, whatever else happens: its check points in order,
  * when it closes the channel shutdown, and when one of its reports makes an answer to Interrogate stale.
  */
module ExampleWorker {
  import opened Wrappers
  import opened ServiceStatus
  import opened RunLoop
  import opened ExampleHandler
  import opened ExampleService
  import opened ExampleLiveness

  // ---- The thirty progress reports ----

  /** Progress reports with check points 1, 2, ..., n. */
  function Ramp(n: uint32): (r: seq<Status>)
    ensures |r| == n as int
    ensures forall k | 0 <= k < |r| :: r[k] == Progress(k as uint32 + 1)
  {
    if n == 0 then [] else Ramp(n - 1) + [Progress(n)]
  }

  /** How many progress reports the worker has made. */
  function Made(w: Worker): uint32 {
    match w.pc
    case Closing => 30
    case Finished => 30
    case Working => w.checkPoint
    case Counting => w.checkPoint
    case _ => if w.checkPoint > 0 then w.checkPoint - 1 else 0
  }

  /** The statuses the worker sends, accepted or not. */
  function WorkerReports(es: seq<Label>): seq<Status> {
    if es == [] then []
    else WorkerReports(DropLast(es)) + if Last(es).FromWorker? then [Last(es).s] else []
  }

  predicate IsClose(l: Label) {
    l == WorkerAlone(Close)
  }

  predicate IsWorkerReport(l: Label) {
    l.FromWorker?
  }

  predicate IsHandlerReport(l: Label) {
    l.FromHandler?
  }

  lemma MadeStep(p: Sys, l: Label, s: Sys)
    requires Inv(p) && Step(p, l) == Some(s) && s.w.pc != Overlapping
    ensures p.w.pc != Overlapping && 0 <= Made(p.w) <= Made(s.w) <= 30
    ensures if l.FromWorker? then Made(s.w) == Made(p.w) + 1 && l.s == Progress(Made(s.w)) else Made(s.w) == Made(p.w)
    ensures s.w.pc == Finished <==> p.w.pc == Finished || IsClose(l)
    ensures IsClose(l) ==> p.w.pc == Closing
  {}

  lemma {:induction false} WorkerRuns(s1: Sys, es: seq<Label>, s2: Sys)
    requires Inv(s1) && Exec(s1, es) == Some(s2) && s2.w.pc != Overlapping
    ensures s1.w.pc != Overlapping
    ensures Ramp(Made(s2.w)) == Ramp(Made(s1.w)) + WorkerReports(es)
    ensures CountIf(es, IsClose) + (if s1.w.pc == Finished then 1 else 0) == if s2.w.pc == Finished then 1 else 0
  {
    if es == [] {
      assert Ramp(Made(s1.w)) + [] == Ramp(Made(s1.w));
    } else {
      var (p, l) := (Exec(s1, DropLast(es)).value, Last(es));
      InvRuns(s1, DropLast(es), p);
      MadeStep(p, l, s2);
      WorkerRuns(s1, DropLast(es), p);
      Assoc(Ramp(Made(s1.w)), WorkerReports(DropLast(es)), if l.FromWorker? then [l.s] else []);
      assert Ramp(Made(p.w)) + [] == Ramp(Made(p.w));
    }
  }

  lemma {:induction false} WorkerRunsFromZero(s1: Sys, es: seq<Label>, s2: Sys)
    requires Inv(s1) && Exec(s1, es) == Some(s2) && s2.w.pc != Overlapping
    requires Made(s1.w) == 0 && s1.w.pc != Finished
    ensures WorkerReports(es) == Ramp(Made(s2.w))
    ensures CountIf(es, IsClose) == if s2.w.pc == Finished then 1 else 0
  {
    WorkerRuns(s1, es, s2);
    assert Ramp(0) + WorkerReports(es) == WorkerReports(es);
  }

  /**
    * In every run with at most one PreShutdown, whatever else is delivered and whichever updates fail, the
    * worker's statuses are check points 1, 2, 3, ... with wait hint 3000, never more than thirty; shutdown is
    * closed at most once, and then after the thirtieth.
    */
  lemma {:induction false} CheckPointsInOrder(h: nat, scm: Record, es: seq<Label>, s: Sys)
    requires Exec(Initial(h, scm), es) == Some(s) && PreShutdowns(es) <= 1
    ensures WorkerReports(es) == Ramp(Made(s.w)) && Made(s.w) <= 30
    ensures forall k | 0 <= k < |WorkerReports(es)| ::
      WorkerReports(es)[k] == Status(STOP_PENDING, 0, (k + 1) as uint32, 3000)
    ensures CountIf(es, IsClose) == if s.w.pc == Finished then 1 else 0
    ensures forall k | 0 <= k < |es| && IsClose(es[k]) :: WorkerReports(es[..k]) == Ramp(30)
  {
    Reachable(h, scm, es, s);
    WorkerCountsPreShutdowns(h, scm, es, s);
    WorkerRunsFromZero(Initial(h, scm), es, s);
    forall k | 0 <= k < |es| && IsClose(es[k])
      ensures WorkerReports(es[..k]) == Ramp(30)
    {
      ClosedAfterThirty(Initial(h, scm), es, s, k);
    }
  }

  lemma {:induction false} ClosedAfterThirty(s1: Sys, es: seq<Label>, s2: Sys, k: nat)
    requires Inv(s1) && Exec(s1, es) == Some(s2) && Made(s1.w) == 0 && s1.w.pc != Finished
    requires k < |es| && IsClose(es[k])
    ensures Exec(s1, es[..k]).Some? && Exec(s1, es[..k]).value.w.pc == Closing
    ensures WorkerReports(es[..k]) == Ramp(30)
  {
    var p, s := StepAt(s1, es, s2, k);
    CloseStep(p, s);
    WorkerRunsFromZero(s1, es[..k], p);
  }

  lemma CloseStep(p: Sys, s: Sys)
    requires Step(p, WorkerAlone(Close)) == Some(s)
    ensures p.w.pc == Closing && Made(p.w) == 30
  {}

  /** The states before and after step k of a run. */
  lemma StepAt(s1: Sys, es: seq<Label>, s2: Sys, k: nat) returns (p: Sys, s: Sys)
    requires Exec(s1, es) == Some(s2) && k < |es|
    ensures Exec(s1, es[..k]) == Some(p) && Step(p, es[k]) == Some(s)
  {
    assert es[..k + 1] + es[k + 1..] == es && DropLast(es[..k + 1]) == es[..k];
    ExecPrefix(s1, es[..k + 1], es[k + 1..]);
    p, s := Exec(s1, es[..k]).value, Exec(s1, es[..k + 1]).value;
  }

  /** After the worker's k-th report has been accepted the SCM is told check point k and wait hint 3000. */
  lemma {:induction false} ProgressShown(h: nat, scm: Record, es: seq<Label>, c: Status, s: Sys)
    requires Exec(Initial(h, scm), es + [FromWorker(c, Ok)]) == Some(s) && PreShutdowns(es) <= 1
    ensures var k := |WorkerReports(es)| + 1;
      k <= 30 && Tells(s.svc.loop.scm, Status(STOP_PENDING, 0, k as uint32, 3000), ExitCode(false, 0))
  {
    SnocEnds(es, FromWorker(c, Ok));
    var p := Exec(Initial(h, scm), es).value;
    Reachable(h, scm, es, p);
    WorkerCountsPreShutdowns(h, scm, es, p);
    CheckPointsInOrder(h, scm, es, p);
    MadeStep(p, FromWorker(c, Ok), s);
    RecordTells(c, NO_EXIT);
  }

  // ---- Stale answers to Interrogate ----

  /** The handler is answering an Interrogate with the status c. */
  predicate Echoing(pc: HandlerPc, c: Status) {
    pc == SendEcho1(c) || pc == Sleeping(c) || pc == SendEcho2(c)
  }

  /** No status held or about to be echoed is ahead of the worker. */
  predicate NotAhead(s: Sys) {
    s.svc.loop.pc == Selecting ==>
      && (s.h.pc != Returning ==> s.svc.loop.status.checkPoint <= Made(s.w))
      && (s.h.pc.SendEcho1? || s.h.pc.Sleeping? || s.h.pc.SendEcho2? ==> s.h.pc.s.checkPoint <= Made(s.w))
  }

  lemma NotAheadStep(p: Sys, l: Label, s: Sys)
    requires Inv(p) && NotAhead(p) && Step(p, l) == Some(s) && s.w.pc != Overlapping
    ensures NotAhead(s)
  {
    MadeStep(p, l, s);
    LoopForward(p, l, s);
    if l.FromWorker? {
      assert s.h == p.h;
    } else if l.FromHandler? {
      assert s.svc.loop.pc == Selecting ==> s.svc.loop.status == l.s && s.h == AfterSend(p.h);
    } else {
      assert s.svc.loop.status == p.svc.loop.status;
    }
  }

  lemma {:induction false} NeverAhead(h: nat, scm: Record, es: seq<Label>, s: Sys)
    requires Exec(Initial(h, scm), es) == Some(s) && s.w.pc != Overlapping
    ensures NotAhead(s)
  {
    if es != [] {
      var p := Exec(Initial(h, scm), DropLast(es)).value;
      Reachable(h, scm, DropLast(es), p);
      MadeStep(p, Last(es), s);
      NeverAhead(h, scm, DropLast(es), p);
      NotAheadStep(p, Last(es), s);
    }
  }

  /** While the handler answers with c: the status is still c, unless the worker has reported a later one. */
  predicate Fresh(s: Sys, c: Status, reported: bool) {
    s.svc.loop.pc == Selecting ==>
      && Echoing(s.h.pc, c) && c.checkPoint <= Made(s.w)
      && (if reported then s.svc.loop.status.checkPoint > c.checkPoint else s.svc.loop.status == c)
  }

  lemma FreshStep(p: Sys, l: Label, s: Sys, c: Status, reported: bool)
    requires Inv(p) && Fresh(p, c, reported) && Step(p, l) == Some(s) && s.w.pc != Overlapping && !l.FromHandler?
    ensures Fresh(s, c, reported || l.FromWorker?)
  {
    MadeStep(p, l, s);
    LoopForward(p, l, s);
  }

  lemma {:induction false} FreshRuns(s1: Sys, es: seq<Label>, s2: Sys, c: Status)
    requires Inv(s1) && Fresh(s1, c, false) && Exec(s1, es) == Some(s2) && s2.w.pc != Overlapping
    requires CountIf(es, IsHandlerReport) == 0
    ensures Fresh(s2, c, CountIf(es, IsWorkerReport) > 0)
  {
    if es != [] {
      var p := Exec(s1, DropLast(es)).value;
      InvRuns(s1, DropLast(es), p);
      MadeStep(p, Last(es), s2);
      FreshRuns(s1, DropLast(es), p, c);
      FreshStep(p, Last(es), s2, c, CountIf(DropLast(es), IsWorkerReport) > 0);
    }
  }

  /** The delivery of an Interrogate, or the first of its two echoes going through. */
  predicate StartsEcho(l: Label, s: Sys) {
    || (l.ToHandler? && l.req.cmd == INTERROGATE)
    || (l.FromHandler? && l.o == Ok && s.h.pc.Sleeping?)
  }

  /**
    * When Interrogate is a no-op, with at most one PreShutdown: let l deliver an Interrogate, or be its first
    * echo. The next echo, when it is accepted, leaves the SCM's record as it is if and only if the worker
    * has made no report since l.
    */
  lemma {:induction false} EchoIsNoOpIff(
    h: nat, scm: Record, a: seq<Label>, l: Label, s1: Sys, b: seq<Label>, s: Sys, c: Status, s': Sys)
    requires Exec(Initial(h, scm), a + [l]) == Some(s1) && StartsEcho(l, s1)
    requires Exec(s1, b) == Some(s) && CountIf(b, IsHandlerReport) == 0 && PreShutdowns(a + [l] + b) <= 1
    requires s.h.pc.SendEcho1? || s.h.pc.SendEcho2?
    requires Step(s, FromHandler(c, Ok)) == Some(s')
    ensures s'.svc.loop.scm == s.svc.loop.scm <==> CountIf(b, IsWorkerReport) == 0
  {
    var s0 := Initial(h, scm);
    ExecConcat(s0, a + [l], b);
    WorkerCountsPreShutdowns(h, scm, a + [l] + b, s);
    EchoStarts(h, scm, a, l, s1, b, s);
    FreshRuns(s1, b, s, s1.svc.loop.status);
    InvRuns(s1, b, s);
    EchoedRecord(s, c, s');
  }

  lemma {:induction false} EchoStarts(h: nat, scm: Record, a: seq<Label>, l: Label, s1: Sys, b: seq<Label>, s: Sys)
    requires Exec(Initial(h, scm), a + [l]) == Some(s1) && StartsEcho(l, s1)
    requires Exec(s1, b) == Some(s) && s.w.pc != Overlapping
    ensures Inv(s1) && Fresh(s1, s1.svc.loop.status, false)
  {
    var p := Exec(Initial(h, scm), DropLast(a + [l])).value;
    SnocEnds(a, l);
    Reachable(h, scm, a, p);
    Reachable(h, scm, a + [l], s1);
    WorkerRuns(s1, b, s);
    NeverAhead(h, scm, a + [l], s1);
    EchoStartStep(p, l, s1);
  }

  lemma EchoStartStep(p: Sys, l: Label, s: Sys)
    requires Inv(p) && Step(p, l) == Some(s) && StartsEcho(l, s) && NotAhead(s)
    ensures Fresh(s, s.svc.loop.status, false)
  {}

  lemma EchoedRecord(s: Sys, c: Status, s': Sys)
    requires Inv(s) && (s.h.pc.SendEcho1? || s.h.pc.SendEcho2?) && Step(s, FromHandler(c, Ok)) == Some(s')
    ensures s.svc.loop.pc == Selecting && Echoing(s.h.pc, c)
    ensures s.svc.loop.scm == RecordOf(s.svc.loop.status, NO_EXIT) && s'.svc.loop.scm == RecordOf(c, NO_EXIT)
  {}
}
