/** What the example handler reports at start-up and in answer to each command, in every interleaving. */
module ExampleAnswers {
  import opened Wrappers
  import opened ServiceStatus
  import opened RunLoop
  import opened ExampleHandler
  import opened ExampleService
  import opened ExampleLiveness
  import opened ExampleWorker

  // The reports in the numbers of the Windows headers: states 2, 4 and 7 are START_PENDING, RUNNING and PAUSED;
  // 0x107 accepts Stop (1), Pause and Continue (2), Shutdown (4) and PreShutdown (0x100).
  const START_PENDING_REPORT := Status(2, 0, 0, 0)
  const RUNNING_REPORT := Status(4, 0x107, 0, 0)
  const PAUSED_REPORT := Status(7, 0x107, 0, 0)

  // ---- Start-up ----

  /** How a failure-free run starts: r has been reported when it has come to s. */
  predicate Opens(r: seq<Status>, s: Sys) {
    && (s.svc.loop.pc != Selecting ==> s.h.pc == Gone)
    && (if s.h.pc == SendStarting then r == []
        else if s.h.pc == SendRunning then r == [START_PENDING_REPORT]
        else |r| >= 2 && r[0] == START_PENDING_REPORT && r[1] == RUNNING_REPORT)
  }

  lemma OpensStep(r: seq<Status>, p: Sys, l: Label, s: Sys)
    requires Inv(p) && Opens(r, p) && Step(p, l) == Some(s) && !Failing(l)
    ensures Opens(r + ReportOf(l), s)
  {
    LoopForward(p, l, s);
    if l.FromHandler? {
      assert Offers(p.h.pc) == Some(l.s) && s.h == AfterSend(p.h);
    } else if l.FromWorker? {
      assert s.h == p.h && p.w.pc != NotStarted;
    } else if l.Env? {
      assert s.h == p.h;
    }
  }

  /** The first two reports of every failure-free run are StartPending, and Running with four controls accepted. */
  lemma {:induction false} StartsUp(h: nat, scm: Record, es: seq<Label>, s: Sys)
    requires Exec(Initial(h, scm), es) == Some(s) && FailureFree(es)
    ensures Opens(Reports(es), s)
    ensures Reports(es) <= [START_PENDING_REPORT, RUNNING_REPORT] || [START_PENDING_REPORT, RUNNING_REPORT] <= Reports(es)
  {
    if es != [] {
      var p := Exec(Initial(h, scm), DropLast(es)).value;
      Reachable(h, scm, DropLast(es), p);
      StartsUp(h, scm, DropLast(es), p);
      OpensStep(Reports(DropLast(es)), p, Last(es), s);
    }
  }

  // ---- Commands ----

  // Control codes, in the same numbers.
  const CONTROL_STOP: Cmd := 1
  const CONTROL_PAUSE: Cmd := 2
  const CONTROL_CONTINUE: Cmd := 3
  const CONTROL_INTERROGATE: Cmd := 4
  const CONTROL_SHUTDOWN: Cmd := 5
  const CONTROL_PRESHUTDOWN: Cmd := 15

  predicate CallsForReport(cmd: Cmd) {
    || cmd == CONTROL_PAUSE || cmd == CONTROL_CONTINUE || cmd == CONTROL_INTERROGATE
    || cmd == CONTROL_STOP || cmd == CONTROL_SHUTDOWN
  }

  /** The command req was delivered in state p; in s the handler has yet to answer it. */
  predicate Answering(req: ChangeRequest, p: Sys, s: Sys) {
    if req.cmd == CONTROL_PAUSE then s.h == p.h.(pc := SendPaused)
    else if req.cmd == CONTROL_CONTINUE then s.h == p.h.(pc := SendContinued)
    else if req.cmd == CONTROL_INTERROGATE then s.h == p.h.(pc := SendEcho1(p.svc.loop.status))
    else
      && p.w.checkPoint <= s.w.checkPoint && s.h.slow == p.h.slow
      && (s.h.pc == ReadCheckpoint
          || (s.h.pc.SendStopping? && p.w.checkPoint <= s.h.pc.checkPoint <= s.w.checkPoint))
  }

  /** The answer c to req: what it says, and how the handler goes on in state s'. */
  predicate Answers(req: ChangeRequest, p: Sys, s: Sys, c: Status, s': Sys) {
    if req.cmd == CONTROL_PAUSE then c == PAUSED_REPORT && s'.h == Handler(Select, true)
    else if req.cmd == CONTROL_CONTINUE then c == RUNNING_REPORT && s'.h == Handler(Select, false)
    else if req.cmd == CONTROL_INTERROGATE then c == req.currentStatus == p.svc.loop.status && s'.h == p.h.(pc := Sleeping(c))
    else
      && c == Status(3, 0, c.checkPoint, 0) && p.w.checkPoint <= c.checkPoint <= s.w.checkPoint
      && s'.h.pc == Returning
  }

  lemma Delivery(p: Sys, req: ChangeRequest, s: Sys)
    requires Step(p, ToHandler(req)) == Some(s)
    ensures req.currentStatus == p.svc.loop.status && s.svc.loop.status == p.svc.loop.status && p.h.pc == Select
    ensures CallsForReport(req.cmd) ==> Answering(req, p, s)
    ensures !CallsForReport(req.cmd) ==> s.h == p.h
    ensures req.cmd != CONTROL_PRESHUTDOWN ==> s.w == p.w
    ensures req.cmd == CONTROL_PRESHUTDOWN && p.w.pc == NotStarted ==> s.w == p.w.(pc := Evaluating)
  {}

  lemma AnsweringStep(req: ChangeRequest, p: Sys, s: Sys, l: Label, s': Sys)
    requires CallsForReport(req.cmd) && Answering(req, p, s) && Step(s, l) == Some(s') && !l.FromHandler?
    ensures Answering(req, p, s')
  {
    if l.Env? || l.FromWorker? || l.WorkerAlone? {
      assert s'.h == s.h && s.w.checkPoint <= s'.w.checkPoint;
    } else if l.HandlerAlone? {
      assert s'.w == s.w;
    }
  }

  lemma {:induction false} AnsweringRuns(req: ChangeRequest, p: Sys, s1: Sys, es: seq<Label>, s: Sys)
    requires CallsForReport(req.cmd) && Answering(req, p, s1) && Exec(s1, es) == Some(s)
    requires CountIf(es, IsHandlerReport) == 0
    ensures Answering(req, p, s)
  {
    if es != [] {
      var q := Exec(s1, DropLast(es)).value;
      AnsweringRuns(req, p, s1, DropLast(es), q);
      AnsweringStep(req, p, q, Last(es), s);
    }
  }

  lemma AnswerStep(req: ChangeRequest, p: Sys, s: Sys, c: Status, o: Outcome, s': Sys)
    requires CallsForReport(req.cmd) && Answering(req, p, s) && Step(s, FromHandler(c, o)) == Some(s')
    requires req.currentStatus == p.svc.loop.status
    ensures Answers(req, p, s, c, s')
  {
    assert Offers(s.h.pc) == Some(c);
  }

  /**
    * What a command does, wherever it is delivered and whatever happens in the steps b after it in which the
    * handler reports nothing: its next report is the answer. Pause is answered with Paused and puts the handler on the slow tick, Continue with Running on the
    * fast one, Interrogate with the status it carries, which is the loop's, and Stop and Shutdown with
    * StopPending, a check point the worker had reached by then, and the return.
    */
  lemma {:induction false} CommandsAnswered(
    p: Sys, req: ChangeRequest, s1: Sys, b: seq<Label>, s: Sys, c: Status, o: Outcome, s': Sys)
    requires CallsForReport(req.cmd) && Step(p, ToHandler(req)) == Some(s1)
    requires Exec(s1, b) == Some(s) && CountIf(b, IsHandlerReport) == 0 && Step(s, FromHandler(c, o)) == Some(s')
    ensures Answers(req, p, s, c, s')
  {
    Delivery(p, req, s1);
    AnsweringRuns(req, p, s1, b, s);
    AnswerStep(req, p, s, c, o, s');
  }

  /** Until it has given its answer the handler is about to give it, or about to read the check point for it. */
  lemma {:induction false} AnswerIsDue(p: Sys, req: ChangeRequest, s1: Sys, b: seq<Label>, s: Sys)
    requires CallsForReport(req.cmd) && Step(p, ToHandler(req)) == Some(s1)
    requires Exec(s1, b) == Some(s) && CountIf(b, IsHandlerReport) == 0
    ensures s.h.pc == ReadCheckpoint || Offers(s.h.pc).Some?
  {
    Delivery(p, req, s1);
    AnsweringRuns(req, p, s1, b, s);
  }

  /**
    * PreShutdown starts the worker at check point 1; it and any command but those five leave the handler as it
    * was, at its select and on the same tick, and nothing but a PreShutdown touches the worker.
    */
  lemma {:induction false} OtherCommands(h: nat, scm: Record, a: seq<Label>, p: Sys, req: ChangeRequest, s: Sys)
    requires Exec(Initial(h, scm), a) == Some(p) && Step(p, ToHandler(req)) == Some(s)
    ensures !CallsForReport(req.cmd) ==> s.h == p.h && s.h.pc == Select
    ensures req.cmd == CONTROL_PRESHUTDOWN && PreShutdowns(a) == 0 ==> s.w == Worker(Evaluating, 1, false)
    ensures req.cmd != CONTROL_PRESHUTDOWN ==> s.w == p.w
  {
    Delivery(p, req, s);
    Reachable(h, scm, a, p);
    WorkerCountsPreShutdowns(h, scm, a, p);
  }

  /** Between the echoes, and with the second one about to go out: the status is the first one's. */
  predicate Halfway(c: Status, slow: bool, h: Handler) {
    (h.pc == Sleeping(c) || h.pc == SendEcho2(c)) && h.slow == slow
  }

  lemma {:induction false} HalfwayRuns(c: Status, slow: bool, s1: Sys, es: seq<Label>, s: Sys)
    requires Halfway(c, slow, s1.h) && Exec(s1, es) == Some(s) && CountIf(es, IsHandlerReport) == 0
    ensures Halfway(c, slow, s.h)
  {
    if es != [] {
      HalfwayRuns(c, slow, s1, DropLast(es), Exec(s1, DropLast(es)).value);
    }
  }

  /** After its first echo of c the handler's next report is c again, and then it is back at its select. */
  lemma SecondEcho(s0: Sys, c: Status, o: Outcome, s1: Sys, b: seq<Label>, s: Sys, c': Status, o': Outcome, s': Sys)
    requires s0.h.pc.SendEcho1? && Step(s0, FromHandler(c, o)) == Some(s1)
    requires Exec(s1, b) == Some(s) && CountIf(b, IsHandlerReport) == 0 && Step(s, FromHandler(c', o')) == Some(s')
    ensures c' == c && s'.h == s0.h.(pc := Select)
  {
    HalfwayRuns(c, s0.h.slow, s1, b, s);
  }

  /** After the last StopPending the handler's only act is to return zero values. */
  lemma OnlyReturns(s: Sys, l: Label, s': Sys)
    requires s.h.pc == Returning && Step(s, l) == Some(s') && s'.h != s.h
    ensures l == HandlerExits(ExitCode(false, 0)) && s'.h.pc == Gone
  {}
}
