/** Putting failure-free runs of the example service together, one delivery or report at a time. */
module ExampleRuns {
  import opened Wrappers
  import opened ServiceStatus
  import opened RunLoop
  import opened ExampleHandler
  import opened ExampleService

  /** A failure-free run from s0: where it ends, what it reports, and how many PreShutdowns it delivers. */
  predicate Clean(s0: Sys, es: seq<Label>, s: Sys, r: seq<Status>, preShutdowns: nat) {
    Exec(s0, es) == Some(s) && FailureFree(es) && Reports(es) == r && PreShutdowns(es) == preShutdowns
  }

  function PreShutdownIn(l: Label): nat {
    if l.ToHandler? && l.req.cmd == PRESHUTDOWN then 1 else 0
  }

  lemma Extend(s0: Sys, es: seq<Label>, s: Sys, r: seq<Status>, n: nat, l: Label, s': Sys)
    requires Clean(s0, es, s, r, n) && Step(s, l) == Some(s') && !Failing(l)
    ensures Clean(s0, es + [l], s', r + ReportOf(l), n + PreShutdownIn(l))
  {
    SnocEnds(es, l);
  }

  lemma ExtendSilently(s0: Sys, es: seq<Label>, s: Sys, r: seq<Status>, n: nat, l: Label, s': Sys)
    requires Clean(s0, es, s, r, n) && Step(s, l) == Some(s') && !Failing(l) && ReportOf(l) == []
    ensures Clean(s0, es + [l], s', r, n + PreShutdownIn(l))
  {
    Extend(s0, es, s, r, n, l, s');
    assert r + [] == r;
  }

  // ---- A command ----

  /** The handler waits at its select, and no command is on its way to it. */
  predicate Listening(s: Sys) {
    s.svc.loop.pc == Selecting && s.svc.loop.inch && !s.svc.loop.outch && s.h.pc == Select
  }

  function Arrived(s: Sys, cmd: Cmd): Sys {
    s.(svc := s.svc.(callbacks := s.svc.callbacks + [Callback(CtlEvent(cmd, 0), Blocked)]))
  }

  function Held(s: Sys, cmd: Cmd): Sys {
    s.(svc := Svc(s.svc.loop.(inch := false, outch := true, cmd := cmd),
                  s.svc.callbacks + [Callback(CtlEvent(cmd, 0), Taken)]))
  }

  /** After the command has arrived, been received and been delivered. */
  function Told(s: Sys, cmd: Cmd): Sys {
    Sys(Svc(s.svc.loop.(inch := true, outch := false, cmd := cmd),
            s.svc.callbacks + [Callback(CtlEvent(cmd, 0), Taken)]),
        s.h.(pc := OnCommand(ChangeRequest(cmd, s.svc.loop.status))),
        if cmd == PRESHUTDOWN then Spawned(s.w) else s.w)
  }

  function Telling(s: Sys, cmd: Cmd): (Label, Label, Label) {
    (Env(Arrive(cmd, true)), Env(Take(|s.svc.callbacks|, CtlEvent(cmd, 0))),
     ToHandler(ChangeRequest(cmd, s.svc.loop.status)))
  }

  lemma TellingSteps(s: Sys, cmd: Cmd)
    requires Listening(s)
    ensures var t := Telling(s, cmd);
      && Step(s, t.0) == Some(Arrived(s, cmd))
      && Step(Arrived(s, cmd), t.1) == Some(Held(s, cmd))
      && Step(Held(s, cmd), t.2) == Some(Told(s, cmd))
  {
    var cbs := s.svc.callbacks;
    var taken := Callback(CtlEvent(cmd, 0), Taken);
    assert (cbs + [Callback(CtlEvent(cmd, 0), Blocked)])[|cbs| := taken] == cbs + [taken];
  }

  lemma Tell(s0: Sys, es: seq<Label>, s: Sys, r: seq<Status>, n: nat, cmd: Cmd) returns (es': seq<Label>)
    requires Clean(s0, es, s, r, n) && Listening(s)
    ensures es' == es + [Telling(s, cmd).0] + [Telling(s, cmd).1] + [Telling(s, cmd).2]
    ensures Clean(s0, es', Told(s, cmd), r, n + if cmd == PRESHUTDOWN then 1 else 0)
  {
    var (a, b, c) := Telling(s, cmd);
    TellingSteps(s, cmd);
    ExtendSilently(s0, es, s, r, n, a, Arrived(s, cmd));
    ExtendSilently(s0, es + [a], Arrived(s, cmd), r, n, b, Held(s, cmd));
    ExtendSilently(s0, es + [a] + [b], Held(s, cmd), r, n, c, Told(s, cmd));
    es' := es + [a] + [b] + [c];
  }

  // ---- A report ----

  function Reported(s: Sys, c: Status): Svc {
    s.svc.(loop := s.svc.loop.(status := c, scm := RecordOf(c, s.svc.loop.ec)))
  }

  /** After the handler's next report has been accepted. */
  function Sent(s: Sys): Sys
    requires Offers(s.h.pc).Some?
  {
    Sys(Reported(s, Offers(s.h.pc).value), AfterSend(s.h), s.w)
  }

  lemma SendStep(s: Sys)
    requires s.svc.loop.pc == Selecting && s.svc.loop.h != 0 && Offers(s.h.pc).Some?
    ensures Step(s, FromHandler(Offers(s.h.pc).value, Ok)) == Some(Sent(s))
  {}

  lemma SendNext(s0: Sys, es: seq<Label>, s: Sys, r: seq<Status>, n: nat) returns (es': seq<Label>)
    requires Clean(s0, es, s, r, n) && s.svc.loop.pc == Selecting && s.svc.loop.h != 0 && Offers(s.h.pc).Some?
    ensures es' == es + [FromHandler(Offers(s.h.pc).value, Ok)]
    ensures Clean(s0, es', Sent(s), r + [Offers(s.h.pc).value], n)
  {
    var l := FromHandler(Offers(s.h.pc).value, Ok);
    SendStep(s);
    Extend(s0, es, s, r, n, l, Sent(s));
    es' := es + [l];
  }

  /** The worker in the middle of its work: at pc after the report, or before it. */
  function AtWork(s: Sys, pc: WorkerPc): Sys {
    Sys(if pc.Sending? then s.svc else Reported(s, Progress(s.w.checkPoint)), s.h, s.w.(pc := pc))
  }

  /** After one report of the worker and the work that follows it. */
  function AfterProgress(s: Sys): Sys
    requires s.w.checkPoint <= 30
  {
    var k := s.w.checkPoint;
    Sys(Reported(s, Progress(k)), s.h, s.w.(checkPoint := k + 1, pc := if k + 1 > 30 then Closing else Evaluating))
  }

  lemma ProgressSteps(s: Sys)
    requires s.svc.loop.pc == Selecting && s.svc.loop.h != 0 && s.w.pc == Evaluating && s.w.checkPoint <= 30
    ensures var k := s.w.checkPoint;
      && Step(s, WorkerAlone(Evaluate)) == Some(AtWork(s, Sending(k)))
      && Step(AtWork(s, Sending(k)), FromWorker(Progress(k), Ok)) == Some(AtWork(s, Working))
      && Step(AtWork(s, Working), WorkerAlone(Work)) == Some(AtWork(s, Counting))
      && Step(AtWork(s, Counting), WorkerAlone(Count)) == Some(AfterProgress(s))
  {}

  lemma ProgressOnce(s0: Sys, es: seq<Label>, s: Sys, r: seq<Status>, n: nat) returns (es': seq<Label>)
    requires Clean(s0, es, s, r, n) && s.svc.loop.pc == Selecting && s.svc.loop.h != 0
    requires s.w.pc == Evaluating && s.w.checkPoint <= 30
    ensures es' == es + [WorkerAlone(Evaluate)] + [FromWorker(Progress(s.w.checkPoint), Ok)]
                      + [WorkerAlone(Work)] + [WorkerAlone(Count)]
    ensures Clean(s0, es', AfterProgress(s), r + [Progress(s.w.checkPoint)], n)
  {
    var k, c := s.w.checkPoint, Progress(s.w.checkPoint);
    ProgressSteps(s);
    ExtendSilently(s0, es, s, r, n, WorkerAlone(Evaluate), AtWork(s, Sending(k)));
    var es1 := es + [WorkerAlone(Evaluate)];
    Extend(s0, es1, AtWork(s, Sending(k)), r, n, FromWorker(c, Ok), AtWork(s, Working));
    es' := CountOn(s0, es1 + [FromWorker(c, Ok)], s, r + [c], n);
  }

  lemma CountOn(s0: Sys, es: seq<Label>, s: Sys, r: seq<Status>, n: nat) returns (es': seq<Label>)
    requires Clean(s0, es, AtWork(s, Working), r, n) && s.svc.loop.pc == Selecting && s.svc.loop.h != 0
    requires s.w.pc == Evaluating && s.w.checkPoint <= 30
    ensures es' == es + [WorkerAlone(Work)] + [WorkerAlone(Count)]
    ensures Clean(s0, es', AfterProgress(s), r, n)
  {
    ProgressSteps(s);
    ExtendSilently(s0, es, AtWork(s, Working), r, n, WorkerAlone(Work), AtWork(s, Counting));
    ExtendSilently(s0, es + [WorkerAlone(Work)], AtWork(s, Counting), r, n, WorkerAlone(Count), AfterProgress(s));
    es' := es + [WorkerAlone(Work)] + [WorkerAlone(Count)];
  }

  /** Both echoes of an Interrogate, with the sleep between them. */
  lemma Echo(s0: Sys, es: seq<Label>, s: Sys, r: seq<Status>, n: nat) returns (es': seq<Label>)
    requires Clean(s0, es, s, r, n) && s.svc.loop.pc == Selecting && s.svc.loop.h != 0 && s.h.pc.SendEcho1?
    ensures var c := s.h.pc.s; Clean(s0, es', Sys(Reported(s, c), s.h.(pc := Select), s.w), r + [c] + [c], n)
  {
    var c := s.h.pc.s;
    es' := SendNext(s0, es, s, r, n);
    var s2 := Sent(s).(h := s.h.(pc := SendEcho2(c)));
    ExtendSilently(s0, es', Sent(s), r + [c], n, HandlerAlone(Wake), s2);
    es' := SendNext(s0, es' + [HandlerAlone(Wake)], s2, r + [c], n);
  }

  // ---- The beginning and the end ----

  /** The service has started up. */
  lemma Begin(h: nat, scm: Record) returns (es: seq<Label>, s: Sys)
    requires h != 0
    ensures Clean(Initial(h, scm), es, s, [STARTING] + [RUNNING_STATUS], 0) && Listening(s)
    ensures s.svc.loop.h == h && s.svc.loop.status == RUNNING_STATUS && s.w == WORKER_START
  {
    var s0 := Initial(h, scm);
    es := SendNext(s0, [], s0, [], 0);
    assert [] + [STARTING] == [STARTING];
    es := SendNext(s0, es, Sent(s0), [STARTING], 0);
    s := Sent(Sent(s0));
  }

  lemma ReadStep(s: Sys)
    ensures var cp := s.w.checkPoint;
      Step(Told(s, STOP), HandlerAlone(Read(cp))) == Some(Told(s, STOP).(h := s.h.(pc := SendStopping(cp))))
  {}

  /** Stop is delivered, and the service ends. */
  lemma Finish(s0: Sys, es: seq<Label>, s: Sys, r: seq<Status>, n: nat) returns (es': seq<Label>, s': Sys)
    requires Clean(s0, es, s, r, n) && Listening(s) && s.svc.loop.h != 0
    ensures Clean(s0, es', s', r + [Stopping(s.w.checkPoint)] + [STOPPED_STATUS], n) && s'.svc.loop.pc == Returned
  {
    var cp := s.w.checkPoint;
    es' := Tell(s0, es, s, r, n, STOP);
    var s1 := Told(s, STOP).(h := s.h.(pc := SendStopping(cp)));
    ReadStep(s);
    ExtendSilently(s0, es', Told(s, STOP), r, n, HandlerAlone(Read(cp)), s1);
    es' := SendNext(s0, es' + [HandlerAlone(Read(cp))], s1, r, n);
    es', s' := Leave(s0, es', Sent(s1), r + [Stopping(cp)], n);
  }

  /** The handler has returned; the final update has been made; the loop has returned. */
  function Exited(s: Sys): Sys {
    Sys(s.svc.(loop := s.svc.loop.(ec := EXECUTE_RESULT, pc := Finishing)), s.h.(pc := Gone), s.w)
  }

  function Finalised(s: Sys): Sys {
    s.(svc := s.svc.(loop := s.svc.loop.(scm := RecordOf(STOPPED_STATUS, s.svc.loop.ec), pc := Signalling)))
  }

  function Signalled(s: Sys): Sys {
    s.(svc := s.svc.(loop := s.svc.loop.(pc := Returned, cWaits := true)))
  }

  lemma LeaveSteps(s: Sys)
    requires s.svc.loop.pc == Selecting && s.h.pc == Returning && s.svc.loop.h != 0
    ensures Step(s, HandlerExits(EXECUTE_RESULT)) == Some(Exited(s))
    ensures Step(Exited(s), Env(Other(Final(Ok)))) == Some(Finalised(Exited(s)))
    ensures Step(Finalised(Exited(s)), Env(Other(Signal))) == Some(Signalled(Finalised(Exited(s))))
  {}

  lemma Leave(s0: Sys, es: seq<Label>, s: Sys, r: seq<Status>, n: nat) returns (es': seq<Label>, s': Sys)
    requires Clean(s0, es, s, r, n) && s.svc.loop.pc == Selecting && s.h.pc == Returning && s.svc.loop.h != 0
    ensures Clean(s0, es', s', r + [STOPPED_STATUS], n) && s'.svc.loop.pc == Returned
  {
    LeaveSteps(s);
    var (l1, l2, l3) := (HandlerExits(EXECUTE_RESULT), Env(Other(Final(Ok))), Env(Other(Signal)));
    ExtendSilently(s0, es, s, r, n, l1, Exited(s));
    Extend(s0, es + [l1], Exited(s), r, n, l2, Finalised(Exited(s)));
    s' := Signalled(Finalised(Exited(s)));
    ExtendSilently(s0, es + [l1] + [l2], Finalised(Exited(s)), r + [STOPPED_STATUS], n, l3, s');
    es' := es + [l1] + [l2] + [l3];
  }
}
