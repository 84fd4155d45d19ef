/**
  * The run loop, its callbacks, the example handler and its PreShutdown worker as one labelled
  * transition system, and safety over all of its runs: which states the service control manager is
  * told, in which order, and what an Interrogate may change.
  */
module ExampleService {
  import opened Wrappers
  import opened ServiceStatus
  import opened RunLoop
  import opened ExampleHandler

  datatype Sys = Sys(svc: Svc, h: Handler, w: Worker)

  /** Each label is one rendezvous, or one action of a single goroutine. */
  datatype Label =
    | Env(e: SvcEvent)  // a callback's step, or the loop's final update or signal
    | ToHandler(req: ChangeRequest)
    | FromHandler(s: Status, o: Outcome)
    | FromWorker(s: Status, o: Outcome)
    | HandlerExits(ec: ExitCode)
    | HandlerAlone(he: HandlerEvent)
    | WorkerAlone(we: WorkerEvent)

  function Initial(h: nat, scm: Record): Sys {
    Sys(Svc(Start(h, scm), []), HANDLER_START, WORKER_START)
  }

  predicate IsEnv(e: SvcEvent) {
    e.Other? ==> e.loopEvent.Final? || e.loopEvent.Signal?
  }

  /** The event of the service side in a label. */
  function SvcEventOf(l: Label): seq<SvcEvent> {
    match l
    case Env(e) => [e]
    case ToHandler(req) => [Other(Deliver(req))]
    case FromHandler(s, o) => [Other(Change(s, o))]
    case FromWorker(s, o) => [Other(Change(s, o))]
    case HandlerExits(ec) => [Other(Exit(ec))]
    case _ => []
  }

  function SvcPart(v: Svc, l: Label): Option<Svc> {
    if l.Env? && !IsEnv(l.e) then None
    else if SvcEventOf(l) == [] then Some(v)
    else SvcStep(v, SvcEventOf(l)[0])
  }

  function HandlerPart(h: Handler, w: Worker, l: Label): Option<Handler> {
    match l
    case ToHandler(req) => HandlerStep(h, Receive(req))
    case FromHandler(s, _) => HandlerStep(h, Send(s))
    case HandlerExits(ec) => HandlerStep(h, Exits(ec))
    case HandlerAlone(Tick) => HandlerStep(h, Tick)
    case HandlerAlone(Wake) => HandlerStep(h, Wake)
    case HandlerAlone(SeeShutdown) => if w.closed then HandlerStep(h, SeeShutdown) else None
    case HandlerAlone(Read(cp)) => if cp == w.checkPoint then HandlerStep(h, Read(cp)) else None
    case HandlerAlone(_) => None
    case _ => Some(h)
  }

  function WorkerPart(w: Worker, l: Label): Option<Worker> {
    match l
    case ToHandler(req) => Some(if req.cmd == PRESHUTDOWN then Spawned(w) else w)
    case FromWorker(s, _) => WorkerStep(w, Report(s))
    case WorkerAlone(we) => if we.Report? then None else WorkerStep(w, we)
    case _ => Some(w)
  }

  function Step(s: Sys, l: Label): Option<Sys> {
    var (v, h, w) := (SvcPart(s.svc, l), HandlerPart(s.h, s.w, l), WorkerPart(s.w, l));
    if v.Some? && h.Some? && w.Some? then Some(Sys(v.value, h.value, w.value)) else None
  }

  function Exec(s0: Sys, es: seq<Label>): Option<Sys> {
    if es == [] then Some(s0)
    else match Exec(s0, DropLast(es))
      case None => None
      case Some(s) => Step(s, Last(es))
  }

  function SvcTrace(es: seq<Label>): seq<SvcEvent> {
    if es == [] then [] else SvcTrace(DropLast(es)) + SvcEventOf(Last(es))
  }

  lemma SvcRunExtends(s0: Svc, es: seq<SvcEvent>, e: SvcEvent)
    requires SvcRun(s0, es).Some?
    ensures SvcRun(s0, es + [e]) == SvcStep(SvcRun(s0, es).value, e)
  {
    assert DropLast(es + [e]) == es;
  }

  lemma StepProjects(s: Sys, l: Label, s': Sys)
    requires Step(s, l) == Some(s')
    ensures SvcEventOf(l) == [] ==> s'.svc == s.svc
    ensures SvcEventOf(l) != [] ==> SvcStep(s.svc, SvcEventOf(l)[0]) == Some(s'.svc)
    ensures l.Env? ==> IsEnv(l.e)
  {}

  /** A run of the composed system is a run of the loop and its callbacks, so RunLoop's theorems apply. */
  lemma {:induction false} SystemProjects(s0: Sys, es: seq<Label>, s: Sys)
    requires Exec(s0, es) == Some(s)
    ensures SvcRun(s0.svc, SvcTrace(es)) == Some(s.svc)
  {
    if es != [] {
      var p := Exec(s0, DropLast(es)).value;
      SystemProjects(s0, DropLast(es), p);
      StepProjects(p, Last(es), s);
      var e := SvcEventOf(Last(es));
      if e == [] {
        assert SvcTrace(es) == SvcTrace(DropLast(es));
      } else {
        assert SvcTrace(es) == SvcTrace(DropLast(es)) + [e[0]];
        SvcRunExtends(s0.svc, SvcTrace(DropLast(es)), e[0]);
      }
    }
  }

  // ---- What is reported ----

  function ReportOf(l: Label): seq<Status> {
    match l
    case FromHandler(s, Ok) => [s]
    case FromWorker(s, Ok) => [s]
    case Env(Other(Final(Ok))) => [STOPPED_STATUS]
    case _ => []
  }

  /** The statuses SetServiceStatus accepts in the course of a run. */
  function Reports(es: seq<Label>): seq<Status> {
    if es == [] then [] else Reports(DropLast(es)) + ReportOf(Last(es))
  }

  function PublishedByAll(es: seq<SvcEvent>): seq<Status> {
    Published(LoopEvents(es))
  }

  lemma PublishedExtends(es: seq<SvcEvent>, e: SvcEvent)
    ensures PublishedByAll(es + [e])
         == PublishedByAll(es) + (if LoopEventOf(e) == [] then [] else PublishedBy(LoopEventOf(e)[0]))
  {
    assert DropLast(es + [e]) == es;
    if LoopEventOf(e) == [] {
      assert LoopEvents(es + [e]) == LoopEvents(es);
    } else {
      var le := LoopEventOf(e)[0];
      assert LoopEvents(es + [e]) == LoopEvents(es) + [le];
      assert DropLast(LoopEvents(es) + [le]) == LoopEvents(es);
    }
  }

  lemma ReportsMatch(l: Label)
    requires l.Env? ==> IsEnv(l.e)
    ensures SvcEventOf(l) == [] ==> ReportOf(l) == []
    ensures SvcEventOf(l) != [] ==>
      var le := LoopEventOf(SvcEventOf(l)[0]);
      ReportOf(l) == if le == [] then [] else PublishedBy(le[0])
  {}

  /** Reports is what RunLoop calls Published, seen through the projection. */
  lemma {:induction false} ReportsArePublished(s0: Sys, es: seq<Label>)
    requires Exec(s0, es).Some?
    ensures Reports(es) == PublishedByAll(SvcTrace(es))
  {
    if es != [] {
      var p, l := DropLast(es), Last(es);
      ReportsArePublished(s0, p);
      StepProjects(Exec(s0, p).value, l, Exec(s0, es).value);
      ReportsMatch(l);
      if SvcEventOf(l) == [] {
        assert SvcTrace(es) == SvcTrace(p) && Reports(es) == Reports(p);
      } else {
        assert SvcTrace(es) == SvcTrace(p) + [SvcEventOf(l)[0]];
        PublishedExtends(SvcTrace(p), SvcEventOf(l)[0]);
      }
    }
  }

  function PreShutdowns(es: seq<Label>): nat {
    if es == [] then 0
    else PreShutdowns(DropLast(es)) + if Last(es).ToHandler? && Last(es).req.cmd == PRESHUTDOWN then 1 else 0
  }

  /** A failed SetServiceStatus, or a callback that ran on an unexpected thread. */
  predicate Failing(l: Label) {
    match l
    case FromHandler(_, o) => o != Ok
    case FromWorker(_, o) => o != Ok
    case Env(Other(Final(o))) => o != Ok
    case Env(Take(_, e)) => e.errno != 0
    case _ => false
  }

  predicate FailureFree(es: seq<Label>) {
    es == [] || (FailureFree(DropLast(es)) && !Failing(Last(es)))
  }

  lemma {:induction false} ExecConcat(s0: Sys, a: seq<Label>, b: seq<Label>)
    requires Exec(s0, a).Some?
    ensures Exec(s0, a + b) == Exec(Exec(s0, a).value, b)
  {
    if b == [] {
      assert a + b == a;
    } else {
      ExecConcat(s0, a, DropLast(b));
      ConcatEnds(a, b);
    }
  }

  lemma {:induction false} ExecPrefix(s0: Sys, a: seq<Label>, b: seq<Label>)
    requires Exec(s0, a + b).Some?
    ensures Exec(s0, a).Some?
  {
    if b == [] {
      assert a + b == a;
    } else {
      ConcatEnds(a, b);
      ExecPrefix(s0, a, DropLast(b));
    }
  }

  lemma {:induction false} ReportsConcat(a: seq<Label>, b: seq<Label>)
    ensures Reports(a + b) == Reports(a) + Reports(b)
  {
    if b == [] {
      assert a + b == a && Reports(a) + [] == Reports(a);
    } else {
      ReportsConcat(a, DropLast(b));
      ConcatEnds(a, b);
      Assoc(Reports(a), Reports(DropLast(b)), ReportOf(Last(b)));
    }
  }

  lemma {:induction false} FailureFreeConcat(a: seq<Label>, b: seq<Label>)
    ensures FailureFree(a + b) <==> FailureFree(a) && FailureFree(b)
  {
    if b == [] {
      assert a + b == a;
    } else {
      FailureFreeConcat(a, DropLast(b));
      ConcatEnds(a, b);
    }
  }

  // ---- The state invariant ----

  predicate Active(st: State) {
    st == RUNNING || st == PAUSED || st == STOP_PENDING
  }

  /** What the handler last reported of its own accord. */
  function Resting(h: Handler): Status {
    if h.slow then PAUSED_STATUS else RUNNING_STATUS
  }

  predicate WorkerOk(w: Worker) {
    match w.pc
    case NotStarted => w.checkPoint == 1 && !w.closed
    case Sending(cp) => cp == w.checkPoint && 1 <= cp <= 30 && !w.closed
    case Closing => w.checkPoint == 31 && !w.closed
    case Finished => w.checkPoint == 31 && w.closed
    case Overlapping => true
    case _ => 1 <= w.checkPoint <= 30 && !w.closed
  }

  /** The loop's status against the handler's program counter, while the loop is running. */
  predicate StatusOk(status: Status, pc: HandlerPc) {
    match pc
    case SendStarting => status == STOPPED_STATUS
    case SendRunning => status == STARTING
    case SendEcho1(c) => Active(c.state) && Active(status.state)
    case Sleeping(c) => Active(c.state) && Active(status.state)
    case SendEcho2(c) => Active(c.state) && Active(status.state)
    case Returning => status.state == STOP_PENDING
    case Gone => false
    case _ => Active(status.state)
  }

  /** Before any PreShutdown the loop's status is exactly what the handler rests in. */
  predicate Steady(status: Status, h: Handler) {
    match h.pc
    case SendStarting => !h.slow
    case SendRunning => !h.slow
    case SendEcho1(c) => c == status == Resting(h)
    case Sleeping(c) => c == status == Resting(h)
    case SendEcho2(c) => c == status == Resting(h)
    case SendStopping(cp) => cp == 1 && status == Resting(h)
    case Returning => status == Stopping(1)
    case _ => status == Resting(h)
  }

  predicate Inv(s: Sys) {
    var l := s.svc.loop;
    && l.inch != l.outch
    && (l.cWaits <==> l.pc == Returned)
    && WorkerOk(s.w)
    && (s.h.pc == SendStarting || s.h.pc == SendRunning ==> s.w.pc == NotStarted)
    && (l.pc == Selecting ==>
      && l.ec == NO_EXIT
      && StatusOk(l.status, s.h.pc)
      && (s.h.pc != SendStarting ==> l.scm == RecordOf(l.status, NO_EXIT))
      && (s.w.pc == NotStarted ==> Steady(l.status, s.h)))
  }

  lemma InvFromHandler(s: Sys, c: Status, o: Outcome, s': Sys)
    requires Inv(s) && Step(s, FromHandler(c, o)) == Some(s')
    ensures Inv(s')
  {
    assert s'.w == s.w && Offers(s.h.pc) == Some(c);
    if o == Ok {
      assert s'.svc.loop.status == c && s'.h == AfterSend(s.h);
    } else {
      assert s'.svc.loop.pc == Finishing;
    }
  }

  lemma InvFromWorker(s: Sys, c: Status, o: Outcome, s': Sys)
    requires Inv(s) && Step(s, FromWorker(c, o)) == Some(s')
    ensures Inv(s')
  {
    assert s'.h == s.h && s.w.pc.Sending? && Active(c.state);
  }

  lemma InvToHandler(s: Sys, req: ChangeRequest, s': Sys)
    requires Inv(s) && Step(s, ToHandler(req)) == Some(s')
    ensures Inv(s')
  {
    assert s.h.pc == Select && req.currentStatus == s.svc.loop.status;
  }

  lemma InvEnv(s: Sys, e: SvcEvent, s': Sys)
    requires Inv(s) && Step(s, Env(e)) == Some(s')
    ensures Inv(s')
  {
    assert s'.h == s.h && s'.w == s.w;
  }

  lemma InvAlone(s: Sys, l: Label, s': Sys)
    requires l.HandlerExits? || l.HandlerAlone? || l.WorkerAlone?
    requires Inv(s) && Step(s, l) == Some(s')
    ensures Inv(s')
  {}

  lemma InvStep(s: Sys, l: Label, s': Sys)
    requires Inv(s) && Step(s, l) == Some(s')
    ensures Inv(s')
  {
    match l {
      case FromHandler(c, o) => InvFromHandler(s, c, o, s');
      case FromWorker(c, o) => InvFromWorker(s, c, o, s');
      case ToHandler(req) => InvToHandler(s, req, s');
      case Env(e) => InvEnv(s, e, s');
      case _ => InvAlone(s, l, s');
    }
  }

  lemma {:induction false} InvRuns(s0: Sys, es: seq<Label>, s: Sys)
    requires Inv(s0) && Exec(s0, es) == Some(s)
    ensures Inv(s)
  {
    if es != [] {
      var p := Exec(s0, DropLast(es)).value;
      InvRuns(s0, DropLast(es), p);
      InvStep(p, Last(es), s);
    }
  }

  lemma Reachable(h: nat, scm: Record, es: seq<Label>, s: Sys)
    requires Exec(Initial(h, scm), es) == Some(s)
    ensures Inv(s)
  {
    InvRuns(Initial(h, scm), es, s);
  }

  lemma {:induction false} WorkerCountsPreShutdowns(h: nat, scm: Record, es: seq<Label>, s: Sys)
    requires Exec(Initial(h, scm), es) == Some(s)
    ensures s.w.pc == NotStarted <==> PreShutdowns(es) == 0
    ensures s.w.pc == Overlapping <==> PreShutdowns(es) >= 2
  {
    if es != [] {
      WorkerCountsPreShutdowns(h, scm, DropLast(es), Exec(Initial(h, scm), DropLast(es)).value);
    }
  }

  // ---- Interrogate ----

  /**
    * The echoes of Interrogate never republish the initial Stopped, or StartPending; and until a PreShutdown
    * is delivered they are no-ops on the SCM's view, republishing exactly the record already held.
    */
  lemma InterrogateIsNoOp(h: nat, scm: Record, es: seq<Label>, s: Sys, c: Status, s': Sys)
    requires Exec(Initial(h, scm), es) == Some(s)
    requires s.h.pc.SendEcho1? || s.h.pc.SendEcho2?
    requires Step(s, FromHandler(c, Ok)) == Some(s')
    ensures Active(c.state)
    ensures PreShutdowns(es) == 0 ==>
      s'.svc.loop.scm == s.svc.loop.scm && s'.svc.loop.status == s.svc.loop.status && c == Resting(s.h)
  {
    Reachable(h, scm, es, s);
    WorkerCountsPreShutdowns(h, scm, es, s);
  }

  /** Until then, whenever the handler is at its select the SCM shows Paused exactly on the slow tick. */
  lemma {:induction false} PausedIffSlowTick(h: nat, scm: Record, es: seq<Label>, s: Sys)
    requires Exec(Initial(h, scm), es) == Some(s) && PreShutdowns(es) == 0
    requires s.h.pc == Select && s.svc.loop.pc == Selecting
    ensures s.svc.loop.scm == RecordOf(if s.h.slow then PAUSED_STATUS else RUNNING_STATUS, NO_EXIT)
    ensures QueryOf(s.svc.loop.scm).state == PAUSED <==> s.h.slow
  {
    Reachable(h, scm, es, s);
    WorkerCountsPreShutdowns(h, scm, es, s);
  }

  // ---- The language of reported states ----

  /** StartPending, Running, any of Running, Paused and StopPending, then StopPending, then one Stopped. */
  predicate InLanguage(r: seq<Status>) {
    && |r| >= 4 && r[0].state == START_PENDING && r[1].state == RUNNING
    && (forall k | 2 <= k < |r| - 2 :: Active(r[k].state))
    && r[|r| - 2].state == STOP_PENDING
    && r[|r| - 1] == STOPPED_STATUS
  }

  predicate Body(r: seq<Status>) {
    && |r| >= 2 && r[0].state == START_PENDING && r[1].state == RUNNING
    && forall k | 2 <= k < |r| :: Active(r[k].state)
  }

  predicate Prefix(r: seq<Status>) {
    r == [] || (|r| == 1 && r[0].state == START_PENDING) || Body(r)
  }

  predicate Ended(r: seq<Status>) {
    Body(r) && |r| >= 3 && Last(r).state == STOP_PENDING
  }

  predicate Tracks(r: seq<Status>, pc: HandlerPc) {
    match pc
    case SendStarting => r == []
    case SendRunning => |r| == 1 && r[0].state == START_PENDING
    case Returning => Ended(r)
    case _ => Body(r)
  }

  /** How far into the language the reports r have come; clean: no failure so far. */
  predicate Progressed(r: seq<Status>, clean: bool, pc: LoopPc, hpc: HandlerPc) {
    match pc
    case Selecting => Tracks(r, hpc)
    case Finishing => Prefix(r) && (clean ==> Ended(r))
    case _ =>
      || (Prefix(r) && !clean)
      || (r != [] && Last(r) == STOPPED_STATUS && Prefix(DropLast(r)) && (clean ==> Ended(DropLast(r))))
  }

  lemma HandlerReportProgress(r: seq<Status>, p: Sys, c: Status, s: Sys)
    requires Inv(p) && p.svc.loop.pc == Selecting && Tracks(r, p.h.pc) && Step(p, FromHandler(c, Ok)) == Some(s)
    ensures s.svc.loop.pc == Selecting && Tracks(r + [c], s.h.pc)
  {
    assert StatusOk(p.svc.loop.status, p.h.pc);
  }

  lemma WorkerReportProgress(r: seq<Status>, p: Sys, c: Status, s: Sys)
    requires Inv(p) && p.svc.loop.pc == Selecting && Tracks(r, p.h.pc) && Step(p, FromWorker(c, Ok)) == Some(s)
    ensures s.svc.loop.pc == Selecting && Tracks(r + [c], s.h.pc)
  {
    assert s.h == p.h && Active(c.state);
  }

  lemma OtherProgress(r: seq<Status>, clean: bool, p: Sys, l: Label, s: Sys)
    requires Inv(p) && Progressed(r, clean, p.svc.loop.pc, p.h.pc) && Step(p, l) == Some(s)
    requires ReportOf(l) == []
    ensures Progressed(r, clean && !Failing(l), s.svc.loop.pc, s.h.pc)
  {
    if l.Env? {
      EnvProgress(r, clean, p, l.e, s);
    } else if l.HandlerExits? || l.HandlerAlone? {
      HandlerAloneProgress(r, clean, p, l, s);
    } else if l.FromHandler? || l.FromWorker? {
      assert s.svc.loop.pc == Finishing && Prefix(r);
    }
  }

  lemma EnvProgress(r: seq<Status>, clean: bool, p: Sys, e: SvcEvent, s: Sys)
    requires Inv(p) && Progressed(r, clean, p.svc.loop.pc, p.h.pc) && Step(p, Env(e)) == Some(s)
    requires ReportOf(Env(e)) == []
    ensures Progressed(r, clean && !Failing(Env(e)), s.svc.loop.pc, s.h.pc)
  {
    assert s.h == p.h;
    if e.Arrive? || e.Return? {
      assert s.svc.loop == p.svc.loop;
    }
  }

  lemma HandlerAloneProgress(r: seq<Status>, clean: bool, p: Sys, l: Label, s: Sys)
    requires l.HandlerExits? || l.HandlerAlone?
    requires Inv(p) && Progressed(r, clean, p.svc.loop.pc, p.h.pc) && Step(p, l) == Some(s)
    ensures Progressed(r, clean, s.svc.loop.pc, s.h.pc)
  {}

  lemma FinalProgress(r: seq<Status>, clean: bool, p: Sys, s: Sys)
    requires Progressed(r, clean, p.svc.loop.pc, p.h.pc) && Step(p, Env(Other(Final(Ok)))) == Some(s)
    ensures Progressed(r + [STOPPED_STATUS], clean, s.svc.loop.pc, s.h.pc)
  {
    assert DropLast(r + [STOPPED_STATUS]) == r;
  }

  lemma ProgressStep(r: seq<Status>, clean: bool, p: Sys, l: Label, s: Sys)
    requires Inv(p) && Progressed(r, clean, p.svc.loop.pc, p.h.pc) && Step(p, l) == Some(s)
    ensures Progressed(r + ReportOf(l), clean && !Failing(l), s.svc.loop.pc, s.h.pc)
  {
    if ReportOf(l) == [] {
      OtherProgress(r, clean, p, l, s);
      assert r + [] == r;
    } else if l.Env? {
      FinalProgress(r, clean, p, s);
    } else {
      assert p.svc.loop.pc == Selecting;
      if l.FromHandler? {
        HandlerReportProgress(r, p, l.s, s);
      } else {
        WorkerReportProgress(r, p, l.s, s);
      }
    }
  }

  lemma {:induction false} RunsProgress(h: nat, scm: Record, es: seq<Label>, s: Sys)
    requires Exec(Initial(h, scm), es) == Some(s)
    ensures Progressed(Reports(es), FailureFree(es), s.svc.loop.pc, s.h.pc)
  {
    if es != [] {
      var p := Exec(Initial(h, scm), DropLast(es)).value;
      RunsProgress(h, scm, DropLast(es), p);
      Reachable(h, scm, DropLast(es), p);
      ProgressStep(Reports(DropLast(es)), FailureFree(DropLast(es)), p, Last(es), s);
    }
  }

  /**
    * On every completed run without a failure the reported states form a word of the language, even
    * when the worker's reports interleave with the handler's last one. With a second PreShutdown this is
    * a statement about the model only, whose worker then stands still where the code's would go on.
    */
  lemma {:induction false} CompletedRunsAreInLanguage(h: nat, scm: Record, es: seq<Label>, s: Sys)
    requires Exec(Initial(h, scm), es) == Some(s) && s.svc.loop.pc == Returned
    requires FailureFree(es)
    ensures InLanguage(Reports(es))
  {
    RunsProgress(h, scm, es, s);
    var r := Reports(es);
    assert r == DropLast(r) + [STOPPED_STATUS];
  }

  lemma PrefixCompletes(w: seq<Status>) returns (rest: seq<Status>)
    requires Prefix(w)
    ensures InLanguage(w + rest)
  {
    if w == [] {
      rest := [STARTING, RUNNING_STATUS, Stopping(1), STOPPED_STATUS];
    } else if |w| == 1 {
      rest := [RUNNING_STATUS, Stopping(1), STOPPED_STATUS];
    } else {
      rest := [Stopping(1), STOPPED_STATUS];
    }
  }

  /**
    * Every run of the model, failing or not, complete or not, has reported a prefix w of a word of the
    * language, followed at most by Stopped. A second PreShutdown is treated as in the lemma above.
    */
  lemma EveryRunReportsPrefix(h: nat, scm: Record, es: seq<Label>, s: Sys) returns (w: seq<Status>, rest: seq<Status>)
    requires Exec(Initial(h, scm), es) == Some(s)
    ensures InLanguage(w + rest)
    ensures Reports(es) == w || (!BeforeFinal(s.svc.loop) && Reports(es) == w + [STOPPED_STATUS])
  {
    RunsProgress(h, scm, es, s);
    w := Reports(es);
    if !Prefix(w) {
      w := DropLast(Reports(es));
      assert Reports(es) == w + [STOPPED_STATUS];
    }
    rest := PrefixCompletes(w);
  }

  /** The loop's own events in a run. */
  function LoopTrace(es: seq<Label>): seq<LoopEvent> {
    LoopEvents(SvcTrace(es))
  }

  function LoopEventsOf(l: Label): seq<LoopEvent> {
    if SvcEventOf(l) == [] then [] else LoopEventOf(SvcEventOf(l)[0])
  }

  /**
    * Every completed run, failing or not, ends with the attempt to report Stopped; the codes of that last
    * record are zero exactly when the handler itself ended the loop, because Execute returns 0.
    */
  lemma {:induction false} CompletedRunsAttemptStopped(h: nat, scm: Record, es: seq<Label>, s: Sys)
    requires h != 0 && Exec(Initial(h, scm), es) == Some(s) && s.svc.loop.pc == Returned
    ensures LoopRun(Start(h, scm), LoopTrace(es)) == Some(s.svc.loop)
    ensures var records := Attempts(Start(h, scm), LoopTrace(es));
      && records != [] && Last(records).currentState == STOPPED
      && (forall r | r in DropLast(records) :: CarriesNoError(r))
      && (CarriesNoError(Last(records)) <==> HandlerExited(LoopTrace(es)))
  {
    SystemProjects(Initial(h, scm), es, s);
    CallbacksProject(Initial(h, scm).svc, SvcTrace(es), s.svc);
    ExitCodeIntegrity(h, scm, LoopTrace(es), s.svc.loop);
    ExitsAreZero(Initial(h, scm), es);
    if i :| 0 <= i < |LoopTrace(es)| && LoopTrace(es)[i].Exit? {
      ExitIsCause(h, scm, LoopTrace(es), i);
      assert LoopTrace(es)[i] in LoopTrace(es);
    }
  }

  lemma {:induction false} ExitIsCause(h: nat, scm: Record, les: seq<LoopEvent>, i: nat)
    requires LoopRun(Start(h, scm), les).Some? && i < |les| && les[i].Exit?
    ensures Cause(les) == Some(les[i].ec)
  {
    var p := DropLast(les);
    CauseKnown(h, scm, p, LoopRun(Start(h, scm), p).value);
    if i < |p| {
      assert p[i] == les[i];
      ExitIsCause(h, scm, p, i);
    }
  }

  /** Execute returns its zero values. */
  lemma {:induction false} ExitsAreZero(s0: Sys, es: seq<Label>)
    requires Exec(s0, es).Some?
    ensures forall e | e in LoopTrace(es) && e.Exit? :: e.ec == EXECUTE_RESULT
  {
    if es != [] {
      var (p, l) := (DropLast(es), Last(es));
      ExitsAreZero(s0, p);
      LabelExitsZero(Exec(s0, p).value, l, Exec(s0, es).value);
      LoopTraceExtends(es);
    }
  }

  lemma LabelExitsZero(s: Sys, l: Label, s': Sys)
    requires Step(s, l) == Some(s')
    ensures forall e | e in LoopEventsOf(l) && e.Exit? :: e.ec == EXECUTE_RESULT
  {}

  lemma LoopTraceExtends(es: seq<Label>)
    requires es != []
    ensures LoopTrace(es) == LoopTrace(DropLast(es)) + LoopEventsOf(Last(es))
  {
    var (p, l) := (SvcTrace(DropLast(es)), Last(es));
    if SvcEventOf(l) == [] {
      assert SvcTrace(es) == p;
    } else {
      assert SvcTrace(es) == p + [SvcEventOf(l)[0]];
      assert DropLast(SvcTrace(es)) == p;
    }
  }

  // ---- Once stopping, always stopping ----

  predicate NeverStopping(r: seq<Status>) {
    forall k | 0 <= k < |r| :: r[k].state != STOP_PENDING
  }

  predicate OnlyStoppedFollows(r: seq<Status>) {
    forall j, k | 0 <= j < k < |r| && r[j].state == STOP_PENDING :: r[k].state == STOPPED
  }

  predicate Steadfast(r: seq<Status>, pc: LoopPc, hpc: HandlerPc) {
    && OnlyStoppedFollows(r)
    && (pc == Selecting && hpc != Returning ==> NeverStopping(r))
    && (pc == Selecting || pc == Finishing ==> r == [] || NeverStopping(DropLast(r)))
  }

  lemma StoppingOnlyLast(p: Sys, c: Status, s: Sys)
    requires Inv(p) && p.w.pc == NotStarted && Step(p, FromHandler(c, Ok)) == Some(s)
    ensures c.state == STOP_PENDING ==> s.h.pc == Returning
  {}

  lemma SteadfastReport(r: seq<Status>, p: Sys, c: Status, s: Sys)
    requires Inv(p) && p.w.pc == NotStarted && Step(p, FromHandler(c, Ok)) == Some(s)
    requires Steadfast(r, p.svc.loop.pc, p.h.pc)
    ensures Steadfast(r + [c], s.svc.loop.pc, s.h.pc)
  {
    assert p.svc.loop.pc == Selecting && p.h.pc != Returning;
    assert DropLast(r + [c]) == r && NeverStopping(r);
    StoppingOnlyLast(p, c, s);
  }

  lemma SteadfastSilent(r: seq<Status>, p: Sys, l: Label, s: Sys)
    requires Inv(p) && p.w.pc == NotStarted && Step(p, l) == Some(s) && ReportOf(l) == []
    requires Steadfast(r, p.svc.loop.pc, p.h.pc)
    ensures Steadfast(r, s.svc.loop.pc, s.h.pc)
  {
    LoopForward(p, l, s);
    assert s.svc.loop.pc == Selecting && s.h.pc != Returning ==> p.h.pc != Returning;
    if r != [] && NeverStopping(r) {
      assert NeverStopping(DropLast(r));
    }
  }

  /** The loop never goes back to its select. */
  lemma LoopForward(p: Sys, l: Label, s: Sys)
    requires Step(p, l) == Some(s)
    ensures s.svc.loop.pc == Selecting ==> p.svc.loop.pc == Selecting
    ensures BeforeFinal(s.svc.loop) ==> BeforeFinal(p.svc.loop)
  {}

  lemma SteadfastFinal(r: seq<Status>, p: Sys, l: Label, s: Sys)
    requires Step(p, l) == Some(s) && OnlyStoppedFollows(r) && l == Env(Other(Final(Ok)))
    ensures Steadfast(r + [STOPPED_STATUS], s.svc.loop.pc, s.h.pc)
  {
    assert s.svc.loop.pc == Signalling;
  }

  lemma SteadfastStep(r: seq<Status>, p: Sys, l: Label, s: Sys)
    requires Inv(p) && p.w.pc == NotStarted && Step(p, l) == Some(s)
    requires Steadfast(r, p.svc.loop.pc, p.h.pc)
    ensures Steadfast(r + ReportOf(l), s.svc.loop.pc, s.h.pc)
  {
    if ReportOf(l) == [] {
      assert r + [] == r;
      SteadfastSilent(r, p, l, s);
    } else if l.FromHandler? {
      SteadfastReport(r, p, l.s, s);
    } else {
      SteadfastFinal(r, p, l, s);
    }
  }

  /** Without a PreShutdown, a reported StopPending is followed by Stopped and by nothing else. */
  lemma {:induction false} OnceStopping(h: nat, scm: Record, es: seq<Label>, s: Sys)
    requires Exec(Initial(h, scm), es) == Some(s) && PreShutdowns(es) == 0
    ensures OnlyStoppedFollows(Reports(es))
    ensures Steadfast(Reports(es), s.svc.loop.pc, s.h.pc)
  {
    if es != [] {
      var p := Exec(Initial(h, scm), DropLast(es)).value;
      OnceStopping(h, scm, DropLast(es), p);
      Reachable(h, scm, DropLast(es), p);
      WorkerCountsPreShutdowns(h, scm, DropLast(es), p);
      SteadfastStep(Reports(DropLast(es)), p, Last(es), s);
    }
  }
}
