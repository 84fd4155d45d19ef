/**
  * The two goroutines of myservice.Execute (example/service.go): the handler and the worker that it
  * spawns on PreShutdown. Each is given as a program-counter machine over its own rendezvous and, below,
  * in its structured imperative form, which is proved to be that machine.
  */
module ExampleHandler {
  import opened Wrappers
  import opened ServiceStatus

  /** cmdsAccepted: Stop, Shutdown, PauseAndContinue and PreShutdown. */
  const CMDS_ACCEPTED: Accepted := 0x107

  const STARTING := Status(START_PENDING, 0, 0, 0)
  const RUNNING_STATUS := Status(RUNNING, CMDS_ACCEPTED, 0, 0)
  const PAUSED_STATUS := Status(PAUSED, CMDS_ACCEPTED, 0, 0)

  function Stopping(checkPoint: uint32): Status {
    Status(STOP_PENDING, 0, checkPoint, 0)
  }

  /** The worker's progress report. */
  function Progress(checkPoint: uint32): Status {
    Status(STOP_PENDING, 0, checkPoint, 3000)
  }

  // ---- Handler ----

  datatype HandlerPc =
    | SendStarting
    | SendRunning
    | Select
    | SendEcho1(s: Status)
    | Sleeping(s: Status)
    | SendEcho2(s: Status)
    | SendPaused
    | SendContinued
    | ReadCheckpoint
    | SendStopping(checkPoint: uint32)
    | Returning
    | Gone

  /** slow: whether tick is slowtick. */
  datatype Handler = Handler(pc: HandlerPc, slow: bool)

  datatype HandlerEvent =
    | Send(s: Status)
    | Receive(c: ChangeRequest)
    | Tick
    | SeeShutdown
    | Wake
    | Read(checkPoint: uint32)
    | Exits(ec: ExitCode)

  const HANDLER_START := Handler(SendStarting, false)

  /** Execute returns its zero-valued results. */
  const EXECUTE_RESULT := ExitCode(false, 0)

  /** The status the handler is blocked sending, if it is. */
  function Offers(pc: HandlerPc): Option<Status> {
    match pc
    case SendStarting => Some(STARTING)
    case SendRunning => Some(RUNNING_STATUS)
    case SendEcho1(s) => Some(s)
    case SendEcho2(s) => Some(s)
    case SendPaused => Some(PAUSED_STATUS)
    case SendContinued => Some(RUNNING_STATUS)
    case SendStopping(cp) => Some(Stopping(cp))
    case _ => None
  }

  function AfterSend(h: Handler): Handler
    requires Offers(h.pc).Some?
  {
    match h.pc
    case SendStarting => h.(pc := SendRunning)
    case SendEcho1(s) => h.(pc := Sleeping(s))
    case SendPaused => Handler(Select, true)
    case SendContinued => Handler(Select, false)
    case SendStopping(_) => h.(pc := Returning)
    case _ => h.(pc := Select)
  }

  function OnCommand(c: ChangeRequest): HandlerPc {
    if c.cmd == INTERROGATE then SendEcho1(c.currentStatus)
    else if c.cmd == STOP || c.cmd == SHUTDOWN then ReadCheckpoint
    else if c.cmd == PAUSE then SendPaused
    else if c.cmd == CONTINUE then SendContinued
    else Select  // PreShutdown spawns the worker; anything else is only logged
  }

  function HandlerStep(h: Handler, e: HandlerEvent): Option<Handler> {
    match e
    case Send(s) => if Offers(h.pc) == Some(s) then Some(AfterSend(h)) else None
    case Receive(c) => if h.pc == Select then Some(h.(pc := OnCommand(c))) else None
    case Tick => if h.pc == Select then Some(h) else None
    case SeeShutdown => if h.pc == Select then Some(h.(pc := ReadCheckpoint)) else None
    case Wake => if h.pc.Sleeping? then Some(h.(pc := SendEcho2(h.pc.s))) else None
    case Read(cp) => if h.pc == ReadCheckpoint then Some(h.(pc := SendStopping(cp))) else None
    case Exits(ec) => if h.pc == Returning && ec == EXECUTE_RESULT then Some(h.(pc := Gone)) else None
  }

  function HandlerRun(es: seq<HandlerEvent>): Option<Handler> {
    if es == [] then Some(HANDLER_START)
    else match HandlerRun(DropLast(es))
      case None => None
      case Some(h) => HandlerStep(h, Last(es))
  }

  // ---- Worker ----

  datatype WorkerPc =
    | NotStarted
    | Evaluating
    | Sending(checkPoint: uint32)
    | Working
    | Counting
    | Closing
    | Finished
    | Overlapping  // a second PreShutdown was delivered: outside this model

  /** The worker and what it shares with the handler: checkpoint and the channel shutdown. */
  datatype Worker = Worker(pc: WorkerPc, checkPoint: uint32, closed: bool)

  datatype WorkerEvent = Evaluate | Report(s: Status) | Work | Count | Close

  const WORKER_START := Worker(NotStarted, 1, false)

  /** go func() on PreShutdown. */
  function Spawned(w: Worker): Worker {
    w.(pc := if w.pc == NotStarted then Evaluating else Overlapping)
  }

  function WorkerStep(w: Worker, e: WorkerEvent): Option<Worker> {
    match e
    case Evaluate => if w.pc == Evaluating then Some(w.(pc := Sending(w.checkPoint))) else None
    case Report(s) => if w.pc.Sending? && s == Progress(w.pc.checkPoint) then Some(w.(pc := Working)) else None
    case Work => if w.pc == Working then Some(w.(pc := Counting)) else None
    case Count =>
      if w.pc == Counting && w.checkPoint < 0xFFFF_FFFF then
        Some(w.(checkPoint := w.checkPoint + 1, pc := if w.checkPoint + 1 > 30 then Closing else Evaluating))
      else None
    case Close => if w.pc == Closing && !w.closed then Some(w.(closed := true, pc := Finished)) else None
  }

  /** The spawned worker on its own. */
  function WorkerRun(es: seq<WorkerEvent>): Option<Worker> {
    if es == [] then Some(Spawned(WORKER_START))
    else match WorkerRun(DropLast(es))
      case None => None
      case Some(w) => WorkerStep(w, Last(es))
  }

  // ---- The same goroutines as structured code ----

  lemma ExtendHandlerRun(script: seq<HandlerEvent>, n: nat)
    requires n < |script| && HandlerRun(script[..n]).Some?
    ensures HandlerRun(script[..n + 1]) == HandlerStep(HandlerRun(script[..n]).value, script[n])
  {
    assert DropLast(script[..n + 1]) == script[..n];
  }

  lemma ExtendWorkerRun(script: seq<WorkerEvent>, n: nat)
    requires n < |script| && WorkerRun(script[..n]).Some?
    ensures WorkerRun(script[..n + 1]) == WorkerStep(WorkerRun(script[..n]).value, script[n])
  {
    assert DropLast(script[..n + 1]) == script[..n];
  }

  /** The handler goroutine is at h after taking part in the first n offered events, and can go no further. */
  ghost predicate StuckAt(script: seq<HandlerEvent>, n: nat, h: Handler) {
    && n <= |script|
    && HandlerRun(script[..n]) == Some(h)
    && (n < |script| ==> HandlerStep(h, script[n]).None?)
  }

  /** changes <- s: reports whether the send went through, that is, whether it is the next event offered. */
  method SendStatus(script: seq<HandlerEvent>, n: nat, h: Handler) returns (sent: bool, m: nat)
    requires n <= |script| && HandlerRun(script[..n]) == Some(h) && Offers(h.pc).Some?
    ensures !sent ==> m == n && StuckAt(script, n, h)
    ensures sent ==> m == n + 1 <= |script| && HandlerRun(script[..m]) == Some(AfterSend(h))
  {
    if n < |script| {
      ExtendHandlerRun(script, n);
      if script[n] == Send(Offers(h.pc).value) {
        return true, n + 1;
      }
    }
    return false, n;
  }

  /** The answer to Interrogate: both echoes with the sleep between them. */
  method EchoTwice(script: seq<HandlerEvent>, n0: nat, h0: Handler) returns (sent: bool, n: nat, h: Handler)
    requires n0 <= |script| && HandlerRun(script[..n0]) == Some(h0) && h0.pc.SendEcho1?
    ensures !sent ==> StuckAt(script, n, h)
    ensures sent ==> n0 < n <= |script| && HandlerRun(script[..n]) == Some(h) && h == h0.(pc := Select)
  {
    var status := h0.pc.s;
    h := h0;
    sent, n := SendStatus(script, n0, h);
    if !sent {
      return;
    }
    h := h.(pc := Sleeping(status));
    if n == |script| || script[n] != Wake {
      return false, n, h;
    }
    ExtendHandlerRun(script, n);
    n, h := n + 1, h.(pc := SendEcho2(status));
    sent, n := SendStatus(script, n, h);
    if sent {
      h := h.(pc := Select);
    }
  }

  /** myservice.Execute against an environment that offers the script, and the return of its goroutine. */
  method Execute(script: seq<HandlerEvent>) returns (n: nat, h: Handler)
    ensures StuckAt(script, n, h)
  {
    var sent;
    n, h := 0, HANDLER_START;
    sent, n := SendStatus(script, n, h);
    if !sent {
      return;
    }
    h := Handler(SendRunning, false);
    sent, n := SendStatus(script, n, h);
    if !sent {
      return;
    }
    var slow := false;
    label loop: while true
      invariant n <= |script| && HandlerRun(script[..n]) == Some(Handler(Select, slow))
      decreases |script| - n
    {
      h := Handler(Select, slow);
      if n == |script| {
        return;
      }
      ExtendHandlerRun(script, n);
      match script[n] {
        case SeeShutdown =>
          n := n + 1;
          break loop;
        case Tick =>
          n := n + 1;  // beep
        case Receive(c) =>
          n := n + 1;
          if c.cmd == INTERROGATE {
            sent, n, h := EchoTwice(script, n, Handler(SendEcho1(c.currentStatus), slow));
            if !sent {
              return;
            }
          } else if c.cmd == STOP || c.cmd == SHUTDOWN {
            break loop;
          } else if c.cmd == PAUSE {
            h := Handler(SendPaused, slow);
            sent, n := SendStatus(script, n, h);
            if !sent {
              return;
            }
            slow := true;
          } else if c.cmd == CONTINUE {
            h := Handler(SendContinued, slow);
            sent, n := SendStatus(script, n, h);
            if !sent {
              return;
            }
            slow := false;
          }
        case _ =>
          return;
      }
    }
    h := Handler(ReadCheckpoint, slow);
    n, h := StopAndReturn(script, n, h);
  }

  /** The final StopPending and the return of Execute. */
  method StopAndReturn(script: seq<HandlerEvent>, n0: nat, h0: Handler) returns (n: nat, h: Handler)
    requires n0 <= |script| && HandlerRun(script[..n0]) == Some(h0) && h0.pc == ReadCheckpoint
    ensures StuckAt(script, n, h)
  {
    n, h := n0, h0;
    if n == |script| || !script[n].Read? {
      return;
    }
    ExtendHandlerRun(script, n);
    h, n := h.(pc := SendStopping(script[n].checkPoint)), n + 1;
    var sent;
    sent, n := SendStatus(script, n, h);
    if !sent {
      return;
    }
    n, h := ReturnZero(script, n, h.(pc := Returning));
  }

  /** The bare return of Execute, whose named results are still zero. */
  method ReturnZero(script: seq<HandlerEvent>, n0: nat, h0: Handler) returns (n: nat, h: Handler)
    requires n0 <= |script| && HandlerRun(script[..n0]) == Some(h0) && h0.pc == Returning
    ensures StuckAt(script, n, h)
  {
    n, h := n0, h0;
    if n < |script| && script[n] == Exits(EXECUTE_RESULT) {
      ExtendHandlerRun(script, n);
      n, h := n + 1, h.(pc := Gone);
    }
  }

  ghost predicate WorkerStuckAt(script: seq<WorkerEvent>, n: nat, w: Worker) {
    && n <= |script|
    && WorkerRun(script[..n]) == Some(w)
    && (n < |script| ==> WorkerStep(w, script[n]).None?)
  }

  /** One report and the work after it, up to the increment of checkpoint. */
  method ReportOnce(script: seq<WorkerEvent>, n0: nat, w0: Worker) returns (ok: bool, n: nat, w: Worker)
    requires n0 <= |script| && WorkerRun(script[..n0]) == Some(w0) && w0.pc == Evaluating
    ensures !ok ==> WorkerStuckAt(script, n, w)
    ensures ok ==> n0 < n <= |script| && WorkerRun(script[..n]) == Some(w) && w == w0.(pc := Counting)
  {
    n, w := n0, w0;
    if n == |script| || script[n] != Evaluate {
      return false, n, w;
    }
    ExtendWorkerRun(script, n);
    n, w := n + 1, w.(pc := Sending(w0.checkPoint));
    if n == |script| || script[n] != Report(Status(STOP_PENDING, 0, w0.checkPoint, 3000)) {
      return false, n, w;
    }
    ExtendWorkerRun(script, n);
    n, w := n + 1, w.(pc := Working);
    if n == |script| || script[n] != Work {
      return false, n, w;
    }
    ExtendWorkerRun(script, n);
    return true, n + 1, w.(pc := Counting);
  }

  /** The goroutine spawned on PreShutdown, including its deferred close(shutdown). */
  method RunWorker(script: seq<WorkerEvent>) returns (n: nat, w: Worker)
    ensures WorkerStuckAt(script, n, w)
  {
    n := 0;
    var checkPoint: uint32 := 1;
    while true
      invariant n <= |script| && 1 <= checkPoint <= 30
      invariant WorkerRun(script[..n]) == Some(Worker(Evaluating, checkPoint, false))
      decreases |script| - n
    {
      var ok;
      ok, n, w := ReportOnce(script, n, Worker(Evaluating, checkPoint, false));
      if !ok || n == |script| || script[n] != Count {
        return;
      }
      ExtendWorkerRun(script, n);
      checkPoint := checkPoint + 1;
      n := n + 1;
      if checkPoint > 30 {
        break;
      }
    }
    n, w := CloseShutdown(script, n, Worker(Closing, checkPoint, false));
  }

  /** The deferred close(shutdown), the worker's last act. */
  method CloseShutdown(script: seq<WorkerEvent>, n0: nat, w0: Worker) returns (n: nat, w: Worker)
    requires n0 <= |script| && WorkerRun(script[..n0]) == Some(w0) && w0.pc == Closing && !w0.closed
    ensures WorkerStuckAt(script, n, w)
  {
    n, w := n0, w0;
    if n < |script| && script[n] == Close {
      ExtendWorkerRun(script, n);
      n, w := n + 1, w.(pc := Finished, closed := true);
    }
  }
}
