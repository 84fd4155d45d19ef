/**
  * The select loop of service.run (svc/service.go) as a partial step function over rendezvous,
  * together with the control callbacks that block on the channel s.c. The handler is arbitrary:
  * every rendezvous it could take part in is a possible event.
  */
module RunLoop {
  import opened Wrappers
  import opened ServiceStatus

  /** A ctlEvent, without the three fields the loop never reads. */
  datatype CtlEvent = CtlEvent(cmd: Cmd, errno: uint32)

  /** How one call of updateStatus ends. */
  datatype Outcome = Ok | Errno(errno: uint32) | NoHandle

  /** SetServiceStatus fails with a non-zero errno, and is not called without a handle. */
  predicate Possible(h: nat, o: Outcome) {
    match o
    case Ok => h != 0
    case Errno(e) => h != 0 && e != 0
    case NoHandle => h == 0
  }

  /** The best suitable error number for a failed update. */
  function FailureCode(o: Outcome): uint32
    requires o != Ok
  {
    if o.Errno? then o.errno else SYS_ERR_SET_SERVICE_STATUS_FAILED
  }

  datatype LoopPc = Selecting | Finishing | Signalling | Returned

  /** Locals of run, the handle, the SCM's record, and whether cWaits has been set. */
  datatype Loop = Loop(
    h: nat, pc: LoopPc, inch: bool, outch: bool, cmd: Cmd, status: Status, ec: ExitCode,
    scm: Record, cWaits: bool)

  /** One rendezvous of the loop goroutine, or one of its two final actions. */
  datatype LoopEvent =
    | Recv(ctl: CtlEvent)
    | Deliver(req: ChangeRequest)
    | Change(c: Status, outcome: Outcome)
    | Exit(ec: ExitCode)
    | Final(outcome: Outcome)
    | Signal

  function Start(h: nat, scm: Record): Loop {
    Loop(h, Selecting, true, false, 0, STOPPED_STATUS, NO_EXIT, scm, false)
  }

  function LoopStep(l: Loop, e: LoopEvent): Option<Loop> {
    match e
    case Recv(ctl) =>
      if l.pc != Selecting || !l.inch then None
      else if ctl.errno != 0 then Some(l.(ec := l.ec.(errno := ctl.errno), pc := Finishing))
      else Some(l.(inch := false, outch := true, cmd := ctl.cmd))
    case Deliver(req) =>
      if l.pc != Selecting || !l.outch || req != ChangeRequest(l.cmd, l.status) then None
      else Some(l.(inch := true, outch := false))
    case Change(c, o) =>
      if l.pc != Selecting || !Possible(l.h, o) then None
      else if o != Ok then Some(l.(ec := l.ec.(errno := FailureCode(o)), pc := Finishing))
      else Some(l.(status := c, scm := RecordOf(c, l.ec)))
    case Exit(ec) =>
      if l.pc != Selecting then None else Some(l.(ec := ec, pc := Finishing))
    case Final(o) =>
      if l.pc != Finishing || !Possible(l.h, o) then None
      else Some(l.(pc := Signalling, scm := if o == Ok then RecordOf(STOPPED_STATUS, l.ec) else l.scm))
    case Signal =>
      if l.pc != Signalling then None else Some(l.(pc := Returned, cWaits := true))
  }

  /** The state after a sequence of events, if the loop can engage in all of them. */
  function LoopRun(l0: Loop, es: seq<LoopEvent>): Option<Loop> {
    if es == [] then Some(l0)
    else match LoopRun(l0, DropLast(es))
      case None => None
      case Some(l) => LoopStep(l, Last(es))
  }

  lemma {:induction false} PrefixRuns(l0: Loop, es: seq<LoopEvent>, n: nat)
    requires LoopRun(l0, es).Some? && n <= |es|
    ensures LoopRun(l0, es[..n]).Some?
    decreases |es|
  {
    if n < |es| {
      PrefixRuns(l0, DropLast(es), n);
      assert DropLast(es)[..n] == es[..n];
    } else {
      assert es[..n] == es;
    }
  }

  // ---- Commands ----

  function ReceivedBy(e: LoopEvent): seq<Cmd> {
    if e.Recv? && e.ctl.errno == 0 then [e.ctl.cmd] else []
  }

  /** The error-free commands taken from s.c, in order. */
  function Received(es: seq<LoopEvent>): seq<Cmd> {
    if es == [] then [] else Received(DropLast(es)) + ReceivedBy(Last(es))
  }

  function DeliveredBy(e: LoopEvent): seq<Cmd> {
    if e.Deliver? then [e.req.cmd] else []
  }

  /** The commands handed to the handler, in order. */
  function Delivered(es: seq<LoopEvent>): seq<Cmd> {
    if es == [] then [] else Delivered(DropLast(es)) + DeliveredBy(Last(es))
  }

  function Pending(l: Loop): seq<Cmd> {
    if l.outch then [l.cmd] else []
  }

  lemma FifoStep(l: Loop, e: LoopEvent, l': Loop, received: seq<Cmd>, delivered: seq<Cmd>)
    requires LoopStep(l, e) == Some(l')
    requires received == delivered + Pending(l) && l.inch != l.outch
    ensures received + ReceivedBy(e) == delivered + DeliveredBy(e) + Pending(l') && l'.inch != l'.outch
  {
    match e {
      case Recv(ctl) => assert Pending(l) == [] && received == delivered;
      case Deliver(req) => assert Pending(l) == [req.cmd];
      case _ => assert Pending(l') == Pending(l);
    }
  }

  /**
    * Commands are neither lost, duplicated nor reordered, whatever the handler does: what was received
    * is what was delivered followed by at most one pending command, and exactly one of the two channel
    * variables is non-nil.
    */
  lemma {:induction false} CommandsAreFifo(h: nat, scm: Record, es: seq<LoopEvent>, l: Loop)
    requires LoopRun(Start(h, scm), es) == Some(l)
    ensures Received(es) == Delivered(es) + Pending(l)
    ensures l.inch != l.outch
  {
    if es != [] {
      var p := DropLast(es);
      var l1 := LoopRun(Start(h, scm), p).value;
      CommandsAreFifo(h, scm, p, l1);
      FifoStep(l1, Last(es), l, Received(p), Delivered(p));
    }
  }

  // ---- Statuses ----

  /** The statuses one event makes SetServiceStatus accept. */
  function PublishedBy(e: LoopEvent): seq<Status> {
    match e
    case Change(c, Ok) => [c]
    case Final(Ok) => [STOPPED_STATUS]
    case _ => []
  }

  /** Every status accepted by SetServiceStatus, in order. */
  function Published(es: seq<LoopEvent>): seq<Status> {
    if es == [] then [] else Published(DropLast(es)) + PublishedBy(Last(es))
  }

  /** The last accepted status, or the initial Stopped. */
  function Current(es: seq<LoopEvent>): Status {
    if Published(es) == [] then STOPPED_STATUS else Last(Published(es))
  }

  predicate BeforeFinal(l: Loop) {
    l.pc == Selecting || l.pc == Finishing
  }

  /** The loop agrees with what has been published: its status, and the SCM's record. */
  predicate Agrees(h: nat, scm: Record, published: seq<Status>, l: Loop) {
    && l.h == h && (l.pc == Selecting ==> l.ec == NO_EXIT) && !l.cWaits
    && l.status == (if published == [] then STOPPED_STATUS else Last(published))
    && l.scm == (if published == [] then scm else RecordOf(Last(published), NO_EXIT))
  }

  lemma AgreesStep(h: nat, scm: Record, published: seq<Status>, l: Loop, e: LoopEvent, l': Loop)
    requires LoopStep(l, e) == Some(l') && BeforeFinal(l')
    requires Agrees(h, scm, published, l)
    ensures Agrees(h, scm, published + PublishedBy(e), l')
  {
    assert published + [] == published;
    if PublishedBy(e) != [] {
      assert Last(published + PublishedBy(e)) == e.c;
    }
  }

  /**
    * Until the final update, the loop's status is the last one SetServiceStatus accepted and the SCM
    * holds the record of exactly that status with no exit code; a rejected status is never adopted.
    */
  lemma {:induction false} StatusAgreement(h: nat, scm: Record, es: seq<LoopEvent>, l: Loop)
    requires LoopRun(Start(h, scm), es) == Some(l)
    requires BeforeFinal(l)
    ensures Agrees(h, scm, Published(es), l)
    ensures l.status == Current(es)
    ensures l.scm == if Published(es) == [] then scm else RecordOf(Current(es), NO_EXIT)
  {
    if es != [] {
      var p := DropLast(es);
      var l1 := LoopRun(Start(h, scm), p).value;
      NeverBackToLoop(l1, Last(es), l);
      StatusAgreement(h, scm, p, l1);
      AgreesStep(h, scm, Published(p), l1, Last(es), l);
    }
  }

  lemma NeverBackToLoop(l: Loop, e: LoopEvent, l': Loop)
    requires LoopStep(l, e) == Some(l') && BeforeFinal(l')
    ensures BeforeFinal(l)
  {}

  /** The CurrentStatus of every delivered request is the last status accepted before the delivery. */
  lemma {:induction false} RequestsCarryCurrentStatus(h: nat, scm: Record, es: seq<LoopEvent>, i: nat)
    requires LoopRun(Start(h, scm), es).Some?
    requires i < |es| && es[i].Deliver?
    ensures es[i].req.currentStatus == Current(es[..i])
    ensures Received(es[..i]) == Delivered(es[..i]) + [es[i].req.cmd]
  {
    PrefixRuns(Start(h, scm), es, i);
    PrefixRuns(Start(h, scm), es, i + 1);
    assert DropLast(es[..i + 1]) == es[..i];
    var l := LoopRun(Start(h, scm), es[..i]).value;
    StatusAgreement(h, scm, es[..i], l);
    CommandsAreFifo(h, scm, es[..i], l);
  }

  /** What the manager reads while the loop runs is the current status as far as a query shows it. */
  lemma QueryAgrees(h: nat, scm: Record, es: seq<LoopEvent>, l: Loop)
    requires LoopRun(Start(h, scm), es) == Some(l)
    requires BeforeFinal(l) && Published(es) != []
    ensures QueryOf(l.scm) == Status(Current(es).state, Current(es).accepts & ACCEPT_KNOWN, 0, 0)
  {
    StatusAgreement(h, scm, es, l);
  }

  // ---- Exit codes ----

  /** The record an event makes the loop pass to SetServiceStatus, accepted or not. */
  function Attempt(l: Loop, e: LoopEvent): seq<Record> {
    match e
    case Change(c, o) => if o.NoHandle? then [] else [RecordOf(c, l.ec)]
    case Final(o) => if o.NoHandle? then [] else [RecordOf(STOPPED_STATUS, l.ec)]
    case _ => []
  }

  function Attempts(l0: Loop, es: seq<LoopEvent>): seq<Record>
    requires LoopRun(l0, es).Some?
  {
    if es == [] then []
    else Attempts(l0, DropLast(es)) + Attempt(LoopRun(l0, DropLast(es)).value, Last(es))
  }

  /** The exit code with which an event breaks the loop, if it does. */
  function BreakCode(e: LoopEvent): Option<ExitCode> {
    match e
    case Recv(ctl) => if ctl.errno != 0 then Some(ExitCode(true, ctl.errno)) else None
    case Change(_, o) => if o != Ok then Some(ExitCode(true, FailureCode(o))) else None
    case Exit(ec) => Some(ec)
    case _ => None
  }

  /** The exit code of the first event that breaks the loop. */
  function Cause(es: seq<LoopEvent>): Option<ExitCode> {
    if es == [] then None
    else if Cause(DropLast(es)).Some? then Cause(DropLast(es))
    else BreakCode(Last(es))
  }

  predicate HandlerExited(es: seq<LoopEvent>) {
    exists i | 0 <= i < |es| :: es[i].Exit?
  }

  lemma {:induction false} CauseKnown(h: nat, scm: Record, es: seq<LoopEvent>, l: Loop)
    requires LoopRun(Start(h, scm), es) == Some(l)
    ensures l.h == h
    ensures l.pc == Selecting <==> Cause(es).None?
    ensures l.pc == Selecting ==> l.ec == NO_EXIT
    ensures l.pc != Selecting ==> l.ec == Cause(es).value
    ensures l.pc != Selecting && !HandlerExited(es) ==> l.ec.isSvcSpecific && l.ec.errno != 0
  {
    if es != [] {
      var p := DropLast(es);
      CauseKnown(h, scm, p, LoopRun(Start(h, scm), p).value);
      assert Last(es).Exit? ==> es[|es| - 1].Exit?;
      assert forall i | 0 <= i < |p| :: p[i] == es[i];
    }
  }

  lemma {:induction false} CleanBeforeFinal(h: nat, scm: Record, es: seq<LoopEvent>, l: Loop)
    requires LoopRun(Start(h, scm), es) == Some(l) && BeforeFinal(l)
    ensures forall r | r in Attempts(Start(h, scm), es) :: CarriesNoError(r)
  {
    if es != [] {
      var p := DropLast(es);
      var l1 := LoopRun(Start(h, scm), p).value;
      NeverBackToLoop(l1, Last(es), l);
      CleanBeforeFinal(h, scm, p, l1);
      CauseKnown(h, scm, p, l1);
    }
  }

  /** The final record comes last, behind clean ones. */
  lemma {:induction false} FinalAttempt(h: nat, scm: Record, es: seq<LoopEvent>, l: Loop)
    requires h != 0 && LoopRun(Start(h, scm), es) == Some(l) && !BeforeFinal(l)
    ensures var records := Attempts(Start(h, scm), es);
      && records != [] && Last(records) == RecordOf(STOPPED_STATUS, l.ec)
      && forall r | r in DropLast(records) :: CarriesNoError(r)
  {
    var p := DropLast(es);
    var l1 := LoopRun(Start(h, scm), p).value;
    var records := Attempts(Start(h, scm), p);
    CauseKnown(h, scm, p, l1);
    AttemptAtEnd(l1, Last(es), l);
    if BeforeFinal(l1) {
      CleanBeforeFinal(h, scm, p, l1);
      SnocEnds(records, RecordOf(STOPPED_STATUS, l.ec));
    } else {
      FinalAttempt(h, scm, p, l1);
      assert records + [] == records;
    }
  }

  lemma AttemptAtEnd(l: Loop, e: LoopEvent, l': Loop)
    requires LoopStep(l, e) == Some(l') && !BeforeFinal(l') && l.h != 0
    ensures l'.ec == l.ec && Attempt(l, e) == if BeforeFinal(l) then [RecordOf(STOPPED_STATUS, l'.ec)] else []
  {}

  /**
    * Exit codes over whole runs with a handle: every record sent before the final one carries NO_ERROR
    * in both fields; the final one is sent exactly once, last, is Stopped, and its two fields decode to
    * the cause of the exit. An exit that the loop itself detected is never reported as success.
    */
  lemma {:induction false} ExitCodeIntegrity(h: nat, scm: Record, es: seq<LoopEvent>, l: Loop)
    requires h != 0 && LoopRun(Start(h, scm), es) == Some(l)
    ensures var records := Attempts(Start(h, scm), es);
      if BeforeFinal(l) then forall r | r in records :: CarriesNoError(r)
      else
        && records != [] && Cause(es).Some?
        && (forall r | r in DropLast(records) :: CarriesNoError(r))
        && Last(records) == RecordOf(STOPPED_STATUS, Cause(es).value)
        && Last(records).currentState == STOPPED
        && ExitCodeOf(Last(records))
           == (if Cause(es).value.errno == 0 then None else Cause(es))
        && (!HandlerExited(es) ==> ExitCodeOf(Last(records)).Some? && ExitCodeOf(Last(records)).value.isSvcSpecific)
  {
    CauseKnown(h, scm, es, l);
    if BeforeFinal(l) {
      CleanBeforeFinal(h, scm, es, l);
    } else {
      FinalAttempt(h, scm, es, l);
      ExitCodeDecodes(STOPPED_STATUS, Cause(es).value);
    }
  }

  /**
    * After the final update the SCM shows Stopped with the cause of the exit, or, if that update failed,
    * still the record of the last status it accepted.
    */
  lemma {:induction false} FinalRecordShown(h: nat, scm: Record, es: seq<LoopEvent>, l: Loop)
    requires LoopRun(Start(h, scm), es) == Some(l) && !BeforeFinal(l)
    ensures Cause(es).Some?
    ensures l.scm ==
      if Final(Ok) in es then RecordOf(STOPPED_STATUS, Cause(es).value)
      else if Published(es) == [] then scm else RecordOf(Current(es), NO_EXIT)
  {
    var (p, e) := (DropLast(es), Last(es));
    var l1 := LoopRun(Start(h, scm), p).value;
    assert es == p + [e];
    CauseKnown(h, scm, es, l);
    CauseKnown(h, scm, p, l1);
    if BeforeFinal(l1) {
      StatusAgreement(h, scm, p, l1);
      NoFinalBefore(h, scm, p, l1);
    } else {
      FinalRecordShown(h, scm, p, l1);
    }
    assert Published(p) + [] == Published(p);
  }

  // ---- How the loop is left ----

  /** The exit code each of the four ways out of the loop leaves behind. */
  predicate LeavesWith(e: LoopEvent, ec: ExitCode) {
    match e
    case Recv(ctl) => ctl.errno != 0 && ec == ExitCode(true, ctl.errno)
    case Change(_, Errno(errno)) => ec == ExitCode(true, errno)
    case Change(_, NoHandle) => ec == ExitCode(true, 0x2000_0000)
    case Exit(handlers) => ec == handlers
    case _ => false
  }

  lemma LeavingStep(l: Loop, e: LoopEvent, l': Loop)
    requires LoopStep(l, e) == Some(l') && l.pc == Selecting && l.ec == NO_EXIT
    ensures l'.pc == Selecting || (l'.pc == Finishing && LeavesWith(e, l'.ec))
  {}

  lemma {:induction false} LoopConcat(l0: Loop, a: seq<LoopEvent>, b: seq<LoopEvent>)
    requires LoopRun(l0, a + b).Some?
    ensures LoopRun(l0, a).Some? && LoopRun(LoopRun(l0, a).value, b) == LoopRun(l0, a + b)
  {
    if b == [] {
      assert a + b == a;
    } else {
      ConcatEnds(a, b);
      LoopConcat(l0, a, DropLast(b));
    }
  }

  lemma {:induction false} CodeStays(l1: Loop, es: seq<LoopEvent>, l: Loop)
    requires LoopRun(l1, es) == Some(l) && l1.pc != Selecting
    ensures l.pc != Selecting && l.ec == l1.ec
    ensures forall e | e in es :: e.Final? || e.Signal?
  {
    if es != [] {
      CodeStays(l1, DropLast(es), LoopRun(l1, DropLast(es)).value);
      assert es == DropLast(es) + [Last(es)];
    }
  }

  /**
    * Whole runs, a + [e] + b, in which e takes the loop out of its select: the exit code is the errno with
    * which SetServiceStatus refused a report, the package's own code for a missing handle, the errno of a
    * callback, or what Execute returned. The last record says Stopped and carries that code in its two
    * fields, and the SCM holds it if the final update is accepted. Only the final update and its signal follow.
    */
  lemma {:induction false} ExitCodeByEvent(
    h: nat, scm: Record, a: seq<LoopEvent>, la: Loop, e: LoopEvent, le: Loop, b: seq<LoopEvent>, l: Loop)
    requires LoopRun(Start(h, scm), a) == Some(la) && la.pc == Selecting
    requires LoopStep(la, e) == Some(le) && le.pc != Selecting
    requires LoopRun(Start(h, scm), a + [e] + b) == Some(l)
    ensures LeavesWith(e, l.ec) && forall x | x in b :: x.Final? || x.Signal?
    ensures h != 0 && b != [] ==>
      var records := Attempts(Start(h, scm), a + [e] + b);
      records != [] && Tells(Last(records), Status(1, 0, 0, 0), l.ec)
    ensures Final(Ok) in b ==> Tells(l.scm, Status(1, 0, 0, 0), l.ec)
  {
    CauseKnown(h, scm, a, la);
    LeavingStep(la, e, le);
    LoopConcat(Start(h, scm), a + [e], b);
    LoopRunExtends(Start(h, scm), a, e);
    CodeStays(le, b, l);
    RecordTells(STOPPED_STATUS, l.ec);
    if b != [] {
      FinalComesFirst(le, b, l);
      FinalShown(h, scm, a + [e] + b, l);
      assert Final(Ok) in b ==> Final(Ok) in a + [e] + b;
    }
  }

  lemma {:induction false} FinalComesFirst(l1: Loop, es: seq<LoopEvent>, l: Loop)
    requires LoopRun(l1, es) == Some(l) && l1.pc == Finishing && es != []
    ensures !BeforeFinal(l)
  {
    if |es| > 1 {
      FinalComesFirst(l1, DropLast(es), LoopRun(l1, DropLast(es)).value);
    } else {
      assert DropLast(es) == [];
    }
  }

  lemma {:induction false} FinalShown(h: nat, scm: Record, es: seq<LoopEvent>, l: Loop)
    requires LoopRun(Start(h, scm), es) == Some(l) && !BeforeFinal(l)
    ensures h != 0 ==>
      Attempts(Start(h, scm), es) != [] && Last(Attempts(Start(h, scm), es)) == RecordOf(STOPPED_STATUS, l.ec)
    ensures Final(Ok) in es ==> l.scm == RecordOf(STOPPED_STATUS, l.ec)
  {
    CauseKnown(h, scm, es, l);
    FinalRecordShown(h, scm, es, l);
    if h != 0 {
      FinalAttempt(h, scm, es, l);
    }
  }

  /** Until then the SCM is told exactly the last accepted status, and no exit code. */
  lemma {:induction false} HeldRecord(h: nat, scm: Record, es: seq<LoopEvent>, l: Loop)
    requires LoopRun(Start(h, scm), es) == Some(l) && BeforeFinal(l) && Published(es) != []
    ensures Tells(l.scm, Last(Published(es)), ExitCode(false, 0))
  {
    StatusAgreement(h, scm, es, l);
    RecordTells(Current(es), NO_EXIT);
  }

  lemma {:induction false} NoFinalBefore(h: nat, scm: Record, es: seq<LoopEvent>, l: Loop)
    requires LoopRun(Start(h, scm), es) == Some(l) && BeforeFinal(l)
    ensures Final(Ok) !in es
  {
    if es != [] {
      var l1 := LoopRun(Start(h, scm), DropLast(es)).value;
      NeverBackToLoop(l1, Last(es), l);
      NoFinalBefore(h, scm, DropLast(es), l1);
      assert es == DropLast(es) + [Last(es)];
    }
  }

  // ---- Control callbacks ----

  /** A callback blocks sending on s.c, has its event taken, and then returns to the SCM. */
  datatype Stage = Blocked | Taken | Back

  datatype Callback = Callback(ctl: CtlEvent, stage: Stage)

  /** The loop and every control callback so far; a callback is named by its index. */
  datatype Svc = Svc(loop: Loop, callbacks: seq<Callback>)

  datatype SvcEvent =
    | Arrive(ctl: Cmd, onRunThread: bool)
    | Take(i: nat, e: CtlEvent)
    | Return(i: nat)
    | Other(loopEvent: LoopEvent)

  /** The event that the callback built by Run sends. */
  function ControlEvent(ctl: Cmd, onRunThread: bool): CtlEvent {
    CtlEvent(ctl, if onRunThread then 0 else SYS_ERR_NEW_THREAD_IN_CALLBACK)
  }

  function LoopEventOf(e: SvcEvent): seq<LoopEvent> {
    match e
    case Take(_, ctl) => [Recv(ctl)]
    case Other(le) => [le]
    case _ => []
  }

  function SvcStep(s: Svc, e: SvcEvent): Option<Svc> {
    match e
    case Arrive(ctl, onRunThread) =>
      Some(s.(callbacks := s.callbacks + [Callback(ControlEvent(ctl, onRunThread), Blocked)]))
    case Take(i, ctl) =>
      if i < |s.callbacks| && s.callbacks[i] == Callback(ctl, Blocked) && LoopStep(s.loop, Recv(ctl)).Some? then
        Some(Svc(LoopStep(s.loop, Recv(ctl)).value, s.callbacks[i := Callback(ctl, Taken)]))
      else None
    case Return(i) =>
      if i < |s.callbacks| && s.callbacks[i].stage == Taken then
        Some(s.(callbacks := s.callbacks[i := s.callbacks[i].(stage := Back)]))
      else None
    case Other(le) =>
      if !le.Recv? && LoopStep(s.loop, le).Some? then Some(s.(loop := LoopStep(s.loop, le).value)) else None
  }

  function SvcRun(s0: Svc, es: seq<SvcEvent>): Option<Svc> {
    if es == [] then Some(s0)
    else match SvcRun(s0, DropLast(es))
      case None => None
      case Some(s) => SvcStep(s, Last(es))
  }

  function LoopEvents(es: seq<SvcEvent>): seq<LoopEvent> {
    if es == [] then [] else LoopEvents(DropLast(es)) + LoopEventOf(Last(es))
  }

  lemma LoopSide(s: Svc, e: SvcEvent, s': Svc)
    requires SvcStep(s, e) == Some(s')
    ensures LoopEventOf(e) == [] ==> s'.loop == s.loop
    ensures LoopEventOf(e) != [] ==> LoopStep(s.loop, LoopEventOf(e)[0]) == Some(s'.loop)
  {}

  lemma LoopRunExtends(l0: Loop, es: seq<LoopEvent>, e: LoopEvent)
    requires LoopRun(l0, es).Some?
    ensures LoopRun(l0, es + [e]) == LoopStep(LoopRun(l0, es).value, e)
  {
    SnocEnds(es, e);
  }

  /** Every theorem about the loop holds of the loop among its callbacks. */
  lemma {:induction false} CallbacksProject(s0: Svc, es: seq<SvcEvent>, s: Svc)
    requires SvcRun(s0, es) == Some(s)
    ensures LoopRun(s0.loop, LoopEvents(es)) == Some(s.loop)
  {
    if es != [] {
      var p, loops := SvcRun(s0, DropLast(es)).value, LoopEvents(DropLast(es));
      CallbacksProject(s0, DropLast(es), p);
      LoopSide(p, Last(es), s);
      var le := LoopEventOf(Last(es));
      if le == [] {
        assert loops + le == loops;
      } else {
        assert le == [le[0]];
        LoopRunExtends(s0.loop, loops, le[0]);
      }
    }
  }

  /** How often the event of callback i was received. */
  function Receipts(es: seq<SvcEvent>, i: nat): nat {
    if es == [] then 0
    else Receipts(DropLast(es), i) + if Last(es).Take? && Last(es).i == i then 1 else 0
  }

  /** A callback that is still blocked was not received; one that has returned was received exactly once. */
  lemma {:induction false} CallbacksReceivedOnce(h: nat, scm: Record, es: seq<SvcEvent>, s: Svc, i: nat)
    requires SvcRun(Svc(Start(h, scm), []), es) == Some(s)
    ensures i < |s.callbacks| ==> Receipts(es, i) == if s.callbacks[i].stage == Blocked then 0 else 1
    ensures i >= |s.callbacks| ==> Receipts(es, i) == 0
  {
    if es != [] {
      CallbacksReceivedOnce(h, scm, DropLast(es), SvcRun(Svc(Start(h, scm), []), DropLast(es)).value, i);
    }
  }

  lemma {:induction false} SvcConcat(s0: Svc, a: seq<SvcEvent>, b: seq<SvcEvent>)
    requires SvcRun(s0, a + b).Some?
    ensures SvcRun(s0, a).Some? && SvcRun(SvcRun(s0, a).value, b) == SvcRun(s0, a + b)
  {
    if b == [] {
      assert a + b == a;
    } else {
      ConcatEnds(a, b);
      SvcConcat(s0, a, DropLast(b));
    }
  }

  lemma {:induction false} ControlStays(s0: Svc, es: seq<SvcEvent>, s: Svc, i: nat)
    requires SvcRun(s0, es) == Some(s) && i < |s0.callbacks|
    ensures i < |s.callbacks| && s.callbacks[i].ctl == s0.callbacks[i].ctl
  {
    if es != [] {
      ControlStays(s0, DropLast(es), SvcRun(s0, DropLast(es)).value, i);
    }
  }

  predicate Delivers(e: SvcEvent) {
    e.Other? && e.loopEvent.Deliver?
  }

  lemma {:induction false} NothingDelivered(s0: Svc, es: seq<SvcEvent>, s: Svc)
    requires SvcRun(s0, es) == Some(s) && s0.loop.pc != Selecting
    ensures s.loop.pc != Selecting && s.loop.ec == s0.loop.ec
    ensures forall e | e in es :: !Delivers(e)
  {
    if es != [] {
      NothingDelivered(s0, DropLast(es), SvcRun(s0, DropLast(es)).value);
      assert es == DropLast(es) + [Last(es)];
    }
  }

  lemma {:induction false} TakenFrom(
    sa: Svc, cmd: Cmd, onRunThread: bool, b: seq<SvcEvent>, sb: Svc, ctl: CtlEvent, c: seq<SvcEvent>, s: Svc)
    requires SvcRun(SvcStep(sa, Arrive(cmd, onRunThread)).value, b) == Some(sb) && sb.loop.ec == NO_EXIT
    requires SvcStep(sb, Take(|sa.callbacks|, ctl)).Some?
    requires SvcRun(SvcStep(sb, Take(|sa.callbacks|, ctl)).value, c) == Some(s)
    ensures onRunThread ==> ctl == CtlEvent(cmd, 0)
    ensures !onRunThread ==> ctl.errno == 0x2000_0001 && s.loop.pc != Selecting
    ensures !onRunThread ==> s.loop.ec == ExitCode(true, 0x2000_0001) && forall e | e in c :: !Delivers(e)
  {
    var s1 := SvcStep(sa, Arrive(cmd, onRunThread)).value;
    ControlStays(s1, b, sb, |sa.callbacks|);
    assert s1.callbacks[|sa.callbacks|].ctl == ControlEvent(cmd, onRunThread);
    if !onRunThread {
      NothingDelivered(SvcStep(sb, Take(|sa.callbacks|, ctl)).value, c, s);
    }
  }

  /**
    * A control, from the callback to the loop, in any run with a + [arrival] + b + [take] + c. On the right
    * thread the loop receives the control itself. On any other it receives the package's error code, which
    * ends the loop: neither that control nor any other is delivered from then on.
    */
  lemma {:induction false} ControlTaken(
    h: nat, scm: Record, a: seq<SvcEvent>, sa: Svc, cmd: Cmd, onRunThread: bool,
    b: seq<SvcEvent>, ctl: CtlEvent, c: seq<SvcEvent>, s: Svc)
    requires SvcRun(Svc(Start(h, scm), []), a) == Some(sa)
    requires var run := a + [Arrive(cmd, onRunThread)] + b + [Take(|sa.callbacks|, ctl)] + c;
      SvcRun(Svc(Start(h, scm), []), run) == Some(s)
    ensures onRunThread ==> ctl == CtlEvent(cmd, 0)
    ensures !onRunThread ==> ctl.errno == 0x2000_0001 && s.loop.pc != Selecting
    ensures !onRunThread ==> s.loop.ec == ExitCode(true, 0x2000_0001) && forall e | e in c :: !Delivers(e)
  {
    var s0, arrival, take := Svc(Start(h, scm), []), Arrive(cmd, onRunThread), Take(|sa.callbacks|, ctl);
    SvcConcat(s0, a + [arrival] + b + [take], c);
    SvcConcat(s0, a + [arrival] + b, [take]);
    SvcConcat(s0, a + [arrival], b);
    SvcConcat(s0, a, [arrival]);
    var sb := SvcRun(s0, a + [arrival] + b).value;
    SvcSingle(sa, arrival);
    SvcSingle(sb, take);
    CallbacksProject(s0, a + [arrival] + b, sb);
    CauseKnown(h, scm, LoopEvents(a + [arrival] + b), sb.loop);
    TakenFrom(sa, cmd, onRunThread, b, sb, ctl, c, s);
  }

  lemma SvcSingle(s: Svc, e: SvcEvent)
    ensures SvcRun(s, [e]) == SvcStep(s, e)
  {
    assert DropLast([e]) == [];
  }
}
