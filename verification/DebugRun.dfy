/**
  * debug.Run (debug/service.go), the console driver for the same handler interface, and its relation to
  * the service's run loop: everything a handler can observe under the debug driver it can observe under
  * the service, but the debug driver can deadlock with a handler where the service loop cannot.
  */
module DebugRun {
  import opened Wrappers
  import opened ServiceStatus
  import opened RunLoop
  import ExampleHandler

  /** What a handler does: receive a request, send a status, return, or something of its own. */
  datatype Act = Gets(req: ChangeRequest) | Puts(s: Status) | Returns(ec: ExitCode) | Internally

  /** A handler is any transition relation over its acts. */
  type Behaviour<!H> = (H, Act, H) -> bool

  // ---- The debug driver ----

  /** committed: the request the goroutine is blocked sending; result: what Execute returned. */
  datatype Driver = Driver(status: Status, committed: Option<ChangeRequest>, result: Option<ExitCode>)

  datatype DebugEvent = Interrupt | Do(act: Act)

  const DRIVER_START := Driver(STOPPED_STATUS, None, None)

  function DriverStep(d: Driver, e: DebugEvent): Option<Driver> {
    if d.result.Some? then None
    else match e
      case Interrupt =>
        if d.committed.None? then Some(d.(committed := Some(ChangeRequest(STOP, d.status)))) else None
      case Do(Gets(req)) => if d.committed == Some(req) then Some(d.(committed := None)) else None
      case Do(Puts(s)) => if d.committed.None? then Some(d.(status := s)) else None
      case Do(Returns(ec)) => Some(d.(result := Some(ec)))
      case Do(Internally) => Some(d)
  }

  function DriverRun(es: seq<DebugEvent>): Option<Driver> {
    if es == [] then Some(DRIVER_START)
    else match DriverRun(DropLast(es))
      case None => None
      case Some(d) => DriverStep(d, Last(es))
  }

  /** The error debug.Run returns, if any. */
  function DebugError(ec: ExitCode): Option<uint32> {
    if ec.errno != 0 then Some(ec.errno) else None
  }

  lemma ExtendDriverRun(script: seq<DebugEvent>, n: nat)
    requires n < |script| && DriverRun(script[..n]).Some?
    ensures DriverRun(script[..n + 1]) == DriverStep(DriverRun(script[..n]).value, script[n])
  {
    assert DropLast(script[..n + 1]) == script[..n];
  }

  /** debug.Run as structured code: the goroutine's select, with its send of the Stop command nested in it. */
  method Run(script: seq<DebugEvent>) returns (n: nat, d: Driver)
    ensures n <= |script| && DriverRun(script[..n]) == Some(d)
    ensures n < |script| ==> DriverStep(d, script[n]).None?
  {
    var status := STOPPED_STATUS;
    n := 0;
    while true
      invariant n <= |script| && DriverRun(script[..n]) == Some(Driver(status, None, None))
      decreases |script| - n
    {
      d := Driver(status, None, None);
      if n == |script| {
        return;
      }
      ExtendDriverRun(script, n);
      match script[n] {
        case Interrupt =>
          n := n + 1;
          var delivered;
          delivered, n, d := SendStop(script, n, status);
          if !delivered {
            return;
          }
        case Do(Puts(s)) =>
          status := s;
          n := n + 1;
        case Do(Returns(ec)) =>
          n, d := n + 1, d.(result := Some(ec));
          return;
        case Do(Internally) =>
          n := n + 1;
        case _ =>
          return;
      }
    }
  }

  /** cmds <- ChangeRequest{Stop, status}: nothing but the handler's receive can end it. */
  method SendStop(script: seq<DebugEvent>, n0: nat, status: Status) returns (delivered: bool, n: nat, d: Driver)
    requires n0 <= |script|
    requires DriverRun(script[..n0]) == Some(Driver(status, Some(ChangeRequest(STOP, status)), None))
    ensures n0 <= n <= |script| && DriverRun(script[..n]) == Some(d)
    ensures delivered ==> d == Driver(status, None, None)
    ensures !delivered && n < |script| ==> DriverStep(d, script[n]).None?
  {
    var req := ChangeRequest(STOP, status);
    n, d := n0, Driver(status, Some(req), None);
    while n < |script|
      invariant n0 <= n <= |script| && DriverRun(script[..n]) == Some(d) && d == Driver(status, Some(req), None)
    {
      ExtendDriverRun(script, n);
      var e := script[n];
      if e == Do(Gets(req)) {
        return true, n + 1, d.(committed := None);
      } else if e.Do? && e.act.Returns? {
        return false, n + 1, d.(result := Some(e.act.ec));
      } else if e != Do(Internally) {
        return false, n, d;
      }
      n := n + 1;
    }
    delivered := false;
  }

  // ---- Handlers under either driver ----

  datatype ServiceEvent = Loops(e: LoopEvent) | Aside

  function ActOfDebug(e: DebugEvent): Option<Act> {
    if e.Do? then Some(e.act) else None
  }

  /** The handler's side of a service event; only accepted updates count as sent. */
  function ActOfService(e: ServiceEvent): Option<Act> {
    match e
    case Loops(Deliver(req)) => Some(Gets(req))
    case Loops(Change(s, Ok)) => Some(Puts(s))
    case Loops(Exit(ec)) => Some(Returns(ec))
    case Aside => Some(Internally)
    case _ => None
  }

  ghost predicate Moves<H(!new)>(next: Behaviour<H>, h: H, act: Option<Act>, h': H) {
    if act.None? then h' == h else next(h, act.value, h')
  }

  /** A run of the debug driver with a handler: events, each with the handler's state after it. */
  ghost predicate DebugPath<H(!new)>(next: Behaviour<H>, h0: H, path: seq<(DebugEvent, H)>, d: Driver, h: H) {
    if path == [] then d == DRIVER_START && h == h0
    else
      && h == Last(path).1
      && exists d1, h1 ::
        && DebugPath(next, h0, DropLast(path), d1, h1)
        && DriverStep(d1, Last(path).0) == Some(d)
        && Moves(next, h1, ActOfDebug(Last(path).0), h)
  }

  ghost predicate ServicePath<H(!new)>(
    next: Behaviour<H>, h0: H, l0: Loop, path: seq<(ServiceEvent, H)>, l: Loop, h: H)
  {
    if path == [] then l == l0 && h == h0
    else
      && h == Last(path).1
      && exists l1, h1 ::
        && ServicePath(next, h0, l0, DropLast(path), l1, h1)
        && ServiceStep(l1, Last(path).0) == Some(l)
        && Moves(next, h1, ActOfService(Last(path).0), h)
  }

  function ServiceStep(l: Loop, e: ServiceEvent): Option<Loop> {
    if e.Aside? then Some(l) else LoopStep(l, e.e)
  }

  /** What the handler does in the course of a run, in order. */
  function DebugTrace<H>(path: seq<(DebugEvent, H)>): seq<Act> {
    if path == [] then []
    else DebugTrace(DropLast(path)) + (var a := ActOfDebug(Last(path).0); if a.Some? then [a.value] else [])
  }

  function ServiceTrace<H>(path: seq<(ServiceEvent, H)>): seq<Act> {
    if path == [] then []
    else ServiceTrace(DropLast(path)) + (var a := ActOfService(Last(path).0); if a.Some? then [a.value] else [])
  }

  // ---- The simulation ----

  /** A service loop that stands where the debug driver stands. */
  predicate Simulates(d: Driver, l: Loop) {
    && l.h != 0 && l.status == d.status
    && l.inch == d.committed.None? && l.outch == d.committed.Some?
    && (d.committed.Some? ==> d.committed.value == ChangeRequest(l.cmd, l.status))
    && (if d.result.Some? then l.pc == Finishing && l.ec == d.result.value else l.pc == Selecting)
  }

  /** An interrupt is a Stop control; a status sent is one that SetServiceStatus accepts. */
  function Simulating(e: DebugEvent): ServiceEvent {
    match e
    case Interrupt => Loops(Recv(CtlEvent(STOP, 0)))
    case Do(Gets(req)) => Loops(Deliver(req))
    case Do(Puts(s)) => Loops(Change(s, Ok))
    case Do(Returns(ec)) => Loops(Exit(ec))
    case Do(Internally) => Aside
  }

  lemma SimulationStep(d: Driver, e: DebugEvent, d': Driver, l: Loop)
    requires Simulates(d, l) && DriverStep(d, e) == Some(d')
    ensures ServiceStep(l, Simulating(e)).Some? && Simulates(d', ServiceStep(l, Simulating(e)).value)
    ensures ActOfService(Simulating(e)) == ActOfDebug(e)
  {}

  predicate IsExit(e: ServiceEvent) {
    e.Loops? && e.e.Exit?
  }

  /** What debug.Run offers too: error-free Stop controls and successful updates, and no final update. */
  predicate StopEvent(e: ServiceEvent) {
    match e
    case Loops(Recv(ctl)) => ctl == CtlEvent(STOP, 0)
    case Loops(Change(_, o)) => o == Ok
    case Loops(Final(_)) => false
    case Loops(Signal) => false
    case _ => true
  }

  /** The service is only ever told to stop, no update fails, and nothing follows the return of Execute. */
  predicate StopOnly<H>(path: seq<(ServiceEvent, H)>) {
    path == [] ||
    (StopOnly(DropLast(path)) && StopEvent(Last(path).0) && (|path| > 1 ==> !IsExit(Last(DropLast(path)).0)))
  }

  lemma ServiceExtends<H(!new)>(
    next: Behaviour<H>, h0: H, l0: Loop, path: seq<(ServiceEvent, H)>, l1: Loop, h1: H, e: ServiceEvent, l: Loop, h: H)
    requires ServicePath(next, h0, l0, path, l1, h1)
    requires ServiceStep(l1, e) == Some(l) && Moves(next, h1, ActOfService(e), h)
    ensures ServicePath(next, h0, l0, path + [(e, h)], l, h)
    ensures ServiceTrace(path + [(e, h)])
         == ServiceTrace(path) + (var a := ActOfService(e); if a.Some? then [a.value] else [])
    ensures StopOnly(path) && StopEvent(e) && (path != [] ==> !IsExit(Last(path).0)) ==> StopOnly(path + [(e, h)])
    ensures Last(path + [(e, h)]) == (e, h)
  {
    assert DropLast(path + [(e, h)]) == path;
  }

  /**
    * debug.Run refines service.run: for any handler, every run under the debug driver is matched by a run
    * of the service loop, with successful updates, in which the handler goes through the same states and
    * does the same things with the same CurrentStatus values.
    */
  lemma {:induction false} DebugRefinesService<H(!new)>(
    next: Behaviour<H>, h0: H, path: seq<(DebugEvent, H)>, d: Driver, h: H, handle: nat, scm: Record)
    returns (path': seq<(ServiceEvent, H)>, l: Loop)
    requires handle != 0 && DebugPath(next, h0, path, d, h)
    ensures ServicePath(next, h0, Start(handle, scm), path', l, h) && Simulates(d, l)
    ensures ServiceTrace(path') == DebugTrace(path)
    ensures StopOnly(path') && (path' != [] && IsExit(Last(path').0) ==> d.result.Some?)
    decreases |path|
  {
    if path == [] {
      path', l := [], Start(handle, scm);
    } else {
      var e := Last(path).0;
      var d1, h1 :| DebugPath(next, h0, DropLast(path), d1, h1)
                    && DriverStep(d1, e) == Some(d) && Moves(next, h1, ActOfDebug(e), h);
      var q, l1 := DebugRefinesService(next, h0, DropLast(path), d1, h1, handle, scm);
      SimulationStep(d1, e, d, l1);
      path', l := q + [(Simulating(e), h)], ServiceStep(l1, Simulating(e)).value;
      ServiceExtends(next, h0, Start(handle, scm), q, l1, h1, Simulating(e), l, h);
      assert StopEvent(Simulating(e)) && (IsExit(Simulating(e)) ==> d.result.Some?);
    }
  }

  /** Where a driver stands that has kept up with the service loop, having committed itself as late as possible. */
  predicate KeepsUp(d: Driver, l: Loop) {
    && d.committed.None? && d.status == l.status
    && (l.outch ==> l.cmd == STOP)
    && (if d.result.Some? then l.pc == Finishing && l.ec == d.result.value else l.pc == Selecting)
  }

  lemma DebugExtends<H(!new)>(
    next: Behaviour<H>, h0: H, path: seq<(DebugEvent, H)>, d1: Driver, h1: H, e: DebugEvent, d: Driver, h: H)
    requires DebugPath(next, h0, path, d1, h1)
    requires DriverStep(d1, e) == Some(d) && Moves(next, h1, ActOfDebug(e), h)
    ensures DebugPath(next, h0, path + [(e, h)], d, h)
    ensures DebugTrace(path + [(e, h)])
         == DebugTrace(path) + (var a := ActOfDebug(e); if a.Some? then [a.value] else [])
  {
    assert DropLast(path + [(e, h)]) == path;
  }

  lemma ScheduledStep<H(!new)>(
    next: Behaviour<H>, h0: H, path: seq<(DebugEvent, H)>, d1: Driver, l1: Loop, h1: H, e: ServiceEvent, l: Loop, h: H)
    returns (path': seq<(DebugEvent, H)>, d: Driver)
    requires DebugPath(next, h0, path, d1, h1) && KeepsUp(d1, l1) && l1.pc == Selecting
    requires StopEvent(e) && ServiceStep(l1, e) == Some(l) && Moves(next, h1, ActOfService(e), h)
    ensures DebugPath(next, h0, path', d, h) && KeepsUp(d, l) && (d.result.Some? <==> IsExit(e))
    ensures DebugTrace(path') == DebugTrace(path) + (var a := ActOfService(e); if a.Some? then [a.value] else [])
  {
    path', d := path, d1;
    var act := ActOfService(e);
    if act.None? {
      assert DebugTrace(path) + [] == DebugTrace(path);
    } else {
      if act.value.Gets? {
        var d2 := DriverStep(d1, Interrupt).value;
        DebugExtends(next, h0, path, d1, h1, Interrupt, d2, h1);
        path', d := path + [(Interrupt, h1)], d2;
      }
      var d3 := DriverStep(d, Do(act.value)).value;
      DebugExtends(next, h0, path', d, h1, Do(act.value), d3, h);
      path', d := path' + [(Do(act.value), h)], d3;
    }
  }

  /**
    * The converse: every run of the service loop in which it is only told to stop and no update fails is
    * matched by a run of debug.Run with the same handler states and the same trace, the signals coming
    * just before the deliveries.
    */
  lemma {:induction false} StopsRefineDebug<H(!new)>(
    next: Behaviour<H>, h0: H, l0: Loop, path: seq<(ServiceEvent, H)>, l: Loop, h: H)
    returns (path': seq<(DebugEvent, H)>, d: Driver)
    requires l0.pc == Selecting && l0.status == STOPPED_STATUS && !l0.outch
    requires ServicePath(next, h0, l0, path, l, h) && StopOnly(path)
    ensures DebugPath(next, h0, path', d, h) && KeepsUp(d, l)
    ensures d.result.Some? <==> path != [] && IsExit(Last(path).0)
    ensures DebugTrace(path') == ServiceTrace(path)
    decreases |path|
  {
    if path == [] {
      path', d := [], DRIVER_START;
    } else {
      var e := Last(path).0;
      var l1, h1 :| ServicePath(next, h0, l0, DropLast(path), l1, h1)
                    && ServiceStep(l1, e) == Some(l) && Moves(next, h1, ActOfService(e), h);
      var q, d1 := StopsRefineDebug(next, h0, l0, DropLast(path), l1, h1);
      path', d := ScheduledStep(next, h0, q, d1, l1, h1, e, l, h);
    }
  }

  /**
    * So a handler cannot tell the two drivers apart as long as it is only told to stop: a trace that ends
    * in a handler state is possible under the one exactly when it is possible under the other.
    */
  lemma SameStopTraces<H(!new)>(next: Behaviour<H>, h0: H, handle: nat, scm: Record, trace: seq<Act>, h: H)
    requires handle != 0
    ensures (exists path, d :: DebugPath(next, h0, path, d, h) && DebugTrace(path) == trace)
       <==> (exists path, l ::
              ServicePath(next, h0, Start(handle, scm), path, l, h) && StopOnly(path) && ServiceTrace(path) == trace)
  {
    if path, d :| DebugPath(next, h0, path, d, h) && DebugTrace(path) == trace {
      var path', l := DebugRefinesService(next, h0, path, d, h, handle, scm);
      assert ServicePath(next, h0, Start(handle, scm), path', l, h) && ServiceTrace(path') == trace;
    }
    if path, l :| ServicePath(next, h0, Start(handle, scm), path, l, h) && StopOnly(path) && ServiceTrace(path) == trace {
      var path', d := StopsRefineDebug(next, h0, Start(handle, scm), path, l, h);
      assert DebugPath(next, h0, path', d, h) && DebugTrace(path') == trace;
    }
  }

  /** debug.Run returns nil exactly when the service's final record would carry no error. */
  lemma ResultsAgree(d: Driver, l: Loop, l': Loop)
    requires Simulates(d, l) && d.result.Some? && LoopStep(l, Final(Ok)) == Some(l')
    ensures DebugError(d.result.value).None? <==> CarriesNoError(l'.scm)
    ensures DebugError(d.result.value).Some? ==>
      ExitCodeOf(l'.scm) == Some(d.result.value) && d.result.value.errno == DebugError(d.result.value).value
  {}

  // ---- Where the two differ ----

  /** No event is possible in which the driver, the handler or both take part. */
  ghost predicate DebugStuck<H(!new)>(next: Behaviour<H>, d: Driver, h: H) {
    forall e, h' :: Moves(next, h, ActOfDebug(e), h') ==> DriverStep(d, e).None?
  }

  /** The debug driver is stuck exactly when it is committed to a request the handler is not receiving. */
  lemma DebugStuckIff<H(!new)>(next: Behaviour<H>, d: Driver, h: H)
    requires d.result.None?
    ensures DebugStuck(next, d, h) <==>
      && d.committed.Some?
      && forall a, h' :: next(h, a, h') ==> a.Puts? || (a.Gets? && a.req != d.committed.value)
  {
    if d.committed.None? {
      assert Moves(next, h, ActOfDebug(Interrupt), h) && DriverStep(d, Interrupt).Some?;
    } else if exists a, h' :: next(h, a, h') && !a.Puts? && (a.Gets? ==> a.req == d.committed.value) {
      var a, h' :| next(h, a, h') && !a.Puts? && (a.Gets? ==> a.req == d.committed.value);
      assert Moves(next, h, ActOfDebug(Do(a)), h') && DriverStep(d, Do(a)).Some?;
    } else {
      forall e, h' | Moves(next, h, ActOfDebug(e), h')
        ensures DriverStep(d, e).None?
      {
        if e.Do? {
          assert next(h, e.act, h');
        }
      }
    }
  }

  // ---- Which handlers are safe ----

  /** The last status sent after one act of a handler that receives nothing but Stop with that status. */
  function StatusAfter(status: Status, a: Act): Option<Status> {
    match a
    case Gets(req) => if req == ChangeRequest(STOP, status) then Some(status) else None
    case Puts(s) => Some(s)
    case Returns(_) => None
    case Internally => Some(status)
  }

  /** A run of the handler alone, told nothing but to stop, that has not returned: it involves no driver. */
  ghost predicate StopPath<H(!new)>(next: Behaviour<H>, h0: H, path: seq<(Act, H)>, status: Status, h: H) {
    if path == [] then status == STOPPED_STATUS && h == h0
    else
      && h == Last(path).1
      && exists status1, h1 ::
        && StopPath(next, h0, DropLast(path), status1, h1)
        && StatusAfter(status1, Last(path).0) == Some(status)
        && next(h1, Last(path).0, h)
  }

  function StopTrace<H>(path: seq<(Act, H)>): seq<Act> {
    if path == [] then [] else StopTrace(DropLast(path)) + [Last(path).0]
  }

  /** The handler can do something other than send: receive the Stop, return, or act on its own. */
  ghost predicate TakesStop<H(!new)>(next: Behaviour<H>, status: Status, h: H) {
    exists a, h' :: next(h, a, h') && !a.Puts? && (a.Gets? ==> a.req == ChangeRequest(STOP, status))
  }

  /** The handler is never only sending, as long as it is told nothing but to stop. */
  ghost predicate AlwaysTakesStop<H(!new)>(next: Behaviour<H>, h0: H) {
    forall path, status, h | StopPath(next, h0, path, status, h) :: TakesStop(next, status, h)
  }

  /** debug.Run cannot deadlock with the handler, whenever the signals come. */
  ghost predicate NeverStuck<H(!new)>(next: Behaviour<H>, h0: H) {
    forall path, d, h | DebugPath(next, h0, path, d, h) && d.result.None? :: !DebugStuck(next, d, h)
  }

  lemma StopExtends<H(!new)>(
    next: Behaviour<H>, h0: H, path: seq<(Act, H)>, status1: Status, h1: H, a: Act, status: Status, h: H)
    requires StopPath(next, h0, path, status1, h1)
    requires StatusAfter(status1, a) == Some(status) && next(h1, a, h)
    ensures StopPath(next, h0, path + [(a, h)], status, h)
    ensures StopTrace(path + [(a, h)]) == StopTrace(path) + [a]
  {
    assert DropLast(path + [(a, h)]) == path;
  }

  lemma ErasedStep<H(!new)>(
    next: Behaviour<H>, h0: H, path: seq<(Act, H)>, d1: Driver, h1: H, e: DebugEvent, d: Driver, h: H)
    returns (path': seq<(Act, H)>)
    requires StopPath(next, h0, path, d1.status, h1)
    requires d1.committed.Some? ==> d1.committed.value == ChangeRequest(STOP, d1.status)
    requires DriverStep(d1, e) == Some(d) && d.result.None? && Moves(next, h1, ActOfDebug(e), h)
    ensures StopPath(next, h0, path', d.status, h)
    ensures StopTrace(path') == StopTrace(path) + (var a := ActOfDebug(e); if a.Some? then [a.value] else [])
    ensures d.committed.Some? ==> d.committed.value == ChangeRequest(STOP, d.status)
  {
    if e.Do? {
      StopExtends(next, h0, path, d1.status, h1, e.act, d.status, h);
      path' := path + [(e.act, h)];
    } else {
      path' := path;
      assert StopTrace(path) + [] == StopTrace(path);
    }
  }

  /** Without its signals a run of the driver is a run of the handler alone, which cannot see them coming. */
  lemma {:induction false} SignalsErased<H(!new)>(
    next: Behaviour<H>, h0: H, path: seq<(DebugEvent, H)>, d: Driver, h: H)
    returns (path': seq<(Act, H)>)
    requires DebugPath(next, h0, path, d, h) && d.result.None?
    ensures StopPath(next, h0, path', d.status, h) && StopTrace(path') == DebugTrace(path)
    ensures d.committed.Some? ==> d.committed.value == ChangeRequest(STOP, d.status)
    decreases |path|
  {
    if path == [] {
      path' := [];
    } else {
      var e := Last(path).0;
      var d1, h1 :| DebugPath(next, h0, DropLast(path), d1, h1)
                    && DriverStep(d1, e) == Some(d) && Moves(next, h1, ActOfDebug(e), h);
      path' := SignalsErased(next, h0, DropLast(path), d1, h1);
      path' := ErasedStep(next, h0, path', d1, h1, e, d, h);
    }
  }

  /** A run of the handler alone is one of the driver, with a signal just before each receive. */
  lemma {:induction false} SignalsPlaced<H(!new)>(
    next: Behaviour<H>, h0: H, path: seq<(Act, H)>, status: Status, h: H)
    returns (path': seq<(DebugEvent, H)>)
    requires StopPath(next, h0, path, status, h)
    ensures DebugPath(next, h0, path', Driver(status, None, None), h) && DebugTrace(path') == StopTrace(path)
    decreases |path|
  {
    if path == [] {
      path' := [];
    } else {
      var a := Last(path).0;
      var status1, h1 :| StopPath(next, h0, DropLast(path), status1, h1)
                         && StatusAfter(status1, a) == Some(status) && next(h1, a, h);
      path' := SignalsPlaced(next, h0, DropLast(path), status1, h1);
      var d1 := Driver(status1, None, None);
      if a.Gets? {
        DebugExtends(next, h0, path', d1, h1, Interrupt, d1.(committed := Some(a.req)), h1);
        path', d1 := path' + [(Interrupt, h1)], d1.(committed := Some(a.req));
      }
      DebugExtends(next, h0, path', d1, h1, Do(a), Driver(status, None, None), h);
      path' := path' + [(Do(a), h)];
    }
  }

  /** The service loop standing in the same place always takes a status the handler is sending. */
  lemma ServiceTakesStatus<H(!new)>(next: Behaviour<H>, d: Driver, l: Loop, h: H, s: Status, h': H)
    requires Simulates(d, l) && d.result.None? && next(h, Puts(s), h')
    ensures ServiceStep(l, Loops(Change(s, Ok))).Some? && Moves(next, h, ActOfService(Loops(Change(s, Ok))), h')
  {}

  /**
    * A signal that comes while the handler can do nothing but send is one too many. The service, after a run
    * with the same trace and the same commands, goes on: it takes whatever status the handler is sending.
    */
  lemma SignalDeadlocks<H(!new)>(
    next: Behaviour<H>, h0: H, path: seq<(Act, H)>, status: Status, h: H, handle: nat, scm: Record)
    returns (path': seq<(DebugEvent, H)>, d: Driver, servicePath: seq<(ServiceEvent, H)>, l: Loop)
    requires handle != 0 && StopPath(next, h0, path, status, h) && !TakesStop(next, status, h)
    ensures DebugPath(next, h0, path', d, h) && d.result.None? && DebugStuck(next, d, h)
    ensures path' != [] && Last(path') == (Interrupt, h) && DebugTrace(path') == StopTrace(path)
    ensures ServicePath(next, h0, Start(handle, scm), servicePath, l, h) && Simulates(d, l)
    ensures ServiceTrace(servicePath) == StopTrace(path)
    ensures forall s, h' | next(h, Puts(s), h') :: ServiceStep(l, Loops(Change(s, Ok))).Some?
  {
    path' := SignalsPlaced(next, h0, path, status, h);
    d := Driver(status, Some(ChangeRequest(STOP, status)), None);
    DebugExtends(next, h0, path', Driver(status, None, None), h, Interrupt, d, h);
    assert DebugTrace(path') + [] == DebugTrace(path');
    path' := path' + [(Interrupt, h)];
    DebugStuckIff(next, d, h);
    servicePath, l := DebugRefinesService(next, h0, path', d, h, handle, scm);
    forall s, h' | next(h, Puts(s), h')
      ensures ServiceStep(l, Loops(Change(s, Ok))).Some?
    {
      ServiceTakesStatus(next, d, l, h, s, h');
    }
  }

  /**
    * The exact condition on a handler: whenever the signals come, debug.Run cannot deadlock with it if and
    * only if the handler, told nothing but to stop, never gets into a state in which it can only send.
    */
  lemma SafeHandlers<H(!new)>(next: Behaviour<H>, h0: H)
    ensures NeverStuck(next, h0) <==> AlwaysTakesStop(next, h0)
  {
    if AlwaysTakesStop(next, h0) {
      forall path, d, h | DebugPath(next, h0, path, d, h) && d.result.None?
        ensures !DebugStuck(next, d, h)
      {
        var path' := SignalsErased(next, h0, path, d, h);
        assert TakesStop(next, d.status, h);
        DebugStuckIff(next, d, h);
      }
    } else {
      var path, status, h :| StopPath(next, h0, path, status, h) && !TakesStop(next, status, h);
      var path', d, _, _ := SignalDeadlocks(next, h0, path, status, h, 1, RecordOf(STOPPED_STATUS, NO_EXIT));
      assert DebugPath(next, h0, path', d, h) && d.result.None?;
    }
  }

  /**
    * A signal that arrives before the first status deadlocks debug.Run with any handler that begins by
    * sending one; the service in the same place takes that status.
    */
  lemma EarlyInterruptDeadlocks<H(!new)>(next: Behaviour<H>, h0: H, s: Status, h1: H, scm: Record)
    returns (d: Driver, l: Loop)
    requires next(h0, Puts(s), h1) && forall a, h' :: next(h0, a, h') ==> a.Puts?
    ensures DebugPath(next, h0, [(Interrupt, h0)], d, h0) && DebugStuck(next, d, h0)
    ensures ServicePath(next, h0, Start(1, scm), [(Loops(Recv(CtlEvent(STOP, 0))), h0)], l, h0) && Simulates(d, l)
    ensures LoopStep(l, Change(s, Ok)).Some?
  {
    d := DriverStep(DRIVER_START, Interrupt).value;
    assert DropLast([(Interrupt, h0)]) == [];
    assert DebugPath(next, h0, [], DRIVER_START, h0);
    DebugStuckIff(next, d, h0);
    l := LoopStep(Start(1, scm), Recv(CtlEvent(STOP, 0))).value;
    assert DropLast([(Loops(Recv(CtlEvent(STOP, 0))), h0)]) == [];
    assert ServicePath(next, h0, Start(1, scm), [], Start(1, scm), h0);
  }

  /** The example handler, whose first act is to report StartPending, before it has spawned a worker. */
  ghost predicate ExampleNext(h: ExampleHandler.Handler, a: Act, h': ExampleHandler.Handler) {
    match a
    case Gets(req) => ExampleHandler.HandlerStep(h, ExampleHandler.Receive(req)) == Some(h')
    case Puts(s) => ExampleHandler.HandlerStep(h, ExampleHandler.Send(s)) == Some(h')
    case Returns(ec) => ExampleHandler.HandlerStep(h, ExampleHandler.Exits(ec)) == Some(h')
    case Internally =>
      || ExampleHandler.HandlerStep(h, ExampleHandler.Tick) == Some(h')
      || ExampleHandler.HandlerStep(h, ExampleHandler.Wake) == Some(h')
      || ExampleHandler.HandlerStep(h, ExampleHandler.Read(1)) == Some(h')
  }

  lemma ExampleDeadlocksUnderDebug(scm: Record) returns (d: Driver, l: Loop)
    ensures DebugPath(ExampleNext, ExampleHandler.HANDLER_START, [(Interrupt, ExampleHandler.HANDLER_START)], d,
                      ExampleHandler.HANDLER_START)
    ensures DebugStuck(ExampleNext, d, ExampleHandler.HANDLER_START)
  {
    var h0 := ExampleHandler.HANDLER_START;
    d, l := EarlyInterruptDeadlocks(ExampleNext, h0, ExampleHandler.STARTING, h0.(pc := ExampleHandler.SendRunning), scm);
  }

  lemma ExampleStops(h0: ExampleHandler.Handler) returns (path: seq<(Act, ExampleHandler.Handler)>)
    requires h0 == ExampleHandler.HANDLER_START
    ensures StopPath(ExampleNext, h0, path, ExampleHandler.RUNNING_STATUS, h0.(pc := ExampleHandler.SendStopping(1)))
    ensures StopTrace(path) == [Puts(ExampleHandler.STARTING), Puts(ExampleHandler.RUNNING_STATUS),
                                Gets(ChangeRequest(STOP, ExampleHandler.RUNNING_STATUS)), Internally]
  {
    var (starting, running) := (ExampleHandler.STARTING, ExampleHandler.RUNNING_STATUS);
    var req := ChangeRequest(STOP, running);
    var h1, h2 := h0.(pc := ExampleHandler.SendRunning), h0.(pc := ExampleHandler.Select);
    var h3, h4 := h0.(pc := ExampleHandler.ReadCheckpoint), h0.(pc := ExampleHandler.SendStopping(1));
    StopExtends(ExampleNext, h0, [], STOPPED_STATUS, h0, Puts(starting), starting, h1);
    path := [] + [(Puts(starting), h1)];
    StopExtends(ExampleNext, h0, path, starting, h1, Puts(running), running, h2);
    path := path + [(Puts(running), h2)];
    StopExtends(ExampleNext, h0, path, running, h2, Gets(req), running, h3);
    path := path + [(Gets(req), h3)];
    StopExtends(ExampleNext, h0, path, running, h3, Internally, running, h4);
    path := path + [(Internally, h4)];
  }

  lemma OnlySends(h: ExampleHandler.Handler)
    requires h.pc == ExampleHandler.SendStopping(1)
    ensures !TakesStop(ExampleNext, ExampleHandler.RUNNING_STATUS, h)
    ensures ExampleNext(h, Puts(ExampleHandler.Stopping(1)), h.(pc := ExampleHandler.Returning))
  {}

  /**
    * So is a second signal while the example handler, having received the Stop of the first, is about to
    * report StopPending for the last time; the service takes that report.
    */
  lemma SecondSignalDeadlocks(scm: Record)
    returns (path: seq<(DebugEvent, ExampleHandler.Handler)>, d: Driver, h: ExampleHandler.Handler, l: Loop)
    ensures DebugPath(ExampleNext, ExampleHandler.HANDLER_START, path, d, h) && DebugStuck(ExampleNext, d, h)
    ensures path != [] && Last(path) == (Interrupt, h) && d.result.None?
    ensures DebugTrace(path) == [Puts(ExampleHandler.STARTING), Puts(ExampleHandler.RUNNING_STATUS),
                                 Gets(ChangeRequest(STOP, ExampleHandler.RUNNING_STATUS)), Internally]
    ensures Simulates(d, l) && LoopStep(l, Change(ExampleHandler.Stopping(1), Ok)).Some?
  {
    var h0 := ExampleHandler.HANDLER_START;
    h := h0.(pc := ExampleHandler.SendStopping(1));
    var stops := ExampleStops(h0);
    OnlySends(h);
    var servicePath;
    path, d, servicePath, l := SignalDeadlocks(ExampleNext, h0, stops, ExampleHandler.RUNNING_STATUS, h, 1, scm);
  }
}
