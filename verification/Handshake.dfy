/**
  * The startup and shutdown handshake between servicemain (svc/sys_amd64.s) and the goroutine of
  * service.run (svc/service.go) over two auto-reset events (svc/event.go), in every interleaving.
  * After the handshake the goroutine is the loop of RunLoop.
  */
module Handshake {
  import opened Wrappers
  import opened ServiceStatus
  import opened RunLoop

  /** The next action of servicemain. */
  datatype MainPc = StoreArgc | StoreArgv | Register | StoreHandle | SetGo | AwaitC | MainReturned

  /** The next action of run, or its loop. */
  datatype RunPc = AwaitGo | ReadHandle | ReadArgs | StartExecute | Looping(loop: Loop)

  /**
    * The two program counters, the result register of RegisterServiceCtrlHandlerExW, the globals
    * (None: not yet written), the fields run fills, and the two events.
    */
  datatype Proc = Proc(
    main: MainPc, run: RunPc, ax: nat,
    sArgc: Option<nat>, sArgv: Option<nat>, ssHandle: nat,
    h: nat, args: Option<(nat, nat)>,
    goWaits: bool, cWaits: bool)

  /** What the SCM passes to servicemain, and the record it holds before the first report. */
  datatype Call = Call(argc: nat, argv: nat, scm: Record)

  datatype Event =
    | StoresArgc | StoresArgv | Registers(handle: nat) | StoresHandle | SetsGo | WakesOnC
    | WakesOnGo | ReadsHandle | ReadsArgs | StartsExecute | LoopDoes(e: LoopEvent)

  const BEGIN := Proc(StoreArgc, AwaitGo, 0, None, None, 0, 0, None, false, false)

  /** A global that has not been written reads as zero. */
  function Read(global: Option<nat>): nat {
    if global.Some? then global.value else 0
  }

  /** Setting an event signals it; a wait ends only on a signalled event and resets it. */
  function Step(c: Call, p: Proc, e: Event): Option<Proc> {
    match e
    case StoresArgc => if p.main == StoreArgc then Some(p.(main := StoreArgv, sArgc := Some(c.argc))) else None
    case StoresArgv => if p.main == StoreArgv then Some(p.(main := Register, sArgv := Some(c.argv))) else None
    case Registers(handle) =>
      if p.main == Register then Some(p.(main := if handle == 0 then MainReturned else StoreHandle, ax := handle)) else None
    case StoresHandle => if p.main == StoreHandle then Some(p.(main := SetGo, ssHandle := p.ax)) else None
    case SetsGo => if p.main == SetGo then Some(p.(main := AwaitC, goWaits := true)) else None
    case WakesOnC => if p.main == AwaitC && p.cWaits then Some(p.(main := MainReturned, cWaits := false)) else None
    case WakesOnGo => if p.run == AwaitGo && p.goWaits then Some(p.(run := ReadHandle, goWaits := false)) else None
    case ReadsHandle => if p.run == ReadHandle then Some(p.(run := ReadArgs, h := p.ssHandle)) else None
    case ReadsArgs =>
      if p.run == ReadArgs then Some(p.(run := StartExecute, args := Some((Read(p.sArgc), Read(p.sArgv))))) else None
    case StartsExecute => if p.run == StartExecute then Some(p.(run := Looping(Start(p.h, c.scm)))) else None
    case LoopDoes(le) =>
      if p.run.Looping? && LoopStep(p.run.loop, le).Some? then
        Some(p.(run := Looping(LoopStep(p.run.loop, le).value), cWaits := p.cWaits || le.Signal?))
      else None
  }

  function Run(c: Call, es: seq<Event>): Option<Proc> {
    if es == [] then Some(BEGIN)
    else match Run(c, DropLast(es))
      case None => None
      case Some(p) => Step(c, p, Last(es))
  }

  function LoopPart(es: seq<Event>): seq<LoopEvent> {
    if es == [] then []
    else LoopPart(DropLast(es)) + if Last(es).LoopDoes? then [Last(es).e] else []
  }

  function Count(es: seq<Event>, e: Event): nat {
    if es == [] then 0 else Count(DropLast(es), e) + if Last(es) == e then 1 else 0
  }

  predicate LoopReturned(p: Proc) {
    p.run.Looping? && p.run.loop.pc == Returned
  }

  /** Registration succeeded and everything run will read has been written. */
  predicate AllWritten(c: Call, p: Proc) {
    && p.ax != 0 && p.ssHandle == p.ax
    && p.sArgc == Some(c.argc) && p.sArgv == Some(c.argv)
  }

  predicate MainOk(c: Call, p: Proc) {
    match p.main
    case StoreArgc => p.ax == 0 && p.ssHandle == 0
    case StoreArgv => p.ax == 0 && p.ssHandle == 0 && p.sArgc == Some(c.argc)
    case Register => p.ax == 0 && p.ssHandle == 0 && p.sArgc == Some(c.argc) && p.sArgv == Some(c.argv)
    case StoreHandle => p.ax != 0 && p.ssHandle == 0 && p.sArgc == Some(c.argc) && p.sArgv == Some(c.argv)
    case SetGo => AllWritten(c, p)
    case AwaitC => AllWritten(c, p) && (p.run == AwaitGo ==> p.goWaits) && (LoopReturned(p) ==> p.cWaits)
    case MainReturned => if p.ax == 0 then p.ssHandle == 0 else AllWritten(c, p) && LoopReturned(p) && !p.cWaits
  }

  predicate RunOk(c: Call, p: Proc) {
    && (p.run != AwaitGo ==> AllWritten(c, p) && !p.goWaits && (p.main == AwaitC || p.main == MainReturned))
    && match p.run
      case AwaitGo => (p.goWaits ==> p.main == AwaitC) && !p.cWaits
      case ReadHandle => !p.cWaits
      case ReadArgs => p.h == p.ax && !p.cWaits
      case StartExecute => p.h == p.ax && p.args == Some((c.argc, c.argv)) && !p.cWaits
      case Looping(l) => l.h == p.h == p.ax && p.args == Some((c.argc, c.argv)) && (p.cWaits ==> l.pc == Returned)
  }

  lemma {:induction false} Reachable(c: Call, es: seq<Event>, p: Proc)
    requires Run(c, es) == Some(p)
    ensures MainOk(c, p) && RunOk(c, p)
    ensures p.run.Looping? ==> LoopRun(Start(p.ax, c.scm), LoopPart(es)) == Some(p.run.loop)
    ensures !p.run.Looping? ==> LoopPart(es) == []
  {
    if es != [] {
      var p1 := Run(c, DropLast(es)).value;
      Reachable(c, DropLast(es), p1);
      KeepsOk(c, p1, Last(es), p);
      KeepsLoopPart(c, LoopPart(DropLast(es)), p1, Last(es), p);
    }
  }

  lemma KeepsOk(c: Call, p: Proc, e: Event, p': Proc)
    requires MainOk(c, p) && RunOk(c, p) && Step(c, p, e) == Some(p')
    ensures MainOk(c, p') && RunOk(c, p')
  {
    match e {
      case LoopDoes(le) => assert p.run.loop.pc != Returned && p.main == AwaitC;
      case _ =>
    }
  }

  /** es: the loop's events so far. */
  lemma KeepsLoopPart(c: Call, es: seq<LoopEvent>, p: Proc, e: Event, p': Proc)
    requires MainOk(c, p) && RunOk(c, p) && Step(c, p, e) == Some(p')
    requires if p.run.Looping? then LoopRun(Start(p.ax, c.scm), es) == Some(p.run.loop) else es == []
    ensures var es' := es + if e.LoopDoes? then [e.e] else [];
      if p'.run.Looping? then LoopRun(Start(p'.ax, c.scm), es') == Some(p'.run.loop) else es' == []
  {
    if e.LoopDoes? {
      assert DropLast(es + [e.e]) == es;
    } else {
      assert es + [] == es;
    }
  }

  /**
    * Execute starts only after the registration has succeeded and the handle and the arguments have been
    * written: the loop runs with the registered, non-zero handle, and Execute gets what the SCM passed.
    */
  lemma {:induction false} ExecuteStartsAfterPublication(c: Call, es: seq<Event>, p: Proc)
    requires Run(c, es) == Some(p) && es != [] && Last(es) == StartsExecute
    ensures p.run == Looping(Start(p.ssHandle, c.scm)) && p.ssHandle == p.ax != 0
    ensures p.sArgc == Some(c.argc) && p.sArgv == Some(c.argv) && p.args == Some((c.argc, c.argv))
    ensures Count(es, Registers(p.ssHandle)) == 1
  {
    Reachable(c, es, p);
    Registered(c, es, p, p.ssHandle);
  }

  predicate PastRegister(main: MainPc) {
    main != StoreArgc && main != StoreArgv && main != Register
  }

  /** There is at most one registration, and its result is what the register ax holds. */
  lemma {:induction false} Registered(c: Call, es: seq<Event>, p: Proc, handle: nat)
    requires Run(c, es) == Some(p)
    ensures Count(es, Registers(handle)) == if PastRegister(p.main) && handle == p.ax then 1 else 0
  {
    if es != [] {
      var p1 := Run(c, DropLast(es)).value;
      Registered(c, DropLast(es), p1, handle);
      Reachable(c, DropLast(es), p1);
    }
  }

  lemma {:induction false} GoSetOnce(c: Call, es: seq<Event>, p: Proc)
    requires Run(c, es) == Some(p)
    ensures Count(es, SetsGo) == if p.main == AwaitC || (p.main == MainReturned && p.ax != 0) then 1 else 0
  {
    if es != [] {
      var p1 := Run(c, DropLast(es)).value;
      GoSetOnce(c, DropLast(es), p1);
      Reachable(c, DropLast(es), p1);
    }
  }

  lemma {:induction false} SignalledOnce(c: Call, es: seq<Event>, p: Proc)
    requires Run(c, es) == Some(p)
    ensures Count(es, LoopDoes(Signal)) == if LoopReturned(p) then 1 else 0
    ensures Count(es, StartsExecute) == if p.run.Looping? then 1 else 0
  {
    if es != [] {
      SignalledOnce(c, DropLast(es), Run(c, DropLast(es)).value);
    }
  }

  /** Each of the two events is set at most once, and Execute is started at most once. */
  lemma {:induction false} EachEventSetOnce(c: Call, es: seq<Event>, p: Proc)
    requires Run(c, es) == Some(p)
    ensures Count(es, SetsGo) <= 1 && Count(es, LoopDoes(Signal)) <= 1 && Count(es, StartsExecute) <= 1
    ensures Count(es, StartsExecute) == 1 ==> Count(es, SetsGo) == 1
    ensures Count(es, LoopDoes(Signal)) == 1 <==> LoopReturned(p)
  {
    Reachable(c, es, p);
    GoSetOnce(c, es, p);
    SignalledOnce(c, es, p);
  }

  lemma NothingLeft(c: Call, p: Proc)
    requires p.main == MainReturned && LoopReturned(p)
    ensures forall e :: Step(c, p, e).None?
  {}

  /**
    * servicemain returns only because the registration failed, and then Execute never starts, or after the
    * final Stopped update has been attempted: the last record the process passes to SetServiceStatus.
    */
  lemma {:induction false} MainReturnsLast(c: Call, es: seq<Event>, p: Proc)
    requires Run(c, es) == Some(p) && p.main == MainReturned
    ensures if p.ax == 0 then Count(es, Registers(0)) == 1 && Count(es, StartsExecute) == 0 && LoopPart(es) == []
      else
        && LoopReturned(p) && LoopRun(Start(p.ax, c.scm), LoopPart(es)) == Some(p.run.loop)
        && var records := Attempts(Start(p.ax, c.scm), LoopPart(es));
        && records != [] && Last(records).currentState == STOPPED
        && forall e :: Step(c, p, e).None?
  {
    Reachable(c, es, p);
    Registered(c, es, p, p.ax);
    SignalledOnce(c, es, p);
    if p.ax != 0 {
      NothingLeft(c, p);
      ExitCodeIntegrity(p.ax, c.scm, LoopPart(es), p.run.loop);
    }
  }

  /** The two threads never block each other: unless the loop is at work, one of them can step. */
  lemma HandshakeProgresses(c: Call, es: seq<Event>, p: Proc) returns (e: Event)
    requires Run(c, es) == Some(p) && p.main != MainReturned
    requires p.run.Looping? ==> p.run.loop.pc == Returned
    ensures Step(c, p, e).Some? && !e.LoopDoes?
  {
    Reachable(c, es, p);
    match p.main {
      case StoreArgc => e := StoresArgc;
      case StoreArgv => e := StoresArgv;
      case Register => e := Registers(1);
      case StoreHandle => e := StoresHandle;
      case SetGo => e := SetsGo;
      case AwaitC =>
        match p.run {
          case AwaitGo => e := WakesOnGo;
          case ReadHandle => e := ReadsHandle;
          case ReadArgs => e := ReadsArgs;
          case StartExecute => e := StartsExecute;
          case Looping(_) => e := WakesOnC;
        }
    }
  }

  // ---- Every run of the loop occurs ----

  lemma Extends(c: Call, es: seq<Event>, p: Proc, e: Event, p': Proc)
    requires Run(c, es) == Some(p) && Step(c, p, e) == Some(p')
    ensures Run(c, es + [e]) == Some(p')
    ensures LoopPart(es + [e]) == LoopPart(es) + if e.LoopDoes? then [e.e] else []
  {
    SnocEnds(es, e);
  }

  /** servicemain up to its wait, and run up to the call of Execute. */
  lemma Starts(c: Call, handle: nat) returns (es: seq<Event>, p: Proc)
    requires handle != 0
    ensures Run(c, es) == Some(p) && LoopPart(es) == []
    ensures p.main == AwaitC && p.run == Looping(Start(handle, c.scm)) && !p.cWaits
    ensures p.args == Some((c.argc, c.argv)) && es != [] && Last(es) == StartsExecute
  {
    var p1 := BEGIN.(main := StoreArgv, sArgc := Some(c.argc));
    Extends(c, [], BEGIN, StoresArgc, p1);
    es := [] + [StoresArgc];
    var p2 := p1.(main := Register, sArgv := Some(c.argv));
    Extends(c, es, p1, StoresArgv, p2);
    es := es + [StoresArgv];
    var p3 := p2.(main := StoreHandle, ax := handle);
    Extends(c, es, p2, Registers(handle), p3);
    es := es + [Registers(handle)];
    es, p := GoesOn(c, es, p3);
  }

  lemma GoesOn(c: Call, es0: seq<Event>, p3: Proc) returns (es: seq<Event>, p: Proc)
    requires Run(c, es0) == Some(p3) && LoopPart(es0) == [] && p3.ax != 0
    requires p3 == BEGIN.(main := StoreHandle, sArgc := Some(c.argc), sArgv := Some(c.argv), ax := p3.ax)
    ensures Run(c, es) == Some(p) && LoopPart(es) == []
    ensures p.main == AwaitC && p.run == Looping(Start(p3.ax, c.scm)) && !p.cWaits
    ensures p.args == Some((c.argc, c.argv)) && es != [] && Last(es) == StartsExecute
  {
    var p4 := p3.(main := SetGo, ssHandle := p3.ax);
    Extends(c, es0, p3, StoresHandle, p4);
    es := es0 + [StoresHandle];
    var p5 := p4.(main := AwaitC, goWaits := true);
    Extends(c, es, p4, SetsGo, p5);
    es := es + [SetsGo];
    var p6 := p5.(run := ReadHandle, goWaits := false);
    Extends(c, es, p5, WakesOnGo, p6);
    es := es + [WakesOnGo];
    es, p := ExecuteBegins(c, es, p6);
  }

  lemma ExecuteBegins(c: Call, es0: seq<Event>, p6: Proc) returns (es: seq<Event>, p: Proc)
    requires Run(c, es0) == Some(p6) && LoopPart(es0) == [] && p6.run == ReadHandle && !p6.cWaits
    requires p6.main == AwaitC && p6.sArgc == Some(c.argc) && p6.sArgv == Some(c.argv)
    ensures Run(c, es) == Some(p) && LoopPart(es) == []
    ensures p.main == AwaitC && p.run == Looping(Start(p6.ssHandle, c.scm)) && !p.cWaits
    ensures p.args == Some((c.argc, c.argv)) && es != [] && Last(es) == StartsExecute
  {
    var p7 := p6.(run := ReadArgs, h := p6.ssHandle);
    Extends(c, es0, p6, ReadsHandle, p7);
    es := es0 + [ReadsHandle];
    var p8 := p7.(run := StartExecute, args := Some((c.argc, c.argv)));
    Extends(c, es, p7, ReadsArgs, p8);
    es := es + [ReadsArgs];
    p := p8.(run := Looping(Start(p8.h, c.scm)));
    Extends(c, es, p8, StartsExecute, p);
    SnocEnds(es, StartsExecute);
    es := es + [StartsExecute];
  }

  /**
    * The handshake keeps nothing from happening: for every handle the registration may return, every run of
    * the loop with it is the loop part of a run of the two threads, with the arguments as the SCM passed them;
    * and once the loop has returned, servicemain can return, and that is all that is left.
    */
  lemma {:induction false} EveryLoopRunOccurs(c: Call, handle: nat, les: seq<LoopEvent>, l: Loop)
    returns (es: seq<Event>, p: Proc)
    requires handle != 0 && LoopRun(Start(handle, c.scm), les) == Some(l)
    ensures Run(c, es) == Some(p) && LoopPart(es) == les && p.run == Looping(l)
    ensures p.main == AwaitC && p.args == Some((c.argc, c.argv))
    ensures l.pc == Returned ==> Run(c, es + [WakesOnC]) == Some(p.(main := MainReturned, cWaits := false))
    decreases |les|
  {
    if les == [] {
      es, p := Starts(c, handle);
    } else {
      var l1 := LoopRun(Start(handle, c.scm), DropLast(les)).value;
      es, p := EveryLoopRunOccurs(c, handle, DropLast(les), l1);
      es, p := LoopOccurs(c, es, p, Last(les), l);
      assert les == DropLast(les) + [Last(les)];
    }
    if l.pc == Returned {
      MainWakes(c, es, p);
    }
  }

  lemma LoopOccurs(c: Call, es: seq<Event>, p: Proc, e: LoopEvent, l: Loop) returns (es': seq<Event>, p': Proc)
    requires Run(c, es) == Some(p) && p.run.Looping? && LoopStep(p.run.loop, e) == Some(l)
    ensures Run(c, es') == Some(p') && LoopPart(es') == LoopPart(es) + [e] && p'.run == Looping(l)
    ensures p'.main == p.main && p'.args == p.args
  {
    p' := p.(run := Looping(l), cWaits := p.cWaits || e.Signal?);
    Extends(c, es, p, LoopDoes(e), p');
    es' := es + [LoopDoes(e)];
  }

  lemma {:induction false} MainWakes(c: Call, es: seq<Event>, p: Proc)
    requires Run(c, es) == Some(p) && p.main == AwaitC && LoopReturned(p)
    ensures Run(c, es + [WakesOnC]) == Some(p.(main := MainReturned, cWaits := false))
  {
    Reachable(c, es, p);
    Extends(c, es, p, WakesOnC, p.(main := MainReturned, cWaits := false));
  }
}
