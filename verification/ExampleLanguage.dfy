/**
  * The language of the example service: exactly which sequences of states its complete, failure-free runs
  * report, and how often a run can enter StopPending.
  */
module ExampleLanguage {
  import opened Wrappers
  import opened ServiceStatus
  import opened RunLoop
  import opened ExampleHandler
  import opened ExampleService
  import opened ExampleWorker
  import opened ExampleRuns

  function States(r: seq<Status>): (w: seq<State>)
    ensures |w| == |r| && forall k | 0 <= k < |w| :: w[k] == r[k].state
  {
    seq(|r|, k requires 0 <= k < |r| => r[k].state)
  }

  lemma StatesSnoc(r: seq<Status>, c: Status)
    ensures States(r + [c]) == States(r) + [c.state]
  {}

  predicate AllActive(m: seq<State>) {
    forall k | 0 <= k < |m| :: Active(m[k])
  }

  // ---- What a word costs ----

  predicate EndsStopping(m: seq<State>) {
    m != [] && Last(m) == STOP_PENDING
  }

  predicate EndsInThree(m: seq<State>) {
    |m| >= 3 && EndsStopping(m) && m[|m| - 2] == STOP_PENDING && m[|m| - 3] == STOP_PENDING
  }

  /**
    * How many progress reports it takes to report m: one for each stretch of StopPending of odd length and
    * two for each of even length, because an Interrogate prolongs a stretch by two echoes.
    */
  function Need(m: seq<State>): nat
    decreases |m|
  {
    if m == [] then 0
    else if !EndsStopping(m) then Need(DropLast(m))
    else if EndsInThree(m) then Need(m[..|m| - 2])
    else 1 + Need(DropLast(m))
  }

  lemma NeedOther(m: seq<State>, st: State)
    requires st != STOP_PENDING
    ensures Need(m + [st]) == Need(m)
  {
    SnocEnds(m, st);
  }

  lemma NeedEchoes(m: seq<State>)
    requires EndsStopping(m)
    ensures Need(m + [STOP_PENDING] + [STOP_PENDING]) == Need(m)
  {
    var m' := m + [STOP_PENDING] + [STOP_PENDING];
    assert m'[..|m'| - 2] == m && EndsInThree(m');
  }

  /** One more StopPending makes a difference of exactly one, either way. */
  lemma {:induction false} NeedMore(m: seq<State>)
    ensures Need(m + [STOP_PENDING]) == Need(m) + 1 || Need(m + [STOP_PENDING]) == Need(m) - 1
    decreases |m|
  {
    var m' := m + [STOP_PENDING];
    SnocEnds(m, STOP_PENDING);
    if EndsInThree(m') {
      var x := DropLast(m);
      assert m'[..|m'| - 2] == x && m == x + [STOP_PENDING];
      NeedMore(x);
    }
  }

  // ---- Every run reports a word ----

  /** StartPending, Running, active states that take at most thirty progress reports, StopPending, Stopped. */
  predicate Word(w: seq<State>) {
    && |w| >= 4 && w[0] == START_PENDING && w[1] == RUNNING
    && AllActive(w[2..|w| - 2]) && Need(w[2..|w| - 2]) <= 30
    && w[|w| - 2] == STOP_PENDING && w[|w| - 1] == STOPPED
  }

  /** What m, reported after StartPending and Running, takes when the handler is at pc. */
  predicate Affords(m: seq<State>, pc: HandlerPc, made: nat) {
    match pc
    case SendEcho1(c) => (c.state == STOP_PENDING ==> EndsStopping(m)) && Need(m) <= made
    case Sleeping(c) => if c.state == STOP_PENDING then HalfEchoed(m, made) else Need(m) <= made
    case SendEcho2(c) => if c.state == STOP_PENDING then HalfEchoed(m, made) else Need(m) <= made
    case Returning => Left(m, made)
    case _ => Need(m) <= made
  }

  /** The first of two echoes of StopPending is out. */
  predicate HalfEchoed(m: seq<State>, made: nat) {
    EndsStopping(m) && Need(m + [STOP_PENDING]) <= made
  }

  /** The handler has reported its last StopPending, which takes no progress report. */
  predicate Left(m: seq<State>, made: nat) {
    EndsStopping(m) && Need(DropLast(m)) <= made
  }

  predicate Head(w: seq<State>) {
    |w| >= 2 && w[0] == START_PENDING && w[1] == RUNNING && AllActive(w[2..])
  }

  /** The states w reported by a failure-free run that has come to s. */
  predicate Speaks(w: seq<State>, s: Sys) {
    match s.svc.loop.pc
    case Selecting =>
      if s.h.pc == SendStarting then w == []
      else if s.h.pc == SendRunning then w == [START_PENDING]
      else Head(w) && Last(w) == s.svc.loop.status.state && Affords(w[2..], s.h.pc, Made(s.w) as nat)
    case Finishing => Head(w) && Left(w[2..], Made(s.w) as nat)
    case _ => Word(w)
  }

  lemma TailSnoc(w: seq<State>, st: State)
    requires |w| >= 2
    ensures (w + [st])[2..] == w[2..] + [st] && Last(w + [st]) == st
    ensures Head(w) && Active(st) ==> Head(w + [st])
  {}

  lemma AffordsProgress(m: seq<State>, pc: HandlerPc, made: nat)
    requires Affords(m, pc, made)
    ensures Affords(m + [STOP_PENDING], pc, made + 1)
  {
    SnocEnds(m, STOP_PENDING);
    NeedMore(m);
    NeedMore(m + [STOP_PENDING]);
    if EndsStopping(m) {
      NeedEchoes(m);
      assert m == DropLast(m) + [STOP_PENDING];
      NeedMore(DropLast(m));
    }
  }

  lemma SpeaksWorkerReport(w: seq<State>, p: Sys, c: Status, s: Sys)
    requires Inv(p) && Speaks(w, p) && Step(p, FromWorker(c, Ok)) == Some(s) && s.w.pc != Overlapping
    ensures Speaks(w + [c.state], s)
  {
    WorkerReportStep(p, c, s);
    AffordsProgress(w[2..], p.h.pc, Made(p.w) as nat);
    SpeaksOn(w, s);
  }

  lemma WorkerReportStep(p: Sys, c: Status, s: Sys)
    requires Inv(p) && Step(p, FromWorker(c, Ok)) == Some(s) && s.w.pc != Overlapping
    ensures p.svc.loop.pc == s.svc.loop.pc == Selecting && s.h == p.h && s.svc.loop.status == c
    ensures c.state == STOP_PENDING && Made(s.w) == Made(p.w) + 1
    ensures p.h.pc != SendStarting && p.h.pc != SendRunning
  {
    MadeStep(p, FromWorker(c, Ok), s);
  }

  /** In s the status st has been reported after w. */
  lemma SpeaksOn(w: seq<State>, s: Sys)
    requires s.svc.loop.pc == Selecting && s.h.pc != SendStarting && s.h.pc != SendRunning && Head(w)
    requires var st := s.svc.loop.status.state; Active(st) && Affords(w[2..] + [st], s.h.pc, Made(s.w) as nat)
    ensures Speaks(w + [s.svc.loop.status.state], s)
  {
    TailSnoc(w, s.svc.loop.status.state);
  }

  lemma AffordsHandlerReport(m: seq<State>, h: Handler, c: Status, made: nat)
    requires Offers(h.pc) == Some(c) && Affords(m, h.pc, made) && h.pc != SendStarting && h.pc != SendRunning
    ensures Affords(m + [c.state], AfterSend(h).pc, made)
  {
    SnocEnds(m, c.state);
    if c.state != STOP_PENDING {
      NeedOther(m, c.state);
    } else if h.pc.SendEcho1? {
      NeedEchoes(m);
    }
  }

  lemma SpeaksHandlerReport(w: seq<State>, p: Sys, c: Status, s: Sys)
    requires Inv(p) && Speaks(w, p) && Step(p, FromHandler(c, Ok)) == Some(s)
    ensures Speaks(w + [c.state], s)
  {
    if p.h.pc == SendStarting {
      assert w + [c.state] == [START_PENDING];
    } else if p.h.pc == SendRunning {
      assert w + [c.state] == [START_PENDING, RUNNING] && p.w.pc == NotStarted;
    } else {
      AffordsHandlerReport(w[2..], p.h, c, Made(p.w) as nat);
      assert s.svc.loop.status == c && s.w == p.w && Active(c.state);
      SpeaksOn(w, s);
    }
  }

  lemma SpeaksFinal(w: seq<State>, p: Sys, s: Sys)
    requires Inv(p) && p.w.pc != Overlapping && Speaks(w, p) && Step(p, Env(Other(Final(Ok)))) == Some(s)
    ensures Speaks(w + [STOPPED], s)
  {
    var w' := w + [STOPPED];
    assert w'[2..|w'| - 2] == DropLast(w[2..]) && w'[|w'| - 2] == Last(w[2..]);
  }

  lemma SpeaksSilently(w: seq<State>, p: Sys, l: Label, s: Sys)
    requires Inv(p) && Speaks(w, p) && Step(p, l) == Some(s) && s.w.pc != Overlapping
    requires ReportOf(l) == [] && !Failing(l)
    ensures Speaks(w, s)
  {
    MadeStep(p, l, s);
    if l.ToHandler? {
      SpeaksDelivery(w, p, l.req, s);
    } else if l.HandlerExits? || l.HandlerAlone? {
      SpeaksHandlerAlone(w, p, l, s);
    } else {
      assert s.h == p.h;
    }
  }

  lemma SpeaksDelivery(w: seq<State>, p: Sys, req: ChangeRequest, s: Sys)
    requires Inv(p) && Speaks(w, p) && Step(p, ToHandler(req)) == Some(s) && s.w.pc != Overlapping
    ensures Speaks(w, s)
  {
    MadeStep(p, ToHandler(req), s);
    assert Head(w) && Last(w) == p.svc.loop.status.state == req.currentStatus.state;
    assert Last(w) == STOP_PENDING ==> EndsStopping(w[2..]);
  }

  lemma SpeaksHandlerAlone(w: seq<State>, p: Sys, l: Label, s: Sys)
    requires l.HandlerExits? || l.HandlerAlone?
    requires Inv(p) && Speaks(w, p) && Step(p, l) == Some(s)
    ensures Speaks(w, s)
  {
    assert s.w == p.w;
  }

  lemma SpeaksStep(w: seq<State>, p: Sys, l: Label, s: Sys)
    requires Inv(p) && Speaks(w, p) && Step(p, l) == Some(s) && s.w.pc != Overlapping && !Failing(l)
    ensures Speaks(w + States(ReportOf(l)), s)
  {
    MadeStep(p, l, s);
    if ReportOf(l) == [] {
      SpeaksSilently(w, p, l, s);
      assert w + States([]) == w;
    } else {
      assert States(ReportOf(l)) == [ReportOf(l)[0].state];
      if l.FromWorker? {
        SpeaksWorkerReport(w, p, l.s, s);
      } else if l.FromHandler? {
        SpeaksHandlerReport(w, p, l.s, s);
      } else {
        SpeaksFinal(w, p, s);
      }
    }
  }

  lemma {:induction false} RunsSpeak(h: nat, scm: Record, es: seq<Label>, s: Sys)
    requires Exec(Initial(h, scm), es) == Some(s) && FailureFree(es) && s.w.pc != Overlapping
    ensures Speaks(States(Reports(es)), s)
  {
    if es != [] {
      var (p, l) := (Exec(Initial(h, scm), DropLast(es)).value, Last(es));
      Reachable(h, scm, DropLast(es), p);
      MadeStep(p, l, s);
      RunsSpeak(h, scm, DropLast(es), p);
      SpeaksStep(States(Reports(DropLast(es))), p, l, s);
      assert States(Reports(es)) == States(Reports(DropLast(es))) + States(ReportOf(l));
    }
  }

  // ---- Every word is reported by a run ----

  /** At its select after reporting state st, with a worker that has just made its made-th report. */
  predicate Ready(s: Sys, h: nat, st: State, made: nat) {
    && Listening(s) && s.svc.loop.h == h && s.svc.loop.status.state == st
    && made <= 30 && s.w == Worker(if made < 30 then Evaluating else Closing, (made + 1) as uint32, false)
  }

  const OPENING: seq<State> := [START_PENDING, RUNNING]

  function StateAfter(m: seq<State>): State {
    if m == [] then RUNNING else Last(m)
  }

  /** The run es reports StartPending, Running and m, and the worker has made just the reports m needs. */
  predicate Spoken(h: nat, scm: Record, m: seq<State>, es: seq<Label>, s: Sys, r: seq<Status>) {
    Clean(Initial(h, scm), es, s, r, 1) && States(r) == OPENING + m && Ready(s, h, StateAfter(m), Need(m))
  }

  lemma {:induction false} Speak(h: nat, scm: Record, m: seq<State>)
    returns (es: seq<Label>, s: Sys, r: seq<Status>)
    requires h != 0 && AllActive(m) && Need(m) <= 30
    ensures Spoken(h, scm, m, es, s, r)
    decreases |m|
  {
    if m == [] {
      es, s, r := Started(h, scm);
    } else if EndsInThree(m) {
      var x := WithoutEchoes(m);
      es, s, r := Speak(h, scm, x);
      es, s, r := Prolonged(h, scm, x, es, s, r);
    } else {
      var x, st := WithoutLast(m);
      es, s, r := Speak(h, scm, x);
      es, s, r := OneMore(h, scm, x, es, s, r, st);
    }
  }

  lemma WithoutEchoes(m: seq<State>) returns (x: seq<State>)
    requires EndsInThree(m) && AllActive(m)
    ensures |x| < |m| && m == x + [STOP_PENDING] + [STOP_PENDING] && EndsStopping(x)
    ensures AllActive(x) && Need(x) == Need(m)
  {
    x := m[..|m| - 2];
  }

  lemma WithoutLast(m: seq<State>) returns (x: seq<State>, st: State)
    requires m != [] && AllActive(m) && !EndsInThree(m)
    ensures |x| < |m| && m == x + [st] && AllActive(x) && Active(st)
    ensures Need(m) == if st == STOP_PENDING then 1 + Need(x) else Need(x)
  {
    x, st := DropLast(m), Last(m);
  }

  lemma Started(h: nat, scm: Record) returns (es: seq<Label>, s: Sys, r: seq<Status>)
    requires h != 0
    ensures Spoken(h, scm, [], es, s, r)
  {
    es, s := Begin(h, scm);
    r := [STARTING] + [RUNNING_STATUS];
    es := Tell(Initial(h, scm), es, s, r, 0, PRESHUTDOWN);
    s := Told(s, PRESHUTDOWN);
    assert States(r) == OPENING + [];
  }

  /** A stretch of StopPending is prolonged by the two echoes of an Interrogate. */
  lemma Prolonged(h: nat, scm: Record, m: seq<State>, es: seq<Label>, s: Sys, r: seq<Status>)
    returns (es': seq<Label>, s': Sys, r': seq<Status>)
    requires h != 0 && Spoken(h, scm, m, es, s, r) && EndsStopping(m)
    ensures Spoken(h, scm, m + [STOP_PENDING] + [STOP_PENDING], es', s', r')
  {
    var c := s.svc.loop.status;
    es' := Tell(Initial(h, scm), es, s, r, 1, INTERROGATE);
    s' := Told(s, INTERROGATE);
    es' := Echo(Initial(h, scm), es', s', r, 1);
    s', r' := Sys(Reported(s', c), s'.h.(pc := Select), s'.w), r + [c] + [c];
    StatesExtend(r, m, c);
    StatesExtend(r + [c], m + [STOP_PENDING], c);
    NeedEchoes(m);
    SnocEnds(m + [STOP_PENDING], STOP_PENDING);
  }

  lemma StatesExtend(r: seq<Status>, m: seq<State>, c: Status)
    requires States(r) == OPENING + m
    ensures States(r + [c]) == OPENING + (m + [c.state])
  {
    StatesSnoc(r, c);
    Assoc(OPENING, m, [c.state]);
  }

  /** A progress report, or the answer to a Pause or Continue. */
  lemma OneMore(h: nat, scm: Record, m: seq<State>, es: seq<Label>, s: Sys, r: seq<Status>, st: State)
    returns (es': seq<Label>, s': Sys, r': seq<Status>)
    requires h != 0 && Spoken(h, scm, m, es, s, r) && Active(st) && Need(m + [st]) <= 30
    requires Need(m + [st]) == if st == STOP_PENDING then 1 + Need(m) else Need(m)
    ensures Spoken(h, scm, m + [st], es', s', r')
  {
    var c;
    if st == STOP_PENDING {
      c := Progress(s.w.checkPoint);
      es' := ProgressOnce(Initial(h, scm), es, s, r, 1);
      s' := AfterProgress(s);
    } else {
      es', s', c := Commanded(h, scm, m, es, s, r, st);
    }
    r' := r + [c];
    StatesExtend(r, m, c);
    SnocEnds(m, st);
  }

  lemma Commanded(h: nat, scm: Record, m: seq<State>, es: seq<Label>, s: Sys, r: seq<Status>, st: State)
    returns (es': seq<Label>, s': Sys, c: Status)
    requires h != 0 && Spoken(h, scm, m, es, s, r) && (st == RUNNING || st == PAUSED)
    ensures c.state == st && Clean(Initial(h, scm), es', s', r + [c], 1) && Ready(s', h, st, Need(m))
  {
    var cmd := if st == PAUSED then PAUSE else CONTINUE;
    es' := Tell(Initial(h, scm), es, s, r, 1, cmd);
    s' := Told(s, cmd);
    c := Offers(s'.h.pc).value;
    es' := SendNext(Initial(h, scm), es', s', r, 1);
    s' := Sent(s');
  }

  /** A failure-free run from the start to the loop's return, with at most one PreShutdown. */
  predicate Complete(h: nat, scm: Record, es: seq<Label>, s: Sys) {
    && Exec(Initial(h, scm), es) == Some(s) && s.svc.loop.pc == Returned
    && FailureFree(es) && PreShutdowns(es) <= 1
  }

  lemma WordIsReported(h: nat, scm: Record, w: seq<State>) returns (es: seq<Label>, s: Sys)
    requires h != 0 && Word(w)
    ensures Complete(h, scm, es, s) && States(Reports(es)) == w
  {
    var m, r := w[2..|w| - 2], [];
    es, s, r := Speak(h, scm, m);
    var cp := s.w.checkPoint;
    es, s := Finish(Initial(h, scm), es, s, r, 1);
    StatesSnoc(r, Stopping(cp));
    StatesSnoc(r + [Stopping(cp)], STOPPED_STATUS);
    WordParts(w);
  }

  lemma WordParts(w: seq<State>)
    requires Word(w)
    ensures w == OPENING + w[2..|w| - 2] + [STOP_PENDING] + [STOPPED]
  {}

  /**
    * The exact language: a sequence of states is what some complete, failure-free run with at most one
    * PreShutdown reports if and only if it is a word.
    */
  lemma ExactLanguage(h: nat, scm: Record, w: seq<State>)
    requires h != 0
    ensures (exists es, s :: Complete(h, scm, es, s) && States(Reports(es)) == w) <==> Word(w)
  {
    if es, s :| Complete(h, scm, es, s) && States(Reports(es)) == w {
      WorkerCountsPreShutdowns(h, scm, es, s);
      RunsSpeak(h, scm, es, s);
    }
    if Word(w) {
      var es, s := WordIsReported(h, scm, w);
      assert Complete(h, scm, es, s) && States(Reports(es)) == w;
    }
  }

  // ---- Entering StopPending ----

  /** How often w enters StopPending. */
  function Entries(w: seq<State>): nat {
    if w == [] then 0
    else Entries(DropLast(w)) + if EndsStopping(w) && !EndsStopping(DropLast(w)) then 1 else 0
  }

  predicate EchoesStopping(pc: HandlerPc) {
    (pc.SendEcho1? || pc.Sleeping? || pc.SendEcho2?) && pc.s.state == STOP_PENDING
  }

  /** An echo of StopPending is never an entry, because StopPending is then already the current state. */
  predicate Counted(w: seq<State>, s: Sys) {
    && (BeforeFinal(s.svc.loop) ==> (EndsStopping(w) <==> s.svc.loop.status.state == STOP_PENDING))
    && (s.svc.loop.pc == Selecting && EchoesStopping(s.h.pc) ==> s.svc.loop.status.state == STOP_PENDING)
    && Entries(w) <= Made(s.w) as nat + if s.svc.loop.pc == Selecting && s.h.pc != Returning then 0 else 1
  }

  lemma EntriesSnoc(w: seq<State>, st: State)
    ensures Entries(w + [st]) == Entries(w) + if st == STOP_PENDING && !EndsStopping(w) then 1 else 0
    ensures EndsStopping(w + [st]) <==> st == STOP_PENDING
  {
    SnocEnds(w, st);
  }

  lemma CountedReport(w: seq<State>, p: Sys, l: Label, s: Sys)
    requires Inv(p) && Counted(w, p) && Step(p, l) == Some(s) && s.w.pc != Overlapping && ReportOf(l) != []
    ensures Counted(w + [ReportOf(l)[0].state], s)
  {
    EntriesSnoc(w, ReportOf(l)[0].state);
    if l.FromWorker? {
      WorkerReportStep(p, l.s, s);
    } else if l.FromHandler? {
      CountedHandlerReport(p, l.s, s);
    } else {
      FinalStep(p, l, s);
    }
  }

  lemma FinalStep(p: Sys, l: Label, s: Sys)
    requires l.Env? && Step(p, l) == Some(s) && ReportOf(l) != []
    ensures l == Env(Other(Final(Ok))) && s.w == p.w && p.svc.loop.pc == Finishing && !BeforeFinal(s.svc.loop)
  {}

  lemma CountedHandlerReport(p: Sys, c: Status, s: Sys)
    requires Inv(p) && Step(p, FromHandler(c, Ok)) == Some(s)
    ensures s.w == p.w && p.svc.loop.pc == s.svc.loop.pc == Selecting && s.svc.loop.status == c
    ensures p.h.pc != Returning && (s.h.pc == Returning ==> c.state == STOP_PENDING)
    ensures EchoesStopping(s.h.pc) ==> EchoesStopping(p.h.pc) && c.state == STOP_PENDING
    ensures c.state == STOP_PENDING && s.h.pc != Returning ==> EchoesStopping(p.h.pc)
  {}

  lemma CountedSilently(w: seq<State>, p: Sys, l: Label, s: Sys)
    requires Inv(p) && Counted(w, p) && Step(p, l) == Some(s) && s.w.pc != Overlapping && ReportOf(l) == []
    ensures Counted(w, s)
  {
    MadeStep(p, l, s);
    LoopForward(p, l, s);
    assert s.svc.loop.status == p.svc.loop.status;
    if l.ToHandler? {
      assert EchoesStopping(s.h.pc) ==> p.svc.loop.status.state == STOP_PENDING;
    } else {
      assert s.svc.loop.pc == Selecting && EchoesStopping(s.h.pc) ==> EchoesStopping(p.h.pc);
    }
  }

  lemma {:induction false} RunsCount(h: nat, scm: Record, es: seq<Label>, s: Sys)
    requires Exec(Initial(h, scm), es) == Some(s) && s.w.pc != Overlapping
    ensures Counted(States(Reports(es)), s)
  {
    if es != [] {
      var (p, l) := (Exec(Initial(h, scm), DropLast(es)).value, Last(es));
      Reachable(h, scm, DropLast(es), p);
      MadeStep(p, l, s);
      RunsCount(h, scm, DropLast(es), p);
      var (r, w) := (Reports(DropLast(es)), States(Reports(DropLast(es))));
      if ReportOf(l) == [] {
        CountedSilently(w, p, l, s);
        assert r + [] == r;
      } else {
        CountedReport(w, p, l, s);
        StatesSnoc(r, ReportOf(l)[0]);
        assert ReportOf(l) == [ReportOf(l)[0]];
      }
    }
  }

  /**
    * Every run with at most one PreShutdown, failing or not, complete or not, enters StopPending at most once
    * for each progress report and once more: at most 31 times, and at most once without a PreShutdown.
    */
  lemma {:induction false} EntriesAreBounded(h: nat, scm: Record, es: seq<Label>, s: Sys)
    requires Exec(Initial(h, scm), es) == Some(s) && PreShutdowns(es) <= 1
    ensures Entries(States(Reports(es))) <= |WorkerReports(es)| + 1 <= 31
    ensures PreShutdowns(es) == 0 ==> Entries(States(Reports(es))) <= 1
  {
    Reachable(h, scm, es, s);
    WorkerCountsPreShutdowns(h, scm, es, s);
    CheckPointsInOrder(h, scm, es, s);
    RunsCount(h, scm, es, s);
  }

  /** n times StopPending and Running. */
  function Alternating(n: nat): seq<State> {
    if n == 0 then [] else Alternating(n - 1) + [STOP_PENDING] + [RUNNING]
  }

  lemma {:induction false} AlternatingNeeds(n: nat)
    ensures AllActive(Alternating(n)) && Need(Alternating(n)) == n && !EndsStopping(Alternating(n))
  {
    if n > 0 {
      var m := Alternating(n - 1);
      AlternatingNeeds(n - 1);
      SnocEnds(m, STOP_PENDING);
      NeedOther(m + [STOP_PENDING], RUNNING);
      SnocEnds(m + [STOP_PENDING], RUNNING);
    }
  }

  lemma {:induction false} AlternatingEnters(n: nat)
    ensures Entries(OPENING + Alternating(n)) == n && !EndsStopping(OPENING + Alternating(n))
  {
    if n == 0 {
      EntriesSnoc([], START_PENDING);
      EntriesSnoc([START_PENDING], RUNNING);
      assert [] + [START_PENDING] == [START_PENDING] && [START_PENDING] + [RUNNING] == OPENING + Alternating(0);
    } else {
      var m := Alternating(n - 1);
      AlternatingEnters(n - 1);
      EntriesSnoc(OPENING + m, STOP_PENDING);
      EntriesSnoc(OPENING + m + [STOP_PENDING], RUNNING);
      Assoc(OPENING, m, [STOP_PENDING]);
      Assoc(OPENING, m + [STOP_PENDING], [RUNNING]);
    }
  }

  lemma WordAround(m: seq<State>)
    requires AllActive(m) && Need(m) <= 30
    ensures Word(OPENING + m + [STOP_PENDING] + [STOPPED])
  {
    var w := OPENING + m + [STOP_PENDING] + [STOPPED];
    assert w[2..|w| - 2] == m;
  }

  lemma EntersOnceMore(w: seq<State>)
    requires !EndsStopping(w)
    ensures Entries(w + [STOP_PENDING] + [STOPPED]) == Entries(w) + 1
  {
    EntriesSnoc(w, STOP_PENDING);
    EntriesSnoc(w + [STOP_PENDING], STOPPED);
  }

  lemma AlternatingWord(n: nat) returns (w: seq<State>)
    requires n <= 30
    ensures Word(w) && Entries(w) == n + 1
  {
    w := OPENING + Alternating(n) + [STOP_PENDING] + [STOPPED];
    AlternatingNeeds(n);
    WordAround(Alternating(n));
    AlternatingEnters(n);
    EntersOnceMore(OPENING + Alternating(n));
  }

  /** The bound is reached: any number of entries from 1 to 31 occurs. */
  lemma EntriesReached(h: nat, scm: Record, n: nat) returns (es: seq<Label>, s: Sys)
    requires h != 0 && 1 <= n <= 31
    ensures Complete(h, scm, es, s) && Entries(States(Reports(es))) == n
  {
    var w := AlternatingWord(n - 1);
    es, s := WordIsReported(h, scm, w);
  }
}
