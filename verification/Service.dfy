/**
  * The service object of svc/service.go in its own imperative form. A script stands for the other
  * threads: the events they offer, in order. Each method is proved to follow the step function of
  * RunLoop, and to stop only where the step function refuses the next event.
  */
module Service {
  import opened Wrappers
  import opened ServiceStatus
  import opened RunLoop

  lemma ExtendRun(l0: Loop, script: seq<LoopEvent>, n: nat)
    requires n < |script| && LoopRun(l0, script[..n]).Some?
    ensures LoopRun(l0, script[..n + 1]) == LoopStep(LoopRun(l0, script[..n]).value, script[n])
  {
    assert DropLast(script[..n + 1]) == script[..n];
  }

  lemma FinalStep(l: Loop, o: Outcome)
    requires l.pc == Finishing && Possible(l.h, o)
    ensures LoopStep(l, Final(o)) == Some(l.(
      pc := Signalling, scm := if o == Ok then RecordOf(STOPPED_STATUS, l.ec) else l.scm))
  {}

  class Service {
    var h: nat
    var scm: Record  // the record the SCM holds for this service
    var cWaits: bool  // whether the event cWaits has been set

    constructor (scm: Record)
      ensures h == 0 && this.scm == scm && !cWaits
    {
      h, this.scm, cWaits := 0, scm, false;
    }

    /** The record is filled field by field; the answer of SetServiceStatus is its errno, 0 for success. */
    method UpdateStatus(status: Status, ec: ExitCode, answer: uint32) returns (err: Outcome)
      modifies `scm
      ensures err == if h == 0 then NoHandle else if answer == 0 then Ok else Errno(answer)
      ensures scm == if err == Ok then RecordOf(status, ec) else old(scm)
      ensures err == Ok ==> Tells(scm, status, ec)
    {
      if h == 0 {
        return NoHandle;
      }
      var controls: Accepted := 0;
      if status.accepts & ACCEPT_STOP != 0 {
        controls := controls | ACCEPT_STOP;
      }
      if status.accepts & ACCEPT_SHUTDOWN != 0 {
        controls := controls | ACCEPT_SHUTDOWN;
      }
      if status.accepts & ACCEPT_PRESHUTDOWN != 0 {
        controls := controls | ACCEPT_PRESHUTDOWN;
      }
      if status.accepts & ACCEPT_PAUSE_AND_CONTINUE != 0 {
        controls := controls | ACCEPT_PAUSE_AND_CONTINUE;
      }
      assert controls == status.accepts & ACCEPT_KNOWN;
      var win32, specific := NO_ERROR, NO_ERROR;
      if ec.errno == 0 {
      } else if ec.isSvcSpecific {
        win32, specific := ERROR_SERVICE_SPECIFIC_ERROR, ec.errno;
      } else {
        win32 := ec.errno;
      }
      if answer != 0 {
        return Errno(answer);
      }
      RecordTells(status, ec);
      scm := Record(
        SERVICE_WIN32_OWN_PROCESS, status.state, controls, win32, specific, status.checkPoint, status.waitHint);
      return Ok;
    }

    /** The errno with which SetServiceStatus answers in an outcome. */
    function AnswerOf(o: Outcome): uint32 {
      if o.Errno? then o.errno else 0
    }

    /** The two actions after the loop: the final Stopped update and setting cWaits. */
    method Finish(ghost l0: Loop, l1: Loop, script: seq<LoopEvent>, n1: nat) returns (n: nat, l: Loop)
      requires n1 <= |script| && LoopRun(l0, script[..n1]) == Some(l1)
      requires l1.pc == Finishing && h == l1.h && scm == l1.scm && cWaits == l1.cWaits
      modifies this
      ensures n <= |script| && LoopRun(l0, script[..n]) == Some(l)
      ensures n < |script| ==> LoopStep(l, script[n]).None?
      ensures h == l.h && scm == l.scm && cWaits == l.cWaits
    {
      n, l := n1, l1;
      if n == |script| || !script[n].Final? || !Possible(h, script[n].outcome) {
        return;
      }
      ExtendRun(l0, script, n);
      FinalStep(l, script[n].outcome);
      var _ := UpdateStatus(STOPPED_STATUS, l.ec, AnswerOf(script[n].outcome));
      n, l := Announce(l0, l.(pc := Signalling, scm := scm), script, n + 1);
    }

    /** s.cWaits.Set() */
    method Announce(ghost l0: Loop, l1: Loop, script: seq<LoopEvent>, n1: nat) returns (n: nat, l: Loop)
      requires n1 <= |script| && LoopRun(l0, script[..n1]) == Some(l1)
      requires l1.pc == Signalling && h == l1.h && scm == l1.scm && cWaits == l1.cWaits
      modifies `cWaits
      ensures n <= |script| && LoopRun(l0, script[..n]) == Some(l)
      ensures n < |script| ==> LoopStep(l, script[n]).None?
      ensures h == l.h && scm == l.scm && cWaits == l.cWaits
    {
      n, l := n1, l1;
      if n < |script| && script[n].Signal? {
        ExtendRun(l0, script, n);
        cWaits := true;
        n, l := n + 1, l.(pc := Returned, cWaits := true);
      }
    }

    /**
      * service.run from the moment goWaits has been signalled. It takes part in the offered events for
      * as long as it can: n of them, ending in state l.
      */
    method Run(ssHandle: nat, script: seq<LoopEvent>) returns (n: nat, l: Loop)
      requires !cWaits
      modifies this
      ensures n <= |script| && LoopRun(Start(ssHandle, old(scm)), script[..n]) == Some(l)
      ensures n < |script| ==> LoopStep(l, script[n]).None?
      ensures h == l.h && scm == l.scm && cWaits == l.cWaits
    {
      h := ssHandle;
      ghost var l0 := Start(h, scm);
      var status, ec := STOPPED_STATUS, ExitCode(true, 0);
      var inch, outch, cmd := true, false, 0;
      n := 0;
      label loop: while true
        invariant n <= |script| && h == ssHandle && !cWaits
        invariant LoopRun(l0, script[..n]) == Some(Loop(h, Selecting, inch, outch, cmd, status, ec, scm, cWaits))
        decreases |script| - n
      {
        l := Loop(h, Selecting, inch, outch, cmd, status, ec, scm, cWaits);
        if n == |script| {
          return;
        }
        ExtendRun(l0, script, n);
        match script[n] {
          case Recv(r) =>
            if !inch {
              return;
            }
            n := n + 1;
            if r.errno != 0 {
              ec := ec.(errno := r.errno);
              break loop;
            }
            inch, outch := false, true;
            cmd := r.cmd;
          case Deliver(req) =>
            if !outch || req != ChangeRequest(cmd, status) {
              return;
            }
            n := n + 1;
            inch, outch := true, false;
          case Change(c, o) =>
            if !Possible(h, o) {
              return;
            }
            n := n + 1;
            var err := UpdateStatus(c, ec, AnswerOf(o));
            if err != Ok {
              var errno := SYS_ERR_SET_SERVICE_STATUS_FAILED;
              if err.Errno? {
                errno := err.errno;
              }
              ec := ec.(errno := errno);
              break loop;
            }
            status := c;
          case Exit(e) =>
            n := n + 1;
            ec := e;
            break loop;
          case _ =>
            return;
        }
      }
      l := Loop(h, Finishing, inch, outch, cmd, status, ec, scm, cWaits);
      n, l := Finish(l0, l, script, n);
    }
  }
}
