/**
  * The status vocabulary of svc/service.go and winapi/service.go: what a handler reports, what the
  * service control manager (SCM) is told, and how the two exit-code fields of an SCM record encode
  * an exit code.
  */
module ServiceStatus {
  import opened Wrappers

  newtype uint32 = x: int | 0 <= x < 0x1_0000_0000

  type State = uint32
  const STOPPED: State := 1
  const START_PENDING: State := 2
  const STOP_PENDING: State := 3
  const RUNNING: State := 4
  const PAUSED: State := 7

  type Cmd = uint32
  const STOP: Cmd := 1
  const PAUSE: Cmd := 2
  const CONTINUE: Cmd := 3
  const INTERROGATE: Cmd := 4
  const SHUTDOWN: Cmd := 5
  const PRESHUTDOWN: Cmd := 15

  type Accepted = bv32
  const ACCEPT_STOP: Accepted := 0x1
  const ACCEPT_PAUSE_AND_CONTINUE: Accepted := 0x2
  const ACCEPT_SHUTDOWN: Accepted := 0x4
  const ACCEPT_PRESHUTDOWN: Accepted := 0x100
  const ACCEPT_KNOWN: Accepted := 0x107

  const SERVICE_WIN32_OWN_PROCESS: uint32 := 16
  const NO_ERROR: uint32 := 0
  const ERROR_SERVICE_SPECIFIC_ERROR: uint32 := 1066

  // syscall.APPLICATION_ERROR is 1 << 29; the two codes of this package follow it.
  const SYS_ERR_SET_SERVICE_STATUS_FAILED: uint32 := 0x2000_0000
  const SYS_ERR_NEW_THREAD_IN_CALLBACK: uint32 := 0x2000_0001

  datatype Status = Status(state: State, accepts: Accepted, checkPoint: uint32, waitHint: uint32)

  datatype ChangeRequest = ChangeRequest(cmd: Cmd, currentStatus: Status)

  datatype ExitCode = ExitCode(isSvcSpecific: bool, errno: uint32)

  /** SERVICE_STATUS, the record the SCM holds. */
  datatype Record = Record(
    serviceType: uint32, currentState: uint32, controlsAccepted: Accepted,
    win32ExitCode: uint32, serviceSpecificExitCode: uint32, checkPoint: uint32, waitHint: uint32)

  const STOPPED_STATUS := Status(STOPPED, 0, 0, 0)

  /** The exit code the run loop starts with. */
  const NO_EXIT := ExitCode(true, 0)

  /** What updateStatus hands to SetServiceStatus. */
  function RecordOf(status: Status, ec: ExitCode): Record {
    Record(
      SERVICE_WIN32_OWN_PROCESS, status.state, status.accepts & ACCEPT_KNOWN,
      if ec.errno == 0 then NO_ERROR else if ec.isSvcSpecific then ERROR_SERVICE_SPECIFIC_ERROR else ec.errno,
      if ec.errno != 0 && ec.isSvcSpecific then ec.errno else NO_ERROR,
      status.checkPoint, status.waitHint)
  }

  /** Field by field, what a record tells the manager of a status and an exit code. */
  predicate Tells(r: Record, status: Status, ec: ExitCode) {
    && r.serviceType == 0x10 && r.currentState == status.state
    && r.checkPoint == status.checkPoint && r.waitHint == status.waitHint
    && TellsAccepted(r.controlsAccepted, status.accepts) && TellsExit(r, ec)
  }

  /** Four bits are passed on, each as it is. */
  predicate TellsAccepted(controls: Accepted, accepts: Accepted) {
    && (controls & 0x1 != 0 <==> accepts & 0x1 != 0) && (controls & 0x2 != 0 <==> accepts & 0x2 != 0)
    && (controls & 0x4 != 0 <==> accepts & 0x4 != 0) && (controls & 0x100 != 0 <==> accepts & 0x100 != 0)
    && controls & !(0x107 as bv32) == 0
  }

  predicate TellsExit(r: Record, ec: ExitCode) {
    if ec.errno == 0 then r.win32ExitCode == 0 && r.serviceSpecificExitCode == 0
    else if ec.isSvcSpecific then r.win32ExitCode == 1066 && r.serviceSpecificExitCode == ec.errno
    else r.win32ExitCode == ec.errno && r.serviceSpecificExitCode == 0
  }

  lemma RecordTells(status: Status, ec: ExitCode)
    ensures Tells(RecordOf(status, ec), status, ec)
  {
    AcceptedBits(status.accepts);
  }

  lemma AcceptedBits(a: Accepted)
    ensures TellsAccepted(a & 0x107, a)
  {
    assert (a & 0x107) & !(0x107 as bv32) == 0;
    assert (a & 0x107) & 0x1 == a & 0x1;
    assert (a & 0x107) & 0x2 == a & 0x2;
    assert (a & 0x107) & 0x4 == a & 0x4;
    assert (a & 0x107) & 0x100 == a & 0x100;
  }

  /** How a reader of an SCM record recovers the exit code; None stands for success. */
  function ExitCodeOf(r: Record): Option<ExitCode> {
    if r.win32ExitCode == NO_ERROR && r.serviceSpecificExitCode == NO_ERROR then None
    else if r.serviceSpecificExitCode != NO_ERROR then Some(ExitCode(true, r.serviceSpecificExitCode))
    else Some(ExitCode(false, r.win32ExitCode))
  }

  predicate CarriesNoError(r: Record) {
    r.win32ExitCode == NO_ERROR && r.serviceSpecificExitCode == NO_ERROR
  }

  /** What Service.Query and Service.Control of package mgr return for a record. */
  function QueryOf(r: Record): Status {
    Status(r.currentState, r.controlsAccepted, 0, 0)
  }

  /**
    * The manager sees the state it was told and exactly those of the four known commands that the
    * handler accepts: no other bit gets through and none of the four is lost.
    */
  lemma QuerySeesKnownBits(status: Status, ec: ExitCode, bit: Accepted)
    requires bit in {ACCEPT_STOP, ACCEPT_PAUSE_AND_CONTINUE, ACCEPT_SHUTDOWN, ACCEPT_PRESHUTDOWN}
    ensures QueryOf(RecordOf(status, ec)).state == status.state
    ensures QueryOf(RecordOf(status, ec)).accepts & bit == status.accepts & bit
    ensures QueryOf(RecordOf(status, ec)).accepts & !ACCEPT_KNOWN == 0
  {
    var a := status.accepts;
    assert (a & 0x107) & !(0x107 as bv32) == 0;
    assert (a & 0x107) & 0x1 == a & 0x1;
    assert (a & 0x107) & 0x2 == a & 0x2;
    assert (a & 0x107) & 0x4 == a & 0x4;
    assert (a & 0x107) & 0x100 == a & 0x100;
  }

  /** A plain 1066 and a service-specific code never collide: the record determines the exit code. */
  lemma ExitCodeDecodes(status: Status, ec: ExitCode)
    ensures ExitCodeOf(RecordOf(status, ec)) == if ec.errno == 0 then None else Some(ec)
  {}
}
