/**
  * controlService (example/manage.go): send a control, then poll the service's status until it has the
  * wanted state or ten seconds have passed. The clock and the SCM's answers are functions of how often
  * they have been asked.
  */
module ControlService {
  import opened Wrappers
  import opened ServiceStatus

  /** Times are in milliseconds. */
  const TIMEOUT := 10_000
  const POLL_INTERVAL := 300

  /** What Control or Query returns: a status or an errno. */
  datatype Answer = Got(status: Status) | Failed(errno: uint32)

  datatype ControlResult =
    | Reached
    | TimedOut
    | NoConnection(errno: uint32)
    | NoService(errno: uint32)
    | NotSent(errno: uint32)
    | NotRetrieved(errno: uint32)

  /**
    * Reading 0 of the clock sets the deadline, reading k is the check before query k; the clock does not
    * run backwards, and between two checks lies a sleep of at least the poll interval.
    */
  ghost predicate Clock(now: nat -> int) {
    && now(1) >= now(0)
    && forall k: nat :: k >= 1 ==> now(k + 1) >= now(k) + POLL_INTERVAL
  }

  /** The n-th answer observed: first that of Control, then those of Query. */
  function Observed(control: Answer, query: nat -> Answer, n: nat): Answer {
    if n == 0 then control else query(n)
  }

  predicate Shows(a: Answer, to: State) {
    a.Got? && a.status.state == to
  }

  lemma {:induction false} ClockAdvances(now: nat -> int, k: nat)
    requires Clock(now) && k >= 1
    ensures now(k) >= now(0) + POLL_INTERVAL * (k - 1)
  {
    if k > 1 {
      ClockAdvances(now, k - 1);
      assert now((k - 1) + 1) >= now(k - 1) + POLL_INTERVAL;
    }
  }

  /**
    * Polling ends after at most 34 queries. It reports success exactly when the last status observed is
    * the first with the wanted state, a timeout when the deadline has passed and no status so far had
    * that state, and otherwise the first failure.
    */
  method Control(connect: uint32, open: uint32, control: Answer, to: State, now: nat -> int, query: nat -> Answer)
    returns (r: ControlResult, queries: nat)
    requires Clock(now)
    ensures queries <= 34
    ensures connect != 0 <==> r == NoConnection(connect)
    ensures connect == 0 && open != 0 <==> r == NoService(open)
    ensures connect == 0 && open == 0 && control.Failed? ==> r == NotSent(control.errno)
    ensures connect == 0 && open == 0 && control.Got? ==>
      && (r == Reached || r == TimedOut || r.NotRetrieved?)
      && (forall k: nat | k < queries :: Observed(control, query, k).Got? && !Shows(Observed(control, query, k), to))
      && (r == Reached <==> Shows(Observed(control, query, queries), to))
      && (r == TimedOut ==> now(0) + TIMEOUT < now(queries + 1) && Observed(control, query, queries).Got?)
      && (r.NotRetrieved? <==> Observed(control, query, queries).Failed?)
      && (r.NotRetrieved? ==> Observed(control, query, queries) == Failed(r.errno))
      && (forall k: nat | 1 <= k <= queries :: now(k) <= now(0) + TIMEOUT)
  {
    queries := 0;
    if connect != 0 {
      return NoConnection(connect), 0;
    }
    if open != 0 {
      return NoService(open), 0;
    }
    if control.Failed? {
      return NotSent(control.errno), 0;
    }
    var status := control.status;
    var timeout := now(0) + TIMEOUT;
    while status.state != to
      invariant queries <= 34
      invariant Observed(control, query, queries) == Got(status)
      invariant forall k: nat | k < queries :: Observed(control, query, k).Got? && !Shows(Observed(control, query, k), to)
      invariant forall k: nat | 1 <= k <= queries :: now(k) <= timeout
      decreases 34 - queries
    {
      if timeout < now(queries + 1) {
        return TimedOut, queries;
      }
      ClockAdvances(now, queries + 1);
      // sleep for the poll interval
      queries := queries + 1;
      var a := query(queries);
      if a.Failed? {
        return NotRetrieved(a.errno), queries;
      }
      status := a.status;
    }
    return Reached, queries;
  }

  /** The bound is exact: against a service that never reaches the state, a fast clock allows all 34. */
  method SlowestPoll(to: State, other: Status) returns (r: ControlResult, queries: nat)
    requires other.state != to
    ensures r == TimedOut && queries == 34
  {
    var now := (k: nat) => if k == 0 then 0 else POLL_INTERVAL * (k - 1);
    var query := (k: nat) => Got(other);
    r, queries := Control(0, 0, Got(other), to, now, query);
  }
}
