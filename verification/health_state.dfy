/** packages/domain/src/health-scoring.ts: the health state machine folded over runs of probes. */
module HealthStates {

  datatype Status = Up | Degraded | Down | Unknown

  datatype State = State(status: Status, failures: int, successes: int)

  datatype Transition = Transition(state: State, changed: bool, incidentOpened: bool, incidentResolved: bool)

  const FAILURE_THRESHOLD := 2

  const RECOVERY_THRESHOLD := 1

  const INITIAL: State := State(Unknown, 0, 0)

  predicate IsSuccessful(s: Status) {
    s == Up || s == Degraded
  }

  function Observe(current: State, observed: Status): Transition {
    var previous := current.status;
    if IsSuccessful(observed) then
      var successes := current.successes + 1;
      if previous == Down && successes < RECOVERY_THRESHOLD
      then Transition(State(Down, current.failures, successes), false, false, false)
      else Transition(State(observed, 0, successes), previous != observed, false, previous == Down)
    else
      var failures := current.failures + 1;
      if failures < FAILURE_THRESHOLD && previous != Unknown
      then Transition(State(if previous == Up then Degraded else previous, failures, 0), previous == Up, false, false)
      else Transition(State(Down, failures, 0), previous != Down, previous != Down, false)
  }

  /** The state after a run of probes. */
  ghost function Run(probes: seq<Status>): State {
    if probes == [] then INITIAL else Observe(Run(probes[..|probes| - 1]), probes[|probes| - 1]).state
  }

  /** How many of the latest probes failed in a row. */
  ghost function Failing(probes: seq<Status>): nat {
    if probes == [] || IsSuccessful(probes[|probes| - 1]) then 0 else 1 + Failing(probes[..|probes| - 1])
  }

  ghost function Succeeding(probes: seq<Status>): nat {
    if probes == [] || !IsSuccessful(probes[|probes| - 1]) then 0 else 1 + Succeeding(probes[..|probes| - 1])
  }

  /**
   * The public status depends on the latest probes only: the last observation
   * after a success, degraded after a single failure that follows a success,
   * and down after two failures in a row, or one that was the first probe.
   */
  lemma {:induction false} StatusOfRun(probes: seq<Status>)
    ensures var s := Run(probes);
            && s.failures == Failing(probes) && s.successes == Succeeding(probes)
            && s.status == (if probes == [] then Unknown
                            else if Failing(probes) == 0 then probes[|probes| - 1]
                            else if Failing(probes) == 1 && |probes| > 1 then Degraded
                            else Down)
  {
    if probes != [] { StatusOfRun(probes[..|probes| - 1]); }
  }

  ghost function Opened(probes: seq<Status>): nat {
    if probes == [] then 0
    else
      var front := probes[..|probes| - 1];
      Opened(front) + if Observe(Run(front), probes[|probes| - 1]).incidentOpened then 1 else 0
  }

  ghost function Resolved(probes: seq<Status>): nat {
    if probes == [] then 0
    else
      var front := probes[..|probes| - 1];
      Resolved(front) + if Observe(Run(front), probes[|probes| - 1]).incidentResolved then 1 else 0
  }

  /** Incidents are opened and resolved in turn: one is open exactly while the status is down. */
  lemma {:induction false} IncidentsAlternate(probes: seq<Status>)
    ensures Opened(probes) == Resolved(probes) + if Run(probes).status == Down then 1 else 0
  {
    if probes != [] {
      IncidentsAlternate(probes[..|probes| - 1]);
      StatusOfRun(probes[..|probes| - 1]);
    }
  }

  /** The arrows of the documented state diagram. */
  ghost predicate Arrow(from: Status, to: Status) {
    match from
    case Unknown => to == Up || to == Down
    case Up => to == Degraded || to == Down
    case Degraded => to == Up || to == Down
    case Down => to == Up
  }

  /**
   * changed tells the truth about the public status, and an incident is opened
   * or resolved by exactly the changes to and from down.  A change follows an
   * arrow of the diagram, except exactly when a degraded probe comes first or
   * while the status is down: then the status becomes degraded at once.  The
   * arrow from up to down is never followed.
   */
  lemma ArrowsOfTheDiagram(probes: seq<Status>, observed: Status)
    ensures var before, t := Run(probes).status, Observe(Run(probes), observed);
            && (t.changed <==> t.state.status != before)
            && (t.incidentOpened <==> before != Down && t.state.status == Down)
            && (t.incidentResolved <==> before == Down && t.state.status != Down)
            && t.state.status != Unknown
            && (t.changed ==> (Arrow(before, t.state.status) <==> !(observed == Degraded && (before == Down || before == Unknown))))
            && (before == Down && t.changed ==> IsSuccessful(observed) && t.state.status == observed)
            && (before == Up && t.changed ==> t.state.status == Degraded)
  {
    StatusOfRun(probes);
  }
}
