/**
 * Route selection: the health of each endpoint as a function of the recorded
 * outcomes, and how often a relay that can never work is still selected.
 */
module Routing {
  import opened Integers

  type NodeId = string

  datatype RouteEndpoint = DirectAgent(targetNodeId: NodeId) | RelayNode(relayNodeId: NodeId)
  datatype RouteRequest = RouteRequest(targetNodeId: NodeId, directAgentConnected: bool, relayCandidates: seq<NodeId>)

  datatype NodeRoute = Direct(target: NodeId) | Relay(target: NodeId, relay: NodeId)
  {
    function Endpoint(): RouteEndpoint {
      match this
      case Direct(target) => DirectAgent(target)
      case Relay(_, relay) => RelayNode(relay)
    }
  }

  datatype RouteResult = Ok(route: NodeRoute) | NoRoute
  datatype RouteHealth = Healthy | Degraded | Unhealthy

  const UNHEALTHY_AFTER: nat := 3

  datatype RouteHealthRecord = RouteHealthRecord(consecutiveFailures: nat)
  {
    function Failed(): RouteHealthRecord {
      RouteHealthRecord(if consecutiveFailures < U8_MAX then consecutiveFailures + 1 else U8_MAX)
    }

    function Health(): RouteHealth {
      if consecutiveFailures == 0 then Healthy
      else if consecutiveFailures >= UNHEALTHY_AFTER then Unhealthy
      else Degraded
    }
  }

  // --------------------------------------------------------------- health as history

  datatype Outcome = Success(endpoint: RouteEndpoint) | Failure(endpoint: RouteEndpoint)

  /** The failures of an endpoint since its last success, however many. */
  function FailuresSinceSuccess(h: seq<Outcome>, e: RouteEndpoint): nat {
    if h == [] then 0
    else
      var last, before := h[|h| - 1], h[..|h| - 1];
      if last.endpoint != e then FailuresSinceSuccess(before, e)
      else if last.Success? then 0
      else FailuresSinceSuccess(before, e) + 1
  }

  function HealthAfter(h: seq<Outcome>, e: RouteEndpoint): RouteHealth {
    var failures := FailuresSinceSuccess(h, e);
    if failures == 0 then Healthy else if failures <= 2 then Degraded else Unhealthy
  }

  lemma {:induction false} FailuresAppend(h: seq<Outcome>, o: Outcome, e: RouteEndpoint)
    ensures FailuresSinceSuccess(h + [o], e)
         == if o.endpoint != e then FailuresSinceSuccess(h, e)
            else if o.Success? then 0
            else FailuresSinceSuccess(h, e) + 1
  {
    assert (h + [o])[..|h|] == h;
  }

  /** A run of failures of one endpoint, one after the other. */
  function Failures(e: RouteEndpoint, n: nat): seq<Outcome> {
    seq(n, _ => Failure(e))
  }

  lemma {:induction false} FailuresCount(h: seq<Outcome>, e: RouteEndpoint, n: nat)
    ensures FailuresSinceSuccess(h + Failures(e, n), e) == FailuresSinceSuccess(h, e) + n
  {
    if n == 0 {
      assert h + Failures(e, 0) == h;
    } else {
      FailuresCount(h, e, n - 1);
      assert h + Failures(e, n) == h + Failures(e, n - 1) + [Failure(e)];
      FailuresAppend(h + Failures(e, n - 1), Failure(e), e);
    }
  }

  /** From a success on, an endpoint is healthy, degraded at its first two failures, and unhealthy at its third. */
  lemma HealthAfterFailures(h: seq<Outcome>, e: RouteEndpoint, n: nat)
    ensures HealthAfter(h + [Success(e)] + Failures(e, n), e)
         == match n case 0 => Healthy case 1 => Degraded case 2 => Degraded case _ => Unhealthy
  {
    FailuresAppend(h, Success(e), e);
    FailuresCount(h + [Success(e)], e, n);
  }

  predicate DirectUsable(h: seq<Outcome>, request: RouteRequest) {
    request.directAgentConnected && HealthAfter(h, DirectAgent(request.targetNodeId)) != Unhealthy
  }

  predicate RelayUsable(h: seq<Outcome>, relay: NodeId) {
    HealthAfter(h, RelayNode(relay)) != Unhealthy
  }

  /**
   * A usable direct route is preferred; otherwise the first usable relay in
   * the order offered; and there is no route only if nothing at all is usable.
   */
  predicate Chooses(h: seq<Outcome>, request: RouteRequest, r: RouteResult) {
    match r
    case Ok(Direct(target)) => target == request.targetNodeId && DirectUsable(h, request)
    case Ok(Relay(target, relay)) =>
      target == request.targetNodeId && !DirectUsable(h, request) &&
      exists i | 0 <= i < |request.relayCandidates| ::
        request.relayCandidates[i] == relay && RelayUsable(h, relay) &&
        forall j | 0 <= j < i :: !RelayUsable(h, request.relayCandidates[j])
    case NoRoute =>
      !DirectUsable(h, request) &&
      forall i | 0 <= i < |request.relayCandidates| :: !RelayUsable(h, request.relayCandidates[i])
  }

  /** The choice is unique. */
  lemma ChoiceUnique(h: seq<Outcome>, request: RouteRequest, r: RouteResult, s: RouteResult)
    requires Chooses(h, request, r) && Chooses(h, request, s)
    ensures r == s
  {
    hide DirectUsable, RelayUsable;
    if r.Ok? && r.route.Relay? && s.Ok? && s.route.Relay? {
      var c := request.relayCandidates;
      var i :| 0 <= i < |c| && c[i] == r.route.relay && RelayUsable(h, c[i]) &&
                forall j | 0 <= j < i :: !RelayUsable(h, c[j]);
      var k :| 0 <= k < |c| && c[k] == s.route.relay && RelayUsable(h, c[k]) &&
                forall j | 0 <= j < k :: !RelayUsable(h, c[j]);
      assert !(i < k) && !(k < i);
    }
  }

  class InMemoryNodeRouter {
    var records: map<RouteEndpoint, RouteHealthRecord>
    ghost var history: seq<Outcome>

    /** The counters are the failures since the last success, saturated at eight bits. */
    ghost predicate Valid()
      reads this
    {
      (forall e | e in records ::
         var n := FailuresSinceSuccess(history, e);
         records[e].consecutiveFailures == if n <= U8_MAX then n else U8_MAX) &&
      (forall e | e !in records :: FailuresSinceSuccess(history, e) == 0)
    }

    constructor ()
      ensures Valid() && history == []
    {
      records := map[];
      history := [];
    }

    method EndpointHealth(endpoint: RouteEndpoint) returns (health: RouteHealth)
      requires Valid()
      ensures health == HealthAfter(history, endpoint)
    {
      hide FailuresSinceSuccess;
      if endpoint in records {
        health := records[endpoint].Health();
      } else {
        health := Healthy;
      }
    }

    method SelectRoute(request: RouteRequest) returns (r: RouteResult)
      requires Valid()
      ensures Chooses(history, request, r)
    {
      hide HealthAfter;
      var direct := EndpointHealth(DirectAgent(request.targetNodeId));
      if request.directAgentConnected && direct != Unhealthy {
        return Ok(Direct(request.targetNodeId));
      }
      for n := 0 to |request.relayCandidates|
        invariant forall j | 0 <= j < n :: !RelayUsable(history, request.relayCandidates[j])
      {
        var relay := request.relayCandidates[n];
        var health := EndpointHealth(RelayNode(relay));
        if health != Unhealthy {
          return Ok(Relay(request.targetNodeId, relay));
        }
      }
      return NoRoute;
    }

    method RecordSuccess(route: NodeRoute)
      requires Valid()
      modifies this
      ensures Valid() && history == old(history) + [Success(route.Endpoint())]
    {
      hide FailuresSinceSuccess;
      var endpoint := route.Endpoint();
      records := records[endpoint := RouteHealthRecord(0)];
      forall e {
        FailuresAppend(history, Success(endpoint), e);
      }
      history := history + [Success(endpoint)];
    }

    method RecordFailure(route: NodeRoute)
      requires Valid()
      modifies this
      ensures Valid() && history == old(history) + [Failure(route.Endpoint())]
    {
      hide FailuresSinceSuccess;
      var endpoint := route.Endpoint();
      if endpoint in records {
        records := records[endpoint := records[endpoint].Failed()];
      } else {
        records := records[endpoint := RouteHealthRecord(1)];
      }
      forall e {
        FailuresAppend(history, Failure(endpoint), e);
      }
      history := history + [Failure(endpoint)];
    }
  }

  // ------------------------------------------------------------- runs of terminal opens

  /**
   * The steps of remote terminal opens, each one critical section of the router,
   * so that opens interleave. An open reads the health of one endpoint after the
   * other, and the read of the endpoint it settles for is the step at which it
   * selects. A relay cannot carry a terminal, so an open that selected one records
   * a failure of it later; an open that selected a direct route later records
   * either outcome, or ends without recording any.
   */
  datatype Step =
    | Select(request: RouteRequest, result: RouteResult)
    | FailRelay(relay: NodeId)
    | DirectOutcome(target: NodeId, success: bool)
    | DirectAbandoned(target: NodeId)

  /**
   * The outcomes recorded so far, the relays selected whose failure is still to
   * be recorded, and the targets of the direct opens that are still under way.
   */
  datatype State = State(history: seq<Outcome>, pending: multiset<NodeId>, direct: multiset<NodeId>)

  const INITIAL := State([], multiset{}, multiset{})

  predicate EndpointUsable(h: seq<Outcome>, e: RouteEndpoint) {
    HealthAfter(h, e) != Unhealthy
  }

  /** An endpoint is selected only if it is usable when it is; what was read before may be out of date by then. */
  predicate Enabled(s: State, step: Step) {
    match step
    case Select(_, result) => result.Ok? ==> EndpointUsable(s.history, result.route.Endpoint())
    case FailRelay(relay) => relay in s.pending
    case DirectOutcome(target, _) => target in s.direct
    case DirectAbandoned(target) => target in s.direct
  }

  function After(s: State, step: Step): State {
    match step
    case Select(_, Ok(Relay(_, relay))) => s.(pending := s.pending + multiset{relay})
    case Select(_, Ok(Direct(target))) => s.(direct := s.direct + multiset{target})
    case Select(_, NoRoute) => s
    case FailRelay(relay) =>
      s.(history := s.history + [Failure(RelayNode(relay))], pending := s.pending - multiset{relay})
    case DirectOutcome(target, success) =>
      var e := DirectAgent(target);
      s.(history := s.history + [if success then Success(e) else Failure(e)], direct := s.direct - multiset{target})
    case DirectAbandoned(target) => s.(direct := s.direct - multiset{target})
  }

  function Run(steps: seq<Step>): State {
    if steps == [] then INITIAL else After(Run(steps[..|steps| - 1]), steps[|steps| - 1])
  }

  /** Every step is possible where it is taken, and at most `most` relay opens overlap. */
  predicate Possible(steps: seq<Step>, most: nat) {
    steps == [] ||
    var before := steps[..|steps| - 1];
    Possible(before, most) && Enabled(Run(before), steps[|steps| - 1]) && |Run(steps).pending| <= most
  }

  /** In this series every open reads all it needs at once, so that its choice is that of `SelectRoute`. */
  predicate AtOnce(steps: seq<Step>) {
    steps == [] ||
    var before, last := steps[..|steps| - 1], steps[|steps| - 1];
    AtOnce(before) && (last.Select? ==> Chooses(Run(before).history, last.request, last.result))
  }

  predicate SelectsFrom(step: Step, relays: set<NodeId>) {
    step.Select? && step.result.Ok? && step.result.route.Relay? && step.result.route.relay in relays
  }

  /** How many opens selected one of these relays. */
  function Selections(steps: seq<Step>, relays: set<NodeId>): nat {
    if steps == [] then 0
    else Selections(steps[..|steps| - 1], relays) + (if SelectsFrom(steps[|steps| - 1], relays) then 1 else 0)
  }

  /** The failures recorded of a relay since its last success, and those still to be recorded. */
  function Attributed(s: State, relay: NodeId): nat {
    FailuresSinceSuccess(s.history, RelayNode(relay)) + s.pending[relay]
  }

  lemma StepAttributes(s: State, step: Step, relay: NodeId)
    requires Enabled(s, step)
    ensures Attributed(After(s, step), relay) == Attributed(s, relay) + (if SelectsFrom(step, {relay}) then 1 else 0)
  {
    hide FailuresSinceSuccess, EndpointUsable;
    match step
    case Select(_, _) =>
    case DirectAbandoned(_) =>
    case FailRelay(r) =>
      FailuresAppend(s.history, Failure(RelayNode(r)), RelayNode(relay));
    case DirectOutcome(target, success) =>
      var e := DirectAgent(target);
      FailuresAppend(s.history, if success then Success(e) else Failure(e), RelayNode(relay));
  }

  lemma NothingAttributed(relay: NodeId)
    ensures Attributed(INITIAL, relay) == 0
  {
  }

  /** Every selection of a relay has been recorded as a failure of it, or is pending. */
  lemma {:induction false} SelectionsAreFailures(steps: seq<Step>, most: nat, relay: NodeId)
    requires Possible(steps, most)
    ensures Selections(steps, {relay}) == Attributed(Run(steps), relay)
  {
    if steps == [] {
      NothingAttributed(relay);
    } else {
      SelectionsAreFailures(steps[..|steps| - 1], most, relay);
      StepAttributes(Run(steps[..|steps| - 1]), steps[|steps| - 1], relay);
      hide Attributed, SelectsFrom, Enabled, After;
    }
  }

  lemma PendingOfOne(pending: multiset<NodeId>, relay: NodeId)
    ensures pending[relay] <= |pending|
  {
    assert pending == pending[relay := 0] + multiset{}[relay := pending[relay]];
  }

  /** With at most `most` overlapping opens, one relay is selected at most `most + 2` times. */
  lemma {:induction false} OneRelayBounded(steps: seq<Step>, most: nat, relay: NodeId)
    requires Possible(steps, most)
    ensures Selections(steps, {relay}) <= most + 2
  {
    if steps != [] {
      var before, step := steps[..|steps| - 1], steps[|steps| - 1];
      OneRelayBounded(before, most, relay);
      if SelectsFrom(step, {relay}) {
        SelectionsAreFailures(before, most, relay);
        PendingOfOne(Run(steps).pending, relay);
        assert Run(steps) == After(Run(before), step);
      }
    }
  }

  lemma {:induction false} SelectionsSplit(steps: seq<Step>, relays: set<NodeId>, relay: NodeId)
    requires relay in relays
    ensures Selections(steps, relays) == Selections(steps, {relay}) + Selections(steps, relays - {relay})
  {
    if steps != [] {
      SelectionsSplit(steps[..|steps| - 1], relays, relay);
    }
  }

  lemma {:induction false} SelectionsOfNone(steps: seq<Step>)
    ensures Selections(steps, {}) == 0
  {
    if steps != [] {
      SelectionsOfNone(steps[..|steps| - 1]);
    }
  }

  /** k relays are selected at most k * (most + 2) times in all, so at most 3k times when opens do not overlap. */
  lemma {:induction false} RelaySelectionsBounded(steps: seq<Step>, most: nat, relays: set<NodeId>)
    requires Possible(steps, most)
    ensures Selections(steps, relays) <= |relays| * (most + 2)
    ensures most == 1 ==> Selections(steps, relays) <= 3 * |relays|
    decreases |relays|
  {
    hide Possible, Selections;
    if relays == {} {
      SelectionsOfNone(steps);
    } else {
      var relay :| relay in relays;
      SelectionsSplit(steps, relays, relay);
      OneRelayBounded(steps, most, relay);
      RelaySelectionsBounded(steps, most, relays - {relay});
      assert |relays - {relay}| == |relays| - 1;
      assert (|relays| - 1) * (most + 2) == |relays| * (most + 2) - (most + 2);
    }
  }

  // ----------------------------------------------------------- failed direct routes

  /** The endpoint is unhealthy and no open that could report a success of it is under way. */
  predicate GivenUp(s: State, target: NodeId) {
    !EndpointUsable(s.history, DirectAgent(target)) && target !in s.direct
  }

  predicate SelectsDirect(step: Step, target: NodeId) {
    step.Select? && step.result == Ok(Direct(target))
  }

  lemma StepKeepsGivenUp(s: State, step: Step, target: NodeId)
    requires GivenUp(s, target) && Enabled(s, step)
    ensures GivenUp(After(s, step), target) && !SelectsDirect(step, target)
  {
    hide FailuresSinceSuccess;
    match step
    case Select(_, _) =>
    case DirectAbandoned(_) =>
    case FailRelay(r) => FailuresAppend(s.history, Failure(RelayNode(r)), DirectAgent(target));
    case DirectOutcome(t, success) =>
      var e := DirectAgent(t);
      FailuresAppend(s.history, if success then Success(e) else Failure(e), DirectAgent(target));
  }

  /** A direct endpoint that is unhealthy while no open of it is under way is never selected again. */
  lemma {:induction false} GivenUpForever(steps: seq<Step>, most: nat, n: nat, target: NodeId)
    requires Possible(steps, most) && n <= |steps| && GivenUp(Run(steps[..n]), target)
    ensures GivenUp(Run(steps), target)
    ensures forall i | n <= i < |steps| :: !SelectsDirect(steps[i], target)
  {
    hide GivenUp, SelectsDirect, Enabled, After;
    if n == |steps| {
      assert steps[..n] == steps;
    } else {
      var before := steps[..|steps| - 1];
      assert before[..n] == steps[..n];
      GivenUpForever(before, most, n, target);
      StepKeepsGivenUp(Run(before), steps[|steps| - 1], target);
      assert forall i | n <= i < |before| :: before[i] == steps[i];
    }
  }

  /** When all opens are over and every relay has been tried three times, only a usable direct route is selected. */
  lemma {:induction false} ThenNoRoute(steps: seq<Step>, most: nat, request: RouteRequest, r: RouteResult)
    requires Possible(steps, most) && Run(steps).pending == multiset{}
    requires Chooses(Run(steps).history, request, r) && !DirectUsable(Run(steps).history, request)
    ensures r == NoRoute <==>
            forall i | 0 <= i < |request.relayCandidates| :: Selections(steps, {request.relayCandidates[i]}) >= 3
  {
    hide Possible, Selections, FailuresSinceSuccess, DirectUsable;
    var c, h := request.relayCandidates, Run(steps).history;
    forall i | 0 <= i < |c|
      ensures RelayUsable(h, c[i]) <==> Selections(steps, {c[i]}) < 3
    {
      SelectionsAreFailures(steps, most, c[i]);
    }
  }

  lemma {:induction false} OneMore(steps: seq<Step>, most: nat, step: Step, relay: NodeId)
    requires Possible(steps, most) && Enabled(Run(steps), step) && |After(Run(steps), step).pending| <= most
    ensures Possible(steps + [step], most) && Run(steps + [step]) == After(Run(steps), step)
    ensures Selections(steps + [step], {relay})
         == Selections(steps, {relay}) + (if SelectsFrom(step, {relay}) then 1 else 0)
    ensures AtOnce(steps + [step]) <==>
            AtOnce(steps) && (step.Select? ==> Chooses(Run(steps).history, step.request, step.result))
  {
    var all := steps + [step];
    assert all[..|steps|] == steps;
    hide Enabled, After, Chooses;
  }

  lemma {:induction false} StillSelected(h: seq<Outcome>, target: NodeId, relay: NodeId)
    requires FailuresSinceSuccess(h, RelayNode(relay)) <= 2
    ensures Chooses(h, RouteRequest(target, false, [relay]), Ok(Relay(target, relay)))
  {
    hide FailuresSinceSuccess;
    assert [relay][0] == relay;
  }

  /** Two failed opens of one relay and then `n` overlapping ones. */
  function Overlapping(target: NodeId, relay: NodeId, n: nat): seq<Step> {
    var select := Select(RouteRequest(target, false, [relay]), Ok(Relay(target, relay)));
    if n == 0 then [] + [select] + [FailRelay(relay)] + [select] + [FailRelay(relay)]
    else Overlapping(target, relay, n - 1) + [select]
  }

  lemma {:induction false} EmptyRun(most: nat, relay: NodeId)
    ensures Possible([], most) && AtOnce([]) && Run([]) == INITIAL && Selections([], {relay}) == 0
    ensures FailuresSinceSuccess([], RelayNode(relay)) == 0
  {
  }

  /** An open of a relay that failed at most twice is one more selection. */
  lemma {:induction false} OneMoreSelect(steps: seq<Step>, most: nat, target: NodeId, relay: NodeId)
    requires Possible(steps, most) && |Run(steps).pending| < most
    requires FailuresSinceSuccess(Run(steps).history, RelayNode(relay)) <= 2
    ensures var all := steps + [Select(RouteRequest(target, false, [relay]), Ok(Relay(target, relay)))];
            Possible(all, most) && Selections(all, {relay}) == Selections(steps, {relay}) + 1 &&
            (AtOnce(steps) ==> AtOnce(all)) &&
            Run(all) == Run(steps).(pending := Run(steps).pending + multiset{relay})
  {
    hide Possible, AtOnce, Run, Selections, Chooses, FailuresSinceSuccess;
    StillSelected(Run(steps).history, target, relay);
    OneMore(steps, most, Select(RouteRequest(target, false, [relay]), Ok(Relay(target, relay))), relay);
  }

  lemma {:induction false} OneMoreFailure(steps: seq<Step>, most: nat, relay: NodeId)
    requires Possible(steps, most) && relay in Run(steps).pending && |Run(steps).pending| <= most
    ensures var all := steps + [FailRelay(relay)];
            Possible(all, most) && Selections(all, {relay}) == Selections(steps, {relay}) &&
            (AtOnce(steps) ==> AtOnce(all)) &&
            FailuresSinceSuccess(Run(all).history, RelayNode(relay))
            == FailuresSinceSuccess(Run(steps).history, RelayNode(relay)) + 1 &&
            Run(all).pending == Run(steps).pending - multiset{relay}
  {
    hide Possible, AtOnce, Run, Selections, FailuresSinceSuccess;
    OneMore(steps, most, FailRelay(relay), relay);
    FailuresAppend(Run(steps).history, Failure(RelayNode(relay)), RelayNode(relay));
  }

  lemma {:induction false} OverlappingRun(target: NodeId, relay: NodeId, most: nat, n: nat)
    requires n <= most && most >= 1
    ensures var steps := Overlapping(target, relay, n);
            Possible(steps, most) && AtOnce(steps) &&
            Selections(steps, {relay}) == n + 2 && |Run(steps).pending| == n &&
            FailuresSinceSuccess(Run(steps).history, RelayNode(relay)) == 2
  {
    var select := Select(RouteRequest(target, false, [relay]), Ok(Relay(target, relay)));
    EmptyRun(most, relay);
    hide Possible, AtOnce, Selections, FailuresSinceSuccess, Run;
    if n == 0 {
      OneMoreSelect([], most, target, relay);
      OneMoreFailure([] + [select], most, relay);
      OneMoreSelect([] + [select] + [FailRelay(relay)], most, target, relay);
      OneMoreFailure([] + [select] + [FailRelay(relay)] + [select], most, relay);
    } else {
      OverlappingRun(target, relay, most, n - 1);
      OneMoreSelect(Overlapping(target, relay, n - 1), most, target, relay);
    }
  }

  /** The bound is met for every number of overlapping opens, even if each reads at once, so it cannot be lowered. */
  lemma {:induction false} BoundIsTight(target: NodeId, relay: NodeId, most: nat)
    requires most >= 1
    ensures var steps := Overlapping(target, relay, most);
            Possible(steps, most) && AtOnce(steps) && Selections(steps, {relay}) == most + 2
  {
    OverlappingRun(target, relay, most, most);
  }
}
