/** Sharing one decision among concurrent identical candidates (decision.go). */
module SingleFlight {

  datatype Decision = Decision(send: bool, ttlSeconds: int, serviceFailed: bool, outcome: string, fingerprint: string)

  const NO_DECISION := Decision(false, 0, false, "", "")

  class DecisionFlight {
    var done: bool
    var decision: Decision

    constructor ()
      ensures !done && decision == NO_DECISION
    {
      done, decision := false, NO_DECISION;
    }
  }

  // ----- every interleaving of any number of calls

  datatype Outcome = Pending | Published(decision: Decision, at: nat)

  datatype Flight = Flight(key: string, leader: nat, openedAt: nat, outcome: Outcome)

  datatype Phase =
    | Evaluating(key: string, flight: nat)
    | Waiting(key: string, flight: nat, since: nat)
    | Returned(key: string, flight: nat, decision: Decision, cached: bool, since: nat)

  /** `flights` lists every flight ever opened; `clock` counts steps, so that steps can be compared in time. */
  datatype System = System(inflight: map<string, nat>, flights: seq<Flight>, calls: map<nat, Phase>, clock: nat)

  datatype Step = Enter(call: nat, key: string) | Publish(call: nat, decision: Decision) | Wake(call: nat)

  predicate InRange(s: System) {
    forall c :: c in s.calls ==> s.calls[c].flight < |s.flights|
  }

  /** One step; a step that cannot happen in `s` changes nothing. */
  function Next(s: System, step: Step): System
    requires InRange(s)
  {
    match step
    case Enter(c, key) =>
      if c in s.calls then s
      else if key in s.inflight then
        s.(calls := s.calls[c := Waiting(key, s.inflight[key], s.clock)], clock := s.clock + 1)
      else
        System(s.inflight[key := |s.flights|], s.flights + [Flight(key, c, s.clock, Pending)],
               s.calls[c := Evaluating(key, |s.flights|)], s.clock + 1)
    case Publish(c, d) =>
      if c !in s.calls || !s.calls[c].Evaluating? then s
      else
        var f := s.calls[c].flight;
        System(s.inflight - {s.calls[c].key}, s.flights[f := s.flights[f].(outcome := Published(d, s.clock))],
               s.calls[c := Returned(s.calls[c].key, f, d, false, s.flights[f].openedAt)], s.clock + 1)
    case Wake(c) =>
      if c !in s.calls || !s.calls[c].Waiting? || s.flights[s.calls[c].flight].outcome.Pending? then s
      else
        var f := s.calls[c].flight;
        s.(calls := s.calls[c := Returned(s.calls[c].key, f, s.flights[f].outcome.decision, true, s.calls[c].since)],
           clock := s.clock + 1)
  }

  ghost predicate CallInv(s: System, c: nat)
    requires InRange(s) && c in s.calls
  {
    var f := s.flights[s.calls[c].flight];
    f.key == s.calls[c].key &&
    match s.calls[c]
    case Evaluating(_, _) => f.outcome.Pending? && f.leader == c
    case Waiting(_, _, since) => f.openedAt < since < s.clock && (f.outcome.Published? ==> since < f.outcome.at)
    case Returned(_, _, d, cached, since) =>
      && f.outcome.Published? && f.outcome.decision == d && since < f.outcome.at
      && if cached then f.openedAt < since else f.leader == c && since == f.openedAt
  }

  ghost predicate FlightInv(s: System, i: nat)
    requires i < |s.flights|
  {
    var f := s.flights[i];
    && f.openedAt < s.clock
    && (f.outcome.Pending? ==>
          && f.key in s.inflight && s.inflight[f.key] == i
          && f.leader in s.calls && s.calls[f.leader] == Evaluating(f.key, i))
    && (f.outcome.Published? ==> f.openedAt < f.outcome.at < s.clock)
  }

  ghost predicate Inv(s: System) {
    && InRange(s)
    && (forall c :: c in s.calls ==> CallInv(s, c))
    && (forall i: nat :: i < |s.flights| ==> FlightInv(s, i))
    && (forall k :: k in s.inflight ==>
          s.inflight[k] < |s.flights| && s.flights[s.inflight[k]].key == k && s.flights[s.inflight[k]].outcome.Pending?)
  }

  lemma EnterKeepsInv(s: System, step: Step)
    requires Inv(s) && step.Enter?
    ensures Inv(Next(s, step))
  {
    var t := Next(s, step);
    if step.key in s.inflight {
      assert FlightInv(s, s.inflight[step.key]);
    }
    forall c | c in t.calls ensures CallInv(t, c) {
      assert c in s.calls ==> CallInv(s, c);
    }
    forall i: nat | i < |t.flights| ensures FlightInv(t, i) {
      assert i < |s.flights| ==> FlightInv(s, i);
    }
  }

  lemma PublishKeepsInv(s: System, step: Step)
    requires Inv(s) && step.Publish?
    ensures Inv(Next(s, step))
  {
    var t := Next(s, step);
    if step.call in s.calls {
      assert CallInv(s, step.call) && FlightInv(s, s.calls[step.call].flight);
    }
    forall c | c in t.calls ensures CallInv(t, c) {
      assert c in s.calls ==> CallInv(s, c);
    }
    forall i: nat | i < |t.flights| ensures FlightInv(t, i) {
      assert i < |s.flights| ==> FlightInv(s, i);
    }
  }

  lemma WakeKeepsInv(s: System, step: Step)
    requires Inv(s) && step.Wake?
    ensures Inv(Next(s, step))
  {
    var t := Next(s, step);
    if step.call in s.calls {
      assert CallInv(s, step.call) && FlightInv(s, s.calls[step.call].flight);
    }
    forall c | c in t.calls ensures CallInv(t, c) {
      assert c in s.calls ==> CallInv(s, c);
    }
    forall i: nat | i < |t.flights| ensures FlightInv(t, i) {
      assert i < |s.flights| ==> FlightInv(s, i);
    }
  }

  lemma StepKeepsInv(s: System, step: Step)
    requires Inv(s)
    ensures Inv(Next(s, step))
  {
    match step
    case Enter(_, _) => EnterKeepsInv(s, step);
    case Publish(_, _) => PublishKeepsInv(s, step);
    case Wake(_) => WakeKeepsInv(s, step);
  }

  ghost predicate Reaches(s: System, steps: seq<Step>, t: System)
    requires Inv(s)
    decreases |steps|
  {
    if steps == [] then s == t
    else StepKeepsInv(s, steps[0]); Reaches(Next(s, steps[0]), steps[1..], t)
  }

  const START := System(map[], [], map[], 0)

  lemma {:induction false} RunsKeepInv(s: System, steps: seq<Step>, t: System)
    requires Inv(s) && Reaches(s, steps, t)
    ensures Inv(t)
    decreases |steps|
  {
    if steps == [] {
    } else {
      StepKeepsInv(s, steps[0]);
      RunsKeepInv(Next(s, steps[0]), steps[1..], t);
    }
  }

  ghost predicate Evaluates(s: System, c: nat, key: string) {
    c in s.calls && s.calls[c].Evaluating? && s.calls[c].key == key
  }

  /** At most one evaluation per key is in flight, and the inflight map holds exactly the keys being evaluated. */
  lemma OneEvaluationPerKey(steps: seq<Step>, s: System, key: string)
    requires Reaches(START, steps, s)
    ensures forall c, d :: Evaluates(s, c, key) && Evaluates(s, d, key) ==> c == d
    ensures key in s.inflight <==> exists c: nat :: Evaluates(s, c, key)
  {
    RunsKeepInv(START, steps, s);
    forall c: nat | Evaluates(s, c, key)
      ensures key in s.inflight && s.flights[s.inflight[key]].leader == c
    {
      assert CallInv(s, c) && FlightInv(s, s.calls[c].flight);
    }
    if key in s.inflight {
      assert FlightInv(s, s.inflight[key]);
      assert Evaluates(s, s.flights[s.inflight[key]].leader, key);
    }
  }

  ghost predicate LeaderReturned(s: System, i: nat) {
    i < |s.flights| && s.flights[i].outcome.Published? ==>
      var f := s.flights[i];
      f.leader in s.calls && s.calls[f.leader] == Returned(f.key, i, f.outcome.decision, false, f.openedAt)
  }

  lemma {:induction false} LeadersReturn(steps: seq<Step>, s: System, t: System)
    requires Inv(s) && Reaches(s, steps, t) && forall i: nat :: LeaderReturned(s, i)
    ensures forall i: nat :: LeaderReturned(t, i)
    decreases |steps|
  {
    if steps == [] {
    } else {
      var u := Next(s, steps[0]);
      StepKeepsInv(s, steps[0]);
      forall i: nat ensures LeaderReturned(u, i) {
        assert LeaderReturned(s, i);
        assert i < |s.flights| ==> FlightInv(s, i);
      }
      LeadersReturn(steps[1..], u, t);
    }
  }

  /** A follower returns what the leader of its own key returned, whose flight was open when the follower looked. */
  lemma FollowersShareTheLeadersDecision(steps: seq<Step>, s: System, c: nat)
    requires Reaches(START, steps, s) && c in s.calls && s.calls[c].Returned?
    ensures var r := s.calls[c];
            && r.flight < |s.flights|
            && var f := s.flights[r.flight];
               && f.leader in s.calls && s.calls[f.leader] == Returned(r.key, r.flight, r.decision, false, f.openedAt)
               && f.outcome.Published? && f.outcome.decision == r.decision
               && (r.cached <==> f.leader != c)
               && (r.cached ==> f.openedAt < r.since < f.outcome.at)
  {
    LeadersReturn(steps, START, s);
    RunsKeepInv(START, steps, s);
    assert CallInv(s, c);
    assert LeaderReturned(s, s.calls[c].flight);
  }

  /** A waiting follower can wake, or its leader is still evaluating and publishing wakes it: nobody waits in vain. */
  lemma NobodyWaitsInVain(steps: seq<Step>, s: System, c: nat, d: Decision)
    requires Reaches(START, steps, s) && c in s.calls && s.calls[c].Waiting?
    ensures Inv(s)
    ensures var i := s.calls[c].flight;
            var leader := s.flights[i].leader;
            if s.flights[i].outcome.Published? then
              Next(s, Wake(c)).calls[c]
              == Returned(s.calls[c].key, i, s.flights[i].outcome.decision, true, s.calls[c].since)
            else
              && leader in s.calls && s.calls[leader] == Evaluating(s.calls[c].key, i)
              && var t := Next(s, Publish(leader, d));
                 Inv(t) && Next(t, Wake(c)).calls[c] == Returned(s.calls[c].key, i, d, true, s.calls[c].since)
  {
    RunsKeepInv(START, steps, s);
    assert FlightInv(s, s.calls[c].flight);
    StepKeepsInv(s, Publish(s.flights[s.calls[c].flight].leader, d));
  }

  // ----- the code behind the steps

  ghost predicate Shows(done: bool, decision: Decision, outcome: Outcome) {
    if done then outcome.Published? && outcome.decision == decision else outcome.Pending?
  }

  lemma EnterOpensOrJoins(s: System, c: nat, key: string)
    requires Inv(s) && c !in s.calls
    ensures var t := Next(s, Enter(c, key));
            && Inv(t) && c in t.calls && (t.calls[c].Waiting? <==> key in s.inflight)
            && t.calls[c].flight == (if key in s.inflight then s.inflight[key] else |s.flights|)
            && t.flights == (if key in s.inflight then s.flights else s.flights + [Flight(key, c, s.clock, Pending)])
            && t.inflight == (if key in s.inflight then s.inflight else s.inflight[key := |s.flights|])
  {
    StepKeepsInv(s, Enter(c, key));
  }

  /** The flight objects are distinct, and the map holds the open ones under their keys. */
  ghost predicate Mirrors(inflight: map<string, DecisionFlight>, flights: seq<DecisionFlight>, s: System) {
    && |flights| == |s.flights|
    && (forall i, j :: 0 <= i < j < |flights| ==> flights[i] != flights[j])
    && inflight.Keys == s.inflight.Keys
    && (forall k :: k in inflight ==> s.inflight[k] < |flights| && inflight[k] == flights[s.inflight[k]])
  }

  lemma OpenMirrors(
    inflight: map<string, DecisionFlight>, flights: seq<DecisionFlight>, s: System, c: nat, key: string,
    f: DecisionFlight)
    requires Inv(s) && c !in s.calls && key !in s.inflight && Mirrors(inflight, flights, s) && f !in flights
    ensures Mirrors(inflight[key := f], flights + [f], Next(s, Enter(c, key)))
  {
  }

  /** The critical sections of GetOrEvaluate, each one step of `view`; `flights` are the objects of its flights. */
  class DecisionCache {
    var inflight: map<string, DecisionFlight>
    ghost var view: System
    ghost var flights: seq<DecisionFlight>

    ghost predicate Valid()
      reads this, flights
    {
      && Inv(view) && Mirrors(inflight, flights, view)
      && (forall i :: 0 <= i < |flights| ==> Shows(flights[i].done, flights[i].decision, view.flights[i].outcome))
    }

    constructor ()
      ensures Valid() && view == START
    {
      inflight, view, flights := map[], START, [];
    }

    /** Up to the first unlock: find the flight of the key, or open one. */
    method Join(ghost call: nat, key: string) returns (flight: DecisionFlight, follows: bool)
      requires Valid() && call !in view.calls
      modifies this
      ensures Valid() && view == Next(old(view), Enter(call, key))
      ensures call in view.calls && flight == flights[view.calls[call].flight]
      ensures follows <==> view.calls[call].Waiting?
      ensures flights == if follows then old(flights) else old(flights) + [flight]
    {
      EnterOpensOrJoins(view, call, key);
      ghost var before := view;
      view := Next(view, Enter(call, key));
      if key in inflight {
        return inflight[key], true;
      }
      flight := new DecisionFlight();
      OpenMirrors(inflight, flights, before, call, key, flight);
      inflight := inflight[key := flight];
      flights := flights + [flight];
      follows := false;
    }

    /** The leader's second critical section. */
    method Publish(ghost call: nat, key: string, flight: DecisionFlight, decision: Decision)
      requires Valid() && call in view.calls && view.calls[call].Evaluating?
      requires view.calls[call].key == key && flights[view.calls[call].flight] == flight
      modifies this, flight
      ensures Valid() && view == Next(old(view), Step.Publish(call, decision)) && flights == old(flights)
    {
      StepKeepsInv(view, Step.Publish(call, decision));
      view := Next(view, Step.Publish(call, decision));
      flight.decision := decision;
      inflight := inflight - {key};
      flight.done := true;
    }

    /** A follower whose flight is done reads its decision. */
    method Await(ghost call: nat, flight: DecisionFlight) returns (decision: Decision)
      requires Valid() && call in view.calls && view.calls[call].Waiting?
      requires flights[view.calls[call].flight] == flight && flight.done
      modifies this
      ensures Valid() && view == Next(old(view), Wake(call)) && flights == old(flights)
      ensures call in view.calls && view.calls[call].Returned? && decision == view.calls[call].decision
    {
      StepKeepsInv(view, Wake(call));
      view := Next(view, Wake(call));
      return flight.decision;
    }
  }
}
