/**
 The delivery path of one log line (main.go): for every monitor that matches, the incident aggregator or the deduper
 decides, a notification is sent, and a failed send is undone. Matching, exclusion, the decision service and the outcome
 of every call to the store or the notifier are inputs.
 */
module CheckLine {
  import opened Incidents
  import opened KeydbStore
  import opened Picking
  import D = Dedup

  /** What one monitor makes of the line, and how the calls on its behalf end. */
  datatype Candidate = Candidate(
    matched: bool, excluded: bool, allowed: bool, ttlSeconds: int, observed: int,
    recordFails: bool, reservesInStore: bool, forgetsInStore: bool, sendOk: bool, at: int)

  /** The incident rule the line matches, and what the line says about its event. */
  datatype Rule = NoRule | Rule(name: string, event: Event)

  /** Every record of the event carries its own time, which the caller took before it called the store. */
  function EventAt(rule: Rule, c: Candidate): Event
    requires rule.Rule?
  {
    rule.event.(observed := c.observed)
  }

  datatype Outcome =
    | Ignored                      // not matched, excluded, or denied by the decision service
    | Aggregated(count: nat)       // counted in an incident, no notification due
    | IncidentSent(count: nat)
    | IncidentFailed(count: nat)
    | Suppressed
    | Sent
    | SendFailed

  datatype Settings = Settings(dedup: bool, defaultTtl: int, quiet: int, reminderEvery: int)

  /** The incidents, the reservations in the store, and the cooldowns of this process. */
  datatype State = State(store: Store, shared: D.Cooldowns, local: D.Cooldowns)

  predicate Passes(c: Candidate) { c.matched && !c.excluded && c.allowed }

  predicate Aggregates(c: Candidate, rule: Rule) { rule.Rule? && !c.recordFails }

  /** The incident as it is after the event has been recorded. */
  function AfterEvent(s: State, c: Candidate, rule: Rule, k: Settings): Incident
    requires rule.Rule?
  {
    Absorb(Current(s.store, rule.name, EventAt(rule, c)), EventAt(rule, c), EffectiveReminder(k.reminderEvery))
  }

  function WithEvent(s: State, c: Candidate, rule: Rule, k: Settings): Store
    requires rule.Rule?
  {
    Recorded(s.store, rule.name, EventAt(rule, c), c.at, k.quiet, k.reminderEvery)
  }

  function IncidentOutcome(s: State, c: Candidate, rule: Rule, k: Settings): Outcome
    requires rule.Rule?
  {
    var n := AfterEvent(s, c, rule, k).count;
    if !Notifies(Current(s.store, rule.name, EventAt(rule, c)), EffectiveReminder(k.reminderEvery)) then Aggregated(n)
    else if c.sendOk then IncidentSent(n)
    else IncidentFailed(n)
  }

  predicate Cools(s: State, c: Candidate, fingerprint: string) {
    D.Cooling(if c.reservesInStore then s.shared else s.local, fingerprint, c.at)
  }

  function OutcomeOf(s: State, c: Candidate, fingerprint: string, rule: Rule, k: Settings): Outcome {
    if !Passes(c) then Ignored
    else if Aggregates(c, rule) then IncidentOutcome(s, c, rule, k)
    else if k.dedup && Cools(s, c, fingerprint) then Suppressed
    else if c.sendOk then Sent
    else SendFailed
  }

  function Reserved(s: State, c: Candidate, fingerprint: string, k: Settings): State {
    var ttl := D.EffectiveTtl(c.ttlSeconds, k.defaultTtl);
    if !k.dedup then s
    else if c.reservesInStore then s.(shared := D.Claim(s.shared, fingerprint, ttl, c.at))
    else s.(local := D.Reserve(s.local, fingerprint, ttl, c.at))
  }

  function Forgotten(s: State, c: Candidate, fingerprint: string, k: Settings): State {
    if !k.dedup then s
    else s.(shared := if c.forgetsInStore then s.shared - {fingerprint} else s.shared, local := s.local - {fingerprint})
  }

  function StateAfter(s: State, c: Candidate, fingerprint: string, rule: Rule, k: Settings): State {
    match OutcomeOf(s, c, fingerprint, rule, k)
    case Ignored => s
    case Aggregated(_) => s.(store := WithEvent(s, c, rule, k))
    case IncidentSent(_) => s.(store := WithEvent(s, c, rule, k))
    case IncidentFailed(n) => s.(store := Released(WithEvent(s, c, rule, k), rule.name, n))
    case Suppressed => s
    case Sent => Reserved(s, c, fingerprint, k)
    case SendFailed => Forgotten(Reserved(s, c, fingerprint, k), c, fingerprint, k)
  }

  function AllAfter(s: State, candidates: seq<Candidate>, fingerprint: string, rule: Rule, k: Settings): State {
    if candidates == [] then s
    else
      StateAfter(AllAfter(s, candidates[..|candidates| - 1], fingerprint, rule, k),
                 candidates[|candidates| - 1], fingerprint, rule, k)
  }

  /** What becomes of each candidate, each seeing what the ones before it did. */
  function AllOutcomes(
    s: State, candidates: seq<Candidate>, fingerprint: string, rule: Rule, k: Settings): (r: seq<Outcome>)
    ensures |r| == |candidates|
  {
    if candidates == [] then []
    else
      var before := candidates[..|candidates| - 1];
      AllOutcomes(s, before, fingerprint, rule, k)
      + [OutcomeOf(AllAfter(s, before, fingerprint, rule, k), candidates[|candidates| - 1], fingerprint, rule, k)]
  }

  lemma OneMore(s: State, candidates: seq<Candidate>, i: nat, fingerprint: string, rule: Rule, k: Settings)
    requires i < |candidates|
    ensures var before := AllAfter(s, candidates[..i], fingerprint, rule, k);
            && AllAfter(s, candidates[..i + 1], fingerprint, rule, k)
               == StateAfter(before, candidates[i], fingerprint, rule, k)
            && AllOutcomes(s, candidates[..i + 1], fingerprint, rule, k)
               == AllOutcomes(s, candidates[..i], fingerprint, rule, k)
                  + [OutcomeOf(before, candidates[i], fingerprint, rule, k)]
  {
    assert candidates[..i + 1][..i] == candidates[..i];
  }

  lemma {:induction false} OutcomeAt(
    s: State, candidates: seq<Candidate>, i: nat, fingerprint: string, rule: Rule, k: Settings)
    requires i < |candidates|
    ensures AllOutcomes(s, candidates, fingerprint, rule, k)[i]
            == OutcomeOf(AllAfter(s, candidates[..i], fingerprint, rule, k), candidates[i], fingerprint, rule, k)
  {
    var before := candidates[..|candidates| - 1];
    if i < |before| {
      OutcomeAt(s, before, i, fingerprint, rule, k);
      assert before[..i] == candidates[..i];
    }
  }

  class AlertEngine {
    const incidents: Keydb
    const deduper: D.AlertDeduper
    const dedupEnabled: bool
    const quiet: int
    const reminderEvery: int

    constructor (incidents: Keydb, deduper: D.AlertDeduper, dedupEnabled: bool, quiet: int, reminderEvery: int)
      ensures this.incidents == incidents && this.deduper == deduper
      ensures Config() == Settings(dedupEnabled, deduper.defaultTtl, quiet, reminderEvery)
    {
      this.incidents, this.deduper := incidents, deduper;
      this.dedupEnabled, this.quiet, this.reminderEvery := dedupEnabled, quiet, reminderEvery;
    }

    ghost function Config(): Settings { Settings(dedupEnabled, deduper.defaultTtl, quiet, reminderEvery) }

    ghost function Now(): State
      reads incidents, deduper, deduper.store
    {
      State(incidents.view, deduper.store.entries, deduper.expires)
    }

    /** A recorded event: it notifies or is only counted, and a failed notification is released. */
    method HandleIncident(c: Candidate, name: string, event: Event) returns (outcome: Outcome)
      requires incidents.Valid()
      modifies incidents
      ensures incidents.Valid()
      ensures outcome == IncidentOutcome(old(Now()), c, Rule(name, event), Config())
      ensures incidents.view == var t := WithEvent(old(Now()), c, Rule(name, event), Config());
                                if outcome.IncidentFailed? then Released(t, name, outcome.count) else t
    {
      var update := incidents.RecordIncident(name, event.(observed := c.observed), c.at, quiet, reminderEvery);
      if !update.notify {
        return Aggregated(update.count);
      }
      if !c.sendOk {
        incidents.ReleaseIncidentNotification(name, update.count);
        return IncidentFailed(update.count);
      }
      return IncidentSent(update.count);
    }

    /** A plain alert: suppressed or sent, and a failed send is forgotten. */
    method HandleAlert(c: Candidate, fingerprint: string) returns (outcome: Outcome)
      modifies deduper, deduper.store
      ensures outcome == if dedupEnabled && Cools(old(Now()), c, fingerprint) then Suppressed
                         else if c.sendOk then Sent else SendFailed
      ensures var s, k := old(Now()), Config();
              State(s.store, deduper.store.entries, deduper.expires)
              == match outcome
                 case Sent => Reserved(s, c, fingerprint, k)
                 case SendFailed => Forgotten(Reserved(s, c, fingerprint, k), c, fingerprint, k)
                 case _ => s
    {
      if dedupEnabled {
        var ok := deduper.Allow(fingerprint, c.ttlSeconds, c.at, c.reservesInStore);
        if !ok {
          return Suppressed;
        }
      }
      if !c.sendOk {
        if dedupEnabled {
          deduper.Forget(fingerprint, c.forgetsInStore);
        }
        return SendFailed;
      }
      return Sent;
    }

    /** The body of the loop over the monitors. */
    method Handle(c: Candidate, fingerprint: string, rule: Rule) returns (outcome: Outcome)
      requires incidents.Valid()
      modifies incidents, deduper, deduper.store
      ensures incidents.Valid()
      ensures outcome == OutcomeOf(old(Now()), c, fingerprint, rule, Config())
      ensures Now() == StateAfter(old(Now()), c, fingerprint, rule, Config())
    {
      if !c.matched || c.excluded || !c.allowed {
        return Ignored;
      }
      if rule.Rule? && !c.recordFails {
        outcome := HandleIncident(c, rule.name, rule.event);
      } else {
        outcome := HandleAlert(c, fingerprint);
      }
    }

    method CheckLine(candidates: seq<Candidate>, fingerprint: string, rule: Rule) returns (outcomes: seq<Outcome>)
      requires incidents.Valid()
      modifies incidents, deduper, deduper.store
      ensures incidents.Valid() && Now() == AllAfter(old(Now()), candidates, fingerprint, rule, Config())
      ensures outcomes == AllOutcomes(old(Now()), candidates, fingerprint, rule, Config())
    {
      outcomes := [];
      ghost var start, k := Now(), Config();
      for i := 0 to |candidates|
        invariant incidents.Valid() && Now() == AllAfter(start, candidates[..i], fingerprint, rule, k)
        invariant outcomes == AllOutcomes(start, candidates[..i], fingerprint, rule, k)
      {
        var outcome := Handle(candidates[i], fingerprint, rule);
        OneMore(start, candidates, i, fingerprint, rule, k);
        outcomes := outcomes + [outcome];
      }
      assert candidates[..|candidates|] == candidates;
    }
  }

  // ----- what the flow promises

  /**
   A candidate is passed over if and only if it does not match, is excluded or is denied, and then nothing changes.
   */
  lemma OutsidersAreIgnored(s: State, c: Candidate, f: string, rule: Rule, k: Settings)
    ensures OutcomeOf(s, c, f, rule, k) == Ignored <==> !c.matched || c.excluded || !c.allowed
    ensures !c.matched || c.excluded || !c.allowed ==> StateAfter(s, c, f, rule, k) == s
  {
  }

  /**
   Every other candidate counts in the incident if there is a rule and the record succeeds, and touches no cooldown
   then; else it is an alert, suppressed exactly while its fingerprint cools where it looks, and touches no incident.
   */
  lemma OthersAreHandled(s: State, c: Candidate, f: string, rule: Rule, k: Settings)
    requires c.matched && !c.excluded && c.allowed
    ensures var o, t := OutcomeOf(s, c, f, rule, k), StateAfter(s, c, f, rule, k);
            var m := if c.reservesInStore then s.shared else s.local;
            if rule.Rule? && !c.recordFails then
              && (if c.sendOk then o.Aggregated? || o.IncidentSent? else o.Aggregated? || o.IncidentFailed?)
              && t.shared == s.shared && t.local == s.local
            else
              && o == (if k.dedup && f in m && c.at < m[f] then Suppressed else if c.sendOk then Sent else SendFailed)
              && t.store == s.store && (!k.dedup || o.Suppressed? ==> t == s)
  {
  }

  /** Whatever becomes of a candidate, alerts with other fingerprints are suppressed as before. */
  lemma OtherFingerprintsAreKept(s: State, c: Candidate, f: string, rule: Rule, k: Settings, g: string, now: int)
    requires g != f && now >= c.at
    ensures var t := StateAfter(s, c, f, rule, k);
            && (g in t.shared && now < t.shared[g] <==> g in s.shared && now < s.shared[g])
            && (g in t.local && now < t.local[g] <==> g in s.local && now < s.local[g])
  {
  }

  /** A line that every monitor passes over leaves everything as it was. */
  lemma {:induction false} IgnoredLineChangesNothing(
    s: State, candidates: seq<Candidate>, f: string, rule: Rule, k: Settings)
    requires forall i :: 0 <= i < |candidates| ==>
               var c := candidates[i]; !c.matched || c.excluded || !c.allowed
    ensures AllAfter(s, candidates, f, rule, k) == s
    ensures forall i :: 0 <= i < |candidates| ==> AllOutcomes(s, candidates, f, rule, k)[i] == Ignored
  {
    if candidates == [] {
    } else {
      IgnoredLineChangesNothing(s, candidates[..|candidates| - 1], f, rule, k);
      OutsidersAreIgnored(s, candidates[|candidates| - 1], f, rule, k);
    }
  }

  /** A failed incident notification is made up for by the next event of the incident, whoever reports it. */
  lemma FailedIncidentIsRetried(
    s: State, c: Candidate, f: string, rule: Rule, d: Candidate, g: string, e: Event, k: Settings)
    requires OutcomeOf(s, c, f, rule, k).IncidentFailed?
    requires Passes(d) && !d.recordFails
    ensures var n := OutcomeOf(s, c, f, rule, k).count;
            OutcomeOf(StateAfter(s, c, f, rule, k), d, g, Rule(rule.name, e), k)
            == if d.sendOk then IncidentSent(n + 1) else IncidentFailed(n + 1)
  {
  }

  /** After a failed alert the next one of its fingerprint is attempted, unless the store kept what it was to forget. */
  lemma FailedAlertIsRetried(
    s: State, c: Candidate, f: string, rule: Rule, d: Candidate, k: Settings)
    requires OutcomeOf(s, c, f, rule, k).SendFailed? && k.dedup
    requires Passes(d) && !Aggregates(d, rule)
    ensures var t := StateAfter(s, c, f, rule, k);
            OutcomeOf(t, d, f, rule, k).Suppressed? <==>
              d.reservesInStore && !c.forgetsInStore && D.Cooling(t.shared, f, d.at)
  {
  }

  /** A sent alert cools its fingerprint for exactly its TTL, where it was reserved. */
  lemma SentAlertCools(s: State, c: Candidate, f: string, rule: Rule, d: Candidate, k: Settings)
    requires k.dedup && k.defaultTtl > 0 && c.reservesInStore == d.reservesInStore
    requires OutcomeOf(s, c, f, rule, k).Sent?
    requires Passes(d) && !Aggregates(d, rule)
    ensures OutcomeOf(StateAfter(s, c, f, rule, k), d, f, rule, k).Suppressed? <==>
              d.at < c.at + if c.ttlSeconds <= 0 then k.defaultTtl else c.ttlSeconds * 1_000_000_000
  {
  }

  /** The event of the line is recorded for this candidate. */
  ghost predicate Records(c: Candidate, rule: Rule) {
    rule.Rule? && !c.recordFails && c.matched && !c.excluded && c.allowed
  }

  ghost function Recording(candidates: seq<Candidate>, rule: Rule): nat -> bool {
    (p: nat) => p < |candidates| && Records(candidates[p], rule)
  }

  function CountIn(s: State, name: string): nat {
    if name in s.store.incidents then s.store.incidents[name].count else 0
  }

  ghost predicate SameIncident(s: State, t: State, name: string) {
    && (name in t.store.incidents <==> name in s.store.incidents)
    && (name in s.store.incidents ==> t.store.incidents[name] == s.store.incidents[name])
  }

  lemma OneCandidateIsCounted(s: State, c: Candidate, f: string, rule: Rule, k: Settings, other: string)
    requires rule.Rule?
    ensures var t := StateAfter(s, c, f, rule, k);
            && CountIn(t, rule.name) == CountIn(s, rule.name) + (if Records(c, rule) then 1 else 0)
            && (other != rule.name ==> SameIncident(s, t, other))
  {
  }

  lemma {:induction false} CandidatesAreCounted(
    s: State, candidates: seq<Candidate>, f: string, rule: Rule, k: Settings, other: string)
    requires rule.Rule?
    ensures var t := AllAfter(s, candidates, f, rule, k);
            && CountIn(t, rule.name) == CountIn(s, rule.name) + |Picked(|candidates|, Recording(candidates, rule))|
            && (other != rule.name ==> SameIncident(s, t, other))
  {
    if candidates == [] {
    } else {
      var before, c := candidates[..|candidates| - 1], candidates[|candidates| - 1];
      CandidatesAreCounted(s, before, f, rule, k, other);
      PickedAlike(|before|, Recording(before, rule), Recording(candidates, rule));
      OneCandidateIsCounted(AllAfter(s, before, f, rule, k), c, f, rule, k, other);
    }
  }

  /**
   One event is counted for each candidate that matches, is neither excluded nor denied, and whose record does not fail,
   sent or not; no other incident is touched.
   */
  lemma EveryCandidateIsCounted(
    s: State, candidates: seq<Candidate>, f: string, rule: Rule, k: Settings, other: string) returns (at: seq<nat>)
    requires rule.Rule?
    ensures Picks(at, |candidates|, Recording(candidates, rule))
    ensures var t := AllAfter(s, candidates, f, rule, k);
            && CountIn(t, rule.name) == CountIn(s, rule.name) + |at|
            && (other != rule.name ==> SameIncident(s, t, other))
  {
    at := Picked(|candidates|, Recording(candidates, rule));
    PickedIsIt(|candidates|, Recording(candidates, rule));
    CandidatesAreCounted(s, candidates, f, rule, k, other);
  }

  /** The call that records the event for a candidate. */
  function CallOf(c: Candidate, e: Event, quiet: int): Call {
    Call(Event(e.title, e.sample, e.host, e.process, c.observed), c.at, quiet)
  }

  function CallsOf(candidates: seq<Candidate>, e: Event, quiet: int): (r: seq<Call>)
    ensures |r| == |candidates|
  {
    seq(|candidates|, i requires 0 <= i < |candidates| => CallOf(candidates[i], e, quiet))
  }

  lemma {:induction false} LineIsRecorded(
    s: State, candidates: seq<Candidate>, f: string, rule: Rule, k: Settings)
    requires rule.Rule? && forall i :: 0 <= i < |candidates| ==> Records(candidates[i], rule) && candidates[i].sendOk
    ensures AllAfter(s, candidates, f, rule, k)
            == s.(store := RecordedAll(s.store, rule.name, CallsOf(candidates, rule.event, k.quiet), k.reminderEvery))
  {
    if candidates == [] {
    } else {
      var before := candidates[..|candidates| - 1];
      LineIsRecorded(s, before, f, rule, k);
      assert CallsOf(candidates, rule.event, k.quiet)[..|before|] == CallsOf(before, rule.event, k.quiet);
    }
  }

  lemma EventOutcome(s: State, c: Candidate, f: string, rule: Rule, k: Settings)
    requires Records(c, rule) && c.sendOk
    requires rule.name in s.store.incidents ==>
               var i := s.store.incidents[rule.name]; i.lastNotified <= i.count
    ensures var t := StateAfter(s, c, f, rule, k);
            && rule.name in t.store.incidents
            && var i := t.store.incidents[rule.name];
               OutcomeOf(s, c, f, rule, k)
               == if i.lastNotified == i.count then IncidentSent(i.count) else Aggregated(i.count)
  {
  }

  /** The incident after the first candidates of a line that opens it, and whether the last of them notified. */
  lemma LineSoFar(s: State, candidates: seq<Candidate>, f: string, rule: Rule, k: Settings)
    requires rule.Rule? && rule.name !in s.store.incidents && candidates != []
    requires forall i :: 0 <= i < |candidates| ==> Records(candidates[i], rule) && candidates[i].sendOk
    ensures var t, r := AllAfter(s, candidates, f, rule, k), if k.reminderEvery < 1 then 25 else k.reminderEvery;
            && rule.name in t.store.incidents
            && var i := t.store.incidents[rule.name];
               && i.count == |candidates| && i.lastNotified <= i.count
               && (i.lastNotified == i.count <==> (|candidates| - 1) % r == 0)
  {
    LineIsRecorded(s, candidates, f, rule, k);
    CountersFromScratch(s.store, rule.name, CallsOf(candidates, rule.event, k.quiet), k.reminderEvery);
  }

  /**
   When the candidates of a line open an incident and all sends succeed, the first event notifies and then every r-th
   one, where r is the reminder period, or 25 without one; the others are only counted.
   */
  lemma LineNotifiesOnSchedule(
    s: State, candidates: seq<Candidate>, f: string, rule: Rule, k: Settings, n: nat)
    requires rule.Rule? && rule.name !in s.store.incidents && n < |candidates|
    requires forall i :: 0 <= i < |candidates| ==> Records(candidates[i], rule) && candidates[i].sendOk
    ensures var r := if k.reminderEvery < 1 then 25 else k.reminderEvery;
            AllOutcomes(s, candidates, f, rule, k)[n] == if n % r == 0 then IncidentSent(n + 1) else Aggregated(n + 1)
  {
    OutcomeAt(s, candidates, n, f, rule, k);
    OneMore(s, candidates, n, f, rule, k);
    LineSoFar(s, candidates[..n + 1], f, rule, k);
    if n > 0 {
      LineSoFar(s, candidates[..n], f, rule, k);
    }
    EventOutcome(AllAfter(s, candidates[..n], f, rule, k), candidates[n], f, rule, k);
  }
}
