/**
 When an incident can be lost to its TTL (keydb/keydb.go, incident.go): recording sets a TTL of four quiet periods, and
 an active sweep closes what has been quiet for one. Time passes between any two commands, other replicas close as they
 please, a sweep can be given up and any of its calls can fail. The one assumption about timing is that the next
 complete sweep is over at most `gap` after the last one began.
 */
module IncidentTimer {
  import opened DueQuery
  import opened Incidents

  /**
   A sweep first computes its cutoff, then runs the due query, then closes the names that returned one by one;
   `complete` says that no closing call has failed.
   */
  datatype Sweep = Idle | Begun(start: int) | Sweeping(start: int, pending: seq<string>, complete: bool)

  /** `swept` is when the last complete sweep began. */
  datatype Clocked = Clocked(store: Store, now: int, swept: int, sweep: Sweep)

  datatype Step =
    | Tick(to: int)
    | Record(name: string, event: Event, reminderEvery: int)
    | Release(name: string, count: int)
    | BeginSweep
    | QueryDue(due: seq<string>)
    | CloseNext(max: int)
    | CloseFails
    | FinishSweep
    | GiveUpSweep                          // the query fails, or the process stops
    | CloseElsewhere(name: string, cutoff: int, max: int)
    | Expire(name: string)
    | Drop(number: nat)

  /** The quiet period and the rule names of the configuration, and how far apart complete sweeps may be. */
  datatype Config = Config(quiet: int, gap: int, rules: set<string>)

  ghost predicate Enabled(c: Config, s: Clocked, step: Step) {
    match step
    case Tick(to) => s.now <= to <= s.swept + c.gap
    case Record(name, e, _) => name in c.rules && e.observed <= s.now
    case Release(_, count) => count >= 1
    case BeginSweep => s.sweep.Idle?
    case QueryDue(due) => s.sweep.Begun? && IsDue(s.store.active, s.sweep.start - c.quiet, 100, due)
    case CloseNext(_) => s.sweep.Sweeping? && s.sweep.pending != []
    case CloseFails => s.sweep.Sweeping? && s.sweep.pending != []
    case FinishSweep => s.sweep.Sweeping? && s.sweep.pending == []
    case GiveUpSweep => !s.sweep.Idle?
    case CloseElsewhere(_, cutoff, _) => cutoff <= s.now - c.quiet
    case Expire(name) => name in s.store.expireAt && s.store.expireAt[name] <= s.now
    case Drop(_) => true
  }

  ghost function Next(c: Config, s: Clocked, step: Step): Clocked
    requires Enabled(c, s, step)
  {
    match step
    case Tick(to) => s.(now := to)
    case Record(name, e, r) => s.(store := Recorded(s.store, name, e, s.now, c.quiet, r))
    case Release(name, count) => s.(store := Released(s.store, name, count))
    case BeginSweep => s.(sweep := Begun(s.now))
    case QueryDue(due) => s.(sweep := Sweeping(s.sweep.start, due, true))
    case CloseNext(max) =>
      s.(store := CloseIncident(s.store, s.sweep.pending[0], s.sweep.start - c.quiet, max),
         sweep := Sweeping(s.sweep.start, s.sweep.pending[1..], s.sweep.complete))
    case CloseFails => s.(sweep := Sweeping(s.sweep.start, s.sweep.pending[1..], false))
    case FinishSweep => s.(swept := if s.sweep.complete then s.sweep.start else s.swept, sweep := Idle)
    case GiveUpSweep => s.(sweep := Idle)
    case CloseElsewhere(name, cutoff, max) => s.(store := CloseIncident(s.store, name, cutoff, max))
    case Expire(name) => s.(store := Expired(s.store, name))
    case Drop(k) => s.(store := Dropped(s.store, k))
  }

  /** When the incident was last recorded, by the store's clock. */
  ghost function RecordedAt(c: Config, s: Clocked, name: string): int
    requires name in s.store.expireAt
  {
    s.store.expireAt[name] - 4 * c.quiet
  }

  /** A sweep that begins at `start` may leave the incident alone: it was recorded since, or is not yet quiet. */
  ghost predicate Spared(c: Config, s: Clocked, name: string, start: int)
    requires name in s.store.expireAt && name in s.store.incidents
  {
    RecordedAt(c, s, name) >= start || s.store.incidents[name].lastSeen + c.quiet > start
  }

  /** What a complete sweep has dealt with so far. */
  ghost predicate SweepInv(c: Config, s: Clocked)
    requires s.store.incidents.Keys <= s.store.expireAt.Keys
  {
    match s.sweep
    case Idle => true
    case Begun(start) => s.swept <= start <= s.now
    case Sweeping(start, pending, complete) =>
      && s.swept <= start <= s.now
      && (complete ==> forall n :: n in s.store.incidents ==> n in pending || Spared(c, s, n, start))
  }

  /** Few enough names, and sweeps close enough together. */
  ghost predicate IsSafe(c: Config) { c.quiet > 0 && c.gap <= 3 * c.quiet && |c.rules| <= 100 }

  ghost predicate Inv(c: Config, s: Clocked) {
    && IsSafe(c)
    && Indexed(s.store) && s.store.active.Keys <= c.rules
    && s.swept <= s.now && (s.now <= s.swept + c.gap || s.now == s.swept)
    && (forall n :: n in s.store.incidents ==>
          && s.store.incidents[n].lastSeen <= RecordedAt(c, s, n) <= s.now
          && Spared(c, s, n, s.swept))
    && SweepInv(c, s)
  }

  /** An empty store and no sweep under way. */
  ghost predicate IsStart(c: Config, s: Clocked) {
    c.quiet > 0 && s.store == EMPTY && s.swept == s.now && s.sweep.Idle?
  }

  lemma OwnStepKeepsInv(c: Config, s: Clocked, step: Step)
    requires Inv(c, s) && Enabled(c, s, step)
    requires step.Tick? || step.BeginSweep? || step.CloseFails? || step.FinishSweep? || step.GiveUpSweep? || step.Drop?
    ensures Inv(c, Next(c, s, step))
  {
  }

  lemma RecordKeepsInv(c: Config, s: Clocked, step: Step)
    requires Inv(c, s) && Enabled(c, s, step) && step.Record?
    ensures Inv(c, Next(c, s, step))
  {
    var t := Next(c, s, step);
    assert RecordedAt(c, t, step.name) == s.now;
    forall n | n in t.store.incidents && n != step.name
      ensures n in s.store.incidents && t.store.incidents[n] == s.store.incidents[n]
      ensures t.store.expireAt[n] == s.store.expireAt[n]
    {
    }
  }

  lemma ReleaseKeepsInv(c: Config, s: Clocked, step: Step)
    requires Inv(c, s) && Enabled(c, s, step) && step.Release?
    ensures Inv(c, Next(c, s, step))
  {
    var t := Next(c, s, step);
    forall n | n in t.store.incidents
      ensures n in s.store.incidents && t.store.incidents[n].lastSeen == s.store.incidents[n].lastSeen
      ensures t.store.expireAt[n] == s.store.expireAt[n]
    {
    }
  }

  /** At most a hundred names are ever indexed, so the due query leaves none out. */
  lemma QueryKeepsInv(c: Config, s: Clocked, step: Step)
    requires Inv(c, s) && Enabled(c, s, step) && step.QueryDue?
    ensures Inv(c, Next(c, s, step))
  {
    var start := s.sweep.start;
    SubsetSize(s.store.active.Keys, c.rules);
    assert |s.store.active| == |s.store.active.Keys|;
    DueAgreesWithScan(s.store, start - c.quiet, 100, step.due);
    forall n | n in s.store.incidents ensures n in step.due || Spared(c, s, n, start) {
      assert IsDueIncident(s.store, n, start - c.quiet) ==> n in step.due;
    }
  }

  lemma CloseKeepsInv(c: Config, s: Clocked, step: Step)
    requires Inv(c, s) && Enabled(c, s, step) && (step.CloseNext? || step.CloseElsewhere?)
    ensures Inv(c, Next(c, s, step))
  {
    var t := Next(c, s, step);
    forall n | n in t.store.incidents
      ensures t.sweep.Sweeping? && t.sweep.complete ==> n in t.sweep.pending || Spared(c, t, n, t.sweep.start)
    {
      if s.sweep.Sweeping? && n in s.sweep.pending {
        assert step.CloseNext? && n == s.sweep.pending[0] ==> Spared(c, t, n, t.sweep.start);
      }
    }
  }

  /** While the invariant holds no TTL has run out, so expiry has nothing to take. */
  lemma ExpiryIsNeverEnabled(c: Config, s: Clocked, name: string)
    requires Inv(c, s)
    ensures !Enabled(c, s, Expire(name))
    ensures name in s.store.incidents ==> s.now < s.store.expireAt[name]
  {
  }

  lemma StepKeepsInv(c: Config, s: Clocked, step: Step)
    requires Inv(c, s) && Enabled(c, s, step)
    ensures Inv(c, Next(c, s, step))
  {
    match step
    case Record(_, _, _) => RecordKeepsInv(c, s, step);
    case Release(_, _) => ReleaseKeepsInv(c, s, step);
    case QueryDue(_) => QueryKeepsInv(c, s, step);
    case CloseNext(_) => CloseKeepsInv(c, s, step);
    case CloseElsewhere(_, _, _) => CloseKeepsInv(c, s, step);
    case Expire(name) => ExpiryIsNeverEnabled(c, s, name);
    case _ => OwnStepKeepsInv(c, s, step);
  }

  /** `states` is a run: it starts well, and each state follows from the one before by the step between them. */
  ghost predicate IsRun(c: Config, states: seq<Clocked>, steps: seq<Step>) {
    && |states| == |steps| + 1 && IsStart(c, states[0])
    && forall i :: 0 <= i < |steps| ==> Enabled(c, states[i], steps[i]) && Next(c, states[i], steps[i]) == states[i + 1]
  }

  lemma {:induction false} RunKeepsInv(c: Config, states: seq<Clocked>, steps: seq<Step>, k: nat)
    requires IsRun(c, states, steps) && IsSafe(c) && k < |states|
    ensures Inv(c, states[k])
  {
    if k > 0 {
      RunKeepsInv(c, states, steps, k - 1);
      StepKeepsInv(c, states[k - 1], steps[k - 1]);
    }
  }

  /**
   In every run: no incident expires, and one that disappears was closed into the outbox, no sooner than a quiet period
   after its stored last_seen and before its TTL ran out.
   */
  lemma NoIncidentIsLostToItsTtl(c: Config, states: seq<Clocked>, steps: seq<Step>, k: nat, name: string)
    requires IsRun(c, states, steps) && IsSafe(c)
    requires k < |steps| && name in states[k].store.incidents
    ensures var s, t := states[k], states[k + 1];
            && name in s.store.expireAt && s.now < s.store.expireAt[name]
            && !steps[k].Expire?
            && (name !in t.store.incidents ==>
                  && (steps[k].CloseNext? || steps[k].CloseElsewhere?)
                  && t.now >= s.store.incidents[name].lastSeen + c.quiet
                  && t.now < s.store.expireAt[name]
                  && t.store.outbox != []
                  && t.store.outbox[|t.store.outbox| - 1] == Closed(name, s.store.incidents[name]))
  {
    RunKeepsInv(c, states, steps, k);
    ExpiryIsNeverEnabled(c, states[k], name);
    if steps[k].Expire? {
      ExpiryIsNeverEnabled(c, states[k], steps[k].name);
    }
  }

  // ----- otherwise an incident can be lost

  lemma Extend(c: Config, states: seq<Clocked>, steps: seq<Step>, step: Step)
    returns (states': seq<Clocked>, steps': seq<Step>)
    requires IsRun(c, states, steps) && Enabled(c, states[|steps|], step)
    ensures IsRun(c, states', steps') && states'[|steps'|] == Next(c, states[|steps|], step)
  {
    states', steps' := states + [Next(c, states[|steps|], step)], steps + [step];
  }

  ghost predicate EndsInExpiry(c: Config, states: seq<Clocked>, steps: seq<Step>, name: string) {
    IsRun(c, states, steps) && Enabled(c, states[|steps|], Expire(name))
  }

  const ONCE := Event("", "", "", "", 1)

  /**
   One tick more than three quiet periods between sweeps is enough: the incident is not yet quiet in the first one.
   */
  lemma OneTickMoreCanLoseAnIncident(c: Config, name: string) returns (states: seq<Clocked>, steps: seq<Step>)
    requires c.quiet > 0 && c.gap > 3 * c.quiet && name in c.rules
    ensures EndsInExpiry(c, states, steps, name)
  {
    states, steps := [Clocked(EMPTY, 0, 0, Idle)], [];
    states, steps := Extend(c, states, steps, Tick(1));
    states, steps := Extend(c, states, steps, Record(name, ONCE, 25));
    states, steps := Extend(c, states, steps, Tick(c.quiet));
    assert states[|steps|].store.active == map[name := 1];
    states, steps := Extend(c, states, steps, BeginSweep);
    states, steps := Extend(c, states, steps, QueryDue([]));
    states, steps := Extend(c, states, steps, FinishSweep);
    states, steps := Extend(c, states, steps, Tick(1 + 4 * c.quiet));
  }

  /** `hidden` was recorded at instant 1 and not since, and all the other names are to be ahead of it in the index. */
  ghost predicate Starving(c: Config, s: Clocked, hidden: string) {
    && hidden in s.store.expireAt && s.store.expireAt[hidden] == 1 + 4 * c.quiet
    && hidden in s.store.active && s.store.active[hidden] == 1
    && s.now >= 1
  }

  /** An event that arrived long ago and is recorded only now. */
  ghost function Late(c: Config): Event { Event("", "", "", "", -c.quiet) }

  /** The names recorded late are due whenever a sweep looks, and ahead of the hidden one. */
  ghost predicate Crowded(c: Config, s: Clocked, others: set<string>) {
    forall n :: n in others ==> n in s.store.active && s.store.active[n] == -c.quiet
  }

  lemma Crowd(c: Config, states: seq<Clocked>, steps: seq<Step>, hidden: string)
    returns (states': seq<Clocked>, steps': seq<Step>)
    requires c.quiet > 0 && IsRun(c, states, steps)
    requires Starving(c, states[|steps|], hidden) && states[|steps|].sweep.Idle?
    ensures IsRun(c, states', steps') && Starving(c, states'[|steps'|], hidden)
    ensures Crowded(c, states'[|steps'|], c.rules - {hidden})
    ensures var s, t := states[|steps|], states'[|steps'|]; t.now == s.now && t.swept == s.swept && t.sweep.Idle?
  {
    states', steps' := states, steps;
    var rest := c.rules - {hidden};
    while rest != {}
      invariant rest <= c.rules - {hidden}
      invariant IsRun(c, states', steps') && Starving(c, states'[|steps'|], hidden)
      invariant Crowded(c, states'[|steps'|], c.rules - {hidden} - rest)
      invariant states'[|steps'|].now == states[|steps|].now && states'[|steps'|].swept == states[|steps|].swept
      invariant states'[|steps'|].sweep.Idle?
      decreases |rest|
    {
      var name :| name in rest;
      states', steps' := Extend(c, states', steps', Record(name, Late(c), 25));
      rest := rest - {name};
    }
  }

  /** With a hundred names ahead of it, the hidden one is not among those the query returns. */
  lemma HiddenFromQuery(c: Config, s: Clocked, hidden: string, cutoff: int, due: seq<string>)
    requires c.quiet > 0 && Starving(c, s, hidden) && Crowded(c, s, c.rules - {hidden})
    requires |c.rules| > 100 && hidden in c.rules && IsDue(s.store.active, cutoff, 100, due)
    ensures hidden !in due
  {
    if hidden in due {
      ReturnedExactlyWhenItFits(s.store.active, cutoff, 100, due, hidden);
      SubsetSize(c.rules, UpTo(s.store.active, hidden));
    }
  }

  /** A whole sweep at one instant leaves the hidden incident as it was. */
  lemma SweepPast(c: Config, states: seq<Clocked>, steps: seq<Step>, hidden: string)
    returns (states': seq<Clocked>, steps': seq<Step>)
    requires c.quiet > 0 && |c.rules| > 100 && hidden in c.rules
    requires IsRun(c, states, steps) && Starving(c, states[|steps|], hidden) && states[|steps|].sweep.Idle?
    requires Crowded(c, states[|steps|], c.rules - {hidden})
    ensures IsRun(c, states', steps') && Starving(c, states'[|steps'|], hidden) && states'[|steps'|].sweep.Idle?
    ensures states'[|steps'|].now == states'[|steps'|].swept == states[|steps|].now
  {
    var s := states[|steps|];
    var cutoff := s.now - c.quiet;
    var dueNames := set n | n in s.store.active && s.store.active[n] <= cutoff;
    var due := SomeAnswer(s.store.active, dueNames, 100);
    assert IsDue(s.store.active, cutoff, 100, due);
    HiddenFromQuery(c, s, hidden, cutoff, due);
    states', steps' := Extend(c, states, steps, BeginSweep);
    states', steps' := Extend(c, states', steps', QueryDue(due));
    while states'[|steps'|].sweep.pending != []
      invariant IsRun(c, states', steps') && Starving(c, states'[|steps'|], hidden)
      invariant states'[|steps'|].sweep.Sweeping? && states'[|steps'|].sweep.complete
      invariant states'[|steps'|].sweep.start == states'[|steps'|].now == s.now
      invariant hidden !in states'[|steps'|].sweep.pending
      decreases |states'[|steps'|].sweep.pending|
    {
      states', steps' := Extend(c, states', steps', CloseNext(1000));
    }
    states', steps' := Extend(c, states', steps', FinishSweep);
  }

  /** However often sweeps come, more than a hundred names can keep one incident out of their sight until it expires. */
  lemma HiddenIncidentExpires(c: Config, hidden: string) returns (states: seq<Clocked>, steps: seq<Step>)
    requires c.quiet > 0 && c.gap > 0 && |c.rules| > 100 && hidden in c.rules
    ensures EndsInExpiry(c, states, steps, hidden)
  {
    states, steps := [Clocked(EMPTY, 1, 1, Idle)], [];
    states, steps := Extend(c, states, steps, Record(hidden, ONCE, 25));
    while states[|steps|].now < 1 + 4 * c.quiet
      invariant IsRun(c, states, steps) && Starving(c, states[|steps|], hidden) && states[|steps|].sweep.Idle?
      invariant states[|steps|].now == states[|steps|].swept
      decreases 1 + 4 * c.quiet - states[|steps|].now
    {
      states, steps := Extend(c, states, steps, Tick(states[|steps|].now + 1));
      states, steps := Crowd(c, states, steps, hidden);
      states, steps := SweepPast(c, states, steps, hidden);
    }
  }

  lemma {:induction false} NoRulesNoIncidents(c: Config, states: seq<Clocked>, steps: seq<Step>, k: nat)
    requires IsRun(c, states, steps) && c.rules == {} && k < |states|
    ensures states[k].store.incidents == map[] && states[k].store.expireAt == map[]
  {
    if k == 0 {
    } else {
      NoRulesNoIncidents(c, states, steps, k - 1);
      assert Next(c, states[k - 1], steps[k - 1]) == states[k];
    }
  }

  lemma NothingExpires(c: Config, states: seq<Clocked>, steps: seq<Step>, name: string)
    requires IsRun(c, states, steps) && (c.rules == {} || IsSafe(c))
    ensures !Enabled(c, states[|steps|], Expire(name))
  {
    if c.rules == {} {
      NoRulesNoIncidents(c, states, steps, |steps|);
    } else {
      RunKeepsInv(c, states, steps, |steps|);
      ExpiryIsNeverEnabled(c, states[|steps|], name);
    }
  }

  /**
   A configuration can lose an incident to its TTL if and only if it has a rule, and either sweeps may be more than
   three quiet periods apart or there are more than a hundred rules, however often it sweeps.
   */
  lemma IncidentsExpireExactlyWhenSweepsFallShort(c: Config)
    requires c.quiet > 0 && c.gap > 0
    ensures (exists states, steps, name :: EndsInExpiry(c, states, steps, name))
            <==> c.rules != {} && (c.gap > 3 * c.quiet || |c.rules| > 100)
  {
    if c.rules != {} && (c.gap > 3 * c.quiet || |c.rules| > 100) {
      var name :| name in c.rules;
      if c.gap > 3 * c.quiet {
        var states, steps := OneTickMoreCanLoseAnIncident(c, name);
        assert EndsInExpiry(c, states, steps, name);
      } else {
        var states, steps := HiddenIncidentExpires(c, name);
        assert EndsInExpiry(c, states, steps, name);
      }
    } else {
      forall states, steps, name ensures !EndsInExpiry(c, states, steps, name) {
        if IsRun(c, states, steps) {
          NothingExpires(c, states, steps, name);
        }
      }
    }
  }
}
