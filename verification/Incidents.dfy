/**
 What the incident scripts do to the store, on values (keydb/keydb.go). An incident is what its flat hash stands for;
 IncidentHash gives the hash itself, and KeydbStore the scripts that change it in place.
 */
module Incidents {
  import opened DueQuery

  datatype Event = Event(title: string, sample: string, host: string, process: string, observed: int)

  datatype Incident = Incident(
    count: nat, lastNotified: nat, firstSeen: int, lastSeen: int,
    title: string, sample: string, hosts: set<string>, processes: set<string>)

  /** A closed incident, as it waits in the recovery outbox. */
  datatype Closed = Closed(name: string, incident: Incident)

  /** The sorted set `active` keeps a score per name; it can outlive the incident, whose hash may expire. */
  datatype Store = Store(
    incidents: map<string, Incident>, active: map<string, int>, expireAt: map<string, int>, outbox: seq<Closed>)

  const EMPTY := Store(map[], map[], map[], [])

  // ----- one incident

  function Opened(e: Event): Incident {
    Incident(0, 0, e.observed, e.observed, "", "", {}, {})
  }

  function NonEmpty(s: string): set<string> { if s == "" then {} else {s} }

  predicate Notifies(i: Incident, reminderEvery: int) {
    i.lastNotified == 0 || i.count + 1 - i.lastNotified >= reminderEvery
  }

  function Absorb(i: Incident, e: Event, reminderEvery: int): Incident {
    var notified := if Notifies(i, reminderEvery) then i.count + 1 else i.lastNotified;
    Incident(i.count + 1, notified, i.firstSeen, e.observed, e.title, e.sample,
             i.hosts + NonEmpty(e.host), i.processes + NonEmpty(e.process))
  }

  function Release(i: Incident, count: int): Incident {
    if i.lastNotified == count then i.(lastNotified := 0) else i
  }

  // ----- the scripts and commands

  function EffectiveReminder(reminderEvery: int): int { if reminderEvery < 1 then 25 else reminderEvery }

  function Current(s: Store, name: string, e: Event): Incident {
    if name in s.incidents then s.incidents[name] else Opened(e)
  }

  function Recorded(s: Store, name: string, e: Event, now: int, quiet: int, reminderEvery: int): Store {
    s.(incidents := s.incidents[name := Absorb(Current(s, name, e), e, EffectiveReminder(reminderEvery))],
       active := s.active[name := e.observed],
       expireAt := s.expireAt[name := now + 4 * quiet])
  }

  function Released(s: Store, name: string, count: int): Store {
    if name in s.incidents then s.(incidents := s.incidents[name := Release(s.incidents[name], count)]) else s
  }

  predicate Closes(s: Store, name: string, cutoff: int) {
    name in s.incidents && s.incidents[name].lastSeen <= cutoff
  }

  function EffectiveMax(max: int): int { if max < 1 then 1000 else max }

  function LastOf<T>(s: seq<T>, max: nat): seq<T> { if |s| <= max then s else s[|s| - max..] }

  function CloseIncident(s: Store, name: string, cutoff: int, max: int): Store {
    if !Closes(s, name, cutoff) then s
    else Store(s.incidents - {name}, s.active - {name}, s.expireAt - {name},
               LastOf(s.outbox + [Closed(name, s.incidents[name])], EffectiveMax(max)))
  }

  /** The hash expires; its index entry stays. */
  function Expired(s: Store, name: string): Store {
    s.(incidents := s.incidents - {name}, expireAt := s.expireAt - {name})
  }

  function Dropped(s: Store, count: nat): Store {
    s.(outbox := if count <= |s.outbox| then s.outbox[count..] else [])
  }

  // ----- every live incident is indexed under its last_seen

  ghost predicate Indexed(s: Store) {
    && s.expireAt.Keys == s.incidents.Keys
    && forall n :: n in s.incidents ==>
         && n in s.active && s.active[n] == s.incidents[n].lastSeen
         && s.incidents[n].count >= 1 && s.incidents[n].lastNotified <= s.incidents[n].count
  }

  lemma RecordKeepsIndexed(s: Store, name: string, e: Event, now: int, quiet: int, reminderEvery: int)
    requires Indexed(s)
    ensures Indexed(Recorded(s, name, e, now, quiet, reminderEvery))
  {
  }

  lemma CloseKeepsIndexed(s: Store, name: string, cutoff: int, max: int)
    requires Indexed(s)
    ensures Indexed(CloseIncident(s, name, cutoff, max)) && Indexed(Expired(s, name))
  {
  }

  lemma ReleaseKeepsIndexed(s: Store, name: string, count: int, n: nat)
    requires Indexed(s)
    ensures Indexed(Released(s, name, count)) && Indexed(Dropped(s, n))
  {
  }

  /** A closing call that does not close leaves the store as it was, so a refreshed incident stays open. */
  lemma RefreshedIncidentStaysOpen(
    s: Store, name: string, e: Event, now: int, quiet: int, reminderEvery: int, cutoff: int, max: int)
    requires e.observed > cutoff
    ensures var t := Recorded(s, name, e, now, quiet, reminderEvery); CloseIncident(t, name, cutoff, max) == t
  {
  }

  // ----- the due query

  /** Live incidents that a full scan would find due. */
  ghost predicate IsDueIncident(s: Store, name: string, cutoff: int) {
    name in s.incidents && s.incidents[name].lastSeen <= cutoff
  }

  lemma SubsetSize(a: set<string>, b: set<string>)
    requires a <= b
    ensures |a| <= |b|
  {
    assert b == a + (b - a);
  }

  /**
   The live names the query returns are due, and a due live incident is returned exactly when its rank fits the limit.
   */
  lemma DueAgreesWithScan(s: Store, cutoff: int, max: nat, names: seq<string>)
    requires Indexed(s) && IsDue(s.active, cutoff, max, names)
    ensures forall n :: n in names && n in s.incidents ==> IsDueIncident(s, n, cutoff)
    ensures forall n :: IsDueIncident(s, n, cutoff) ==> (n in names <==> |UpTo(s.active, n)| <= max)
    ensures |s.active| <= max ==> forall n :: IsDueIncident(s, n, cutoff) ==> n in names
  {
    forall n | IsDueIncident(s, n, cutoff)
      ensures n in names <==> |UpTo(s.active, n)| <= max
      ensures |UpTo(s.active, n)| <= |s.active|
    {
      ReturnedExactlyWhenItFits(s.active, cutoff, max, names, n);
      SubsetSize(UpTo(s.active, n), s.active.Keys);
      assert |s.active| == |s.active.Keys|;
    }
  }

  /**
   Closing never removes a stale name, so `max` of them ahead of a live incident hide it for as long as it is live.
   */
  lemma StaleNamesHideLiveIncidents(
    s: Store, cutoff: int, max: nat, names: seq<string>, live: string, stale: set<string>, k: int)
    requires IsDue(s.active, cutoff, max, names) && live in s.active && |stale| >= max
    requires forall n :: n in stale ==> n !in s.incidents && Ahead(s.active, n, live)
    ensures live !in names
    ensures forall n :: n in stale ==> CloseIncident(s, n, cutoff, k) == s
  {
    if live in names {
      ReturnedExactlyWhenItFits(s.active, cutoff, max, names, live);
      AheadIsStrict(s.active, live, live);
      SubsetSize(stale + {live}, UpTo(s.active, live));
    }
  }

  /** This is how a name becomes stale: expiry takes the hash alone, and no closing call has anything to close. */
  lemma ExpiredNamesStayIndexed(s: Store, name: string, cutoff: int, max: int)
    requires name in s.active
    ensures var t := Expired(s, name);
            && t.active == s.active && t.outbox == s.outbox
            && t.incidents == s.incidents - {name} && t.expireAt == s.expireAt - {name}
            && CloseIncident(t, name, cutoff, max) == t
  {
  }

  // ----- one incarnation: from the event that opens an incident on

  datatype Op = Rec(event: Event) | Rel(count: int)

  function Events(ops: seq<Op>): seq<Event> {
    if ops == [] then []
    else Events(ops[..|ops| - 1]) + if ops[|ops| - 1].Rec? then [ops[|ops| - 1].event] else []
  }

  /** The incident after `ops`. */
  function After(i: Incident, ops: seq<Op>, reminderEvery: int): Incident {
    if ops == [] then i
    else
      var before := After(i, ops[..|ops| - 1], reminderEvery);
      match ops[|ops| - 1]
      case Rec(e) => Absorb(before, e, reminderEvery)
      case Rel(c) => Release(before, c)
  }

  /** The incident after the event that opens it and then `ops`. */
  function Incarnation(first: Event, ops: seq<Op>, reminderEvery: int): Incident {
    After(Absorb(Opened(first), first, reminderEvery), ops, reminderEvery)
  }

  /** The incident remembers these events: how many, the first arrival, the latest text, all hosts and processes. */
  ghost predicate Remembers(i: Incident, events: seq<Event>)
    requires events != []
  {
    var latest := events[|events| - 1];
    && i.count == |events| && i.firstSeen == events[0].observed
    && i.lastSeen == latest.observed && i.title == latest.title && i.sample == latest.sample
    && i.hosts == (set k | 0 <= k < |events| && events[k].host != "" :: events[k].host)
    && i.processes == (set k | 0 <= k < |events| && events[k].process != "" :: events[k].process)
  }

  lemma OneMoreEvent(i: Incident, events: seq<Event>, e: Event, reminderEvery: int)
    requires events != [] && Remembers(i, events)
    ensures Remembers(Absorb(i, e, reminderEvery), events + [e])
  {
    var more, j := events + [e], Absorb(i, e, reminderEvery);
    assert more[|events|] == e && forall k :: 0 <= k < |events| ==> more[k] == events[k];
    assert j.hosts == set k | 0 <= k < |more| && more[k].host != "" :: more[k].host;
    assert j.processes == set k | 0 <= k < |more| && more[k].process != "" :: more[k].process;
  }

  /** An incident remembers exactly its events. */
  lemma {:induction false} IncarnationSummarisesItsEvents(first: Event, ops: seq<Op>, reminderEvery: int)
    ensures Remembers(Incarnation(first, ops, reminderEvery), [first] + Events(ops))
  {
    if ops == [] {
      assert [first] + Events(ops) == [first];
    } else {
      var before := ops[..|ops| - 1];
      IncarnationSummarisesItsEvents(first, before, reminderEvery);
      if ops[|ops| - 1].Rec? {
        var e := ops[|ops| - 1].event;
        OneMoreEvent(Incarnation(first, before, reminderEvery), [first] + Events(before), e, reminderEvery);
        assert [first] + Events(ops) == [first] + Events(before) + [e];
      } else {
        assert Events(ops) == Events(before);
      }
    }
  }

  // ----- reminders

  /** How many of the events in `ops` notify. */
  function Notifications(i: Incident, ops: seq<Op>, reminderEvery: int): nat {
    if ops == [] then 0
    else
      var before := ops[..|ops| - 1];
      Notifications(i, before, reminderEvery)
      + if ops[|ops| - 1].Rec? && Notifies(After(i, before, reminderEvery), reminderEvery) then 1 else 0
  }

  /** How many of the events of an incarnation have notified; the one that opens it always does. */
  function Notified(first: Event, ops: seq<Op>, reminderEvery: int): nat {
    1 + Notifications(Absorb(Opened(first), first, reminderEvery), ops, reminderEvery)
  }

  lemma Scale(a: int, b: int, r: int)
    requires a <= b && r >= 0
    ensures a * r <= b * r
  {
  }

  lemma ReminderStep(i: Incident, e: Event, r: int, q: int)
    requires r >= 1 && i.count >= 1 && q >= 0
    requires i.lastNotified == 1 + q * r && 0 <= i.count - 1 - q * r < r
    ensures var j, p := Absorb(i, e, r), if Notifies(i, r) then q + 1 else q;
            j.count == i.count + 1 && j.lastNotified == 1 + p * r && 0 <= j.count - 1 - p * r < r
  {
    assert (q + 1) * r == q * r + r;
    assert q * r >= 0 by { Scale(0, q, r); }
  }

  lemma {:induction false} RemindersByQuotient(first: Event, ops: seq<Op>, r: int)
    requires r >= 1 && forall k :: 0 <= k < |ops| ==> ops[k].Rec?
    ensures var i, q := Incarnation(first, ops, r), Notified(first, ops, r) - 1;
            i.count == 1 + |ops| && i.lastNotified == 1 + q * r && q >= 0 && 0 <= |ops| - q * r < r
  {
    if ops == [] {
    } else {
      var before := ops[..|ops| - 1];
      RemindersByQuotient(first, before, r);
      ReminderStep(Incarnation(first, before, r), ops[|ops| - 1].event, r, Notified(first, before, r) - 1);
    }
  }

  lemma QuotientUnique(n: nat, r: int, q: int)
    requires r >= 1 && 0 <= n - q * r < r
    ensures n / r == q
  {
    var p := n / r;
    assert n == p * r + n % r;
    assert (p - q) * r == p * r - q * r;
    if p - q >= 1 {
      Scale(1, p - q, r);
    } else if p - q <= -1 {
      Scale(p - q, -1, r);
    }
  }

  /** Without releases the n-th event has notified 1 + (n-1)/r times, the last time at count 1 + ((n-1)/r) * r. */
  lemma RemindersAreRegular(first: Event, ops: seq<Op>, r: int)
    requires r >= 1 && forall k :: 0 <= k < |ops| ==> ops[k].Rec?
    ensures var n := 1 + |ops|;
            var i := Incarnation(first, ops, r);
            && i.count == n
            && Notified(first, ops, r) == 1 + (n - 1) / r
            && i.lastNotified == 1 + (n - 1) / r * r
  {
    RemindersByQuotient(first, ops, r);
    QuotientUnique(|ops|, r, Notified(first, ops, r) - 1);
  }

  // ----- events recorded one after the other

  /** One call that records an event, when it comes and the quiet period it is given. */
  datatype Call = Call(event: Event, now: int, quiet: int)

  lemma SameButFor<T>(m: map<string, T>, k: map<string, T>, name: string, v: T)
    requires m - {name} == k - {name}
    ensures m[name := v] == k[name := v]
  {
    assert m[name := v] == (m - {name})[name := v] && k[name := v] == (k - {name})[name := v];
  }

  function RecordedAll(s: Store, name: string, calls: seq<Call>, reminderEvery: int): Store {
    if calls == [] then s
    else
      var c := calls[|calls| - 1];
      Recorded(RecordedAll(s, name, calls[..|calls| - 1], reminderEvery), name, c.event, c.now, c.quiet, reminderEvery)
  }

  /** What follows the first call. */
  function Later(calls: seq<Call>): seq<Op>
    requires calls != []
  {
    seq(|calls| - 1, k requires 0 <= k < |calls| - 1 => Rec(calls[k + 1].event))
  }

  lemma {:induction false} EventsOfCalls(calls: seq<Call>)
    requires calls != []
    ensures var events := [calls[0].event] + Events(Later(calls));
            |events| == |calls| && forall k :: 0 <= k < |calls| ==> events[k] == calls[k].event
  {
    if |calls| == 1 {
    } else {
      var before := calls[..|calls| - 1];
      EventsOfCalls(before);
      assert Later(calls)[..|calls| - 2] == Later(before);
      assert Events(Later(calls)) == Events(Later(before)) + [calls[|calls| - 1].event];
    }
  }

  lemma LaterGrows(calls: seq<Call>, r: int)
    requires |calls| >= 2
    ensures var e := calls[|calls| - 1].event;
            Incarnation(calls[0].event, Later(calls), r)
            == Absorb(Incarnation(calls[0].event, Later(calls[..|calls| - 1]), r), e, r)
  {
    assert Later(calls)[..|calls| - 2] == Later(calls[..|calls| - 1]);
  }

  /** The store after the calls, when only the incident, the index entry and the TTL of their name have changed. */
  ghost predicate IsAfterCalls(s: Store, t: Store, name: string, i: Incident, last: Call) {
    && t.incidents == s.incidents[name := i]
    && t.active == s.active[name := last.event.observed]
    && t.expireAt == s.expireAt[name := last.now + 4 * last.quiet]
    && t.outbox == s.outbox
  }

  lemma OneCallMore(s: Store, t: Store, name: string, c: Call, reminderEvery: int)
    requires t.incidents - {name} == s.incidents - {name} && t.outbox == s.outbox
    requires t.active - {name} == s.active - {name} && t.expireAt - {name} == s.expireAt - {name}
    ensures var i := Absorb(Current(t, name, c.event), c.event, EffectiveReminder(reminderEvery));
            IsAfterCalls(s, Recorded(t, name, c.event, c.now, c.quiet, reminderEvery), name, i, c)
  {
    SameButFor(s.incidents, t.incidents, name,
               Absorb(Current(t, name, c.event), c.event, EffectiveReminder(reminderEvery)));
    SameButFor(s.active, t.active, name, c.event.observed);
    SameButFor(s.expireAt, t.expireAt, name, c.now + 4 * c.quiet);
  }

  lemma Without(s: Store, t: Store, name: string, i: Incident, last: Call)
    requires IsAfterCalls(s, t, name, i, last)
    ensures t.incidents - {name} == s.incidents - {name}
    ensures t.active - {name} == s.active - {name} && t.expireAt - {name} == s.expireAt - {name}
    ensures forall e :: Current(t, name, e) == i
  {
  }

  lemma {:induction false} CallsAreAnIncarnation(s: Store, name: string, calls: seq<Call>, reminderEvery: int)
    requires name !in s.incidents && calls != []
    ensures var i := Incarnation(calls[0].event, Later(calls), EffectiveReminder(reminderEvery));
            IsAfterCalls(s, RecordedAll(s, name, calls, reminderEvery), name, i, calls[|calls| - 1])
  {
    var before, c := calls[..|calls| - 1], calls[|calls| - 1];
    var t, r := RecordedAll(s, name, before, reminderEvery), EffectiveReminder(reminderEvery);
    if before == [] {
      assert Later(calls) == [] && t == s;
    } else {
      CallsAreAnIncarnation(s, name, before, reminderEvery);
      Without(s, t, name, Incarnation(calls[0].event, Later(before), r), before[|before| - 1]);
      LaterGrows(calls, r);
    }
    OneCallMore(s, t, name, c, reminderEvery);
  }

  lemma LastOfRound(n: nat, r: int)
    requires n >= 1 && r >= 1
    ensures 1 + (n - 1) / r * r <= n && (1 + (n - 1) / r * r == n <==> (n - 1) % r == 0)
  {
    assert n - 1 == (n - 1) / r * r + (n - 1) % r;
  }

  /** The incident holds what the calls brought. */
  ghost predicate Tells(i: Incident, calls: seq<Call>)
    requires calls != []
  {
    var last := calls[|calls| - 1].event;
    && i.count == |calls| && i.firstSeen == calls[0].event.observed && i.lastSeen == last.observed
    && i.title == last.title && i.sample == last.sample
    && i.hosts == (set c | c in calls && c.event.host != "" :: c.event.host)
    && i.processes == (set c | c in calls && c.event.process != "" :: c.event.process)
  }

  lemma SummaryOfCalls(calls: seq<Call>, r: int)
    requires calls != []
    ensures Tells(Incarnation(calls[0].event, Later(calls), r), calls)
  {
    var events := [calls[0].event] + Events(Later(calls));
    EventsOfCalls(calls);
    IncarnationSummarisesItsEvents(calls[0].event, Later(calls), r);
    forall c | c in calls ensures c.event in events {
      var k :| 0 <= k < |calls| && calls[k] == c;
      assert events[k] == c.event;
    }
    forall e | e in events ensures exists c :: c in calls && c.event == e {
      var k :| 0 <= k < |events| && events[k] == e;
      assert calls[k] in calls;
    }
  }

  /**
   The n-th event recorded under a name that had no incident: what the incident, the index and the TTL hold after it,
   and that it notifies if and only if n - 1 is a multiple of the reminder period, which is 25 unless a positive one is
   given. A call notifies by setting the last notified count to the count.
   */
  lemma RecordedFromScratch(s: Store, name: string, calls: seq<Call>, reminderEvery: int)
    requires name !in s.incidents && calls != []
    ensures var t, n, last := RecordedAll(s, name, calls, reminderEvery), |calls|, calls[|calls| - 1];
            var r := if reminderEvery < 1 then 25 else reminderEvery;
            && t == Store(t.incidents, s.active[name := last.event.observed],
                          s.expireAt[name := last.now + 4 * last.quiet], s.outbox)
            && name in t.incidents && t.incidents - {name} == s.incidents
            && var i := t.incidents[name];
               && Tells(i, calls)
               && i.lastNotified == 1 + (n - 1) / r * r && (i.lastNotified == i.count <==> (n - 1) % r == 0)
  {
    var r := if reminderEvery < 1 then 25 else reminderEvery;
    CallsAreAnIncarnation(s, name, calls, reminderEvery);
    SummaryOfCalls(calls, r);
    RemindersAreRegular(calls[0].event, Later(calls), r);
    LastOfRound(|calls|, r);
  }

  /** Its counters alone. */
  lemma CountersFromScratch(s: Store, name: string, calls: seq<Call>, reminderEvery: int)
    requires name !in s.incidents && calls != []
    ensures var t, r := RecordedAll(s, name, calls, reminderEvery), if reminderEvery < 1 then 25 else reminderEvery;
            && name in t.incidents
            && var i := t.incidents[name];
               && i.count == |calls| && i.lastNotified <= i.count
               && (i.lastNotified == i.count <==> (|calls| - 1) % r == 0)
  {
    RecordedFromScratch(s, name, calls, reminderEvery);
    LastOfRound(|calls|, if reminderEvery < 1 then 25 else reminderEvery);
  }

  /**
   Whatever is released in between: a reminder is never r events late, and a matching release makes the next event
   notify.
   */
  lemma {:induction false} RemindersSurviveReleases(first: Event, ops: seq<Op>, r: int, e: Event)
    requires r >= 1
    ensures var i := Incarnation(first, ops, r);
            && 0 <= i.lastNotified <= i.count
            && (ops == [] || ops[|ops| - 1].Rec? ==> 1 <= i.lastNotified && i.count - i.lastNotified < r)
            && Notifies(Release(i, i.lastNotified), r)
            && Absorb(Release(i, i.lastNotified), e, r).lastNotified == i.count + 1
  {
    if ops == [] {
    } else {
      RemindersSurviveReleases(first, ops[..|ops| - 1], r, e);
    }
  }

  /** What other workers and replicas do to the incident of a name; `Shut` closes it, or lets it expire. */
  datatype Turn = Of(op: Op) | Shut

  datatype Life = Gone | Alive(incident: Incident)

  function ReleaseLife(l: Life, count: int): Life {
    if l.Gone? then l else Alive(Release(l.incident, count))
  }

  function AfterTurns(l: Life, turns: seq<Turn>, r: int): Life {
    if turns == [] then l
    else
      var before := AfterTurns(l, turns[..|turns| - 1], r);
      match turns[|turns| - 1]
      case Shut => Gone
      case Of(Rec(e)) => Alive(Absorb(if before.Gone? then Opened(e) else before.incident, e, r))
      case Of(Rel(c)) => ReleaseLife(before, c)
  }

  /** Whether the next event of the name notifies. */
  predicate NextNotifies(l: Life, r: int) { l.Gone? || Notifies(l.incident, r) }

  function NotificationsIn(l: Life, turns: seq<Turn>, r: int): nat {
    if turns == [] then 0
    else
      var before := turns[..|turns| - 1];
      var last := turns[|turns| - 1];
      NotificationsIn(l, before, r)
      + if last.Of? && last.op.Rec? && NextNotifies(AfterTurns(l, before, r), r) then 1 else 0
  }

  lemma {:induction false} LifeMoves(i: Incident, turns: seq<Turn>, r: int)
    requires i.lastNotified == i.count
    ensures Shut !in turns ==>
              var l := AfterTurns(Alive(i), turns, r);
              && l.Alive? && l.incident.count >= i.count
              && if NotificationsIn(Alive(i), turns, r) == 0
                 then l.incident.lastNotified == i.count || l.incident.lastNotified == 0
                 else l.incident.lastNotified > i.count || l.incident.lastNotified == 0
  {
    if turns == [] {
    } else {
      var before := turns[..|turns| - 1];
      assert turns == before + [turns[|turns| - 1]];
      LifeMoves(i, before, r);
    }
  }

  /**
   Between an event that notified and the release after its failed send, others record, release and close. The release
   makes the next event notify exactly when that event is due to notify anyway, when nothing notified and nothing was
   closed in between, or when after a close a later incarnation was last notified at the very same count.
   */
  lemma FailedNotificationIsMadeUpFor(i: Incident, turns: seq<Turn>, r: int)
    requires i.lastNotified == i.count >= 1
    ensures var l := AfterTurns(Alive(i), turns, r);
            NextNotifies(ReleaseLife(l, i.count), r) <==>
              || NextNotifies(l, r)
              || if Shut !in turns then NotificationsIn(Alive(i), turns, r) == 0
                 else l.Alive? && l.incident.lastNotified == i.count
  {
    LifeMoves(i, turns, r);
  }

  /** A release for a count that is not the last notified one, or for no incident at all, changes nothing. */
  lemma StaleReleaseChangesNothing(s: Store, name: string, count: int)
    ensures Released(s, name, count) == s <==>
              (name in s.incidents && s.incidents[name].lastNotified == count ==> count == 0)
  {
    if name in s.incidents && s.incidents[name].lastNotified == count && count != 0 {
      assert Released(s, name, count).incidents[name] != s.incidents[name];
    }
    if name in s.incidents && (s.incidents[name].lastNotified != count || count == 0) {
      assert Released(s, name, count).incidents == s.incidents;
    }
  }

  /** And nothing but that counter ever changes. */
  lemma ReleaseResetsOneCounter(s: Store, name: string, count: int, n: string)
    ensures var t := Released(s, name, count);
            && t == s.(incidents := t.incidents) && t.incidents.Keys == s.incidents.Keys
            && (n in s.incidents ==>
                  var i := s.incidents[n];
                  var counter := if n == name && i.lastNotified == count then 0 else i.lastNotified;
                  t.incidents[n] == i.(lastNotified := counter))
  {
  }

  /** But the count is all a release carries: one meant for a closed incarnation can undo a later one's notification. */
  lemma ReleaseCrossesIncarnations(
    s: Store, name: string, e: Event, later: Event, now: int, quiet: int, r: int, max: int)
    requires name !in s.incidents && r >= 2
    ensures var one := Recorded(s, name, e, now, quiet, r);
            var two := Recorded(CloseIncident(one, name, e.observed, max), name, later, now, quiet, r);
            && one.incidents[name].lastNotified == 1 && two.incidents[name].lastNotified == 1
            && Released(two, name, 1).incidents[name].lastNotified == 0
  {
  }
}
