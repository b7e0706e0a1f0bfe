/** The flat hash behind an incident, and reading it back when the incident closes (keydb/keydb.go). */
module IncidentHash {
  import opened Incidents

  /** Redis keeps numbers as decimal text; the two are told apart here by how the scripts use them. */
  datatype Value = Num(n: int) | Text(s: string)

  type Hash = map<string, Value>

  /** The object the closing script pushes. HGETALL has no fixed order, so the two lists are sets. */
  datatype Recovery = Recovery(fields: Hash, hosts: set<string>, processes: set<string>)

  const COUNT := "count"
  const LAST_NOTIFIED := "last_notified_count"
  const FIRST_SEEN := "first_seen_ms"
  const LAST_SEEN := "last_seen_ms"
  const NAME := "name"
  const TITLE := "title"
  const SAMPLE := "sample"

  function HostField(host: string): string { "host:" + host }

  function ProcessField(process: string): string { "process:" + process }

  predicate IsHostField(key: string) { |key| >= 5 && key[..5] == "host:" }

  predicate IsProcessField(key: string) { |key| >= 8 && key[..8] == "process:" }

  predicate IsPlain(key: string) { !IsHostField(key) && !IsProcessField(key) }

  function PlainFields(name: string, i: Incident): Hash {
    map[COUNT := Num(i.count), LAST_NOTIFIED := Num(i.lastNotified), FIRST_SEEN := Num(i.firstSeen),
        LAST_SEEN := Num(i.lastSeen), NAME := Text(name), TITLE := Text(i.title), SAMPLE := Text(i.sample)]
  }

  /** `h` has exactly these plain fields, and one field per host and per process. */
  ghost predicate Holds(h: Hash, plain: Hash, hosts: set<string>, processes: set<string>) {
    && (forall k :: IsPlain(k) ==> (k in h <==> k in plain))
    && (forall k :: k in plain ==> IsPlain(k) && h[k] == plain[k])
    && (forall x :: HostField(x) in h <==> x in hosts)
    && (forall x :: ProcessField(x) in h <==> x in processes)
  }

  /** `h` is the flat hash of an incident. */
  ghost predicate Represents(h: Hash, name: string, i: Incident) {
    Holds(h, PlainFields(name, i), i.hosts, i.processes)
  }

  lemma FieldKinds(x: string)
    ensures IsHostField(HostField(x)) && !IsProcessField(HostField(x)) && HostField(x)[5..] == x
    ensures IsProcessField(ProcessField(x)) && !IsHostField(ProcessField(x)) && ProcessField(x)[8..] == x
  {
    assert HostField(x)[0] == 'h' && ProcessField(x)[0] == 'p';
  }

  lemma SetPlain(h: Hash, update: Hash, plain: Hash, hosts: set<string>, processes: set<string>)
    requires Holds(h, plain, hosts, processes) && forall k :: k in update ==> IsPlain(k)
    ensures Holds(h + update, plain + update, hosts, processes)
  {
    forall x ensures HostField(x) !in update && ProcessField(x) !in update { FieldKinds(x); }
  }

  lemma SetHost(h: Hash, host: string, v: Value, plain: Hash, hosts: set<string>, processes: set<string>)
    requires Holds(h, plain, hosts, processes)
    ensures Holds(h[HostField(host) := v], plain, hosts + {host}, processes)
  {
    FieldKinds(host);
    forall x ensures ProcessField(x) != HostField(host) && (HostField(x) == HostField(host) ==> x == host) {
      FieldKinds(x);
    }
  }

  lemma SetProcess(h: Hash, process: string, v: Value, plain: Hash, hosts: set<string>, processes: set<string>)
    requires Holds(h, plain, hosts, processes)
    ensures Holds(h[ProcessField(process) := v], plain, hosts, processes + {process})
  {
    FieldKinds(process);
    forall x
      ensures HostField(x) != ProcessField(process) && (ProcessField(x) == ProcessField(process) ==> x == process)
    {
      FieldKinds(x);
    }
  }

  lemma PlainKinds()
    ensures IsPlain(COUNT) && IsPlain(LAST_NOTIFIED) && IsPlain(FIRST_SEEN) && IsPlain(LAST_SEEN)
    ensures IsPlain(NAME) && IsPlain(TITLE) && IsPlain(SAMPLE)
  {
    assert COUNT[0] == 'c' && LAST_NOTIFIED[0] == 'l' && FIRST_SEEN[0] == 'f' && LAST_SEEN[0] == 'l';
    assert NAME[0] == 'n' && TITLE[0] == 't' && SAMPLE[0] == 's';
  }

  lemma PlainDistinct()
    ensures COUNT != LAST_NOTIFIED && LAST_NOTIFIED != FIRST_SEEN && LAST_NOTIFIED != LAST_SEEN
    ensures LAST_NOTIFIED != NAME && LAST_NOTIFIED != TITLE && LAST_NOTIFIED != SAMPLE
    ensures COUNT != FIRST_SEEN && COUNT != LAST_SEEN && COUNT != NAME && COUNT != TITLE && COUNT != SAMPLE
  {
    assert COUNT[0] == 'c' && LAST_NOTIFIED[0] == 'l' && FIRST_SEEN[0] == 'f' && LAST_SEEN[0] == 'l';
    assert NAME[0] == 'n' && TITLE[0] == 't' && SAMPLE[0] == 's' && LAST_NOTIFIED[5] == 'n' && LAST_SEEN[5] == 's';
  }

  function Opening(e: Event): Hash { map[FIRST_SEEN := Num(e.observed), LAST_NOTIFIED := Num(0)] }

  function Counting(count: int): Hash { map[COUNT := Num(count)] }

  function Notifying(count: int): Hash { map[LAST_NOTIFIED := Num(count)] }

  function Latest(name: string, e: Event): Hash {
    map[NAME := Text(name), TITLE := Text(e.title), LAST_SEEN := Num(e.observed), SAMPLE := Text(e.sample)]
  }

  function Seen(i: Incident, e: Event): Incident {
    i.(count := i.count + 1, lastSeen := e.observed, title := e.title, sample := e.sample)
  }

  lemma UpdatesArePlain(name: string, e: Event, count: int)
    ensures forall k :: k in Opening(e) || k in Counting(count) || k in Notifying(count) || k in Latest(name, e) ==>
              IsPlain(k)
  {
    PlainKinds();
  }

  lemma UpdatesMeet(name: string, e: Event, i: Incident)
    ensures PlainFields(name, i) + Counting(i.count + 1) + Latest(name, e) == PlainFields(name, Seen(i, e))
    ensures PlainFields(name, i)[COUNT] == Num(i.count) && PlainFields(name, i)[LAST_NOTIFIED] == Num(i.lastNotified)
  {
    PlainDistinct();
  }

  /** No hash, or one that only a release has written to: it holds no event. */
  predicate IsVacant(h: Hash) { h == map[] || h == Notifying(0) }

  lemma OpeningMeets(h: Hash, name: string, e: Event)
    requires IsVacant(h)
    ensures h + Opening(e) + Counting(1) + Latest(name, e) == PlainFields(name, Seen(Opened(e), e))
  {
    PlainDistinct();
  }

  lemma NotifyingMeets(name: string, i: Incident, n: nat)
    ensures PlainFields(name, i) + Notifying(n) == PlainFields(name, i.(lastNotified := n))
  {
    PlainDistinct();
  }

  /** tonumber(HGET key field) or 0 */
  function NumberOr0(h: Hash, field: string): int {
    if field in h && h[field].Num? then h[field].n else 0
  }

  lemma VacantHolds(h: Hash)
    requires IsVacant(h)
    ensures Holds(h, h, {}, {}) && NumberOr0(h, COUNT) == 0 && LAST_SEEN !in h
  {
    PlainKinds();
    PlainDistinct();
    forall x ensures HostField(x) !in h && ProcessField(x) !in h { FieldKinds(x); }
  }

  lemma FirstEventHolds(h: Hash, name: string, e: Event)
    requires IsVacant(h)
    ensures Represents(h + Opening(e) + Counting(1) + Latest(name, e), name, Seen(Opened(e), e))
  {
    UpdatesArePlain(name, e, 1);
    VacantHolds(h);
    SetPlain(h, Opening(e), h, {}, {});
    SetPlain(h + Opening(e), Counting(1), h + Opening(e), {}, {});
    SetPlain(h + Opening(e) + Counting(1), Latest(name, e), h + Opening(e) + Counting(1), {}, {});
    OpeningMeets(h, name, e);
  }

  lemma LaterEventHolds(h: Hash, name: string, e: Event, i: Incident)
    requires Represents(h, name, i)
    ensures Represents(h + Counting(i.count + 1) + Latest(name, e), name, Seen(i, e))
    ensures NumberOr0(h, COUNT) == i.count && NumberOr0(h, LAST_NOTIFIED) == i.lastNotified
  {
    UpdatesArePlain(name, e, i.count + 1);
    var m := PlainFields(name, i);
    UpdatesMeet(name, e, i);
    assert COUNT in m && LAST_NOTIFIED in m;
    SetPlain(h, Counting(i.count + 1), m, i.hosts, i.processes);
    SetPlain(h + Counting(i.count + 1), Latest(name, e), m + Counting(i.count + 1), i.hosts, i.processes);
  }

  /** The plain fields an event sets, all but the last notified count. */
  method RecordPlain(h: Hash, name: string, e: Event, ghost i: Incident) returns (r: Hash, count: int)
    requires if IsVacant(h) then i == Opened(e) else Represents(h, name, i) && i.count >= 1
    ensures count == i.count + 1 && Represents(r, name, Seen(i, e))
  {
    if IsVacant(h) {
      VacantHolds(h);
      FirstEventHolds(h, name, e);
    } else {
      LaterEventHolds(h, name, e, i);
    }
    r := h;
    count := NumberOr0(r, COUNT);
    if count == 0 {
      r := r + Opening(e);
    }
    count := count + 1;
    r := r + Counting(count);
    r := r + Latest(name, e);
  }

  /** One host field and one process field, unless the event names none. */
  method RecordMembers(h: Hash, name: string, e: Event, ghost i: Incident) returns (r: Hash)
    requires Represents(h, name, i)
    ensures Represents(r, name, i.(hosts := i.hosts + NonEmpty(e.host), processes := i.processes + NonEmpty(e.process)))
  {
    r := h;
    if e.host != "" {
      SetHost(r, e.host, Num(1), PlainFields(name, i), i.hosts, i.processes);
      r := r[HostField(e.host) := Num(1)];
    }
    if e.process != "" {
      SetProcess(r, e.process, Num(1), PlainFields(name, i), i.hosts + NonEmpty(e.host), i.processes);
      r := r[ProcessField(e.process) := Num(1)];
    }
  }

  method SetLastNotified(h: Hash, name: string, n: nat, ghost i: Incident) returns (r: Hash)
    requires Represents(h, name, i)
    ensures Represents(r, name, i.(lastNotified := n))
  {
    UpdatesArePlain(name, Event("", "", "", "", 0), n);
    NotifyingMeets(name, i, n);
    SetPlain(h, Notifying(n), PlainFields(name, i), i.hosts, i.processes);
    r := h + Notifying(n);
  }

  /** The field updates of the recording script, in its order. */
  method RecordFields(h: Hash, name: string, e: Event, reminderEvery: int, ghost i: Incident)
    returns (r: Hash, count: int, notify: bool)
    requires if IsVacant(h) then i == Opened(e) else Represents(h, name, i) && i.count >= 1
    ensures Represents(r, name, Absorb(i, e, reminderEvery))
    ensures count == Absorb(i, e, reminderEvery).count
    ensures notify <==> Notifies(i, reminderEvery)
  {
    r, count := RecordPlain(h, name, e, i);
    r := RecordMembers(r, name, e, Seen(i, e));
    ghost var j := Seen(i, e).(hosts := i.hosts + NonEmpty(e.host), processes := i.processes + NonEmpty(e.process));
    LaterEventHolds(r, name, e, j);
    var lastNotified := NumberOr0(r, LAST_NOTIFIED);
    notify := false;
    if lastNotified == 0 || count - lastNotified >= reminderEvery {
      notify := true;
      r := SetLastNotified(r, name, count, j);
    }
  }

  /** The object that an incident leaves in the outbox. */
  function RecoveryOf(c: Closed): Recovery {
    Recovery(PlainFields(c.name, c.incident), c.incident.hosts, c.incident.processes)
  }

  // ----- the fields by name

  /** These fields by their names in the store, and no others. */
  ghost predicate HasFields(fields: Hash, name: string, events: seq<Event>, lastNotified: int)
    requires events != []
  {
    var latest := events[|events| - 1];
    fields == map["count" := Num(|events|), "last_notified_count" := Num(lastNotified),
                  "first_seen_ms" := Num(events[0].observed), "last_seen_ms" := Num(latest.observed),
                  "name" := Text(name), "title" := Text(latest.title), "sample" := Text(latest.sample)]
  }

  lemma FieldsByName(name: string, first: Event, ops: seq<Op>, r: int)
    ensures var i := Incarnation(first, ops, r);
            HasFields(PlainFields(name, i), name, [first] + Events(ops), i.lastNotified)
  {
    IncarnationSummarisesItsEvents(first, ops, r);
  }

  /**
   The object an incident leaves: its fields, by name, tell how many events there were, when the first arrived, and the
   text and arrival of the latest; beside them the hosts and processes that events named.
   */
  lemma RecoveryTellsTheEvents(name: string, first: Event, ops: seq<Op>, r: int)
    ensures var events, i := [first] + Events(ops), Incarnation(first, ops, r);
            var c := RecoveryOf(Closed(name, i));
            && HasFields(c.fields, name, events, i.lastNotified)
            && c.hosts == (set k | 0 <= k < |events| && events[k].host != "" :: events[k].host)
            && c.processes == (set k | 0 <= k < |events| && events[k].process != "" :: events[k].process)
  {
    IncarnationSummarisesItsEvents(first, ops, r);
    FieldsByName(name, first, ops, r);
  }

  lemma FieldsApart(h: Hash, name: string, i: Incident)
    requires Represents(h, name, i)
    ensures PlainFields(name, i) == map k | k in h && !("host:" <= k) && !("process:" <= k) :: h[k]
    ensures forall x :: "host:" + x in h <==> x in i.hosts
    ensures forall x :: "process:" + x in h <==> x in i.processes
  {
    var plain := map k | k in h && !("host:" <= k) && !("process:" <= k) :: h[k];
    assert forall k :: IsPlain(k) <==> !("host:" <= k) && !("process:" <= k);
    forall k ensures k in plain <==> k in PlainFields(name, i) {
    }
    forall x ensures "host:" + x in h <==> x in i.hosts {
      assert HostField(x) == "host:" + x;
    }
    forall x ensures "process:" + x in h <==> x in i.processes {
      assert ProcessField(x) == "process:" + x;
    }
  }

  /** The same of the hash itself, which has one more field for every host and every process. */
  lemma HashTellsTheEvents(h: Hash, name: string, first: Event, ops: seq<Op>, r: int)
    requires Represents(h, name, Incarnation(first, ops, r))
    ensures var events, i := [first] + Events(ops), Incarnation(first, ops, r);
            && HasFields(map k | k in h && !("host:" <= k) && !("process:" <= k) :: h[k], name, events, i.lastNotified)
            && (forall x :: "host:" + x in h <==> x != "" && exists e :: e in events && e.host == x)
            && (forall x :: "process:" + x in h <==> x != "" && exists e :: e in events && e.process == x)
  {
    var events, i := [first] + Events(ops), Incarnation(first, ops, r);
    IncarnationSummarisesItsEvents(first, ops, r);
    FieldsByName(name, first, ops, r);
    FieldsApart(h, name, i);
    forall x ensures x in i.hosts <==> x != "" && exists e :: e in events && e.host == x {
      if e :| e in events && e.host == x && x != "" {
        var k :| 0 <= k < |events| && events[k] == e;
      }
    }
    forall x ensures x in i.processes <==> x != "" && exists e :: e in events && e.process == x {
      if e :| e in events && e.process == x && x != "" {
        var k :| 0 <= k < |events| && events[k] == e;
      }
    }
  }

  /** What the closing script has read once it has seen the fields in `done`. */
  ghost function PartRead(h: Hash, done: set<string>): Recovery {
    Recovery(map k | k in h && k in done && IsPlain(k) :: h[k],
             set k | k in h && k in done && IsHostField(k) :: k[5..],
             set k | k in h && k in done && !IsHostField(k) && IsProcessField(k) :: k[8..])
  }

  lemma PartReadNext(h: Hash, done: set<string>, key: string)
    requires key in h
    ensures var r := PartRead(h, done);
            PartRead(h, done + {key})
            == if IsHostField(key) then r.(hosts := r.hosts + {key[5..]})
               else if IsProcessField(key) then r.(processes := r.processes + {key[8..]})
               else r.(fields := r.fields[key := h[key]])
  {
    var r, t := PartRead(h, done), PartRead(h, done + {key});
    if IsHostField(key) {
      assert t.hosts == r.hosts + {key[5..]};
    } else if IsProcessField(key) {
      assert t.processes == r.processes + {key[8..]};
    } else {
      assert t.fields == r.fields[key := h[key]];
    }
  }

  lemma MembersReadBack(h: Hash, name: string, i: Incident)
    requires Represents(h, name, i)
    ensures i.hosts == set k | k in h && IsHostField(k) :: k[5..]
    ensures i.processes == set k | k in h && !IsHostField(k) && IsProcessField(k) :: k[8..]
    ensures PlainFields(name, i) == map k | k in h && IsPlain(k) :: h[k]
  {
    forall x | x in i.hosts ensures x in set k | k in h && IsHostField(k) :: k[5..] {
      FieldKinds(x);
      assert HostField(x) in h;
    }
    forall k | k in h && IsHostField(k) ensures k[5..] in i.hosts {
      assert k == HostField(k[5..]);
    }
    forall x | x in i.processes ensures x in set k | k in h && !IsHostField(k) && IsProcessField(k) :: k[8..] {
      FieldKinds(x);
      assert ProcessField(x) in h;
    }
    forall k | k in h && IsProcessField(k) ensures k[8..] in i.processes {
      assert k == ProcessField(k[8..]);
    }
  }

  lemma AllRead(h: Hash, name: string, i: Incident)
    requires Represents(h, name, i)
    ensures PartRead(h, h.Keys) == RecoveryOf(Closed(name, i))
  {
    MembersReadBack(h, name, i);
    var r := PartRead(h, h.Keys);
    assert r.fields == map k | k in h && IsPlain(k) :: h[k];
    assert r.hosts == set k | k in h && IsHostField(k) :: k[5..];
    assert r.processes == set k | k in h && !IsHostField(k) && IsProcessField(k) :: k[8..];
  }

  /** The loop of the closing script over all fields of the hash, in the arbitrary order of HGETALL. */
  method ReadBack(h: Hash, ghost name: string, ghost i: Incident) returns (r: Recovery)
    requires Represents(h, name, i)
    ensures r == RecoveryOf(Closed(name, i))
  {
    r := Recovery(map[], {}, {});
    var keys := h.Keys;
    while keys != {}
      invariant keys <= h.Keys
      invariant r == PartRead(h, h.Keys - keys)
      decreases |keys|
    {
      var key :| key in keys;
      PartReadNext(h, h.Keys - keys, key);
      assert h.Keys - (keys - {key}) == h.Keys - keys + {key};
      if IsHostField(key) {
        r := r.(hosts := r.hosts + {key[5..]});
      } else if IsProcessField(key) {
        r := r.(processes := r.processes + {key[8..]});
      } else {
        r := r.(fields := r.fields[key := h[key]]);
      }
      keys := keys - {key};
    }
    assert h.Keys - {} == h.Keys;
    AllRead(h, name, i);
  }

  /** The releasing script, which also runs when there is no hash. */
  function ReleaseFields(h: Hash, count: int): Hash {
    if NumberOr0(h, LAST_NOTIFIED) == count then h + Notifying(0) else h
  }

  /** Without an incident it leaves a vacant hash, which is one out of nothing exactly for count zero. */
  lemma ReleaseCreatesNoHash(h: Hash, count: int)
    requires IsVacant(h)
    ensures IsVacant(ReleaseFields(h, count))
    ensures ReleaseFields(h, count) == h <==> h != map[] || count != 0
  {
    assert LAST_NOTIFIED in Notifying(0);
    assert Notifying(0) + Notifying(0) == Notifying(0);
  }

  lemma ReleaseRepresents(h: Hash, name: string, i: Incident, count: int)
    requires Represents(h, name, i)
    ensures Represents(ReleaseFields(h, count), name, Release(i, count))
  {
    LaterEventHolds(h, name, Event("", "", "", "", 0), i);
    if i.lastNotified == count {
      UpdatesArePlain(name, Event("", "", "", "", 0), 0);
      NotifyingMeets(name, i, 0);
      SetPlain(h, Notifying(0), PlainFields(name, i), i.hosts, i.processes);
    }
  }
}
