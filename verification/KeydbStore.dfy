/**
 The incident commands of the shared store, changing its keys in place (keydb/keydb.go). Each method is one atomic
 script or command. `view` is what the keys stand for; every method says what it does to it.
 */
module KeydbStore {
  import opened DueQuery
  import opened Incidents
  import opened IncidentHash

  /** Redis list ranges: inclusive ends, negative indices count from the back. */
  function ListRange<T>(s: seq<T>, start: int, stop: int): seq<T> {
    var from := if start >= 0 then start else if start + |s| >= 0 then start + |s| else 0;
    var to := if stop >= 0 then stop else stop + |s|;
    var last := if to >= |s| then |s| - 1 else to;
    if from > last then [] else s[from..last + 1]
  }

  lemma ListRanges<T>(s: seq<T>, n: int)
    ensures n >= 1 ==> ListRange(s, -n, -1) == LastOf(s, n)
    ensures n >= 0 ==> ListRange(s, n, -1) == if n <= |s| then s[n..] else []
    ensures n >= 1 ==> ListRange(s, 0, n - 1) == if n <= |s| then s[..n] else s
  {
  }

  ghost predicate StandsAt(hashes: map<string, Hash>, incidents: map<string, Incident>, name: string) {
    if name in incidents then name in hashes && Represents(hashes[name], name, incidents[name])
    else name in hashes ==> IsVacant(hashes[name])
  }

  /** The hashes are those of the incidents, and vacant ones. */
  ghost predicate Stand(hashes: map<string, Hash>, incidents: map<string, Incident>) {
    forall name {:trigger StandsAt(hashes, incidents, name)} :: StandsAt(hashes, incidents, name)
  }

  /** The queued objects are those of the closed incidents. */
  ghost predicate Queue(outbox: seq<Recovery>, closed: seq<Closed>) {
    |outbox| == |closed| && forall i :: 0 <= i < |outbox| ==> outbox[i] == RecoveryOf(closed[i])
  }

  lemma PutStands(hashes: map<string, Hash>, incidents: map<string, Incident>, name: string, h: Hash, i: Incident)
    requires Stand(hashes, incidents) && Represents(h, name, i)
    ensures Stand(hashes[name := h], incidents[name := i])
  {
    var after, stood := hashes[name := h], incidents[name := i];
    forall n {:trigger StandsAt(after, stood, n)} ensures StandsAt(after, stood, n) {
      assert StandsAt(hashes, incidents, n);
    }
  }

  lemma VacantStands(
    hashes: map<string, Hash>, after: map<string, Hash>, incidents: map<string, Incident>, name: string)
    requires Stand(hashes, incidents) && name !in incidents
    requires after - {name} == hashes - {name} && (name in after ==> IsVacant(after[name]))
    ensures Stand(after, incidents)
  {
    forall n {:trigger StandsAt(after, incidents, n)} ensures StandsAt(after, incidents, n) {
      assert StandsAt(hashes, incidents, n);
      if n != name {
        assert n in after <==> n in after - {name};
        assert n in hashes <==> n in hashes - {name};
        if n in hashes {
          assert (after - {name})[n] == (hashes - {name})[n];
        }
      }
    }
  }

  lemma RemoveStands(hashes: map<string, Hash>, incidents: map<string, Incident>, name: string)
    requires Stand(hashes, incidents)
    ensures Stand(hashes - {name}, incidents - {name})
  {
    var after, stood := hashes - {name}, incidents - {name};
    forall n {:trigger StandsAt(after, stood, n)} ensures StandsAt(after, stood, n) {
      assert StandsAt(hashes, incidents, n);
    }
  }

  lemma FieldsRead(h: Hash, name: string, i: Incident)
    requires Represents(h, name, i)
    ensures h != map[] && NumberOr0(h, FIRST_SEEN) == i.firstSeen
    ensures LAST_SEEN in h && h[LAST_SEEN] == Num(i.lastSeen)
  {
    PlainDistinct();
    var m := PlainFields(name, i);
    assert FIRST_SEEN in m && m[FIRST_SEEN] == Num(i.firstSeen);
    assert LAST_SEEN in m && m[LAST_SEEN] == Num(i.lastSeen);
  }

  lemma QueueTrims(outbox: seq<Recovery>, closed: seq<Closed>, c: Closed, limit: int)
    requires Queue(outbox, closed) && limit >= 1
    ensures Queue(ListRange(outbox + [RecoveryOf(c)], -limit, -1), LastOf(closed + [c], limit))
  {
    ListRanges(outbox + [RecoveryOf(c)], limit);
  }

  // ----- the scripts, on the keys they are given

  method FirstDue(active: map<string, int>, cutoff: int, limit: nat) returns (names: seq<string>)
    ensures IsDue(active, cutoff, limit, names)
  {
    var rest := set n | n in active && active[n] <= cutoff;
    names := [];
    while rest != {} && |names| < limit
      invariant forall n :: n in active && active[n] <= cutoff <==> n in rest || n in names
      invariant forall i :: 0 <= i < |names| ==> names[i] in active && active[names[i]] <= cutoff
      invariant forall i, j :: 0 <= i < j < |names| ==> Ahead(active, names[i], names[j])
      invariant forall i, n :: 0 <= i < |names| && n in rest ==> Ahead(active, names[i], n)
      invariant |names| <= limit
      decreases |rest|
    {
      ghost var first := FirstOf(active, rest);
      var n :| n in rest && forall k :: k in rest && k != n ==> Ahead(active, n, k);
      names := names + [n];
      rest := rest - {n};
    }
  }

  method RecordScript(hashes: map<string, Hash>, name: string, e: Event, reminderEvery: int,
                      ghost incidents: map<string, Incident>, ghost i: Incident)
    returns (after: map<string, Hash>, firstSeen: int, count: int, notify: bool)
    requires Stand(hashes, incidents)
    requires if name in incidents then i == incidents[name] && i.count >= 1 else i == Opened(e)
    ensures Stand(after, incidents[name := Absorb(i, e, reminderEvery)])
    ensures firstSeen == i.firstSeen && count == i.count + 1 && (notify <==> Notifies(i, reminderEvery))
  {
    assert StandsAt(hashes, incidents, name);
    var h: Hash := if name in hashes then hashes[name] else map[];
    if name in incidents {
      FieldsRead(h, name, i);
    }
    var r;
    r, count, notify := RecordFields(h, name, e, reminderEvery, i);
    FieldsRead(r, name, Absorb(i, e, reminderEvery));
    PutStands(hashes, incidents, name, r, Absorb(i, e, reminderEvery));
    after := hashes[name := r];
    firstSeen := NumberOr0(r, FIRST_SEEN);
  }

  method ReleaseScript(hashes: map<string, Hash>, name: string, count: int, ghost incidents: map<string, Incident>)
    returns (after: map<string, Hash>)
    requires Stand(hashes, incidents)
    ensures Stand(after, if name in incidents then incidents[name := Release(incidents[name], count)] else incidents)
  {
    assert StandsAt(hashes, incidents, name);
    var h: Hash := if name in hashes then hashes[name] else map[];
    after := hashes;
    if NumberOr0(h, LAST_NOTIFIED) == count {
      after := hashes[name := h + Notifying(0)];
    }
    if name in incidents {
      ReleaseRepresents(h, name, incidents[name], count);
      PutStands(hashes, incidents, name, ReleaseFields(h, count), Release(incidents[name], count));
      assert after == hashes[name := ReleaseFields(h, count)];
    } else {
      ReleaseCreatesNoHash(h, count);
      VacantStands(hashes, after, incidents, name);
    }
  }

  method CloseScript(hashes: map<string, Hash>, name: string, cutoff: int, ghost incidents: map<string, Incident>)
    returns (after: map<string, Hash>, pushed: seq<Recovery>)
    requires Stand(hashes, incidents)
    ensures if name in incidents && incidents[name].lastSeen <= cutoff
            then Stand(after, incidents - {name}) && pushed == [RecoveryOf(Closed(name, incidents[name]))]
            else after == hashes && pushed == []
  {
    assert StandsAt(hashes, incidents, name);
    after, pushed := hashes, [];
    if name in incidents {
      FieldsRead(hashes[name], name, incidents[name]);
    } else if name in hashes {
      VacantHolds(hashes[name]);
    }
    if name in hashes && LAST_SEEN in hashes[name] {
      if !(NumberOr0(hashes[name], LAST_SEEN) > cutoff) {
        var r := ReadBack(hashes[name], name, incidents[name]);
        RemoveStands(hashes, incidents, name);
        after, pushed := hashes - {name}, [r];
      }
    }
  }

  datatype IncidentUpdate = IncidentUpdate(firstSeen: int, lastSeen: int, count: int, notify: bool)

  class Keydb {
    var hashes: map<string, Hash>
    var active: map<string, int>
    var expireAt: map<string, int>
    var outbox: seq<Recovery>
    ghost var view: Store

    ghost predicate Valid()
      reads this
    {
      && Stand(hashes, view.incidents)
      && active == view.active && expireAt == view.expireAt
      && Queue(outbox, view.outbox)
      && Indexed(view)
    }

    constructor ()
      ensures Valid() && view == EMPTY
    {
      hashes, active, expireAt, outbox := map[], map[], map[], [];
      view := EMPTY;
    }

    method RecordIncident(name: string, e: Event, now: int, quiet: int, reminderEvery: int)
      returns (update: IncidentUpdate)
      requires Valid()
      modifies this
      ensures Valid() && view == Recorded(old(view), name, e, now, quiet, reminderEvery)
      ensures var i := view.incidents[name];
              update == IncidentUpdate(i.firstSeen, i.lastSeen, i.count, i.lastNotified == i.count)
      ensures update.count >= 1
    {
      var every := if reminderEvery < 1 then 25 else reminderEvery;
      ghost var i := Current(view, name, e);
      RecordKeepsIndexed(view, name, e, now, quiet, reminderEvery);
      var after, firstSeen, count, notify := RecordScript(hashes, name, e, every, view.incidents, i);
      hashes := after;
      expireAt := expireAt[name := now + quiet * 4];
      active := active[name := e.observed];
      view := Recorded(view, name, e, now, quiet, reminderEvery);
      assert view.incidents[name] == Absorb(i, e, every);
      update := IncidentUpdate(firstSeen, e.observed, count, notify);
    }

    method ReleaseIncidentNotification(name: string, count: int)
      requires Valid()
      modifies this
      ensures Valid() && view == Released(old(view), name, count)
    {
      var after := ReleaseScript(hashes, name, count, view.incidents);
      hashes := after;
      view := Released(view, name, count);
    }

    method CloseIncidentToOutbox(name: string, cutoff: int, max: int) returns (closed: bool)
      requires Valid()
      modifies this
      ensures Valid() && view == CloseIncident(old(view), name, cutoff, max)
      ensures closed <==> name in old(view).incidents && old(view).incidents[name].lastSeen <= cutoff
    {
      var limit := if max < 1 then 1000 else max;
      var after, pushed := CloseScript(hashes, name, cutoff, view.incidents);
      closed := pushed != [];
      if closed {
        QueueTrims(outbox, view.outbox, Closed(name, view.incidents[name]), limit);
        outbox := ListRange(outbox + pushed, -limit, -1);
        hashes := after;
        expireAt := expireAt - {name};
        active := active - {name};
        view := CloseIncident(view, name, cutoff, max);
      }
    }

    /** The TTL of an incident's hash runs out. */
    method ExpireIncident(name: string)
      requires Valid()
      modifies this
      ensures Valid() && view == Expired(old(view), name)
    {
      RemoveStands(hashes, view.incidents, name);
      hashes := hashes - {name};
      expireAt := expireAt - {name};
      view := Expired(view, name);
    }

    /** The members with score at most `cutoff`, lowest first, equal scores by name, at most `max` of them. */
    method DueIncidents(cutoff: int, max: int) returns (names: seq<string>)
      requires Valid()
      ensures IsDue(view.active, cutoff, if max < 1 then 100 else max, names)
    {
      var limit := if max < 1 then 100 else max;
      names := FirstDue(active, cutoff, limit);
    }

    method PeekQueue(max: int) returns (items: seq<Recovery>)
      requires Valid()
      ensures max <= 0 ==> items == []
      ensures max > 0 ==> items == if max <= |outbox| then outbox[..max] else outbox
    {
      if max <= 0 {
        return [];
      }
      ListRanges(outbox, max);
      return ListRange(outbox, 0, max - 1);
    }

    method DropQueue(count: int)
      requires Valid()
      modifies this
      ensures Valid() && view == if count <= 0 then old(view) else Dropped(old(view), count)
    {
      if count <= 0 {
        return;
      }
      ListRanges(outbox, count);
      outbox := ListRange(outbox, count, -1);
      view := Dropped(view, count);
    }
  }
}
