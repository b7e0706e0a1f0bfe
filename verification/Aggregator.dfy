/** The sweep of the incident aggregator: closing what is quiet, publishing what was closed (incident.go). */
module Aggregator {
  import opened DueQuery
  import opened Incidents
  import opened IncidentHash
  import opened KeydbStore
  import opened Outbox
  import opened Picking

  /** Closing the names one after the other, but for those whose call to the store fails. */
  function CloseAll(s: Store, names: seq<string>, fails: set<string>, cutoff: int, max: int): Store {
    if names == [] then s
    else
      var n := names[|names| - 1];
      var t := CloseAll(s, names[..|names| - 1], fails, cutoff, max);
      if n in fails then t else CloseIncident(t, n, cutoff, max)
  }

  /** The incident was last seen by the cutoff, and its call succeeds. */
  predicate Goes(s: Store, name: string, fails: set<string>, cutoff: int) {
    name !in fails && name in s.incidents && s.incidents[name].lastSeen <= cutoff
  }

  ghost function Going(s: Store, names: seq<string>, fails: set<string>, cutoff: int): nat -> bool {
    (p: nat) => p < |names| && Goes(s, names[p], fails, cutoff)
  }

  /** What the names that go put into the outbox, in order. */
  function Recoveries(s: Store, names: seq<string>, fails: set<string>, cutoff: int): seq<Closed> {
    if names == [] then []
    else
      var n := names[|names| - 1];
      Recoveries(s, names[..|names| - 1], fails, cutoff)
      + if Goes(s, n, fails, cutoff) then [Closed(n, s.incidents[n])] else []
  }

  lemma {:induction false} RecoveriesArePicked(s: Store, names: seq<string>, fails: set<string>, cutoff: int)
    ensures var at, added := Picked(|names|, Going(s, names, fails, cutoff)), Recoveries(s, names, fails, cutoff);
            && |added| == |at|
            && forall m :: 0 <= m < |at| ==>
                 && at[m] < |names| && names[at[m]] in s.incidents
                 && added[m] == Closed(names[at[m]], s.incidents[names[at[m]]])
  {
    if names == [] {
    } else {
      var before := names[..|names| - 1];
      RecoveriesArePicked(s, before, fails, cutoff);
      PickedAlike(|before|, Going(s, before, fails, cutoff), Going(s, names, fails, cutoff));
    }
  }

  ghost predicate SameAt<T>(m: map<string, T>, k: map<string, T>, name: string) {
    (name in m <==> name in k) && (name in m ==> m[name] == k[name])
  }

  /** The stores hold the same under a name. */
  ghost predicate SameEntries(s: Store, t: Store, name: string) {
    SameAt(s.incidents, t.incidents, name) && SameAt(s.active, t.active, name) && SameAt(s.expireAt, t.expireAt, name)
  }

  ghost predicate NoEntries(t: Store, name: string) {
    name !in t.incidents && name !in t.active && name !in t.expireAt
  }

  ghost predicate Differ(names: seq<string>) { forall i, j :: 0 <= i < j < |names| ==> names[i] != names[j] }

  /** What becomes of the entries of a name. */
  ghost predicate Swept(s: Store, t: Store, names: seq<string>, fails: set<string>, cutoff: int, name: string) {
    if name in names && Goes(s, name, fails, cutoff) then NoEntries(t, name) else SameEntries(s, t, name)
  }

  lemma {:induction false} NamesAreSwept(
    s: Store, names: seq<string>, fails: set<string>, cutoff: int, max: int, name: string)
    requires Differ(names)
    ensures Swept(s, CloseAll(s, names, fails, cutoff, max), names, fails, cutoff, name)
  {
    if names == [] {
    } else {
      var before, n := names[..|names| - 1], names[|names| - 1];
      NamesAreSwept(s, before, fails, cutoff, max, name);
      NamesAreSwept(s, before, fails, cutoff, max, n);
      assert name in names <==> name in before || name == n;
      assert n !in before;
    }
  }

  lemma LastOfTwice<T>(s: seq<T>, x: seq<T>, max: nat)
    ensures LastOf(LastOf(s, max) + x, max) == LastOf(s + x, max)
  {
  }

  /** What the outbox becomes when `added` is put into it item by item under a cap. */
  function Capped(outbox: seq<Closed>, added: seq<Closed>, cap: nat): seq<Closed> {
    var queue := outbox + added;
    if added == [] || |queue| <= cap then queue else queue[|queue| - cap..]
  }

  lemma QueueNext(outbox: seq<Closed>, added: seq<Closed>, c: Closed, cap: nat)
    requires cap >= 1
    ensures LastOf(Capped(outbox, added, cap) + [c], cap) == Capped(outbox, added + [c], cap)
  {
    LastOfTwice(outbox + added, [c], cap);
    assert outbox + added + [c] == outbox + (added + [c]);
    assert added == [] ==> outbox + added == outbox;
  }

  lemma {:induction false} RecoveriesAreQueued(
    s: Store, names: seq<string>, fails: set<string>, cutoff: int, max: int)
    requires Differ(names)
    ensures CloseAll(s, names, fails, cutoff, max).outbox
            == Capped(s.outbox, Recoveries(s, names, fails, cutoff), if max < 1 then 1000 else max)
  {
    if names == [] {
      assert s.outbox + [] == s.outbox;
    } else {
      var before, n := names[..|names| - 1], names[|names| - 1];
      RecoveriesAreQueued(s, before, fails, cutoff, max);
      NamesAreSwept(s, before, fails, cutoff, max, n);
      assert n !in before;
      if Goes(s, n, fails, cutoff) {
        QueueNext(s.outbox, Recoveries(s, before, fails, cutoff), Closed(n, s.incidents[n]),
                  if max < 1 then 1000 else max);
      } else {
        assert Recoveries(s, names, fails, cutoff) == Recoveries(s, before, fails, cutoff);
      }
    }
  }

  /**
   The names at the positions `at` were closed: they were last seen by the cutoff, their entries are gone, and their
   incidents are at the end of the outbox, in order, of which the cap keeps the last ones. All else is as it was.
   */
  ghost predicate ClosedInTurn(
    s: Store, t: Store, names: seq<string>, at: seq<nat>, fails: set<string>, cutoff: int, max: int)
  {
    && Picks(at, |names|, Going(s, names, fails, cutoff))
    && (forall n {:trigger Swept(s, t, names, fails, cutoff, n)} :: Swept(s, t, names, fails, cutoff, n))
    && exists added: seq<Closed> ::
         && |added| == |at|
         && (forall m :: 0 <= m < |at| ==>
               && at[m] < |names| && names[at[m]] in s.incidents
               && added[m] == Closed(names[at[m]], s.incidents[names[at[m]]]))
         && var queue, cap := s.outbox + added, if max < 1 then 1000 else max;
            t.outbox == if at == [] || |queue| <= cap then queue else queue[|queue| - cap..]
  }

  /** Closing a list of names closes those that are still quiet, leaves all others alone, and queues each in turn. */
  lemma CloseAllClosesTheQuiet(s: Store, names: seq<string>, fails: set<string>, cutoff: int, max: int)
    requires Differ(names)
    ensures ClosedInTurn(s, CloseAll(s, names, fails, cutoff, max), names,
                         Picked(|names|, Going(s, names, fails, cutoff)), fails, cutoff, max)
  {
    var t := CloseAll(s, names, fails, cutoff, max);
    PickedIsIt(|names|, Going(s, names, fails, cutoff));
    forall n {:trigger Swept(s, t, names, fails, cutoff, n)} ensures Swept(s, t, names, fails, cutoff, n) {
      NamesAreSwept(s, names, fails, cutoff, max, n);
    }
    RecoveriesArePicked(s, names, fails, cutoff);
    RecoveriesAreQueued(s, names, fails, cutoff, max);
  }

  lemma {:induction false} SameCap(
    s: Store, names: seq<string>, fails: set<string>, cutoff: int, max: int, limit: int)
    requires limit == if max < 1 then 1000 else max
    ensures CloseAll(s, names, fails, cutoff, limit) == CloseAll(s, names, fails, cutoff, max)
  {
    if names == [] {
    } else {
      SameCap(s, names[..|names| - 1], fails, cutoff, max, limit);
    }
  }

  lemma SweepCloses(s: Store, due: seq<string>, fails: set<string>, cutoff: int, max: int, limit: int)
    returns (at: seq<nat>)
    requires IsDue(s.active, cutoff, 100, due) && limit == if max < 1 then 1000 else max
    ensures CloseAll(s, due, fails, cutoff, limit) == CloseAll(s, due, fails, cutoff, max)
    ensures ClosedInTurn(s, CloseAll(s, due, fails, cutoff, max), due, at, fails, cutoff, max)
  {
    at := Picked(|due|, Going(s, due, fails, cutoff));
    Distinct(s.active, cutoff, 100, due);
    SameCap(s, due, fails, cutoff, max, limit);
    CloseAllClosesTheQuiet(s, due, fails, cutoff, max);
  }

  // ----- one round of publishing

  predicate IsAnnounced(outbox: seq<Closed>, i: nat) {
    i < |outbox| && Decodable(outbox[i])
  }

  ghost function Announces(outbox: seq<Closed>): nat -> bool { (i: nat) => IsAnnounced(outbox, i) }

  /** The objects sent for the first `n` items. */
  ghost function Announced(outbox: seq<Closed>, n: nat): seq<Recovery>
    requires n <= |outbox|
  {
    if n == 0 then []
    else Announced(outbox, n - 1) + if IsAnnounced(outbox, n - 1) then [RecoveryOf(outbox[n - 1])] else []
  }

  /** `sent` holds the objects of the items at the positions `at`. */
  ghost predicate AreObjects(outbox: seq<Closed>, at: seq<nat>, sent: seq<Recovery>) {
    |sent| == |at| && forall m :: 0 <= m < |at| ==> at[m] < |outbox| && sent[m] == RecoveryOf(outbox[at[m]])
  }

  lemma OneMoreObject(outbox: seq<Closed>, at: seq<nat>, sent: seq<Recovery>, n: nat)
    requires AreObjects(outbox, at, sent) && n < |outbox|
    ensures AreObjects(outbox, at + [n], sent + [RecoveryOf(outbox[n])])
  {
  }

  lemma {:induction false} AnnouncedArePicked(outbox: seq<Closed>, n: nat)
    requires n <= |outbox|
    ensures AreObjects(outbox, Picked(n, Announces(outbox)), Announced(outbox, n))
  {
    if n == 0 {
    } else {
      AnnouncedArePicked(outbox, n - 1);
      var at, sent := Picked(n - 1, Announces(outbox)), Announced(outbox, n - 1);
      if IsAnnounced(outbox, n - 1) {
        OneMoreObject(outbox, at, sent, n - 1);
        assert Picked(n, Announces(outbox)) == at + [n - 1];
        assert Announced(outbox, n) == sent + [RecoveryOf(outbox[n - 1])];
      } else {
        assert Picked(n, Announces(outbox)) == at + [] == at && Announced(outbox, n) == sent + [] == sent;
      }
    }
  }

  /**
   Of the first twenty items, those up to the first that fails are got past; what is sent is the objects of the
   decodable ones among them, in order.
   */
  ghost predicate Publishes(outbox: seq<Closed>, sendOk: seq<bool>, sent: seq<Recovery>, delivered: nat)
    requires |sendOk| >= 20
  {
    var peeked := if |outbox| <= 20 then |outbox| else 20;
    && delivered <= peeked
    && (forall i: nat :: i < delivered && IsAnnounced(outbox, i) ==> sendOk[i])
    && (delivered < peeked ==> IsAnnounced(outbox, delivered) && !sendOk[delivered])
    && exists at :: Picks(at, delivered, Announces(outbox)) && AreObjects(outbox, at, sent)
  }

  lemma AnnouncedIsPublished(outbox: seq<Closed>, sendOk: seq<bool>, n: nat)
    requires |sendOk| >= 20 && n <= Smaller(|outbox|, 20)
    requires forall i: nat :: i < n && IsAnnounced(outbox, i) ==> sendOk[i]
    requires n < Smaller(|outbox|, 20) ==> IsAnnounced(outbox, n) && !sendOk[n]
    ensures Publishes(outbox, sendOk, Announced(outbox, n), n)
  {
    PickedIsIt(n, Announces(outbox));
    AnnouncedArePicked(outbox, n);
  }

  /** The publication machine rests, and this is what its outbox holds. */
  ghost predicate IsOver(s: System, outbox: seq<Closed>) {
    s.publisher.Resting? && s.head <= |s.pushed| && Contents(s) == outbox
  }

  /** The machine while it gets past the first `n` items. */
  ghost function Midway(s: System, size: nat, n: nat): System
    requires s.head <= |s.pushed|
  {
    s.(publisher := Sending(s.head, size, n), sent := s.sent + Shifted(Picked(n, Announces(Contents(s))), s.head))
  }

  lemma MidwayNext(s: System, size: nat, n: nat)
    requires s.head <= |s.pushed| && n < size <= |Contents(s)|
    ensures var step := if IsAnnounced(Contents(s), n) then SendSucceeds else Skip;
            Next(Midway(s, size, n), step) == Midway(s, size, n + 1)
  {
    var at := Picked(n, Announces(Contents(s)));
    assert Contents(s)[n] == s.pushed[s.head + n];
    assert Shifted(at + [n], s.head) == Shifted(at, s.head) + [s.head + n];
  }

  lemma {:induction false} SendingIsARun(s: System, size: nat, n: nat) returns (steps: seq<Step>)
    requires s.publisher.Resting? && s.head <= |s.pushed|
    requires size == Smaller(|Contents(s)|, 20) && 0 < size && n <= size
    ensures Works(s, steps) && RunFrom(s, steps) == Midway(s, size, n)
  {
    if n == 0 {
      WorksOn(s, [], Peek);
      assert s.sent + Shifted([], s.head) == s.sent;
      steps := [] + [Peek];
    } else {
      var before := SendingIsARun(s, size, n - 1);
      var step := if IsAnnounced(Contents(s), n - 1) then SendSucceeds else Skip;
      MidwayNext(s, size, n - 1);
      WorksOn(s, before, step);
      steps := before + [step];
    }
  }

  lemma StopAndDrop(s: System, size: nat, n: nat, dropFails: bool)
    requires s.head <= |s.pushed| && n <= size <= |Contents(s)| && (n < size ==> IsAnnounced(Contents(s), n))
    ensures var u := Next(Midway(s, size, n), if n < size then SendFails else AllSent);
            var t := Next(u, if n > 0 && dropFails then DropFails else DropDelivered);
            && u != Midway(s, size, n) && t != u && t.sent == Midway(s, size, n).sent
            && IsOver(t, if dropFails then Contents(s) else Contents(s)[n..])
  {
    assert n < size ==> Contents(s)[n] == s.pushed[s.head + n];
  }

  lemma ObjectsOfPushed(s: System, at: seq<nat>, sent: seq<Recovery>)
    requires s.head <= |s.pushed| && AreObjects(Contents(s), at, sent)
    ensures var more := s.sent + Shifted(at, s.head);
            s.sent <= more && AreObjects(s.pushed, more[|s.sent|..], sent)
  {
    assert (s.sent + Shifted(at, s.head))[|s.sent|..] == Shifted(at, s.head);
  }

  /** The run `steps` is one round: it leaves `outbox`, and has sent the objects `sent`. */
  ghost predicate IsRound(s: System, steps: seq<Step>, outbox: seq<Closed>, sent: seq<Recovery>) {
    var end := RunFrom(s, steps);
    && Works(s, steps) && IsOver(end, outbox)
    && s.sent <= end.sent && AreObjects(s.pushed, end.sent[|s.sent|..], sent)
  }

  /** A round of publishing is one of the machine, wherever that rests over the same outbox. */
  lemma RoundIsARun(s: System, outbox: seq<Closed>, n: nat, dropFails: bool) returns (steps: seq<Step>)
    requires IsOver(s, outbox) && n <= Smaller(|outbox|, 20)
    requires n < Smaller(|outbox|, 20) ==> IsAnnounced(outbox, n)
    ensures IsRound(s, steps, if dropFails then outbox else outbox[n..], Announced(outbox, n))
  {
    steps := [];
    var size := Smaller(|outbox|, 20);
    if size > 0 {
      steps := SendingIsARun(s, size, n);
      StopAndDrop(s, size, n, dropFails);
      var stop := if n < size then SendFails else AllSent;
      WorksOn(s, steps, stop);
      steps := steps + [stop];
      var drop := if n > 0 && dropFails then DropFails else DropDelivered;
      WorksOn(s, steps, drop);
      steps := steps + [drop];
    } else {
      assert s.sent + Shifted([], s.head) == s.sent;
    }
    AnnouncedArePicked(outbox, n);
    ObjectsOfPushed(s, Picked(n, Announces(outbox)), Announced(outbox, n));
  }

  class IncidentAggregator {
    const store: Keydb
    const quiet: int
    const recoveryOutboxMax: int

    constructor (store: Keydb, quiet: int, recoveryOutboxMax: int)
      ensures this.store == store && this.quiet == quiet && this.recoveryOutboxMax == recoveryOutboxMax
    {
      this.store, this.quiet, this.recoveryOutboxMax := store, quiet, recoveryOutboxMax;
    }

    /**
     Closes the incidents the due query returns, but for those whose closing call fails; `due` is what it returned, `at`
     says which of these were closed, and nothing happens when the query fails itself.
     */
    method CloseQuiet(now: int, scanFails: bool, closeFails: set<string>)
      returns (ghost due: seq<string>, ghost at: seq<nat>)
      requires store.Valid()
      modifies store
      ensures store.Valid()
      ensures scanFails ==> due == [] && at == [] && store.view == old(store.view)
      ensures !scanFails ==>
                && IsDue(old(store.view).active, now - quiet, 100, due)
                && store.view == CloseAll(old(store.view), due, closeFails, now - quiet, recoveryOutboxMax)
                && ClosedInTurn(old(store.view), store.view, due, at, closeFails, now - quiet, recoveryOutboxMax)
    {
      due, at := [], [];
      ghost var before := store.view;
      var cutoff := now - quiet;
      if scanFails {
        return;
      }
      var names := store.DueIncidents(cutoff, 100);
      due := names;
      var max := recoveryOutboxMax;
      if max <= 0 {
        max := 1000;
      }
      CloseNames(names, cutoff, max, closeFails);
      at := SweepCloses(before, names, closeFails, cutoff, recoveryOutboxMax, max);
    }

    method CloseNames(names: seq<string>, cutoff: int, max: int, closeFails: set<string>)
      requires store.Valid()
      modifies store
      ensures store.Valid() && store.view == CloseAll(old(store.view), names, closeFails, cutoff, max)
    {
      var i := 0;
      while i < |names|
        invariant 0 <= i <= |names|
        invariant store.Valid()
        invariant store.view == CloseAll(old(store.view), names[..i], closeFails, cutoff, max)
      {
        assert names[..i + 1][..i] == names[..i];
        if names[i] !in closeFails {
          var _ := store.CloseIncidentToOutbox(names[i], cutoff, max);
        }
        i := i + 1;
      }
      assert names[..|names|] == names;
    }

    /** The loop over the first items. */
    method SendFirst(sendOk: seq<bool>) returns (sent: seq<Recovery>, delivered: nat)
      requires store.Valid() && |sendOk| >= 20
      ensures Publishes(store.view.outbox, sendOk, sent, delivered)
      ensures delivered <= |store.view.outbox| && sent == Announced(store.view.outbox, delivered)
    {
      sent, delivered := [], 0;
      var raw := store.PeekQueue(20);
      ghost var outbox := store.view.outbox;
      while delivered < |raw|
        invariant 0 <= delivered <= |raw|
        invariant forall i: nat :: i < delivered && IsAnnounced(outbox, i) ==> sendOk[i]
        invariant sent == Announced(outbox, delivered)
      {
        var item := raw[delivered];
        assert item == RecoveryOf(outbox[delivered]);
        if item.hosts != {} && item.processes != {} {
          if !sendOk[delivered] {
            break;
          }
          sent := sent + [item];
        }
        delivered := delivered + 1;
      }
      AnnouncedIsPublished(outbox, sendOk, delivered);
    }

    /**
     Sends the first items of the outbox in order, up to the first that fails, and drops those it got past; `sendOk[i]`
     is how a send of item `i` would end, and `sent` lists what was sent successfully. For the publication machine,
     wherever it rests over this outbox, `steps` is one round, and what it sends is `sent`.
     */
    method PublishRecoveries(peekFails: bool, sendOk: seq<bool>, dropFails: bool, ghost start: System)
      returns (sent: seq<Recovery>, delivered: nat, ghost steps: seq<Step>)
      requires store.Valid() && |sendOk| >= 20
      requires IsOver(start, store.view.outbox)
      modifies store
      ensures store.Valid()
      ensures peekFails ==> sent == [] && steps == [] && store.view == old(store.view)
      ensures !peekFails ==> Publishes(old(store.view).outbox, sendOk, sent, delivered)
      ensures !peekFails ==> store.view == if dropFails then old(store.view)
                                           else old(store.view).(outbox := old(store.view).outbox[delivered..])
      ensures IsRound(start, steps, store.view.outbox, sent)
    {
      sent, delivered, steps := [], 0, [];
      if peekFails {
        return;
      }
      sent, delivered := SendFirst(sendOk);
      ghost var before := store.view.outbox;
      if delivered > 0 && !dropFails {
        store.DropQueue(delivered);
      }
      steps := RoundIsARun(start, before, delivered, dropFails);
    }
  }

  /** With at most a hundred indexed names a sweep leaves exactly what is not yet quiet, and what it failed to close. */
  lemma SweepLeavesNothingQuiet(s: Store, due: seq<string>, fails: set<string>, cutoff: int, max: int)
    requires Indexed(s) && |s.active| <= 100 && IsDue(s.active, cutoff, 100, due)
    ensures forall n :: n in CloseAll(s, due, fails, cutoff, max).incidents <==>
              n in s.incidents && (s.incidents[n].lastSeen > cutoff || n in fails)
  {
    DueAgreesWithScan(s, cutoff, 100, due);
    Distinct(s.active, cutoff, 100, due);
    CloseAllClosesTheQuiet(s, due, fails, cutoff, max);
    var t := CloseAll(s, due, fails, cutoff, max);
    forall n ensures n in t.incidents <==> n in s.incidents && (s.incidents[n].lastSeen > cutoff || n in fails) {
      assert Swept(s, t, due, fails, cutoff, n);
      assert n in s.incidents && s.incidents[n].lastSeen <= cutoff <==> IsDueIncident(s, n, cutoff);
    }
  }

  lemma {:induction false} NothingCloses(s: Store, names: seq<string>, fails: set<string>, cutoff: int, max: int)
    requires forall n :: n in names ==> n !in s.incidents || n in fails
    ensures CloseAll(s, names, fails, cutoff, max) == s
  {
    if names == [] {
    } else {
      NothingCloses(s, names[..|names| - 1], fails, cutoff, max);
    }
  }

  /**
   A sweep changes nothing if and only if every name it was given is stale or fails to close, and when all are stale no
   later one will do better.
   */
  lemma SweepIsStuckOnStaleNames(s: Store, due: seq<string>, fails: set<string>, cutoff: int, max: int)
    requires Indexed(s) && IsDue(s.active, cutoff, 100, due)
    ensures CloseAll(s, due, fails, cutoff, max) == s <==> forall n :: n in due ==> n !in s.incidents || n in fails
  {
    Distinct(s.active, cutoff, 100, due);
    CloseAllClosesTheQuiet(s, due, fails, cutoff, max);
    if forall n :: n in due ==> n !in s.incidents || n in fails {
      NothingCloses(s, due, fails, cutoff, max);
    } else {
      var n :| n in due && n in s.incidents && n !in fails;
      assert Swept(s, CloseAll(s, due, fails, cutoff, max), due, fails, cutoff, n);
    }
  }
}
