/**
 Reserve, send, forget (main.go, alert_dedup.go) as steps of any number of workers in any number of processes that
 share one store. A worker first reserves the fingerprint, in the store or, when that does not answer, in its
 process's map; later its send succeeds or fails, and a failure forgets the fingerprint in both places.
 */
module Delivery {
  import opened Dedup

  /** `Failed(kept)`: the send failed, and `kept` says the store held the reservation and did not take the deletion. */
  datatype Status = InFlight | Sent | Failed(kept: bool)

  /** `forgotten`: somebody has deleted the fingerprint since, where it was reserved. */
  datatype Reservation = Reservation(
    process: nat, inStore: bool, fingerprint: string, at: int, ttl: int, status: Status, forgotten: bool)

  datatype System = System(store: Cooldowns, local: map<nat, Cooldowns>, reservations: seq<Reservation>)

  datatype Step =
    | Attempt(process: nat, fingerprint: string, ttl: int, at: int, storeUp: bool)
    | Finish(id: nat, ok: bool, storeUp: bool)

  function LocalOf(s: System, process: nat): Cooldowns {
    if process in s.local then s.local[process] else map[]
  }

  /** Whether dedup suppresses an attempt made in state `s`. */
  predicate Suppressed(s: System, a: Step)
    requires a.Attempt?
  {
    Cooling(if a.storeUp then s.store else LocalOf(s, a.process), a.fingerprint, a.at)
  }

  /**
   The reservation is where a worker of `process` deletes `fingerprint`: in its own map, or in the store if that is up.
   */
  predicate Deleted(r: Reservation, process: nat, fingerprint: string, storeUp: bool) {
    r.fingerprint == fingerprint && if r.inStore then storeUp else r.process == process
  }

  function Forget(rs: seq<Reservation>, process: nat, fingerprint: string, storeUp: bool): (r: seq<Reservation>)
    ensures |r| == |rs|
    ensures forall i :: 0 <= i < |rs| ==>
              r[i] == rs[i].(forgotten := rs[i].forgotten || Deleted(rs[i], process, fingerprint, storeUp))
  {
    seq(|rs|, i requires 0 <= i < |rs| =>
      if Deleted(rs[i], process, fingerprint, storeUp) then rs[i].(forgotten := true) else rs[i])
  }

  function Reserved(s: System, a: Step): System
    requires a.Attempt?
  {
    var rs := s.reservations + [Reservation(a.process, a.storeUp, a.fingerprint, a.at, a.ttl, InFlight, false)];
    if a.storeUp then System(Claim(s.store, a.fingerprint, a.ttl, a.at), s.local, rs)
    else System(s.store, s.local[a.process := Reserve(LocalOf(s, a.process), a.fingerprint, a.ttl, a.at)], rs)
  }

  function SendFailed(s: System, id: nat, storeUp: bool): System
    requires id < |s.reservations|
  {
    var r := s.reservations[id];
    System(if storeUp then s.store - {r.fingerprint} else s.store,
           s.local[r.process := LocalOf(s, r.process) - {r.fingerprint}],
           Forget(s.reservations[id := r.(status := Failed(r.inStore && !storeUp))], r.process, r.fingerprint, storeUp))
  }

  /** One step; a step that cannot happen in `s` changes nothing. */
  function Next(s: System, step: Step): System {
    match step
    case Attempt(_, _, _, _, _) => if Suppressed(s, step) then s else Reserved(s, step)
    case Finish(id, ok, storeUp) =>
      if id >= |s.reservations| || !s.reservations[id].status.InFlight? then s
      else if ok then s.(reservations := s.reservations[id := s.reservations[id].(status := Sent)])
      else SendFailed(s, id, storeUp)
  }

  const START := System(map[], map[], [])

  function Run(steps: seq<Step>): System {
    if steps == [] then START else Next(Run(steps[..|steps| - 1]), steps[|steps| - 1])
  }

  // ----- what every run keeps

  /** Attempts come in the order of one clock, and reserve for some time. */
  ghost predicate Timely(steps: seq<Step>, now: int) {
    steps != [] ==>
      var step := steps[|steps| - 1];
      if step.Attempt? then step.at <= now && step.ttl > 0 && Timely(steps[..|steps| - 1], step.at)
      else Timely(steps[..|steps| - 1], now)
  }

  function Expiry(r: Reservation): int { r.at + r.ttl }

  function PlaceOf(s: System, r: Reservation): Cooldowns {
    if r.inStore then s.store else LocalOf(s, r.process)
  }

  /** A reservation is kept where it was made until it is deleted or, in memory, pruned after its time. */
  ghost predicate Kept(s: System, r: Reservation, now: int) {
    r.forgotten || Expiry(r) <= now
    || (r.fingerprint in PlaceOf(s, r) && Expiry(r) <= PlaceOf(s, r)[r.fingerprint])
  }

  ghost predicate AllKept(s: System, now: int) {
    forall i :: 0 <= i < |s.reservations| ==> Kept(s, s.reservations[i], now)
  }

  /** Reservation `id`, not forgotten, is the one an entry stands for. */
  ghost predicate Accounts(s: System, id: nat, inStore: bool, process: nat, fingerprint: string, expiry: int) {
    && id < |s.reservations|
    && var r := s.reservations[id];
       && !r.forgotten && r.fingerprint == fingerprint && Expiry(r) == expiry
       && r.inStore == inStore && (!inStore ==> r.process == process)
  }

  ghost predicate StoreAccounted(s: System) {
    forall f :: f in s.store ==> exists id: nat :: Accounts(s, id, true, 0, f, s.store[f])
  }

  ghost predicate LocalAccounted(s: System) {
    forall p, f :: f in LocalOf(s, p) ==> exists id: nat :: Accounts(s, id, false, p, f, LocalOf(s, p)[f])
  }

  /** A failed send leaves its reservation forgotten, or kept in the store. */
  ghost predicate FailuresForget(s: System) {
    forall i :: 0 <= i < |s.reservations| && s.reservations[i].status == Failed(false) ==> s.reservations[i].forgotten
  }

  lemma ClaimStaysAccounted(s: System, a: Step)
    requires StoreAccounted(s) && a.Attempt? && !Suppressed(s, a)
    ensures StoreAccounted(Reserved(s, a))
  {
    var t := Reserved(s, a);
    forall f | f in t.store ensures exists id: nat :: Accounts(t, id, true, 0, f, t.store[f]) {
      if a.storeUp && a.fingerprint == f {
        assert Accounts(t, |s.reservations|, true, 0, f, t.store[f]);
      } else {
        var id: nat :| Accounts(s, id, true, 0, f, s.store[f]);
        assert Accounts(t, id, true, 0, f, t.store[f]);
      }
    }
  }

  lemma StoreStaysAccounted(s: System, step: Step)
    requires StoreAccounted(s)
    ensures StoreAccounted(Next(s, step))
  {
    if step.Attempt? && !Suppressed(s, step) {
      ClaimStaysAccounted(s, step);
    } else if step.Finish? {
      var t := Next(s, step);
      forall f | f in t.store ensures exists id: nat :: Accounts(t, id, true, 0, f, t.store[f]) {
        var id: nat :| Accounts(s, id, true, 0, f, s.store[f]);
        assert Accounts(t, id, true, 0, f, t.store[f]);
      }
    }
  }

  lemma AttemptStaysAccounted(s: System, a: Step)
    requires LocalAccounted(s) && a.Attempt? && !Suppressed(s, a)
    ensures LocalAccounted(Reserved(s, a))
  {
    var t := Reserved(s, a);
    forall p, f | f in LocalOf(t, p) ensures exists id: nat :: Accounts(t, id, false, p, f, LocalOf(t, p)[f]) {
      if !a.storeUp && a.fingerprint == f && a.process == p {
        assert Accounts(t, |s.reservations|, false, p, f, LocalOf(t, p)[f]);
      } else {
        assert f in LocalOf(s, p) && LocalOf(t, p)[f] == LocalOf(s, p)[f];
        var id: nat :| Accounts(s, id, false, p, f, LocalOf(s, p)[f]);
        assert Accounts(t, id, false, p, f, LocalOf(t, p)[f]);
      }
    }
  }

  lemma LocalStaysAccounted(s: System, step: Step)
    requires LocalAccounted(s)
    ensures LocalAccounted(Next(s, step))
  {
    if step.Attempt? && !Suppressed(s, step) {
      AttemptStaysAccounted(s, step);
    } else if step.Finish? {
      var t := Next(s, step);
      forall p, f | f in LocalOf(t, p) ensures exists id: nat :: Accounts(t, id, false, p, f, LocalOf(t, p)[f]) {
        assert f in LocalOf(s, p) && LocalOf(t, p)[f] == LocalOf(s, p)[f];
        var id: nat :| Accounts(s, id, false, p, f, LocalOf(s, p)[f]);
        assert Accounts(t, id, false, p, f, LocalOf(t, p)[f]);
      }
    }
  }

  lemma AttemptKeepsAll(s: System, step: Step, now: int)
    requires AllKept(s, now) && step.Attempt? && now <= step.at && step.ttl > 0
    ensures AllKept(Next(s, step), step.at)
  {
    var t := Next(s, step);
    forall i | 0 <= i < |t.reservations| ensures Kept(t, t.reservations[i], step.at) {
      if i < |s.reservations| {
        assert Kept(s, s.reservations[i], now);
      }
    }
  }

  lemma FinishKeepsAll(s: System, step: Step, now: int)
    requires AllKept(s, now) && step.Finish?
    ensures AllKept(Next(s, step), now)
  {
    var t := Next(s, step);
    forall i | 0 <= i < |t.reservations| ensures Kept(t, t.reservations[i], now) {
      assert Kept(s, s.reservations[i], now);
    }
  }

  lemma LaterKeepsAll(s: System, now: int, later: int)
    requires AllKept(s, now) && now <= later
    ensures AllKept(s, later)
  {
    forall i | 0 <= i < |s.reservations| ensures Kept(s, s.reservations[i], later) {
      assert Kept(s, s.reservations[i], now);
    }
  }

  lemma {:induction false} RunKeepsAll(steps: seq<Step>, now: int)
    requires Timely(steps, now)
    ensures AllKept(Run(steps), now)
  {
    if steps == [] {
    } else {
      var before, step := steps[..|steps| - 1], steps[|steps| - 1];
      if step.Attempt? {
        RunKeepsAll(before, step.at);
        AttemptKeepsAll(Run(before), step, step.at);
        LaterKeepsAll(Run(steps), step.at, now);
      } else {
        RunKeepsAll(before, now);
        FinishKeepsAll(Run(before), step, now);
      }
    }
  }

  lemma {:induction false} EveryEntryAccounted(steps: seq<Step>)
    ensures StoreAccounted(Run(steps)) && LocalAccounted(Run(steps)) && FailuresForget(Run(steps))
  {
    if steps == [] {
    } else {
      EveryEntryAccounted(steps[..|steps| - 1]);
      StoreStaysAccounted(Run(steps[..|steps| - 1]), steps[|steps| - 1]);
      LocalStaysAccounted(Run(steps[..|steps| - 1]), steps[|steps| - 1]);
    }
  }

  // ----- when an alert is suppressed

  /**
   A reservation of the fingerprint, made where `a` looks, that nobody has forgotten and whose time has not run out.
   */
  ghost predicate Blocks(s: System, id: nat, a: Step)
    requires a.Attempt?
  {
    && id < |s.reservations|
    && var r := s.reservations[id];
       && r.fingerprint == a.fingerprint && !r.forgotten && a.at < Expiry(r)
       && r.inStore == a.storeUp && (!a.storeUp ==> r.process == a.process)
  }

  lemma BlocksExactly(s: System, a: Step)
    requires a.Attempt? && StoreAccounted(s) && LocalAccounted(s) && AllKept(s, a.at)
    ensures Suppressed(s, a) <==> exists id: nat :: Blocks(s, id, a)
  {
    if Suppressed(s, a) {
      if a.storeUp {
        var id: nat :| Accounts(s, id, true, 0, a.fingerprint, s.store[a.fingerprint]);
        assert Blocks(s, id, a);
      } else {
        var id: nat :| Accounts(s, id, false, a.process, a.fingerprint, LocalOf(s, a.process)[a.fingerprint]);
        assert Blocks(s, id, a);
      }
    }
    forall id: nat | Blocks(s, id, a) ensures Suppressed(s, a) {
      assert Kept(s, s.reservations[id], a.at);
    }
  }

  lemma {:induction false} OnlyStoreKeeps(steps: seq<Step>)
    ensures forall i :: 0 <= i < |Run(steps).reservations| && Run(steps).reservations[i].status == Failed(true) ==>
              Run(steps).reservations[i].inStore
  {
    if steps == [] {
    } else {
      OnlyStoreKeeps(steps[..|steps| - 1]);
    }
  }

  /**
   In every run of any number of workers an alert is suppressed if and only if a reservation of its fingerprint blocks
   it: one that was sent, is still being sent, or failed while the store missed its deletion.
   */
  lemma SuppressionIsAccounted(steps: seq<Step>, a: Step)
    requires a.Attempt? && Timely(steps, a.at)
    ensures Suppressed(Run(steps), a) <==> exists id: nat :: Blocks(Run(steps), id, a)
    ensures forall id: nat :: Blocks(Run(steps), id, a) ==>
              var r := Run(steps).reservations[id];
              r.status == Sent || r.status == InFlight || (a.storeUp && r.status == Failed(true))
  {
    EveryEntryAccounted(steps);
    RunKeepsAll(steps, a.at);
    BlocksExactly(Run(steps), a);
    OnlyStoreKeeps(steps);
  }

  ghost predicate Quiet(s: System) {
    forall id :: 0 <= id < |s.reservations| ==> !s.reservations[id].status.InFlight?
  }

  /** One worker at a time: every reservation is finished before the next attempt. */
  ghost predicate OneWorker(steps: seq<Step>) {
    steps != [] ==>
      && OneWorker(steps[..|steps| - 1])
      && (steps[|steps| - 1].Attempt? ==> Quiet(Run(steps[..|steps| - 1])))
  }

  predicate ReservedInStore(s: System, id: nat) { id < |s.reservations| && s.reservations[id].inStore }

  /** The undoing of a reservation made in the store always reaches the store. */
  ghost predicate StoreForgets(steps: seq<Step>) {
    steps != [] ==>
      && StoreForgets(steps[..|steps| - 1])
      && var step := steps[|steps| - 1];
         (step.Finish? && !step.ok && ReservedInStore(Run(steps[..|steps| - 1]), step.id) ==> step.storeUp)
  }

  lemma {:induction false} NothingKept(steps: seq<Step>)
    requires StoreForgets(steps)
    ensures forall id :: 0 <= id < |Run(steps).reservations| ==> Run(steps).reservations[id].status != Failed(true)
  {
    if steps == [] {
    } else {
      NothingKept(steps[..|steps| - 1]);
    }
  }

  /**
   With one worker and a store that forgets, an alert is suppressed only within the TTL of an earlier successful send.
   */
  lemma SuppressionImpliesDelivery(steps: seq<Step>, a: Step)
    requires a.Attempt? && Timely(steps, a.at)
    requires OneWorker(steps) && Quiet(Run(steps)) && StoreForgets(steps)
    ensures Suppressed(Run(steps), a) <==>
              exists id: nat :: Blocks(Run(steps), id, a) && Run(steps).reservations[id].status == Sent
  {
    SuppressionIsAccounted(steps, a);
    NothingKept(steps);
    if Suppressed(Run(steps), a) {
      var id: nat :| Blocks(Run(steps), id, a);
      assert Run(steps).reservations[id].status == Sent;
    }
  }

  // ----- when a duplicate passes

  predicate SamePlace(q: Reservation, r: Reservation) {
    q.inStore == r.inStore && (q.inStore || q.process == r.process)
  }

  /** A reservation within the time of an earlier one, in the same place and for the same fingerprint. */
  predicate IsEarly(q: Reservation, r: Reservation) {
    SamePlace(q, r) && q.fingerprint == r.fingerprint && r.at < Expiry(q)
  }

  ghost predicate EarlyMeansForgotten(s: System) {
    forall i, j :: 0 <= i < j < |s.reservations| && IsEarly(s.reservations[i], s.reservations[j]) ==>
      s.reservations[i].forgotten
  }

  lemma AttemptKeepsEarly(s: System, a: Step)
    requires EarlyMeansForgotten(s) && a.Attempt? && AllKept(s, a.at)
    ensures EarlyMeansForgotten(Next(s, a))
  {
    var t := Next(s, a);
    if !Suppressed(s, a) {
      var j := |s.reservations|;
      forall i | 0 <= i < j && IsEarly(t.reservations[i], t.reservations[j]) ensures t.reservations[i].forgotten {
        assert Kept(s, s.reservations[i], a.at);
      }
    }
  }

  /** What is forgotten stays so, and a reservation keeps its place, fingerprint and time. */
  lemma FinishKeepsEarly(s: System, step: Step)
    requires EarlyMeansForgotten(s) && step.Finish?
    ensures EarlyMeansForgotten(Next(s, step))
  {
    var t := Next(s, step);
    forall i, j | 0 <= i < j < |t.reservations| && IsEarly(t.reservations[i], t.reservations[j])
      ensures t.reservations[i].forgotten
    {
      assert IsEarly(s.reservations[i], s.reservations[j]);
    }
  }

  lemma {:induction false} RunKeepsEarly(steps: seq<Step>, now: int)
    requires Timely(steps, now)
    ensures EarlyMeansForgotten(Run(steps))
    ensures forall i :: 0 <= i < |Run(steps).reservations| ==> Run(steps).reservations[i].at <= now
  {
    if steps == [] {
    } else {
      var before, step := steps[..|steps| - 1], steps[|steps| - 1];
      if step.Attempt? {
        RunKeepsEarly(before, step.at);
        RunKeepsAll(before, step.at);
        AttemptKeepsEarly(Run(before), step);
      } else {
        RunKeepsEarly(before, now);
        FinishKeepsEarly(Run(before), step);
      }
    }
  }

  /**
   Any number of workers and places: a reservation within the time of an earlier one of its fingerprint in the same
   place was let through only because that one has been forgotten.
   */
  lemma EarlyRepeatsNeedForgetting(steps: seq<Step>, now: int, i: nat, j: nat)
    requires Timely(steps, now) && i < j < |Run(steps).reservations|
    requires IsEarly(Run(steps).reservations[i], Run(steps).reservations[j])
    ensures Run(steps).reservations[i].forgotten
  {
    RunKeepsEarly(steps, now);
  }

  /** The attempt looks where the reservation was made, for its fingerprint, and within its time. */
  predicate Repeats(q: Reservation, a: Step)
    requires a.Attempt?
  {
    q.fingerprint == a.fingerprint && a.at < Expiry(q)
    && q.inStore == a.storeUp && (!a.storeUp ==> q.process == a.process)
  }

  /** A reservation after number `i`, within its time and in its place, was let through. */
  ghost predicate HasRepeat(s: System, i: nat) {
    i < |s.reservations|
    && exists k: nat :: i < k < |s.reservations| && IsEarly(s.reservations[i], s.reservations[k])
  }

  /**
   Within the time of a reservation a repeat passes now, or has passed before, if and only if the reservation has been
   forgotten: for any number of workers and places, whatever became of the sends.
   */
  lemma RepeatsPassExactlyWhenForgotten(steps: seq<Step>, a: Step, i: nat)
    requires a.Attempt? && Timely(steps, a.at)
    requires i < |Run(steps).reservations| && Repeats(Run(steps).reservations[i], a)
    ensures !Suppressed(Run(steps), a) || HasRepeat(Run(steps), i) <==> Run(steps).reservations[i].forgotten
  {
    var s := Run(steps);
    RunKeepsEarly(steps, a.at);
    SuppressionIsAccounted(steps, a);
    if s.reservations[i].forgotten {
      if Suppressed(s, a) {
        var k: nat :| Blocks(s, k, a);
        assert k < i ==> IsEarly(s.reservations[k], s.reservations[i]);
        assert IsEarly(s.reservations[i], s.reservations[k]);
      }
    } else {
      assert Blocks(s, i, a);
    }
  }

  /** All attempts look in one place: in the store, or in the map of one process. */
  ghost predicate OnePlace(s: System) {
    forall i, j :: 0 <= i < |s.reservations| && 0 <= j < |s.reservations| ==>
      SamePlace(s.reservations[i], s.reservations[j])
  }

  predicate Apart(q: Reservation, r: Reservation) {
    q.status == Sent && q.fingerprint == r.fingerprint ==> Expiry(q) <= r.at
  }

  predicate EndedWhenForgotten(r: Reservation, now: int) {
    (r.status == Sent && r.forgotten ==> Expiry(r) <= now) && (r.status.InFlight? ==> !r.forgotten)
  }

  /** A later reservation of a fingerprint that was sent comes only after its TTL, and so did whatever deleted it. */
  ghost predicate Spaced(s: System, now: int) {
    && (forall i, j :: 0 <= i < j < |s.reservations| ==> Apart(s.reservations[i], s.reservations[j]))
    && (forall i :: 0 <= i < |s.reservations| ==> EndedWhenForgotten(s.reservations[i], now))
    && (forall i :: 0 <= i < |s.reservations| && s.reservations[i].status.InFlight? ==> i == |s.reservations| - 1)
    && (forall i :: 0 <= i < |s.reservations| ==> s.reservations[i].at <= now)
  }

  lemma AttemptKeepsSpaced(s: System, a: Step, now: int)
    requires Spaced(s, now) && AllKept(s, now) && OnePlace(Next(s, a)) && Quiet(s)
    requires a.Attempt? && now <= a.at && a.ttl > 0
    ensures Spaced(Next(s, a), a.at)
  {
    var t := Next(s, a);
    if !Suppressed(s, a) {
      forall i | 0 <= i < |s.reservations| ensures Apart(t.reservations[i], t.reservations[|s.reservations|]) {
        assert Kept(s, s.reservations[i], now) && EndedWhenForgotten(s.reservations[i], now);
        assert SamePlace(t.reservations[i], t.reservations[|s.reservations|]);
      }
    }
  }

  lemma FinishKeepsSpaced(s: System, step: Step, now: int)
    requires Spaced(s, now) && OnePlace(s) && step.Finish?
    ensures Spaced(Next(s, step), now)
  {
    var t, id := Next(s, step), step.id;
    if t != s {
      assert id == |s.reservations| - 1;
      forall i, j | 0 <= i < j < |t.reservations| ensures Apart(t.reservations[i], t.reservations[j]) {
        assert Apart(s.reservations[i], s.reservations[j]);
      }
      forall i | 0 <= i < |t.reservations| ensures EndedWhenForgotten(t.reservations[i], now) {
        assert EndedWhenForgotten(s.reservations[i], now);
        assert i < id ==> Apart(s.reservations[i], s.reservations[id]);
      }
    }
  }

  /** What was in one place in the end was in one place all along. */
  lemma OnePlaceBefore(s: System, step: Step)
    requires OnePlace(Next(s, step))
    ensures OnePlace(s)
  {
    var t := Next(s, step);
    forall i, j | 0 <= i < |s.reservations| && 0 <= j < |s.reservations|
      ensures SamePlace(s.reservations[i], s.reservations[j])
    {
      assert SamePlace(t.reservations[i], t.reservations[j]);
    }
  }

  lemma {:induction false} RunKeepsSpaced(steps: seq<Step>, now: int)
    requires Timely(steps, now) && OneWorker(steps) && OnePlace(Run(steps))
    ensures Spaced(Run(steps), now)
  {
    if steps == [] {
    } else {
      var before, step := steps[..|steps| - 1], steps[|steps| - 1];
      OnePlaceBefore(Run(before), step);
      if step.Attempt? {
        RunKeepsAll(before, step.at);
        RunKeepsSpaced(before, step.at);
        AttemptKeepsSpaced(Run(before), step, step.at);
      } else {
        RunKeepsSpaced(before, now);
        FinishKeepsSpaced(Run(before), step, now);
      }
    }
  }

  /** Two sends of one fingerprint in one place are the first's TTL apart unless that one has been forgotten. */
  lemma SentAlertsAreSpaced(steps: seq<Step>, now: int, i: nat, j: nat)
    requires Timely(steps, now)
    requires var rs := Run(steps).reservations;
             && i < j < |rs| && rs[i].status == rs[j].status == Sent && rs[i].fingerprint == rs[j].fingerprint
             && SamePlace(rs[i], rs[j])
    ensures var rs := Run(steps).reservations; rs[j].at >= rs[i].at + rs[i].ttl || rs[i].forgotten
  {
    RunKeepsEarly(steps, now);
    assert !IsEarly(Run(steps).reservations[i], Run(steps).reservations[j]) || Run(steps).reservations[i].forgotten;
  }

  /** With one worker and one place to look they always are. */
  lemma OneWorkerSpacesSentAlerts(steps: seq<Step>, now: int, i: nat, j: nat)
    requires Timely(steps, now) && OneWorker(steps) && OnePlace(Run(steps))
    requires var rs := Run(steps).reservations;
             i < j < |rs| && rs[i].status == rs[j].status == Sent && rs[i].fingerprint == rs[j].fingerprint
    ensures var rs := Run(steps).reservations; rs[j].at >= rs[i].at + rs[i].ttl
  {
    RunKeepsSpaced(steps, now);
    assert Apart(Run(steps).reservations[i], Run(steps).reservations[j]);
  }

  // ----- what goes wrong otherwise

  /** Two workers: the second alert is suppressed by a send that then fails, and neither is delivered. */
  lemma ConcurrentSuppressionCanLoseAlerts()
    ensures var steps := [Attempt(0, "f", 60, 0, true), Attempt(0, "f", 60, 1, true), Finish(0, false, true)];
            && Suppressed(Run(steps[..1]), steps[1])
            && forall id :: 0 <= id < |Run(steps).reservations| ==> Run(steps).reservations[id].status != Sent
  {
    var a, b, c := Attempt(0, "f", 60, 0, true), Attempt(0, "f", 60, 1, true), Finish(0, false, true);
    assert [a, b, c][..2] == [a, b] && [a, b, c][..1] == [a] && [a, b][..1] == [a] && [a][..0] == [];
    assert Run([a]).store == map["f" := 60];
    assert Run([a, b]) == Run([a]);
    assert Run([a, b, c]) == Next(Run([a]), c);
  }

  /** One worker, but the store misses the deletion: the alert stays suppressed although nothing was delivered. */
  lemma KeptReservationCanLoseAlerts()
    ensures var steps := [Attempt(0, "f", 60, 0, true), Finish(0, false, false)];
            && OneWorker(steps) && Quiet(Run(steps)) && Suppressed(Run(steps), Attempt(0, "f", 60, 1, true))
            && forall id :: 0 <= id < |Run(steps).reservations| ==> Run(steps).reservations[id].status != Sent
  {
    var a, b := Attempt(0, "f", 60, 0, true), Finish(0, false, false);
    assert [a, b][..1] == [a] && [a, b][..0] == [] && [a][..0] == [];
    assert Run([a]).store == map["f" := 60];
    assert Run([a, b]) == Next(Run([a]), b);
  }

  lemma OneMore(steps: seq<Step>, step: Step, now: int)
    ensures Run(steps + [step]) == Next(Run(steps), step)
    ensures Timely(steps + [step], now) <==>
              if step.Attempt? then step.at <= now && step.ttl > 0 && Timely(steps, step.at) else Timely(steps, now)
    ensures OneWorker(steps + [step]) <==> OneWorker(steps) && (step.Attempt? ==> Quiet(Run(steps)))
  {
    assert (steps + [step])[..|steps|] == steps;
  }

  /** Whoever else holds the fingerprint in the store, a failed send deletes it. */
  lemma FailureClearsTheWay(s: System, id: nat, a: Step)
    requires id < |s.reservations| && s.reservations[id].status.InFlight?
    requires a.Attempt? && a.storeUp && a.fingerprint == s.reservations[id].fingerprint
    ensures !Suppressed(Next(s, Finish(id, false, true)), a)
  {
  }

  const SLOW := [Attempt(0, "f", 60, 0, true)] + [Attempt(1, "f", 60, 60, true)] + [Finish(1, true, true)]

  lemma SlowSendInFlight()
    ensures Timely(SLOW, 61)
    ensures var rs := Run(SLOW).reservations;
            && |rs| == 2 && rs[0] == Reservation(0, true, "f", 0, 60, InFlight, false)
            && rs[1] == Reservation(1, true, "f", 60, 60, Sent, false)
  {
    var a, b, c := Attempt(0, "f", 60, 0, true), Attempt(1, "f", 60, 60, true), Finish(1, true, true);
    assert [] + [a] == [a];
    OneMore([], a, 60);
    OneMore([a], b, 61);
    OneMore([a] + [b], c, 61);
    assert Run([a]).store == map["f" := 60] && |Run([a]).reservations| == 1;
  }

  /** Two workers: a slow failing send deletes another worker's later reservation, and a duplicate passes in its TTL. */
  lemma SlowFailureLetsADuplicatePass()
    ensures var steps := SLOW + [Finish(0, false, true)];
            && Timely(steps, 61) && OnePlace(Run(steps))
            && |Run(steps).reservations| == 2 && Run(steps).reservations[1].status == Sent
            && Run(steps).reservations[1].at == 60 && !Suppressed(Run(steps), Attempt(0, "f", 60, 61, true))
  {
    SlowSendInFlight();
    OneMore(SLOW, Finish(0, false, true), 61);
    FailureClearsTheWay(Run(SLOW), 0, Attempt(0, "f", 60, 61, true));
  }

  const OUTAGE := [Attempt(0, "f", 60, 0, true)] + [Finish(0, true, true)] + [Attempt(0, "f", 60, 10, false)]

  lemma OutageInFlight()
    ensures Timely(OUTAGE, 20) && OneWorker(OUTAGE)
    ensures var rs := Run(OUTAGE).reservations;
            && |rs| == 2 && rs[0] == Reservation(0, true, "f", 0, 60, Sent, false)
            && rs[1] == Reservation(0, false, "f", 10, 60, InFlight, false)
  {
    var a, b, c := Attempt(0, "f", 60, 0, true), Finish(0, true, true), Attempt(0, "f", 60, 10, false);
    assert [] + [a] == [a];
    OneMore([], a, 10);
    OneMore([a], b, 10);
    OneMore([a] + [b], c, 20);
    assert Run([a]).store == map["f" := 60] && |Run([a]).reservations| == 1;
    assert Run([a] + [b]).reservations[0].status == Sent && LocalOf(Run([a] + [b]), 0) == map[];
  }

  /** One worker, but the store is away for one alert: its failure deletes what an earlier send had reserved there. */
  lemma StoreOutageLetsADuplicatePass()
    ensures var steps := OUTAGE + [Finish(1, false, true)];
            && Timely(steps, 20) && OneWorker(steps) && Quiet(Run(steps))
            && |Run(steps).reservations| == 2 && Run(steps).reservations[0].status == Sent
            && !Suppressed(Run(steps), Attempt(0, "f", 60, 20, true))
  {
    OutageInFlight();
    OneMore(OUTAGE, Finish(1, false, true), 20);
    FailureClearsTheWay(Run(OUTAGE), 1, Attempt(0, "f", 60, 20, true));
  }
}
