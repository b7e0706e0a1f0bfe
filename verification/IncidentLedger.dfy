/**
 Every recorded event is accounted for, in every interleaving of recording, releasing, closing, expiry and publishing by
 any number of workers and replicas (keydb/keydb.go, incident.go). The ledger counts events beside the store, and gives
 every incarnation of an incident a number of its own.
 */
module IncidentLedger {
  import opened Incidents
  import opened Picking

  datatype Step =
    | Record(name: string, event: Event, now: int, quiet: int, reminderEvery: int)
    | Release(name: string, count: int)
    | Close(name: string, cutoff: int, max: int)
    | Expire(name: string)
    | Drop(number: nat)

  /**
   `serial` numbers the live incarnations, `next` is the first unused number, `pushed` lists the numbers that entered
   the outbox, in order, and `trimmed`, `dropped` and `expired` count events of closed incidents that the cap cut off,
   that were dropped after publication, and of live ones whose hash expired.
   */
  datatype Ledger = Ledger(
    store: Store, serial: map<string, nat>, next: nat, pushed: seq<nat>,
    recorded: nat, trimmed: nat, dropped: nat, expired: nat)

  const START := Ledger(EMPTY, map[], 0, [], 0, 0, 0, 0)

  // ----- totals

  ghost function Live(m: map<string, Incident>): nat
    decreases |m|
  {
    if m == map[] then 0
    else
      var n :| n in m;
      m[n].count + Live(m - {n})
  }

  function Queued(q: seq<Closed>): nat {
    if q == [] then 0 else q[0].incident.count + Queued(q[1..])
  }

  lemma {:induction false} LiveWithout(m: map<string, Incident>, n: string)
    requires n in m
    ensures Live(m) == m[n].count + Live(m - {n})
    decreases |m|
  {
    var k :| k in m && Live(m) == m[k].count + Live(m - {k});
    if k != n {
      LiveWithout(m - {k}, n);
      LiveWithout(m - {n}, k);
      assert m - {k} - {n} == m - {n} - {k};
    }
  }

  lemma LiveWith(m: map<string, Incident>, n: string, i: Incident)
    ensures Live(m[n := i]) == Live(m - {n}) + i.count
  {
    LiveWithout(m[n := i], n);
    assert m[n := i] - {n} == m - {n};
  }

  lemma {:induction false} QueuedSplit(q: seq<Closed>, k: nat)
    requires k <= |q|
    ensures Queued(q) == Queued(q[..k]) + Queued(q[k..])
  {
    if k > 0 {
      QueuedSplit(q[1..], k - 1);
      assert q[..k][1..] == q[1..][..k - 1] && q[1..][k - 1..] == q[k..];
    } else {
      assert q[..k] == [] && q[k..] == q;
    }
  }

  lemma {:induction false} QueuedSnoc(q: seq<Closed>, c: Closed)
    ensures Queued(q + [c]) == Queued(q) + c.incident.count
  {
    QueuedSplit(q + [c], |q|);
    assert (q + [c])[..|q|] == q && (q + [c])[|q|..] == [c];
  }

  // ----- steps

  /** What leaves the front of `from` when only `to`, the end of it, stays. */
  function Cut(from: seq<Closed>, to: seq<Closed>): nat
    requires |to| <= |from|
  {
    Queued(from[..|from| - |to|])
  }

  function Next(l: Ledger, step: Step): Ledger {
    match step
    case Record(n, e, now, quiet, r) =>
      var born := n !in l.store.incidents;
      l.(store := Recorded(l.store, n, e, now, quiet, r), recorded := l.recorded + 1,
         serial := if born then l.serial[n := l.next] else l.serial,
         next := if born then l.next + 1 else l.next)
    case Release(n, c) => l.(store := Released(l.store, n, c))
    case Close(n, cutoff, max) =>
      if !Closes(l.store, n, cutoff) then l
      else
        var t := CloseIncident(l.store, n, cutoff, max);
        l.(store := t, serial := l.serial - {n},
           pushed := if n in l.serial then l.pushed + [l.serial[n]] else l.pushed,
           trimmed := l.trimmed + Cut(l.store.outbox + [Closed(n, l.store.incidents[n])], t.outbox))
    case Expire(n) =>
      if n !in l.store.incidents then l
      else
        l.(store := Expired(l.store, n), serial := l.serial - {n},
           expired := l.expired + l.store.incidents[n].count)
    case Drop(k) =>
      var t := Dropped(l.store, k);
      l.(store := t, dropped := l.dropped + Cut(l.store.outbox, t.outbox))
  }

  function Run(steps: seq<Step>): Ledger {
    if steps == [] then START else Next(Run(steps[..|steps| - 1]), steps[|steps| - 1])
  }

  // ----- conservation

  ghost predicate Balanced(l: Ledger) {
    l.recorded == Live(l.store.incidents) + Queued(l.store.outbox) + l.trimmed + l.dropped + l.expired
  }

  lemma RecordBalances(l: Ledger, step: Step)
    requires Balanced(l) && step.Record?
    ensures Balanced(Next(l, step))
  {
    var m, n := l.store.incidents, step.name;
    var i := Absorb(Current(l.store, n, step.event), step.event, EffectiveReminder(step.reminderEvery));
    LiveWith(m, n, i);
    if n in m {
      LiveWithout(m, n);
    } else {
      assert m - {n} == m;
    }
  }

  lemma ReleaseBalances(l: Ledger, step: Step)
    requires Balanced(l) && step.Release?
    ensures Balanced(Next(l, step))
  {
    var m, n := l.store.incidents, step.name;
    if n in m {
      LiveWithout(m, n);
      LiveWith(m, n, Incidents.Release(m[n], step.count));
    }
  }

  lemma CloseBalances(l: Ledger, step: Step)
    requires Balanced(l) && step.Close?
    ensures Balanced(Next(l, step))
  {
    var n := step.name;
    if Closes(l.store, n, step.cutoff) {
      LiveWithout(l.store.incidents, n);
      var c := Closed(n, l.store.incidents[n]);
      var q, kept := l.store.outbox + [c], LastOf(l.store.outbox + [c], EffectiveMax(step.max));
      QueuedSnoc(l.store.outbox, c);
      QueuedSplit(q, |q| - |kept|);
    }
  }

  lemma ExpireBalances(l: Ledger, step: Step)
    requires Balanced(l) && step.Expire?
    ensures Balanced(Next(l, step))
  {
    if step.name in l.store.incidents {
      LiveWithout(l.store.incidents, step.name);
    }
  }

  lemma DropBalances(l: Ledger, step: Step)
    requires Balanced(l) && step.Drop?
    ensures Balanced(Next(l, step))
  {
    var t := Dropped(l.store, step.number);
    QueuedSplit(l.store.outbox, |l.store.outbox| - |t.outbox|);
  }

  /** Events recorded = live + in the outbox + trimmed by the cap + dropped after publication + lost to expiry. */
  lemma {:induction false} EventsAreConserved(steps: seq<Step>)
    ensures Balanced(Run(steps))
  {
    if steps == [] {
    } else {
      var l, step := Run(steps[..|steps| - 1]), steps[|steps| - 1];
      EventsAreConserved(steps[..|steps| - 1]);
      match step
      case Record(_, _, _, _, _) => RecordBalances(l, step);
      case Release(_, _) => ReleaseBalances(l, step);
      case Close(_, _, _) => CloseBalances(l, step);
      case Expire(_) => ExpireBalances(l, step);
      case Drop(_) => DropBalances(l, step);
    }
  }

  // ----- what the ledger watches

  /** One step of the store on its own. */
  function StoreNext(s: Store, step: Step): Store {
    match step
    case Record(n, e, now, quiet, r) => Recorded(s, n, e, now, quiet, r)
    case Release(n, c) => Released(s, n, c)
    case Close(n, cutoff, max) => CloseIncident(s, n, cutoff, max)
    case Expire(n) => Expired(s, n)
    case Drop(k) => Dropped(s, k)
  }

  function StoreAfter(steps: seq<Step>): Store {
    if steps == [] then EMPTY else StoreNext(StoreAfter(steps[..|steps| - 1]), steps[|steps| - 1])
  }

  ghost function Recording(steps: seq<Step>): nat -> bool { (p: nat) => p < |steps| && steps[p].Record? }

  lemma NextWatches(l: Ledger, step: Step)
    requires l.store.expireAt.Keys == l.store.incidents.Keys
    ensures var t := Next(l, step);
            && t.store == StoreNext(l.store, step) && t.store.expireAt.Keys == t.store.incidents.Keys
            && t.recorded == l.recorded + (if step.Record? then 1 else 0)
            && (!step.Close? ==> t.trimmed == l.trimmed && t.pushed == l.pushed)
            && (!step.Drop? ==> t.dropped == l.dropped) && (!step.Expire? ==> t.expired == l.expired)
  {
    if step.Expire? && step.name !in l.store.incidents {
      assert l.store.incidents - {step.name} == l.store.incidents;
      assert l.store.expireAt - {step.name} == l.store.expireAt;
    }
  }

  /** The ledger steps with the store and counts every record, and each kind of loss needs its kind of step. */
  lemma {:induction false} LedgerWatchesTheStore(steps: seq<Step>)
    ensures var l := Run(steps);
            && l.store == StoreAfter(steps) && l.store.expireAt.Keys == l.store.incidents.Keys
            && l.recorded == |Picked(|steps|, Recording(steps))|
            && ((forall k :: 0 <= k < |steps| ==> !steps[k].Close?) ==> l.trimmed == 0 && l.pushed == [])
            && ((forall k :: 0 <= k < |steps| ==> !steps[k].Drop?) ==> l.dropped == 0)
            && ((forall k :: 0 <= k < |steps| ==> !steps[k].Expire?) ==> l.expired == 0)
  {
    if steps == [] {
    } else {
      var before, step := steps[..|steps| - 1], steps[|steps| - 1];
      LedgerWatchesTheStore(before);
      NextWatches(Run(before), step);
      PickedAlike(|before|, Recording(before), Recording(steps));
      assert forall k :: 0 <= k < |before| ==> before[k] == steps[k];
    }
  }

  // ----- incarnations

  /** No number is used twice, neither by two live incarnations nor by two pushed ones nor by one of each. */
  ghost predicate Unique(serial: map<string, nat>, pushed: seq<nat>, next: nat) {
    && (forall n :: n in serial ==> serial[n] < next && serial[n] !in pushed)
    && (forall m, n :: m in serial && n in serial && m != n ==> serial[m] != serial[n])
    && (forall k :: k in pushed ==> k < next)
    && (forall i, j :: 0 <= i < j < |pushed| ==> pushed[i] != pushed[j])
  }

  ghost predicate Numbered(l: Ledger) {
    && Indexed(l.store)
    && l.serial.Keys == l.store.incidents.Keys
    && Unique(l.serial, l.pushed, l.next)
    && |l.store.outbox| <= |l.pushed|
  }

  lemma RecordNumbers(l: Ledger, step: Step)
    requires Numbered(l) && step.Record?
    ensures Numbered(Next(l, step))
  {
    RecordKeepsIndexed(l.store, step.name, step.event, step.now, step.quiet, step.reminderEvery);
  }

  lemma PushUnique(serial: map<string, nat>, pushed: seq<nat>, next: nat, n: string)
    requires Unique(serial, pushed, next) && n in serial
    ensures Unique(serial - {n}, pushed + [serial[n]], next)
  {
  }

  lemma CloseNumbers(l: Ledger, step: Step)
    requires Numbered(l) && step.Close?
    ensures Numbered(Next(l, step))
  {
    if Closes(l.store, step.name, step.cutoff) {
      CloseKeepsIndexed(l.store, step.name, step.cutoff, step.max);
      PushUnique(l.serial, l.pushed, l.next, step.name);
    }
  }

  lemma OthersNumber(l: Ledger, step: Step)
    requires Numbered(l) && !step.Record? && !step.Close?
    ensures Numbered(Next(l, step))
  {
    match step
    case Release(n, c) => ReleaseKeepsIndexed(l.store, n, c, 0);
    case Expire(n) => CloseKeepsIndexed(l.store, n, 0, 1);
    case Drop(k) => ReleaseKeepsIndexed(l.store, "", 0, k);
  }

  /**
   However many replicas sweep, each incarnation enters the outbox at most once, live incarnations have not entered it,
   and in every reachable store each live incident is indexed under its last_seen.
   */
  lemma {:induction false} IncarnationsCloseOnce(steps: seq<Step>)
    ensures Numbered(Run(steps))
  {
    if steps == [] {
    } else {
      var l, step := Run(steps[..|steps| - 1]), steps[|steps| - 1];
      IncarnationsCloseOnce(steps[..|steps| - 1]);
      match step
      case Record(_, _, _, _, _) => RecordNumbers(l, step);
      case Close(_, _, _) => CloseNumbers(l, step);
      case _ => OthersNumber(l, step);
    }
  }
}
