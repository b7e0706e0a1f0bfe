/**
 Publication of recoveries from the durable outbox (incident.go, keydb/keydb.go): peek, send item by item, drop what was
 delivered. Closing goes on pushing meanwhile, under a cap that may cut off the front at any moment, and the publisher
 can crash at any point.
 */
module Outbox {
  import opened Incidents

  /**
   An object whose host or process table is empty is encoded as an object where a list is expected, so decoding fails
   and the item is dropped unsent.
   */
  predicate Decodable(c: Closed) {
    c.incident.hosts != {} && c.incident.processes != {}
  }

  lemma SomeNamed(i: Incident, events: seq<Event>)
    requires events != [] && Remembers(i, events)
    ensures i.hosts != {} <==> exists e :: e in events && e.host != ""
    ensures i.processes != {} <==> exists e :: e in events && e.process != ""
  {
    if e :| e in events && e.host != "" {
      assert e.host in i.hosts;
    }
    if e :| e in events && e.process != "" {
      assert e.process in i.processes;
    }
    if x :| x in i.hosts {
      var k :| 0 <= k < |events| && events[k].host != "" && events[k].host == x;
    }
    if x :| x in i.processes {
      var k :| 0 <= k < |events| && events[k].process != "" && events[k].process == x;
    }
  }

  /** Exactly the incidents that saw a host in some event and a process in some event can be announced as quiet. */
  lemma DecodableIncarnations(name: string, first: Event, ops: seq<Op>, reminderEvery: int)
    ensures var events := [first] + Events(ops);
            Decodable(Closed(name, Incarnation(first, ops, reminderEvery))) <==>
              && (exists e :: e in events && e.host != "")
              && (exists e :: e in events && e.process != "")
  {
    IncarnationSummarisesItsEvents(first, ops, reminderEvery);
    SomeNamed(Incarnation(first, ops, reminderEvery), [first] + Events(ops));
  }

  // ----- one publisher, any number of pushers

  const BATCH := 20

  /**
   A publisher peeked `size` items from position `base` on and got past `done` of them; `Finishing` has stopped sending
   and is about to drop them.
   */
  datatype Publisher = Resting | Sending(base: nat, size: nat, done: nat) | Finishing(base: nat, done: nat)

  /**
   `pushed` is everything that ever entered the outbox and `head` the position of its first remaining item; `sent`
   lists the positions sent successfully, in order; `trimmed` holds those the cap cut off, `retired` those the
   publisher had got past when it dropped, and `lost` those a drop removed although it had not.
   */
  datatype System = System(
    pushed: seq<Closed>, head: nat, publisher: Publisher, sent: seq<nat>,
    trimmed: set<nat>, retired: set<nat>, lost: set<nat>)

  datatype Step =
    | Push(item: Closed, max: int)
    | Peek
    | Skip
    | SendSucceeds
    | SendFails
    | AllSent
    | DropDelivered
    | DropFails
    | Crash

  const START := System([], 0, Resting, [], {}, {}, {})

  function Contents(s: System): seq<Closed>
    requires s.head <= |s.pushed|
  {
    s.pushed[s.head..]
  }

  /** The positions from `a` up to but not including `b`. */
  function Range(a: nat, b: nat): (r: set<nat>)
    ensures forall j :: j in r <==> a <= j < b
    decreases b - a
  {
    if a >= b then {} else {a} + Range(a + 1, b)
  }

  function Larger(a: nat, b: nat): nat { if a >= b then a else b }

  function Smaller(a: nat, b: nat): nat { if a <= b then a else b }

  /** Where the outbox begins after one more push. */
  function HeadAfterPush(s: System, max: int): nat {
    if |s.pushed| + 1 - s.head <= EffectiveMax(max) then s.head else |s.pushed| + 1 - EffectiveMax(max)
  }

  /** Where it begins after the drop. */
  function HeadAfterDrop(s: System): nat
    requires s.publisher.Finishing?
  {
    Smaller(s.head + s.publisher.done, |s.pushed|)
  }

  predicate AtItem(s: System, decodable: bool) {
    && s.publisher.Sending? && s.publisher.done < s.publisher.size
    && s.publisher.base + s.publisher.done < |s.pushed|
    && Decodable(s.pushed[s.publisher.base + s.publisher.done]) == decodable
  }

  function GotPast(p: Publisher): Publisher
    requires p.Sending?
  {
    Sending(p.base, p.size, p.done + 1)
  }

  /** One step; a step that cannot happen in `s` changes nothing. */
  function Next(s: System, step: Step): System {
    match step
    case Push(c, max) =>
      s.(pushed := s.pushed + [c], head := HeadAfterPush(s, max),
         trimmed := s.trimmed + Range(s.head, HeadAfterPush(s, max)))
    case Peek =>
      if s.publisher.Resting? && s.head < |s.pushed| then
        s.(publisher := Sending(s.head, Smaller(|s.pushed| - s.head, BATCH), 0))
      else s
    case Skip => if AtItem(s, false) then s.(publisher := GotPast(s.publisher)) else s
    case SendSucceeds =>
      if AtItem(s, true) then
        s.(publisher := GotPast(s.publisher), sent := s.sent + [s.publisher.base + s.publisher.done])
      else s
    case SendFails =>
      if AtItem(s, true) then s.(publisher := Finishing(s.publisher.base, s.publisher.done)) else s
    case AllSent =>
      if s.publisher.Sending? && s.publisher.done == s.publisher.size then
        s.(publisher := Finishing(s.publisher.base, s.publisher.done))
      else s
    case DropDelivered =>
      if s.publisher.Finishing? then
        s.(head := HeadAfterDrop(s), publisher := Resting,
           retired := s.retired + Range(s.publisher.base, s.publisher.base + s.publisher.done),
           lost := s.lost + Range(Larger(s.head, s.publisher.base + s.publisher.done), HeadAfterDrop(s)))
      else s
    case DropFails => if s.publisher.Finishing? && s.publisher.done > 0 then s.(publisher := Resting) else s
    case Crash => s.(publisher := Resting)
  }

  function RunFrom(s: System, steps: seq<Step>): System {
    if steps == [] then s else Next(RunFrom(s, steps[..|steps| - 1]), steps[|steps| - 1])
  }

  function Run(steps: seq<Step>): System { RunFrom(START, steps) }

  /** Steps of the publisher alone, each of which takes effect. */
  ghost predicate Works(s: System, steps: seq<Step>) {
    forall i :: 0 <= i < |steps| ==>
      !steps[i].Push? && !steps[i].Crash? && Next(RunFrom(s, steps[..i]), steps[i]) != RunFrom(s, steps[..i])
  }

  lemma WorksOn(s: System, steps: seq<Step>, step: Step)
    requires Works(s, steps) && !step.Push? && !step.Crash? && Next(RunFrom(s, steps), step) != RunFrom(s, steps)
    ensures Works(s, steps + [step]) && RunFrom(s, steps + [step]) == Next(RunFrom(s, steps), step)
  {
    var more := steps + [step];
    assert more[..|steps|] == steps;
    assert forall i :: 0 <= i < |steps| ==> more[..i] == steps[..i];
  }

  /** A push does to the outbox what closing an incident does to it, and the drop what the store's command does. */
  lemma StepsAreTheStores(s: System, store: Store, name: string, cutoff: int, max: int)
    requires s.head <= |s.pushed| && store.outbox == Contents(s)
    ensures Closes(store, name, cutoff) ==>
              var t := Next(s, Push(Closed(name, store.incidents[name]), max));
              t.head <= |t.pushed| && CloseIncident(store, name, cutoff, max).outbox == Contents(t)
    ensures s.publisher.Finishing? ==>
              var t := Next(s, DropDelivered);
              t.head <= |t.pushed| && Dropped(store, s.publisher.done).outbox == Contents(t)
  {
  }

  // ----- what every run keeps

  /** The first position the publisher has not dealt with since it last rested. */
  function Reached(s: System): nat {
    match s.publisher
    case Resting => s.head
    case Sending(base, _, done) => base + done
    case Finishing(base, done) => base + done
  }

  /** Position `j` needs no sending beyond what `sent` records. */
  ghost predicate Settled(s: System, j: nat, sent: seq<nat>) {
    j in s.trimmed || j in s.lost || (j < |s.pushed| && !Decodable(s.pushed[j])) || j in sent
  }

  /** While it works, the head only moves when the cap cuts, which leaves the newly pushed items behind the batch. */
  ghost predicate Working(s: System, base: nat, size: nat, done: nat) {
    && 0 < size && done <= size && base + size <= |s.pushed| && base <= s.head < |s.pushed|
    && (s.head > base ==> base + size < |s.pushed|)
    && (forall j :: base <= j < s.head ==> j in s.trimmed)
    && (forall j :: j in s.lost || j in s.retired ==> j < base)
  }

  ghost predicate WorkInv(s: System) {
    && s.head <= |s.pushed|
    && (forall j :: j in s.trimmed || j in s.lost || j in s.retired ==> j < s.head)
    && match s.publisher
       case Resting => true
       case Sending(base, size, done) => Working(s, base, size, done)
       case Finishing(base, done) => exists size: nat :: Working(s, base, size, done)
  }

  lemma StepKeepsWork(s: System, step: Step)
    requires WorkInv(s)
    ensures WorkInv(Next(s, step))
  {
    var t := Next(s, step);
    if s.publisher.Sending? && t.publisher.Finishing? {
      assert Working(t, s.publisher.base, s.publisher.size, s.publisher.done);
    } else if s.publisher.Finishing? && t.publisher.Finishing? {
      var size: nat :| Working(s, s.publisher.base, size, s.publisher.done);
      assert Working(t, s.publisher.base, size, s.publisher.done);
    }
  }

  lemma {:induction false} RunKeepsWork(steps: seq<Step>)
    ensures WorkInv(Run(steps))
  {
    if steps == [] {
    } else {
      RunKeepsWork(steps[..|steps| - 1]);
      StepKeepsWork(Run(steps[..|steps| - 1]), steps[|steps| - 1]);
    }
  }

  /** Everything before the point the publisher has reached, and everything gone, is settled. */
  ghost predicate SettledInv(s: System) {
    && (forall j: nat :: j < s.head || j < Reached(s) ==> Settled(s, j, s.sent))
    && (forall p: nat, j: nat :: p < |s.sent| && j < s.sent[p] ==> Settled(s, j, s.sent[..p]))
    && (forall p: nat :: p < |s.sent| ==> s.sent[p] < |s.pushed| && Decodable(s.pushed[s.sent[p]]))
  }

  lemma SendKeepsSettled(s: System)
    requires WorkInv(s) && SettledInv(s) && AtItem(s, true)
    ensures SettledInv(Next(s, SendSucceeds))
  {
    var t := Next(s, SendSucceeds);
    var at := s.publisher.base + s.publisher.done;
    assert t.sent[|s.sent|] == at;
    forall j: nat | j < t.head || j < Reached(t) ensures Settled(t, j, t.sent) {
      assert j != at ==> Settled(s, j, s.sent);
    }
    forall p: nat, j: nat | p < |t.sent| && j < t.sent[p] ensures Settled(t, j, t.sent[..p]) {
      if p < |s.sent| {
        assert Settled(s, j, s.sent[..p]) && t.sent[..p] == s.sent[..p];
      } else {
        assert Settled(s, j, s.sent) && t.sent[..p] == s.sent;
      }
    }
  }

  /**
   Without a send, settled positions stay settled, and those that leave are trimmed or lost if they were not settled.
   */
  lemma OtherKeepsSettled(s: System, step: Step)
    requires WorkInv(s) && SettledInv(s) && !step.SendSucceeds?
    ensures SettledInv(Next(s, step))
  {
    var t := Next(s, step);
    forall j: nat | j < t.head || j < Reached(t) ensures Settled(t, j, t.sent) {
      assert j < s.head || j < Reached(s) ==> Settled(s, j, s.sent);
    }
    forall p: nat, j: nat | p < |t.sent| && j < t.sent[p] ensures Settled(t, j, t.sent[..p]) {
      assert Settled(s, j, s.sent[..p]);
    }
  }

  lemma {:induction false} RunKeepsSettled(steps: seq<Step>)
    ensures WorkInv(Run(steps)) && SettledInv(Run(steps))
  {
    if steps == [] {
    } else {
      var s, step := Run(steps[..|steps| - 1]), steps[|steps| - 1];
      RunKeepsSettled(steps[..|steps| - 1]);
      StepKeepsWork(s, step);
      if step.SendSucceeds? && AtItem(s, true) {
        SendKeepsSettled(s);
      } else if !step.SendSucceeds? {
        OtherKeepsSettled(s, step);
      }
    }
  }

  /**
   In order, in every run: what has left the outbox was sent, could not be decoded, was trimmed by the cap or was lost
   to a drop; and an item is sent only when every earlier one already was, could not be decoded, or was trimmed or
   lost.
   */
  lemma PublicationIsFifo(steps: seq<Step>)
    ensures var s := Run(steps);
            && s.head <= |s.pushed|
            && (forall j: nat :: j < s.head ==> Settled(s, j, s.sent))
            && (forall p: nat, j: nat :: p < |s.sent| && j < s.sent[p] ==> Settled(s, j, s.sent[..p]))
            && (forall p: nat :: p < |s.sent| ==> s.sent[p] < |s.pushed| && Decodable(s.pushed[s.sent[p]]))
  {
    RunKeepsSettled(steps);
  }

  // ----- what a drop removes

  ghost predicate Delivered(s: System, j: nat) {
    j < |s.pushed| && (!Decodable(s.pushed[j]) || j in s.sent)
  }

  /** When nothing was cut since the peek, the items to drop are the first ones, and need no more sending. */
  lemma PrefixIsDelivered(s: System)
    requires WorkInv(s) && SettledInv(s) && s.publisher.Finishing? && s.head == s.publisher.base
    ensures forall j: nat :: s.head <= j < s.head + s.publisher.done ==> Delivered(s, j)
  {
    forall j: nat | s.head <= j < s.head + s.publisher.done ensures Delivered(s, j) {
      assert Settled(s, j, s.sent);
    }
  }

  lemma DropCuts(s: System)
    requires WorkInv(s) && s.publisher.Finishing?
    ensures var t := Next(s, DropDelivered);
            t.head <= |t.pushed| && Contents(t) == Contents(s)[Smaller(s.publisher.done, |Contents(s)|)..]
  {
  }

  /**
   A drop leaves the old contents minus as many items as the publisher got past, plus what was pushed meanwhile; when
   nothing was cut since the peek, those are the delivered ones.
   */
  lemma DropRemovesTheDeliveredPrefix(steps: seq<Step>)
    requires Run(steps).publisher.Finishing?
    ensures var s := Run(steps);
            var t := Next(s, DropDelivered);
            && s.head <= |s.pushed| && t.head <= |t.pushed|
            && Contents(t) == Contents(s)[Smaller(s.publisher.done, |Contents(s)|)..]
            && (s.head == s.publisher.base ==>
                  forall j: nat :: s.head <= j < s.head + s.publisher.done ==> Delivered(s, j))
  {
    RunKeepsSettled(steps);
    DropCuts(Run(steps));
    if Run(steps).head == Run(steps).publisher.base {
      PrefixIsDelivered(Run(steps));
    }
  }

  /** The cap has cut since the peek, and there is something to drop. */
  predicate DropLoses(s: System) {
    s.publisher.Finishing? && s.head > s.publisher.base && s.publisher.done > 0
  }

  /**
   A drop removes items the publisher has not got past if and only if the cap cut since the peek and it got past any.
   */
  lemma TrimmingBeforeTheDrop(s: System)
    requires WorkInv(s)
    ensures s.publisher.Finishing? ==>
              (Next(s, DropDelivered).lost != s.lost <==> DropLoses(s))
    ensures DropLoses(s) ==>
              exists j :: j in Next(s, DropDelivered).lost && s.publisher.base + s.publisher.done <= j < |s.pushed|
  {
    if s.publisher.Finishing? {
      var size: nat :| Working(s, s.publisher.base, size, s.publisher.done);
      var first := Larger(s.head, s.publisher.base + s.publisher.done);
      assert Next(s, DropDelivered).lost == s.lost + Range(first, HeadAfterDrop(s));
      if DropLoses(s) {
        assert first in Range(first, HeadAfterDrop(s)) && first !in s.lost;
      }
    }
  }

  /** Whether some drop of a run came after a cut. */
  ghost predicate SomeDropLoses(steps: seq<Step>) {
    steps != [] && (SomeDropLoses(steps[..|steps| - 1])
                    || (steps[|steps| - 1].DropDelivered? && DropLoses(Run(steps[..|steps| - 1]))))
  }

  lemma OnlyDropsLose(s: System, step: Step)
    requires !step.DropDelivered? || !s.publisher.Finishing?
    ensures Next(s, step).lost == s.lost
  {
  }

  /** In every run, something was lost if and only if some drop came after a cut. */
  lemma {:induction false} LossNeedsTrimming(steps: seq<Step>)
    ensures Run(steps).lost != {} <==> SomeDropLoses(steps)
  {
    if steps == [] {
    } else {
      var s, step := Run(steps[..|steps| - 1]), steps[|steps| - 1];
      LossNeedsTrimming(steps[..|steps| - 1]);
      RunKeepsWork(steps[..|steps| - 1]);
      if step.DropDelivered? && s.publisher.Finishing? {
        TrimmingBeforeTheDrop(s);
        assert s.lost <= Next(s, step).lost;
      } else {
        OnlyDropsLose(s, step);
      }
    }
  }

  /** A full outbox, one delivered item, and one incident closed before the drop: the next item is gone, unsent. */
  lemma OneCloseDuringPublicationLosesAnItem(a: Closed, b: Closed, c: Closed)
    requires Decodable(a) && Decodable(b)
    ensures var s := Run([Push(a, 2), Push(b, 2), Peek, SendSucceeds, SendFails, Push(c, 2), DropDelivered]);
            s == System([a, b, c], 2, Resting, [0], {0}, {0}, {1})
  {
    var steps := [Push(a, 2), Push(b, 2), Peek, SendSucceeds, SendFails, Push(c, 2), DropDelivered];
    var s2 := System([a, b], 0, Resting, [], {}, {}, {});
    assert Run(steps[..2]) == s2 by {
      assert steps[..2][..1] == [Push(a, 2)] && [Push(a, 2)][..0] == [];
      assert Run([]) == START;
      assert Run([Push(a, 2)]) == Next(Run([]), Push(a, 2)) == System([a], 0, Resting, [], {}, {}, {});
    }
    assert steps[..3][..2] == steps[..2] && steps[..4][..3] == steps[..3] && steps[..5][..4] == steps[..4];
    assert steps[..6][..5] == steps[..5] && steps[..6] == steps[..|steps| - 1];
    assert Run(steps[..3]) == s2.(publisher := Sending(0, 2, 0));
    assert Run(steps[..4]) == s2.(publisher := Sending(0, 2, 1), sent := [0]);
    assert Run(steps[..5]) == s2.(publisher := Finishing(0, 1), sent := [0]);
    assert Run(steps[..6]) == System([a, b, c], 1, Finishing(0, 1), [0], {0}, {}, {});
  }

  /** The same on the store: with a full outbox, one close before the drop costs the first item not yet delivered. */
  lemma DropAfterCloseSkipsAnItem(s: Store, name: string, cutoff: int, max: int, count: nat)
    requires Closes(s, name, cutoff) && |s.outbox| == EffectiveMax(max) && 1 <= count <= |s.outbox|
    ensures var queue := s.outbox + [Closed(name, s.incidents[name])];
            Dropped(CloseIncident(s, name, cutoff, max), count).outbox == queue[count + 1..]
  {
  }

  // ----- how often an item is sent

  /** The publisher is stopped between sending and dropping. */
  predicate Interrupts(s: System, step: Step) {
    !s.publisher.Resting? && Next(s, step).publisher.Resting? && !step.DropDelivered?
  }

  /** The items it had got past by then. */
  ghost predicate InPrefix(s: System, j: nat) {
    !s.publisher.Resting? && s.publisher.base <= j < Reached(s)
  }

  /** How many interruptions have struck with `j` in the prefix already got past. */
  ghost function Hits(steps: seq<Step>, j: nat): nat {
    if steps == [] then 0
    else
      var before := steps[..|steps| - 1];
      Hits(before, j) + if Interrupts(Run(before), steps[|steps| - 1]) && InPrefix(Run(before), j) then 1 else 0
  }

  /** What one more step adds to the sends of an item, which are those of interrupted, finished and current rounds. */
  lemma StepCounts(s: System, step: Step, j: nat)
    requires WorkInv(s) && j < |s.pushed| && Decodable(s.pushed[j])
    ensures multiset(Next(s, step).sent)[j] - multiset(s.sent)[j]
            == (if Interrupts(s, step) && InPrefix(s, j) then 1 else 0)
               + (if InPrefix(Next(s, step), j) then 1 else 0) - (if InPrefix(s, j) then 1 else 0)
               + (if j in Next(s, step).retired then 1 else 0) - (if j in s.retired then 1 else 0)
  {
  }

  lemma BeyondThePushed(s: System, step: Step, j: nat)
    requires WorkInv(s) && j >= |Next(s, step).pushed|
    ensures j >= |s.pushed| && !InPrefix(s, j)
  {
  }

  lemma {:induction false} NoHitsYet(steps: seq<Step>, j: nat)
    requires j >= |Run(steps).pushed|
    ensures Hits(steps, j) == 0
  {
    if steps == [] {
    } else {
      RunKeepsWork(steps[..|steps| - 1]);
      BeyondThePushed(Run(steps[..|steps| - 1]), steps[|steps| - 1], j);
      NoHitsYet(steps[..|steps| - 1], j);
    }
  }

  lemma NotSentYet(s: System, j: nat)
    requires SettledInv(s) && j >= |s.pushed|
    ensures multiset(s.sent)[j] == 0
  {
    assert forall p :: 0 <= p < |s.sent| ==> s.sent[p] != j;
  }

  lemma NewItemIsUnsent(steps: seq<Step>, j: nat)
    requires j >= |Run(steps).pushed|
    ensures Hits(steps, j) == 0 && multiset(Run(steps).sent)[j] == 0
  {
    NoHitsYet(steps, j);
    RunKeepsSettled(steps);
    NotSentYet(Run(steps), j);
  }

  lemma NewItemAppears(s: System, step: Step, j: nat)
    requires WorkInv(s) && WorkInv(Next(s, step)) && |s.pushed| <= j < |Next(s, step).pushed|
    ensures Next(s, step).sent == s.sent && !InPrefix(s, j) && !InPrefix(Next(s, step), j)
    ensures j !in Next(s, step).retired
  {
  }

  lemma OldItemStays(s: System, step: Step, j: nat)
    requires j < |s.pushed|
    ensures j < |Next(s, step).pushed| && Next(s, step).pushed[j] == s.pushed[j]
  {
  }

  /**
   An interruption repeats exactly the prefix it struck: a decodable item, also one that the cap cut meanwhile, has been
   sent once for every interruption that struck while it was got past but not dropped, once if it was dropped as got
   past, and once if it is got past now.
   */
  lemma {:induction false} RepeatsAreInterruptedPrefixes(steps: seq<Step>, j: nat)
    requires var s := Run(steps); j < |s.pushed| && Decodable(s.pushed[j])
    ensures var s := Run(steps);
            multiset(s.sent)[j]
            == Hits(steps, j) + (if j in s.retired then 1 else 0) + (if InPrefix(s, j) then 1 else 0)
  {
    if steps == [] {
    } else {
      var before, step := steps[..|steps| - 1], steps[|steps| - 1];
      RunKeepsWork(before);
      if j < |Run(before).pushed| {
        OldItemStays(Run(before), step, j);
        StepCounts(Run(before), step, j);
        RepeatsAreInterruptedPrefixes(before, j);
      } else {
        RunKeepsWork(steps);
        NewItemIsUnsent(before, j);
        NewItemAppears(Run(before), step, j);
      }
    }
  }

  /** A crash between send and drop: the next round sends the item again, and then it is gone. */
  lemma CrashRepeatsAnItem(a: Closed)
    requires Decodable(a)
    ensures var crashed := Next(Next(Next(Next(START, Push(a, 1)), Peek), SendSucceeds), Crash);
            && crashed == System([a], 0, Resting, [0], {}, {}, {})
            && Next(Next(Next(Next(crashed, Peek), SendSucceeds), AllSent), DropDelivered)
               == System([a], 1, Resting, [0, 0], {}, {0}, {})
  {
    var pushed := System([a], 0, Resting, [], {}, {}, {});
    assert Next(START, Push(a, 1)) == pushed;
    assert Next(pushed, Peek) == pushed.(publisher := Sending(0, 1, 0));
    assert Next(Next(pushed, Peek), SendSucceeds) == pushed.(publisher := Sending(0, 1, 1), sent := [0]);
    var again := System([a], 0, Sending(0, 1, 0), [0], {}, {}, {});
    assert Next(again, SendSucceeds) == again.(publisher := Sending(0, 1, 1), sent := [0, 0]);
    assert Range(0, 1) == {0} && Range(1, 1) == {};
  }

  /** Where the round under way began, or the next one will. */
  function Start(s: System): nat { if s.publisher.Resting? then s.head else s.publisher.base }

  predicate IsGone(s: System, j: nat) { j in s.trimmed || j in s.retired || j in s.lost }

  /** Whatever came before the round was cut, dropped as got past, or lost. */
  ghost predicate GoneInv(s: System) { forall j: nat :: j < Start(s) ==> IsGone(s, j) }

  lemma StepKeepsGone(s: System, step: Step)
    requires WorkInv(s) && GoneInv(s)
    ensures GoneInv(Next(s, step))
  {
    var t := Next(s, step);
    forall j: nat | j < Start(t) ensures IsGone(t, j) {
      assert j < Start(s) ==> IsGone(s, j);
    }
  }

  lemma {:induction false} RunKeepsGone(steps: seq<Step>)
    ensures WorkInv(Run(steps)) && GoneInv(Run(steps))
  {
    RunKeepsWork(steps);
    if steps == [] {
    } else {
      RunKeepsGone(steps[..|steps| - 1]);
      StepKeepsGone(Run(steps[..|steps| - 1]), steps[|steps| - 1]);
    }
  }

  lemma GoneForGood(s: System, j: nat)
    requires WorkInv(s) && GoneInv(s) && j < s.head && j !in s.trimmed && j !in s.lost
    ensures j in s.retired && !InPrefix(s, j)
  {
    assert j < Start(s) ==> IsGone(s, j);
  }

  /** A decodable item that left untrimmed and not lost was sent exactly once, and once more per interruption. */
  lemma ExactlyOnceWithoutInterruptions(steps: seq<Step>, j: nat)
    requires var s := Run(steps);
             j < s.head && j < |s.pushed| && j !in s.trimmed && j !in s.lost && Decodable(s.pushed[j])
    ensures multiset(Run(steps).sent)[j] == 1 + Hits(steps, j)
  {
    RunKeepsGone(steps);
    GoneForGood(Run(steps), j);
    RepeatsAreInterruptedPrefixes(steps, j);
  }
}
