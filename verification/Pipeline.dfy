/**
 The tailer, queue and worker pipeline and its shutdown (main.go), as steps of any number of tailers and workers around
 one bounded channel. Records of what was read, enqueued, taken, completed and discarded are kept beside the state.
 */
module Pipeline {

  datatype Line = Line(tail: nat, text: string)

  datatype Tailer = Reading | Holding(line: Line) | Stopped

  /** A busy worker knows which of the taken lines it works on. */
  datatype Worker = Idle | Busy(job: nat) | Exited

  datatype Phase = Serving | Draining | Drained | TimedOut

  datatype System = System(
    tailers: seq<Tailer>, queue: seq<Line>, capacity: nat, workers: seq<Worker>,
    cancelled: bool, channelClosed: bool, sentOnClosed: bool, phase: Phase, storeClosed: bool,
    read: seq<Line>, enqueued: seq<Line>, taken: seq<Line>, completed: set<nat>, discarded: seq<Line>)

  datatype Step =
    | Cancel
    | Read(tail: nat, text: string)      // a tailer receives a line from its file
    | Enqueue(tail: nat)                 // it sends the line it holds into the channel
    | Discard(tail: nat)                 // it sees the cancellation instead and returns
    | Stop(tail: nat)                    // it sees the cancellation with no line in hand
    | CloseChannel                       // main has waited for all tailers
    | Take(worker: nat)
    | Complete(worker: nat)
    | Exit(worker: nat)                  // the channel is closed and empty
    | ReportDrained                      // all workers have exited
    | GiveUp                             // the drain timeout fires first
    | CloseStore

  predicate AllStopped(tailers: seq<Tailer>) { forall i :: 0 <= i < |tailers| ==> tailers[i].Stopped? }

  predicate AllExited(workers: seq<Worker>) { forall i :: 0 <= i < |workers| ==> workers[i].Exited? }

  predicate At(s: System, tail: nat, reading: bool) {
    tail < |s.tailers| && if reading then s.tailers[tail].Reading? else s.tailers[tail].Holding?
  }

  function ReadLine(s: System, t: nat, l: Line): System
    requires t < |s.tailers|
  {
    s.(tailers := s.tailers[t := Holding(l)], read := s.read + [l])
  }

  function SendLine(s: System, t: nat): System
    requires At(s, t, false)
  {
    var l := s.tailers[t].line;
    s.(tailers := s.tailers[t := Reading], queue := s.queue + [l], enqueued := s.enqueued + [l])
  }

  function DropLine(s: System, t: nat): System
    requires At(s, t, false)
  {
    s.(tailers := s.tailers[t := Stopped], discarded := s.discarded + [s.tailers[t].line])
  }

  predicate Works(s: System, w: nat, busy: bool) {
    w < |s.workers| && if busy then s.workers[w].Busy? else s.workers[w].Idle?
  }

  function TakeLine(s: System, w: nat): System
    requires Works(s, w, false) && s.queue != []
  {
    s.(queue := s.queue[1..], workers := s.workers[w := Busy(|s.taken|)], taken := s.taken + [s.queue[0]])
  }

  function FinishJob(s: System, w: nat): System
    requires Works(s, w, true)
  {
    s.(workers := s.workers[w := Idle], completed := s.completed + {s.workers[w].job})
  }

  /** One step; a step that cannot happen in `s` changes nothing. */
  function Next(s: System, step: Step): System {
    match step
    case Cancel => s.(cancelled := true)
    case Read(t, text) => if At(s, t, true) then ReadLine(s, t, Line(t, text)) else s
    case Enqueue(t) =>
      if !At(s, t, false) then s
      else if s.channelClosed then s.(sentOnClosed := true)
      else if |s.queue| < s.capacity then SendLine(s, t)
      else s
    case Discard(t) => if At(s, t, false) && s.cancelled then DropLine(s, t) else s
    case Stop(t) => if At(s, t, true) && s.cancelled then s.(tailers := s.tailers[t := Stopped]) else s
    case CloseChannel =>
      if s.phase.Serving? && s.cancelled && AllStopped(s.tailers) then s.(channelClosed := true, phase := Draining)
      else s
    case Take(w) => if Works(s, w, false) && s.queue != [] then TakeLine(s, w) else s
    case Complete(w) => if Works(s, w, true) then FinishJob(s, w) else s
    case Exit(w) =>
      if Works(s, w, false) && s.channelClosed && s.queue == [] then s.(workers := s.workers[w := Exited]) else s
    case ReportDrained => if s.phase.Draining? && AllExited(s.workers) then s.(phase := Drained) else s
    case GiveUp => if s.phase.Draining? then s.(phase := TimedOut) else s
    case CloseStore => if s.phase.Drained? then s.(storeClosed := true) else s
  }

  predicate IsStart(s: System) {
    && (forall t :: 0 <= t < |s.tailers| ==> s.tailers[t].Reading?)
    && (forall w :: 0 <= w < |s.workers| ==> s.workers[w].Idle?)
    && s.queue == s.read == s.enqueued == s.taken == s.discarded == [] && s.completed == {}
    && !s.cancelled && !s.channelClosed && !s.sentOnClosed && s.phase.Serving? && !s.storeClosed
  }

  function Run(s: System, steps: seq<Step>): System {
    if steps == [] then s else Next(Run(s, steps[..|steps| - 1]), steps[|steps| - 1])
  }

  function OfTail(lines: seq<Line>, tail: nat): seq<Line> {
    if lines == [] then []
    else OfTail(lines[..|lines| - 1], tail) + if lines[|lines| - 1].tail == tail then [lines[|lines| - 1]] else []
  }

  function InHand(t: Tailer): seq<Line> { if t.Holding? then [t.line] else [] }

  lemma OfTailSnoc(lines: seq<Line>, l: Line, tail: nat)
    ensures OfTail(lines + [l], tail) == OfTail(lines, tail) + if l.tail == tail then [l] else []
  {
    assert (lines + [l])[..|lines|] == lines;
  }

  // ----- lines

  /** What one tailer read is what it enqueued, then what it holds, then what it discarded. */
  ghost predicate TailInv(s: System, t: nat)
    requires t < |s.tailers|
  {
    && OfTail(s.read, t) == OfTail(s.enqueued, t) + InHand(s.tailers[t]) + OfTail(s.discarded, t)
    && (s.tailers[t].Holding? ==> s.tailers[t].line.tail == t)
    && |OfTail(s.discarded, t)| <= 1
    && (OfTail(s.discarded, t) != [] ==> s.cancelled && s.tailers[t].Stopped?)
    && (s.tailers[t].Stopped? ==> s.cancelled)
  }

  ghost predicate LineInv(s: System) {
    && (forall t: nat :: t < |s.tailers| ==> TailInv(s, t))
    && s.enqueued == s.taken + s.queue
    && |s.queue| <= s.capacity
    && (s.channelClosed <==> !s.phase.Serving?)
    && (s.channelClosed ==> AllStopped(s.tailers))
    && !s.sentOnClosed
    && forall l :: l in s.discarded ==> l.tail < |s.tailers| && l in OfTail(s.discarded, l.tail)
  }

  lemma ReadKeepsTail(s: System, u: nat, l: Line, t: nat)
    requires At(s, u, true) && l.tail == u && t < |s.tailers| && TailInv(s, t) && TailInv(s, u)
    ensures TailInv(ReadLine(s, u, l), t)
  {
    OfTailSnoc(s.read, l, t);
    if t == u {
      assert OfTail(s.discarded, t) == [];
      assert OfTail(s.read, t) == OfTail(s.enqueued, t);
    }
  }

  lemma SendKeepsTail(s: System, u: nat, t: nat)
    requires At(s, u, false) && t < |s.tailers| && TailInv(s, t) && TailInv(s, u)
    ensures TailInv(SendLine(s, u), t)
  {
    OfTailSnoc(s.enqueued, s.tailers[u].line, t);
  }

  lemma DropKeepsTail(s: System, u: nat, t: nat)
    requires At(s, u, false) && s.cancelled && t < |s.tailers| && TailInv(s, t) && TailInv(s, u)
    ensures TailInv(DropLine(s, u), t)
  {
    OfTailSnoc(s.discarded, s.tailers[u].line, t);
    if t == u {
      var l := s.tailers[u].line;
      assert OfTail(s.discarded, t) == [];
      assert OfTail(s.read, t) == OfTail(s.enqueued, t) + [l];
      assert OfTail(s.enqueued, t) + [l] == OfTail(s.enqueued, t) + [] + [l];
    }
  }

  /** A step that touches no line keeps what is known of a tailer's lines, also when it stops an idle tailer. */
  lemma OtherStepKeepsTail(s: System, n: System, t: nat)
    requires t < |s.tailers| && t < |n.tailers| && TailInv(s, t)
    requires n.read == s.read && n.enqueued == s.enqueued && n.discarded == s.discarded && (s.cancelled ==> n.cancelled)
    requires n.tailers[t] == s.tailers[t] || (s.tailers[t].Reading? && n.tailers[t].Stopped? && n.cancelled)
    ensures TailInv(n, t)
  {
  }

  lemma StepKeepsTail(s: System, step: Step, t: nat)
    requires LineInv(s) && t < |s.tailers|
    ensures |Next(s, step).tailers| == |s.tailers| && TailInv(Next(s, step), t)
  {
    assert TailInv(s, t);
    var u := if step.Read? || step.Enqueue? || step.Discard? then step.tail else t;
    if u < |s.tailers| {
      assert TailInv(s, u);
    }
    if step.Read? && At(s, u, true) {
      ReadKeepsTail(s, u, Line(u, step.text), t);
    } else if step.Enqueue? && At(s, u, false) && !s.channelClosed && |s.queue| < s.capacity {
      SendKeepsTail(s, u, t);
    } else if step.Discard? && At(s, u, false) && s.cancelled {
      DropKeepsTail(s, u, t);
    } else {
      OtherStepKeepsTail(s, Next(s, step), t);
    }
  }

  lemma DiscardsOfTailers(s: System, step: Step)
    requires LineInv(s)
    ensures var t := Next(s, step);
            |t.tailers| == |s.tailers|
            && forall l :: l in t.discarded ==> l.tail < |t.tailers| && l in OfTail(t.discarded, l.tail)
  {
    if step.Discard? && At(s, step.tail, false) {
      assert TailInv(s, step.tail);
      var d := s.tailers[step.tail].line;
      forall l | l in s.discarded + [d] ensures l in OfTail(s.discarded + [d], l.tail) {
        OfTailSnoc(s.discarded, d, l.tail);
      }
    }
  }

  lemma StepKeepsLines(s: System, step: Step)
    requires LineInv(s)
    ensures LineInv(Next(s, step)) && |Next(s, step).tailers| == |s.tailers|
  {
    forall t: nat | t < |s.tailers| ensures TailInv(Next(s, step), t) { StepKeepsTail(s, step, t); }
    DiscardsOfTailers(s, step);
  }

  lemma {:induction false} RunKeepsLines(s: System, steps: seq<Step>)
    requires IsStart(s)
    ensures LineInv(Run(s, steps)) && |Run(s, steps).tailers| == |s.tailers|
  {
    if steps == [] {
      forall t: nat | t < |s.tailers| ensures TailInv(s, t) {}
    } else {
      RunKeepsLines(s, steps[..|steps| - 1]);
      StepKeepsLines(Run(s, steps[..|steps| - 1]), steps[|steps| - 1]);
    }
  }

  /**
   No line is lost or reordered: in every run each tailer's lines are, in reading order, those enqueued, the one in its
   hand, and at most one discarded, which needs a cancellation; the channel hands lines on in enqueue order, and nothing
   is sent on it once it is closed.
   */
  lemma NoLineIsLost(start: System, steps: seq<Step>, t: nat)
    requires IsStart(start) && t < |start.tailers|
    ensures var s := Run(start, steps);
            && t < |s.tailers|
            && OfTail(s.read, t) == OfTail(s.taken + s.queue, t) + InHand(s.tailers[t]) + OfTail(s.discarded, t)
            && s.enqueued == s.taken + s.queue
            && |OfTail(s.discarded, t)| <= 1
            && (!s.cancelled ==> s.discarded == [])
            && !s.sentOnClosed
  {
    RunKeepsLines(start, steps);
    var s := Run(start, steps);
    assert TailInv(s, t);
    if s.discarded != [] {
      var l := s.discarded[0];
      assert l in s.discarded;
      assert TailInv(s, l.tail);
    }
  }

  // ----- jobs

  ghost predicate WorksOn(s: System, w: int, j: nat) {
    0 <= w < |s.workers| && s.workers[w] == Busy(j)
  }

  ghost predicate JobInv(s: System) {
    && (forall w :: 0 <= w < |s.workers| && s.workers[w].Busy? ==>
          s.workers[w].job < |s.taken| && s.workers[w].job !in s.completed)
    && (forall v, w :: 0 <= v < w < |s.workers| && s.workers[v].Busy? && s.workers[w].Busy? ==>
          s.workers[v].job != s.workers[w].job)
    && (forall j :: j in s.completed ==> j < |s.taken|)
    && (forall j: nat :: j < |s.taken| && j !in s.completed ==> exists w :: WorksOn(s, w, j))
    && (forall w :: 0 <= w < |s.workers| && s.workers[w].Exited? ==> s.channelClosed && s.queue == [])
    && (s.phase.Drained? ==> AllExited(s.workers))
    && (s.storeClosed ==> s.phase.Drained?)
    && (s.channelClosed <==> !s.phase.Serving?)
  }

  lemma TakeKeepsJobs(s: System, w: nat)
    requires JobInv(s) && Works(s, w, false) && s.queue != []
    ensures JobInv(TakeLine(s, w))
  {
    var t := TakeLine(s, w);
    forall j: nat | j < |t.taken| && j !in t.completed ensures exists v :: WorksOn(t, v, j) {
      if j < |s.taken| {
        var v :| WorksOn(s, v, j);
        assert WorksOn(t, v, j);
      } else {
        assert WorksOn(t, w, j);
      }
    }
  }

  lemma FinishKeepsJobs(s: System, w: nat)
    requires JobInv(s) && Works(s, w, true)
    ensures JobInv(FinishJob(s, w))
  {
    var t := FinishJob(s, w);
    forall j: nat | j < |t.taken| && j !in t.completed ensures exists v :: WorksOn(t, v, j) {
      var v :| WorksOn(s, v, j);
      assert WorksOn(t, v, j);
    }
  }

  /** An idle worker that leaves held no job. */
  lemma ExitKeepsJobs(s: System, w: nat)
    requires JobInv(s) && Works(s, w, false) && s.channelClosed && s.queue == []
    ensures JobInv(s.(workers := s.workers[w := Exited]))
  {
    var t := s.(workers := s.workers[w := Exited]);
    forall j: nat | j < |t.taken| && j !in t.completed ensures exists v :: WorksOn(t, v, j) {
      var v :| WorksOn(s, v, j);
      assert WorksOn(t, v, j);
    }
  }

  /** Nobody else touches a worker. */
  lemma OtherStepKeepsJobs(s: System, n: System)
    requires JobInv(s) && n.workers == s.workers && n.taken == s.taken && n.completed == s.completed
    requires s.channelClosed ==> n.channelClosed && (s.queue == [] ==> n.queue == [])
    requires n.phase.Drained? ==> AllExited(n.workers)
    requires (n.storeClosed ==> n.phase.Drained?) && (n.channelClosed <==> !n.phase.Serving?)
    ensures JobInv(n)
  {
    forall j: nat | j < |n.taken| && j !in n.completed ensures exists v :: WorksOn(n, v, j) {
      var v :| WorksOn(s, v, j);
      assert WorksOn(n, v, j);
    }
  }

  lemma OtherStepTouchesNoWorker(s: System, step: Step)
    requires JobInv(s) && !step.Take? && !step.Complete? && !step.Exit?
    ensures var n := Next(s, step);
            && n.workers == s.workers && n.taken == s.taken && n.completed == s.completed
            && (s.channelClosed ==> n.channelClosed && (s.queue == [] ==> n.queue == []))
            && (n.phase.Drained? ==> AllExited(n.workers))
            && (n.storeClosed ==> n.phase.Drained?) && (n.channelClosed <==> !n.phase.Serving?)
  {
  }

  lemma StepKeepsJobs(s: System, step: Step)
    requires JobInv(s)
    ensures JobInv(Next(s, step)) && |Next(s, step).workers| == |s.workers|
  {
    match step
    case Take(w) => if Works(s, w, false) && s.queue != [] { TakeKeepsJobs(s, w); }
    case Complete(w) => if Works(s, w, true) { FinishKeepsJobs(s, w); }
    case Exit(w) => if Works(s, w, false) && s.channelClosed && s.queue == [] { ExitKeepsJobs(s, w); }
    case _ =>
      OtherStepTouchesNoWorker(s, step);
      OtherStepKeepsJobs(s, Next(s, step));
  }

  lemma {:induction false} RunKeepsJobs(s: System, steps: seq<Step>)
    requires IsStart(s)
    ensures JobInv(Run(s, steps)) && |Run(s, steps).workers| == |s.workers|
  {
    if steps == [] {
    } else {
      RunKeepsJobs(s, steps[..|steps| - 1]);
      StepKeepsJobs(Run(s, steps[..|steps| - 1]), steps[|steps| - 1]);
    }
  }

  /** What "drained" promises of a state. */
  ghost predicate AllDone(s: System, t: nat) {
    && AllExited(s.workers) && s.taken == s.enqueued
    && (forall j: nat :: j in s.completed <==> j < |s.enqueued|)
    && OfTail(s.read, t) == OfTail(s.taken, t) + OfTail(s.discarded, t)
    && |OfTail(s.discarded, t)| <= 1
  }

  lemma ExitedMeansDone(s: System, t: nat)
    requires JobInv(s) && LineInv(s) && s.phase.Drained? && s.workers != [] && t < |s.tailers|
    ensures AllDone(s, t)
  {
    assert s.workers[0].Exited?;
    forall j: nat | j < |s.taken| ensures j in s.completed {
      assert forall w :: !WorksOn(s, w, j);
    }
    assert TailInv(s, t);
    assert OfTail(s.read, t) == OfTail(s.enqueued, t) + [] + OfTail(s.discarded, t);
  }

  /**
   When the pipeline reports itself drained, every enqueued line was taken and completed, so each tailer's lines were
   all processed but for at most the one it discarded; and the store is closed only in that state, with no worker
   running.
   */
  lemma DrainedMeansDone(start: System, steps: seq<Step>, t: nat)
    requires IsStart(start) && start.workers != [] && t < |start.tailers|
    ensures var s := Run(start, steps);
            && (s.storeClosed ==> s.phase.Drained?)
            && (s.phase.Drained? ==> AllDone(s, t))
  {
    RunKeepsJobs(start, steps);
    RunKeepsLines(start, steps);
    if Run(start, steps).phase.Drained? {
      ExitedMeansDone(Run(start, steps), t);
    }
  }

  // ----- the drain ends

  function Load(w: Worker): nat {
    match w case Idle => 1 case Busy(_) => 2 case Exited => 0
  }

  function Loads(workers: seq<Worker>): nat {
    if workers == [] then 0 else Load(workers[0]) + Loads(workers[1..])
  }

  /** Steps the workers can still make once the channel is closed. */
  function Remaining(s: System): nat { 2 * |s.queue| + Loads(s.workers) }

  lemma {:induction false} LoadsUpdate(workers: seq<Worker>, i: nat, w: Worker)
    requires i < |workers|
    ensures Loads(workers[i := w]) == Loads(workers) - Load(workers[i]) + Load(w)
  {
    if i == 0 {
      assert workers[0 := w][1..] == workers[1..];
    } else {
      assert workers[i := w][1..] == workers[1..][i - 1 := w];
      LoadsUpdate(workers[1..], i - 1, w);
    }
  }

  predicate IsWorkerStep(step: Step) { step.Take? || step.Complete? || step.Exit? }

  /** After the channel is closed every step a worker makes brings the drain closer to its end. */
  lemma WorkerStepsShrinkTheDrain(s: System, step: Step)
    requires s.channelClosed && IsWorkerStep(step) && Next(s, step) != s
    ensures Remaining(Next(s, step)) < Remaining(s)
    ensures Next(s, step).channelClosed && Next(s, step).phase == s.phase
  {
    LoadsUpdate(s.workers, step.worker, Next(s, step).workers[step.worker]);
  }

  /** And until all have exited, some worker has a step to make. */
  lemma SomeWorkerCanStep(s: System) returns (step: Step)
    requires s.channelClosed && !AllExited(s.workers)
    ensures IsWorkerStep(step) && Next(s, step) != s
  {
    var w :| 0 <= w < |s.workers| && !s.workers[w].Exited?;
    step := if s.workers[w].Busy? then Complete(w) else if s.queue != [] then Take(w) else Exit(w);
    assert Next(s, step).workers[w] != s.workers[w];
  }

  /** A draining pipeline in which no worker has a step to make is drained. */
  lemma StuckMeansDrained(s: System)
    requires s.channelClosed && s.phase.Draining?
    requires forall step :: IsWorkerStep(step) ==> Next(s, step) == s
    ensures Next(s, ReportDrained).phase.Drained?
  {
    if !AllExited(s.workers) {
      var step := SomeWorkerCanStep(s);
    }
  }

  /** So no run of worker steps is longer than the work left, and one that cannot go on leaves the pipeline drained. */
  lemma {:induction false} TheDrainEnds(s: System, steps: seq<Step>)
    requires s.channelClosed && s.phase.Draining?
    requires forall i :: 0 <= i < |steps| ==> IsWorkerStep(steps[i]) && Run(s, steps[..i + 1]) != Run(s, steps[..i])
    ensures |steps| + Remaining(Run(s, steps)) <= Remaining(s)
    ensures Run(s, steps).channelClosed && Run(s, steps).phase.Draining?
    ensures (forall step :: IsWorkerStep(step) ==> Next(Run(s, steps), step) == Run(s, steps)) ==>
              Next(Run(s, steps), ReportDrained).phase.Drained?
  {
    if steps != [] {
      var before, step := steps[..|steps| - 1], steps[|steps| - 1];
      assert forall i :: 0 <= i <= |before| ==> before[..i] == steps[..i];
      assert steps[..|before| + 1] == steps;
      TheDrainEnds(s, before);
      WorkerStepsShrinkTheDrain(Run(s, before), step);
    }
    var t := Run(s, steps);
    if forall step :: IsWorkerStep(step) ==> Next(t, step) == t {
      StuckMeansDrained(t);
    }
  }

  // ----- a whole run

  const EMPTY_PIPELINE :=
    System([Reading], [], 1, [Idle], false, false, false, Serving, false, [], [], [], {}, [])

  /** One line passes through... */
  lemma OneLineThrough(a: string)
    ensures IsStart(EMPTY_PIPELINE)
    ensures Next(Next(Next(Next(EMPTY_PIPELINE, Read(0, a)), Enqueue(0)), Take(0)), Complete(0))
            == EMPTY_PIPELINE.(read := [Line(0, a)], enqueued := [Line(0, a)], taken := [Line(0, a)], completed := {0})
  {
    var read := Next(EMPTY_PIPELINE, Read(0, a));
    assert read == EMPTY_PIPELINE.(tailers := [Holding(Line(0, a))], read := [Line(0, a)]);
    var sent := Next(read, Enqueue(0));
    assert sent == EMPTY_PIPELINE.(queue := [Line(0, a)], read := [Line(0, a)], enqueued := [Line(0, a)]);
    assert Next(sent, Take(0)) == sent.(queue := [], taken := [Line(0, a)], workers := [Busy(0)]);
  }

  /** ... another one is discarded on cancellation... */
  lemma OneLineDiscarded(s: System, l: Line)
    requires s.tailers == [Reading] && l.tail == 0 && !s.cancelled
    ensures Next(Next(Next(s, Read(0, l.text)), Cancel), Discard(0))
            == s.(tailers := [Stopped], read := s.read + [l], discarded := s.discarded + [l], cancelled := true)
  {
    assert Next(s, Read(0, l.text)) == s.(tailers := [Holding(l)], read := s.read + [l]);
  }

  /** ... and the pipeline drains and closes the store, in this order only. */
  lemma DrainsAndCloses(s: System)
    requires s.tailers == [Stopped] && s.workers == [Idle] && s.queue == []
    requires s.cancelled && s.phase.Serving? && !s.channelClosed && !s.storeClosed
    ensures Next(Next(Next(Next(s, CloseChannel), Exit(0)), ReportDrained), CloseStore)
            == s.(channelClosed := true, workers := [Exited], phase := Drained, storeClosed := true)
    ensures Next(s, Exit(0)) == Next(s, ReportDrained) == Next(s, CloseStore) == s
    ensures Next(Next(s, CloseChannel), GiveUp) == s.(channelClosed := true, phase := TimedOut)
  {
    assert Next(s, CloseChannel) == s.(channelClosed := true, phase := Draining);
    assert Next(Next(s, CloseChannel), Exit(0)).workers == [Exited];
  }
}
