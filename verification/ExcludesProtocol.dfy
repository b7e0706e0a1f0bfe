/**
 Concurrent updates of the stored excludes, and the in-memory copies fed from them (keydb/keydb.go, web.go,
 dynamic_excludes.go): any number of callers stepping through WATCH, GET and EXEC with up to 16 attempts, in any number
 of processes, each with one copy that handlers and a refresher replace.
 */
module ExcludesProtocol {
  import opened Excludes

  const ATTEMPTS := 16

  /** What has changed the stored value: an update of a call, or a snapshot restored over it at some start-up. */
  datatype Commit = Applied(call: nat, update: Update) | Restored(value: Lists)

  /**
   `began`, `seen` and `at` are positions in the commit log: when the call began, when its attempt began to watch, and
   when it read. A call that returned remembers the position at which it took effect.
   */
  datatype Call =
    | Trying(process: nat, update: Update, began: nat, attempt: nat)
    | Watching(process: nat, update: Update, began: nat, attempt: nat, seen: nat)
    | Read(process: nat, update: Update, began: nat, attempt: nat, seen: nat, at: nat, value: Lists)
    | Returned(process: nat, update: Update, began: nat, at: nat, value: Lists, changed: bool, landed: bool)
    | Failed(update: Update, cause: Cause)
    | ReplyLost(update: Update, at: nat)

  /** The connection broke, or every attempt met a commit that came between; positions are of the log. */
  datatype Cause = Broken | Exhausted(began: nat, ended: nat)

  /** A copy, or a read on its way into one, and the log position it dates from. */
  datatype Copy = Copy(value: Lists, at: nat)

  datatype Refresh = Refresh(process: nat, copy: Copy)

  datatype System = System(
    stored: Lists, log: seq<Commit>, calls: map<nat, Call>, copies: map<nat, Copy>, refreshes: map<nat, Refresh>)

  datatype Step =
    | Begin(call: nat, process: nat, update: Update)
    | Watch(call: nat)
    | Get(call: nat)
    | Exec(call: nat, replyLost: bool)
    | Fail(call: nat)                      // the connection fails before EXEC
    | Land(call: nat)                      // the handler replaces the copy of its process
    | Restore(value: Lists)
    | RefreshGet(refresh: nat, process: nat)
    | RefreshLand(refresh: nat)

  function Put(s: System, c: nat, call: Call): System { s.(calls := s.calls[c := call]) }

  /** The log position a returned value dates from. */
  function Dates(k: Call): nat
    requires k.Returned?
  {
    if k.changed then k.at + 1 else k.at
  }

  /**
   After GET: return when nothing changes, commit when nobody has committed since WATCH, otherwise try again or fail.
   */
  function Executed(s: System, c: nat, replyLost: bool): System
    requires c in s.calls && s.calls[c].Read?
  {
    var k := s.calls[c];
    if !Changes(k.value, k.update) then Put(s, c, Returned(k.process, k.update, k.began, k.at, k.value, false, false))
    else if |s.log| == k.seen then
      var v := Updated(k.value, k.update);
      Put(s, c, if replyLost then ReplyLost(k.update, |s.log|)
                else Returned(k.process, k.update, k.began, |s.log|, v, true, false))
      .(stored := v, log := s.log + [Applied(c, k.update)])
    else if k.attempt + 1 < ATTEMPTS then Put(s, c, Trying(k.process, k.update, k.began, k.attempt + 1))
    else Put(s, c, Failed(k.update, Exhausted(k.began, |s.log|)))
  }

  /** One step; a step that cannot happen in `s` changes nothing. */
  function Next(s: System, step: Step): System {
    match step
    case Begin(c, p, u) => if c in s.calls then s else Put(s, c, Trying(p, u, |s.log|, 0))
    case Watch(c) =>
      if c in s.calls && s.calls[c].Trying? then
        var k := s.calls[c];
        Put(s, c, Watching(k.process, k.update, k.began, k.attempt, |s.log|))
      else s
    case Get(c) =>
      if c in s.calls && s.calls[c].Watching? then
        var k := s.calls[c];
        Put(s, c, Read(k.process, k.update, k.began, k.attempt, k.seen, |s.log|, s.stored))
      else s
    case Exec(c, lost) => if c in s.calls && s.calls[c].Read? then Executed(s, c, lost) else s
    case Fail(c) =>
      if c in s.calls && (s.calls[c].Trying? || s.calls[c].Watching? || s.calls[c].Read?) then
        Put(s, c, Failed(s.calls[c].update, Broken))
      else s
    case Land(c) =>
      if c in s.calls && s.calls[c].Returned? then
        var k := s.calls[c];
        Put(s, c, k.(landed := true)).(copies := s.copies[k.process := Copy(k.value, Dates(k))])
      else s
    case Restore(v) => s.(stored := v, log := s.log + [Restored(v)])
    case RefreshGet(r, p) => s.(refreshes := s.refreshes[r := Refresh(p, Copy(s.stored, |s.log|))])
    case RefreshLand(r) =>
      if r in s.refreshes then
        s.(copies := s.copies[s.refreshes[r].process := s.refreshes[r].copy], refreshes := s.refreshes - {r})
      else s
  }

  const START := System(map[], [], map[], map[], map[])

  function Run(s: System, steps: seq<Step>): System {
    if steps == [] then s else Next(Run(s, steps[..|steps| - 1]), steps[|steps| - 1])
  }

  /** The sequential meaning of a commit log. */
  function Fold(log: seq<Commit>): Lists {
    if log == [] then map[]
    else
      match log[|log| - 1]
      case Applied(_, u) => Updated(Fold(log[..|log| - 1]), u)
      case Restored(v) => v
  }

  ghost predicate CopyInv(log: seq<Commit>, copy: Copy) {
    copy.at <= |log| && copy.value == Fold(log[..copy.at])
  }

  ghost predicate CallInv(log: seq<Commit>, c: nat, k: Call) {
    match k
    case Trying(_, _, began, attempt) => began + attempt <= |log| && attempt < ATTEMPTS
    case Watching(_, _, began, attempt, seen) => began + attempt <= seen <= |log| && attempt < ATTEMPTS
    case Read(_, _, began, attempt, seen, at, value) =>
      began + attempt <= seen <= at <= |log| && attempt < ATTEMPTS && value == Fold(log[..at])
    case Returned(_, u, began, at, value, changed, _) =>
      if changed then
        began <= at < |log| && log[at] == Applied(c, u) && Changes(Fold(log[..at]), u) && value == Fold(log[..at + 1])
      else
        began <= at <= |log| && !Changes(Fold(log[..at]), u) && value == Fold(log[..at])
    case Failed(_, cause) => cause.Exhausted? ==> cause.began + ATTEMPTS <= cause.ended <= |log|
    case ReplyLost(u, at) => at < |log| && log[at] == Applied(c, u)
  }

  /** Commit number `i` belongs to the one call that took effect there. */
  ghost predicate Owned(s: System, i: nat) {
    i < |s.log| && s.log[i].Applied? ==>
      s.log[i].call in s.calls &&
      var k := s.calls[s.log[i].call];
      (k.Returned? && k.changed && k.at == i) || (k.ReplyLost? && k.at == i)
  }

  ghost predicate Inv(s: System) {
    && s.stored == Fold(s.log)
    && (forall c :: c in s.calls ==> CallInv(s.log, c, s.calls[c]))
    && (forall i: nat :: Owned(s, i))
    && (forall p :: p in s.copies ==> CopyInv(s.log, s.copies[p]))
    && (forall r :: r in s.refreshes ==> CopyInv(s.log, s.refreshes[r].copy))
  }

  lemma CallInvGrows(log: seq<Commit>, commit: Commit, c: nat, k: Call)
    requires CallInv(log, c, k)
    ensures CallInv(log + [commit], c, k)
  {
    forall i: nat | i <= |log| ensures (log + [commit])[..i] == log[..i] {}
  }

  lemma CopyInvGrows(log: seq<Commit>, commit: Commit, copy: Copy)
    requires CopyInv(log, copy)
    ensures CopyInv(log + [commit], copy)
  {
    assert (log + [commit])[..copy.at] == log[..copy.at];
  }

  /** A call's own step that commits nothing. */
  lemma PutKeepsInv(s: System, c: nat, k: Call)
    requires Inv(s) && CallInv(s.log, c, k)
    requires c in s.calls ==> !s.calls[c].Returned? && !s.calls[c].ReplyLost?
    ensures Inv(Put(s, c, k))
  {
    var t := Put(s, c, k);
    forall i: nat ensures Owned(t, i) { assert Owned(s, i); }
  }

  lemma CommitKeepsInv(s: System, t: System, commit: Commit)
    requires Inv(s)
    requires t.log == s.log + [commit] && t.copies == s.copies && t.refreshes == s.refreshes && t.stored == Fold(t.log)
    requires forall c :: c in s.calls && (commit.Applied? ==> c != commit.call) ==>
               c in t.calls && t.calls[c] == s.calls[c]
    requires forall c :: c in t.calls ==> c in s.calls
    requires commit.Applied? ==>
               commit.call in s.calls && commit.call in t.calls && s.calls[commit.call].Read?
               && CallInv(t.log, commit.call, t.calls[commit.call]) && Owned(t, |s.log|)
    ensures Inv(t)
  {
    forall c | c in t.calls ensures CallInv(t.log, c, t.calls[c]) {
      if !(commit.Applied? && c == commit.call) {
        CallInvGrows(s.log, commit, c, s.calls[c]);
      }
    }
    forall i: nat ensures Owned(t, i) { assert Owned(s, i); }
    forall p | p in t.copies ensures CopyInv(t.log, t.copies[p]) { CopyInvGrows(s.log, commit, s.copies[p]); }
    forall r | r in t.refreshes ensures CopyInv(t.log, t.refreshes[r].copy) {
      CopyInvGrows(s.log, commit, s.refreshes[r].copy);
    }
  }

  lemma ExecCommits(s: System, c: nat, replyLost: bool)
    requires Inv(s) && c in s.calls && s.calls[c].Read?
    requires Changes(s.calls[c].value, s.calls[c].update) && |s.log| == s.calls[c].seen
    ensures Inv(Executed(s, c, replyLost))
  {
    var k, t := s.calls[c], Executed(s, c, replyLost);
    var commit := Applied(c, k.update);
    assert CallInv(s.log, c, k);
    assert s.log[..k.at] == s.log;
    assert t.log == s.log + [commit] && t.log[..|s.log|] == s.log && t.log[..|s.log| + 1] == t.log;
    assert Fold(t.log) == Updated(Fold(s.log), k.update);
    CommitKeepsInv(s, t, commit);
  }

  lemma ExecKeepsInv(s: System, c: nat, replyLost: bool)
    requires Inv(s) && c in s.calls && s.calls[c].Read?
    ensures Inv(Executed(s, c, replyLost))
  {
    var k := s.calls[c];
    if Changes(k.value, k.update) && |s.log| == k.seen {
      ExecCommits(s, c, replyLost);
    } else {
      assert CallInv(s.log, c, k);
      PutKeepsInv(s, c, Executed(s, c, replyLost).calls[c]);
    }
  }

  lemma RestoreKeepsInv(s: System, v: Lists)
    requires Inv(s)
    ensures Inv(Next(s, Restore(v)))
  {
    CommitKeepsInv(s, Next(s, Restore(v)), Restored(v));
  }

  lemma CopyStepKeepsInv(s: System, step: Step)
    requires Inv(s) && (step.Land? || step.RefreshGet? || step.RefreshLand?)
    ensures Inv(Next(s, step))
  {
    var t := Next(s, step);
    assert s.log[..|s.log|] == s.log;
    if step.Land? && step.call in s.calls {
      assert CallInv(s.log, step.call, s.calls[step.call]);
    }
    forall i: nat ensures Owned(t, i) { assert Owned(s, i); }
  }

  lemma CallStepKeepsInv(s: System, step: Step)
    requires Inv(s) && (step.Begin? || step.Watch? || step.Get? || step.Fail?)
    ensures Inv(Next(s, step))
  {
    var t := Next(s, step);
    assert s.log[..|s.log|] == s.log;
    if step.call in s.calls {
      assert CallInv(s.log, step.call, s.calls[step.call]);
    }
    if t != s {
      PutKeepsInv(s, step.call, t.calls[step.call]);
    }
  }

  lemma {:induction false} RunKeepsInv(s: System, steps: seq<Step>)
    requires Inv(s)
    ensures Inv(Run(s, steps))
  {
    if steps == [] {
    } else {
      var before, step := Run(s, steps[..|steps| - 1]), steps[|steps| - 1];
      RunKeepsInv(s, steps[..|steps| - 1]);
      match step
      case Exec(c, lost) => if c in before.calls && before.calls[c].Read? { ExecKeepsInv(before, c, lost); }
      case Restore(v) => RestoreKeepsInv(before, v);
      case Begin(_, _, _) => CallStepKeepsInv(before, step);
      case Watch(_) => CallStepKeepsInv(before, step);
      case Get(_) => CallStepKeepsInv(before, step);
      case Fail(_) => CallStepKeepsInv(before, step);
      case _ => CopyStepKeepsInv(before, step);
    }
  }

  /** The call returned its own update's result at position `at` of the log, between its beginning and now. */
  ghost predicate Linearised(log: seq<Commit>, c: nat, k: Call) {
    && k.Returned? && k.began <= k.at <= |log|
    && k.changed == Changes(Fold(log[..k.at]), k.update)
    && k.value == Updated(Fold(log[..k.at]), k.update)
    && (k.changed ==> k.at < |log| && log[k.at] == Applied(c, k.update))
  }

  lemma ReturnedMeansLinearised(log: seq<Commit>, c: nat, k: Call)
    requires CallInv(log, c, k) && k.Returned?
    ensures Linearised(log, c, k)
  {
    if k.changed {
      assert log[..k.at + 1][..k.at] == log[..k.at];
    }
  }

  /**
   Serialisability: in every run the stored value is the fold of the commits, in order; every commit of a call is the
   only one of that call; and every call that returned did so with the value and the `changed` flag of its own update
   at one position of the log between its beginning and now.
   */
  lemma UpdatesAreSerialisable(steps: seq<Step>, c: nat, i: nat, j: nat)
    ensures var s := Run(START, steps);
            && s.stored == Fold(s.log)
            && (i < |s.log| && j < |s.log| && s.log[i].Applied? && s.log[j].Applied? && s.log[i].call == s.log[j].call
                ==> i == j)
            && (c in s.calls && s.calls[c].Returned? ==> Linearised(s.log, c, s.calls[c]))
  {
    RunKeepsInv(START, steps);
    var s := Run(START, steps);
    assert Owned(s, i) && Owned(s, j);
    if c in s.calls && s.calls[c].Returned? {
      ReturnedMeansLinearised(s.log, c, s.calls[c]);
    }
  }

  /**
   A call that gave up or failed before EXEC has no effect; one whose reply was lost has taken effect exactly once.
   */
  lemma FailedCallsHaveNoEffect(steps: seq<Step>, c: nat, i: nat)
    requires c in Run(START, steps).calls && i < |Run(START, steps).log|
    ensures var s := Run(START, steps);
            && (s.calls[c].Failed? ==> s.log[i].Restored? || s.log[i].call != c)
            && (s.calls[c].ReplyLost? ==>
                  s.calls[c].at < |s.log| && s.log[s.calls[c].at] == Applied(c, s.calls[c].update))
  {
    RunKeepsInv(START, steps);
    assert Owned(Run(START, steps), i);
    assert CallInv(Run(START, steps).log, c, Run(START, steps).calls[c]);
  }

  /** A call gives up only after at least 16 commits of others while it was trying. */
  lemma GivingUpNeedsContention(steps: seq<Step>, c: nat, i: nat)
    requires c in Run(START, steps).calls && Run(START, steps).calls[c].Failed?
    requires Run(START, steps).calls[c].cause.Exhausted?
    ensures var s := Run(START, steps);
            var cause := s.calls[c].cause;
            && cause.ended - cause.began >= 16 && cause.ended <= |s.log|
            && (cause.began <= i < cause.ended ==> s.log[i].Restored? || s.log[i].call != c)
  {
    RunKeepsInv(START, steps);
    assert Owned(Run(START, steps), i);
    assert CallInv(Run(START, steps).log, c, Run(START, steps).calls[c]);
  }

  /** The call reads, somebody restores the empty value, and the call finds out. */
  ghost predicate HasTried(s: System, u: Update, attempt: nat) {
    && s.stored == map[] && 0 in s.calls && |s.log| == attempt
    && s.calls[0] == if attempt < 16 then Trying(0, u, 0, attempt) else Failed(u, Exhausted(0, 16))
  }

  lemma TriesAgain(s: System, u: Update, attempt: nat)
    requires u.add && attempt < 16 && HasTried(s, u, attempt)
    ensures HasTried(Next(Next(Next(Next(s, Watch(0)), Get(0)), Restore(map[])), Exec(0, false)), u, attempt + 1)
  {
    var read := Next(Next(s, Watch(0)), Get(0));
    assert read.calls[0] == Read(0, u, 0, attempt, attempt, attempt, map[]);
  }

  lemma RunOn(s: System, steps: seq<Step>, step: Step)
    ensures Run(s, steps + [step]) == Next(Run(s, steps), step)
  {
    assert (steps + [step])[..|steps|] == steps;
  }

  /** And sixteen are enough: a run in which each attempt meets one, and the sixteenth is the last. */
  lemma SixteenCommitsExhaust(u: Update, attempt: nat) returns (steps: seq<Step>)
    requires u.add && attempt <= 16
    ensures HasTried(Run(START, steps), u, attempt)
  {
    if attempt == 0 {
      RunOn(START, [], Begin(0, 0, u));
      steps := [] + [Begin(0, 0, u)];
    } else {
      var before := SixteenCommitsExhaust(u, attempt - 1);
      TriesAgain(Run(START, before), u, attempt - 1);
      RunOn(START, before, Watch(0));
      RunOn(START, before + [Watch(0)], Get(0));
      RunOn(START, before + [Watch(0)] + [Get(0)], Restore(map[]));
      RunOn(START, before + [Watch(0)] + [Get(0)] + [Restore(map[])], Exec(0, false));
      steps := before + [Watch(0)] + [Get(0)] + [Restore(map[])] + [Exec(0, false)];
    }
  }

  // ----- the in-memory copies

  /** A copy is never invented: it is the value some prefix of the commits produced. */
  lemma CopiesWereCommitted(steps: seq<Step>, process: nat)
    requires process in Run(START, steps).copies
    ensures var s := Run(START, steps);
            s.copies[process].at <= |s.log| && s.copies[process].value == Fold(s.log[..s.copies[process].at])
  {
    RunKeepsInv(START, steps);
  }

  /** Nothing that could still land in the copy of `process` differs from the stored value. */
  ghost predicate NothingOlderPending(s: System, process: nat) {
    && (forall c :: c in s.calls && s.calls[c].Returned? && s.calls[c].process == process && !s.calls[c].landed ==>
          s.calls[c].value == s.stored)
    && (forall c :: c in s.calls && s.calls[c].Read? && s.calls[c].process == process ==>
          s.calls[c].value == s.stored || Changes(s.calls[c].value, s.calls[c].update))
    && (forall r :: r in s.refreshes && s.refreshes[r].process == process ==> s.refreshes[r].copy.value == s.stored)
  }

  /** Landing is a handler's last act: it happens once. */
  ghost predicate Proper(s: System, step: Step) {
    (step.Land? && step.call in s.calls && s.calls[step.call].Returned? ==> !s.calls[step.call].landed)
  }

  /** Once nothing older is pending, one refresh makes the copy equal to the store. */
  lemma RefreshConverges(s: System, refresh: nat, process: nat)
    requires NothingOlderPending(s, process)
    ensures var t := Next(Next(s, RefreshGet(refresh, process)), RefreshLand(refresh));
            && process in t.copies && t.copies[process].value == t.stored == s.stored
            && NothingOlderPending(t, process)
  {
  }

  /** A call's step that leaves the log alone, and does not return an older value, keeps it so. */
  lemma PutKeepsConverged(s: System, c: nat, k: Call, process: nat)
    requires NothingOlderPending(s, process)
    requires k.Returned? && k.process == process ==> k.value == s.stored
    requires k.Read? && k.process == process ==> k.value == s.stored || Changes(k.value, k.update)
    ensures NothingOlderPending(Put(s, c, k), process)
  {
  }

  lemma ExecKeepsConverged(s: System, call: nat, replyLost: bool, process: nat)
    requires NothingOlderPending(s, process) && call in s.calls && s.calls[call].Read?
    requires Executed(s, call, replyLost).log == s.log
    ensures var t := Executed(s, call, replyLost);
            t.copies == s.copies && t.stored == s.stored && NothingOlderPending(t, process)
  {
    var k := s.calls[call];
    assert |s.log + [Applied(call, k.update)]| != |s.log|;
    PutKeepsConverged(s, call, Executed(s, call, replyLost).calls[call], process);
  }

  ghost predicate IsCurrent(s: System, process: nat) {
    process in s.copies && s.copies[process].value == s.stored
  }

  /** And it stays equal as long as nobody commits. */
  lemma ConvergedCopyStays(s: System, step: Step, process: nat)
    requires NothingOlderPending(s, process) && IsCurrent(s, process)
    requires Proper(s, step) && Next(s, step).log == s.log
    ensures var t := Next(s, step);
            NothingOlderPending(t, process) && IsCurrent(t, process) && t.stored == s.stored
  {
    if step.Exec? {
      if step.call in s.calls && s.calls[step.call].Read? {
        ExecKeepsConverged(s, step.call, step.replyLost, process);
      }
    }
  }

  /** A run in which nobody commits. */
  ghost predicate QuietRun(s: System, steps: seq<Step>) {
    steps != [] ==>
      var before, step := steps[..|steps| - 1], steps[|steps| - 1];
      QuietRun(s, before) && Proper(Run(s, before), step) && Next(Run(s, before), step).log == Run(s, before).log
  }

  lemma {:induction false} QuietRunsKeepTheCopy(s: System, steps: seq<Step>, process: nat)
    requires NothingOlderPending(s, process) && IsCurrent(s, process) && QuietRun(s, steps)
    ensures NothingOlderPending(Run(s, steps), process) && IsCurrent(Run(s, steps), process)
  {
    if steps == [] {
    } else {
      QuietRunsKeepTheCopy(s, steps[..|steps| - 1], process);
      ConvergedCopyStays(Run(s, steps[..|steps| - 1]), steps[|steps| - 1], process);
    }
  }

  lemma OneQuietStep(s: System, step: Step)
    requires Proper(s, step) && Next(s, step).log == s.log
    ensures QuietRun(s, [step]) && Run(s, [step]) == Next(s, step)
  {
    assert [step][..0] == [];
  }

  lemma TwoQuietSteps(s: System, a: Step, b: Step)
    requires Proper(s, a) && Next(s, a).log == s.log
    requires Proper(Next(s, a), b) && Next(Next(s, a), b).log == s.log
    ensures QuietRun(s, [a, b]) && Run(s, [a, b]) == Next(Next(s, a), b)
  {
    OneQuietStep(s, a);
    assert [a, b][..1] == [a];
  }

  /** Whatever older is pending can land within two steps, with nobody committing. */
  lemma OlderLands(s: System, process: nat) returns (steps: seq<Step>)
    requires !NothingOlderPending(s, process)
    ensures QuietRun(s, steps) && !IsCurrent(Run(s, steps), process)
  {
    if c :| c in s.calls && s.calls[c].Returned? && s.calls[c].process == process && !s.calls[c].landed
            && s.calls[c].value != s.stored
    {
      OneQuietStep(s, Land(c));
      steps := [Land(c)];
    } else if r :| r in s.refreshes && s.refreshes[r].process == process && s.refreshes[r].copy.value != s.stored {
      OneQuietStep(s, RefreshLand(r));
      steps := [RefreshLand(r)];
    } else {
      var c :| c in s.calls && s.calls[c].Read? && s.calls[c].process == process
               && s.calls[c].value != s.stored && !Changes(s.calls[c].value, s.calls[c].update);
      TwoQuietSteps(s, Exec(c, false), Land(c));
      steps := [Exec(c, false), Land(c)];
    }
  }

  /** A current copy stays so in every run in which nobody commits if and only if nothing older is pending. */
  lemma CopyStaysExactlyWhenNothingOlderIsPending(s: System, process: nat)
    requires IsCurrent(s, process)
    ensures (forall steps :: QuietRun(s, steps) ==> IsCurrent(Run(s, steps), process))
            <==> NothingOlderPending(s, process)
  {
    if NothingOlderPending(s, process) {
      forall steps | QuietRun(s, steps) ensures IsCurrent(Run(s, steps), process) {
        QuietRunsKeepTheCopy(s, steps, process);
      }
    } else {
      var steps := OlderLands(s, process);
      assert QuietRun(s, steps);
    }
  }

  /** A refresh has read the empty value, and then a call adds to it. */
  lemma CommitAfterRead(add: Update)
    requires add.add
    ensures var read := Next(START, RefreshGet(0, 0));
            var committed := Next(Next(Next(Next(read, Begin(0, 0, add)), Watch(0)), Get(0)), Exec(0, false));
            && committed.stored == map[add.kind := [add.value]] && committed.copies == map[]
            && committed.calls == map[0 := Returned(0, add, 0, 0, committed.stored, true, false)]
            && committed.refreshes == map[0 := Refresh(0, Copy(map[], 0))]
  {
    var read := Next(START, RefreshGet(0, 0));
    var got := Next(Next(Next(read, Begin(0, 0, add)), Watch(0)), Get(0));
    assert got.calls == map[0 := Read(0, add, 0, 0, 0, 0, map[])];
    assert Values(map[], add.kind) + [add.value] == [add.value];
    assert Next(got, Exec(0, false)) == Executed(got, 0, false);
  }

  /** The same when the reply is lost: the update is in the store, and the caller does not know. */
  lemma LostReplyHasTakenEffect(add: Update)
    requires add.add
    ensures var read := Next(Next(Next(START, Begin(0, 0, add)), Watch(0)), Get(0));
            var t := Next(read, Exec(0, true));
            && t.stored == map[add.kind := [add.value]] && t.log == [Applied(0, add)]
            && t.calls == map[0 := ReplyLost(add, 0)]
            && Next(read, Fail(0)).calls == map[0 := Failed(add, Broken)] && Next(read, Fail(0)).stored == map[]
  {
    var read := Next(Next(Next(START, Begin(0, 0, add)), Watch(0)), Get(0));
    assert read.calls == map[0 := Read(0, add, 0, 0, 0, 0, map[])];
    assert Values(map[], add.kind) + [add.value] == [add.value];
    assert Next(read, Exec(0, true)) == Executed(read, 0, true);
  }

  /** Until then an older replace can land over a newer one: copies can go back in time. */
  lemma OlderReplaceCanWin(add: Update)
    requires add.add
    ensures var read := Next(START, RefreshGet(0, 0));
            var committed := Next(Next(Next(Next(read, Begin(0, 0, add)), Watch(0)), Get(0)), Exec(0, false));
            var newer := Next(committed, Land(0));
            var older := Next(newer, RefreshLand(0));
            && newer.copies == map[0 := Copy(newer.stored, 1)]
            && older.copies == map[0 := Copy(map[], 0)]
            && older.stored == newer.stored == map[add.kind := [add.value]]
  {
    CommitAfterRead(add);
  }
}
