/** Whole lives of the manager: edits in memory, syncs, crashes at any write, restarts. */
module DiskRuns {
  import opened Wrappers
  import opened DiskFormat
  import opened DiskIo
  import opened DiskMemory
  import opened DiskRecover
  import opened DiskSync
  import opened DiskLoad
  import opened DiskEdits

  /** The disk after `n` of the writes that lead from `a` to `b`. */
  ghost function DiskAfter(a: Io, b: Io, n: nat): Disk
    requires |a.log| <= |b.log| && n <= |Since(a, b)|
  {
    Replay(a.disk, Since(a, b)[..n])
  }

  /** How a crash can strike state `a`: while idle, or after `n` writes of a sync that would have
      completed or would have aborted. */
  datatype Crash =
    | Idle
    | InSync(done: MgrState, trace: Trace, n: nat)
    | InAbort(io: Io, n: nat)

  ghost predicate CrashOf(a: MgrState, c: Crash) {
    match c
    case Idle => true
    case InSync(done, trace, n) => SyncStep(a, done, trace) && n <= |Since(a.io, done.io)|
    case InAbort(io, n) => AbortStep(a, io) && n <= |Since(a.io, io)|
  }

  ghost function CrashDisk(a: MgrState, c: Crash): Disk
    requires CrashOf(a, c)
  {
    match c
    case Idle => a.io.disk
    case InSync(done, _, n) => DiskAfter(a.io, done.io, n)
    case InAbort(io, n) => DiskAfter(a.io, io, n)
  }

  /** The crash came after the write that commits the new tree. */
  ghost predicate PastCommit(a: MgrState, c: Crash)
    requires CrashOf(a, c)
  {
    c.InSync? && c.n >= Commit(a, c.trace)
  }

  /** The slot and tree that must survive the crash. */
  ghost function SurvivorRoot(a: MgrState, c: Crash): nat
    requires CrashOf(a, c)
  {
    if PastCommit(a, c) then c.done.activeRoot else a.activeRoot
  }

  ghost function Survivor(a: MgrState, c: Crash): Prior
    requires CrashOf(a, c)
  {
    if PastCommit(a, c) then c.done.prior else a.prior
  }

  /** A restart that finds a tree and opens it. */
  ghost predicate RestartStep(a: MgrState, b: MgrState, c: Crash) {
    CrashOf(a, c) && OpenedOn(CrashDisk(a, c), b) && Recover(CrashDisk(a, c)) == Some((b.activeRoot, b.prior.view))
  }

  datatype Step = Edit(op: EditOp) | Sync(trace: Trace) | Restart(crash: Crash)

  ghost predicate Next(a: MgrState, b: MgrState, step: Step) {
    match step
    case Edit(op) => CanEdit(a, op) && b == Edited(a, op)
    case Sync(trace) => SyncStep(a, b, trace)
    case Restart(c) => RestartStep(a, b, c)
  }

  ghost predicate Run(states: seq<MgrState>, steps: seq<Step>) {
    && |states| == |steps| + 1
    && forall i :: 0 <= i < |steps| ==> Next(states[i], states[i + 1], steps[i])
  }

  /** Crash consistency: whatever the crash point, a start-up finds the whole pre-sync tree or the
      whole post-sync tree. */
  lemma CrashSurvives(a: MgrState, c: Crash)
    requires ValidState(a) && CrashOf(a, c)
    ensures Survives(CrashDisk(a, c), SurvivorRoot(a, c), Survivor(a, c))
  {
    hide Survives, ValidState, SpareWrites;
    match c {
      case Idle =>
        OpenState(a);
        HoldsSurvives(a.io.disk, a.activeRoot, a.prior);
      case InSync(done, trace, n) =>
        SyncDone(a, done, trace);
      case InAbort(io, n) =>
        AbortKeeps(a, io);
    }
  }

  /** The committed tree `after` replaces `before`: never none for some, never an older one. */
  ghost predicate NotOlder(before: Prior, after: Prior) {
    before.Tree? ==> after.Tree? && before.view.sequence <= after.view.sequence
  }

  lemma StepKeepsValid(a: MgrState, b: MgrState, step: Step)
    requires ValidState(a) && Next(a, b, step)
    ensures ValidState(b) && NotOlder(a.prior, b.prior)
    ensures step.Edit? ==> b.prior == a.prior
    ensures step.Sync? ==> GroupsOk(a.io.disk, a.groups) && b.prior.Tree? && b.prior.view == NextView(a)
    ensures step.Restart? ==> b.prior == Survivor(a, step.crash)
  {
    match step {
      case Edit(op) =>
        EditKeepsValid(a, op);
      case Sync(trace) =>
        SyncDone(a, b, trace);
      case Restart(c) =>
        RestartValid(a, b, c);
    }
  }

  lemma RestartValid(a: MgrState, b: MgrState, c: Crash)
    requires ValidState(a) && RestartStep(a, b, c)
    ensures ValidState(b) && b.prior == Survivor(a, c) && NotOlder(a.prior, b.prior)
  {
    hide OpenedOn, ValidState, HdrOk, GroupLeaf, LoadPost, SpareWrites;
    CrashSurvives(a, c);
    var d := CrashDisk(a, c);
    var prior := Survivor(a, c);
    assert prior.Tree?;
    assert Committed(d, b.activeRoot, prior.view, prior.sectors);
    SurvivorSmall(a, c);
    OpenedIsValid(d, b, prior.view, prior.sectors);
  }

  lemma SurvivorSmall(a: MgrState, c: Crash)
    requires ValidState(a) && CrashOf(a, c)
    ensures Survivor(a, c).Tree? ==> |Survivor(a, c).view.groups| <= NR_ENTRIES_PER_ITREE
    ensures NotOlder(a.prior, Survivor(a, c))
  {
    hide HdrOk, Holds, CrashSafe;
    if c.InSync? {
      SyncDone(a, c.done, c.trace);
    }
  }

  /** Over every run the shadow-paging invariant holds, and a start-up at any point would recover
      the tree of the last sync that reached its commit write. */
  lemma {:induction false} RunsStayValid(states: seq<MgrState>, steps: seq<Step>)
    requires Run(states, steps) && ValidState(states[0])
    ensures forall i :: 0 <= i < |states| ==>
              ValidState(states[i]) && Survives(states[i].io.disk, states[i].activeRoot, states[i].prior)
    decreases |steps|
  {
    hide ValidState, Survives, Next;
    var last := |states| - 1;
    if last == 0 {
      CrashSurvives(states[0], Idle);
    } else {
      RunPrefix(states, steps);
      RunsStayValid(states[..last], steps[..last - 1]);
      assert states[..last][last - 1] == states[last - 1];
      StepKeepsValid(states[last - 1], states[last], steps[last - 1]);
      CrashSurvives(states[last], Idle);
      assert forall i :: 0 <= i < last ==> states[i] == states[..last][i];
    }
  }

  lemma RunPrefix(states: seq<MgrState>, steps: seq<Step>)
    requires Run(states, steps) && |steps| >= 1
    ensures Run(states[..|states| - 1], steps[..|steps| - 1])
  {
    hide Next;
  }

  /** Committed trees are durable: along a run the recoverable tree is never lost and never goes back. */
  lemma {:induction false} RunsNeverGoBack(states: seq<MgrState>, steps: seq<Step>, i: nat, j: nat)
    requires Run(states, steps) && ValidState(states[0]) && i <= j < |states|
    ensures NotOlder(states[i].prior, states[j].prior)
    decreases j - i
  {
    hide ValidState, Next;
    if i < j {
      RunsNeverGoBack(states, steps, i, j - 1);
      RunsStayValid(states, steps);
      StepKeepsValid(states[j - 1], states[j], steps[j - 1]);
    }
  }

  ghost function ViewOf(prior: Prior): Option<RootView> {
    if prior.Tree? then Some(prior.view) else None
  }

  /** The tree on record after one more step: a sync that reaches its commit write replaces it. */
  ghost function Recorded(before: Option<RootView>, a: MgrState, b: MgrState, step: Step): Option<RootView>
    requires Next(a, b, step)
  {
    if step.Sync? || (step.Restart? && PastCommit(a, step.crash)) then Some(NextView(a)) else before
  }

  /** The tree of the last sync of the run, up to state `i`, that reached its commit write. */
  ghost function LastCommitted(states: seq<MgrState>, steps: seq<Step>, i: nat): Option<RootView>
    requires Run(states, steps) && i < |states|
  {
    if i == 0 then ViewOf(states[0].prior)
    else Recorded(LastCommitted(states, steps, i - 1), states[i - 1], states[i], steps[i - 1])
  }

  lemma StepRecorded(a: MgrState, b: MgrState, step: Step)
    requires ValidState(a) && Next(a, b, step)
    ensures ViewOf(b.prior) == Recorded(ViewOf(a.prior), a, b, step)
  {
    hide ValidState, Commit, SyncStep, AbortStep;
    StepKeepsValid(a, b, step);
    if step.Restart? && PastCommit(a, step.crash) {
      StepKeepsValid(a, step.crash.done, Sync(step.crash.trace));
    }
  }

  lemma {:induction false} RunsRecord(states: seq<MgrState>, steps: seq<Step>, i: nat)
    requires Run(states, steps) && i < |states| && forall j :: 0 <= j < |states| ==> ValidState(states[j])
    ensures ViewOf(states[i].prior) == LastCommitted(states, steps, i)
  {
    hide ValidState, Next, Recorded, ViewOf;
    if i > 0 {
      RunsRecord(states, steps, i - 1);
      StepRecorded(states[i - 1], states[i], steps[i - 1]);
    }
  }

  /** What the run committed last is what a start-up finds, at every point of every run. */
  lemma LastCommitRecovers(states: seq<MgrState>, steps: seq<Step>, i: nat)
    requires Run(states, steps) && ValidState(states[0]) && i < |states|
    ensures match LastCommitted(states, steps, i)
            case Some(view) => Recover(states[i].io.disk) == Some((states[i].activeRoot, view))
            case None => Recover(states[i].io.disk) == None
  {
    hide ValidState, Next, Recover, LastCommitted, Holds;
    RunsStayValid(states, steps);
    RunsRecord(states, steps, i);
  }
}
