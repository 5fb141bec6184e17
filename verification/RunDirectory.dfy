/** The run directory of the private Git runtime: its durable states, the durable writes of every session in their
    order, and what any number of sessions, each killed after any number of writes, can and cannot leave. */
module RunDirectory {
  import opened Wrappers
  import opened GitManifest

  // ----- durable state -----

  datatype Phase = Initializing | Ready | Applying | Completed | Aborting | Aborted

  datatype StateRecord = StateRecord(digest: nat, phase: Phase, nextIndex: int)

  datatype Lock = RefLock | IndexLock

  /** The private repository: result ref, scratch index, stored checkpoint objects, lock files. */
  datatype Repo = Repo(config: nat, head: Commit, index: Tree, objects: set<Commit>, locks: set<Lock>)

  /** The unpublished repository under construction. */
  datatype Stage = NoStage | Partial | Unborn(config: nat, index: Tree) | Staged(repo: Repo)

  datatype Disk = Disk(manifest: Manifest, state: StateRecord, stage: Stage, repo: Option<Repo>)

  function State(m: Manifest, phase: Phase, index: int): StateRecord {
    StateRecord(m.digest, phase, index)
  }

  ghost predicate Stored(m: Manifest, i: nat, objects: set<Commit>)
    requires i <= |m.steps|
  {
    forall k :: 0 <= k < i ==> m.steps[k].commit in objects
  }

  /** The repository holds the first `i` checkpoints and its ref names the last of them. */
  ghost predicate RepoAt(m: Manifest, r: Repo, i: nat)
    requires i <= |m.steps|
  {
    && r.config == m.config
    && r.head == CheckpointAt(m, i).0
    && Stored(m, i, r.objects)
  }

  ghost predicate PhaseAgrees(m: Manifest, s: StateRecord, r: Repo) {
    var i, n := s.nextIndex, |m.steps|;
    match s.phase
    case Initializing => i == 0 && RepoAt(m, r, 0)
    case Ready => 0 <= i < n && RepoAt(m, r, i)
    case Applying => 0 <= i < n && (RepoAt(m, r, i) || RepoAt(m, r, i + 1))
    case Completed => i == n && RepoAt(m, r, n)
    case Aborting => 0 <= i <= n && (RepoAt(m, r, i) || RepoAt(m, r, 0))
    case Aborted => i == 0 && RepoAt(m, r, 0)
  }

  /** The durable states that are consistent with the manifest. Scratch (stage, index, lock files, further
      objects) is unconstrained; up to scratch, these are the states that runs leave. */
  ghost predicate Owned(m: Manifest, d: Disk) {
    && d.manifest == m
    && d.state.digest == m.digest
    && match d.repo
       case None => d.state == State(m, Initializing, 0)
       case Some(r) => PhaseAgrees(m, d.state, r)
  }

  /** How many operations the private result stands for. */
  function Position(d: Disk): nat {
    match d.repo
    case None => 0
    case Some(r) => Depth(r.head)
  }

  predicate AbortRecorded(d: Disk) {
    d.state.phase == Aborting || d.state.phase == Aborted
  }

  function Published(m: Manifest): Disk {
    Disk(m, State(m, Initializing, 0), NoStage, None)
  }

  // ----- reports -----

  datatype Status = CompletedRun | AbortedRun | InterruptedRun

  datatype Report = Report(status: Status, verified: bool, phase: Phase, digest: nat,
                           resultCommit: Commit, resultTree: Tree, completedOperations: seq<nat>)

  /** The position a report names, from the recorded phase and index and the observed head. */
  function ReportIndex(m: Manifest, s: StateRecord, head: Commit): int {
    if s.phase == Applying && 0 <= s.nextIndex < |m.steps| && head == m.steps[s.nextIndex].commit then s.nextIndex + 1
    else if (s.phase == Aborted || s.phase == Aborting) && head == m.base then 0
    else s.nextIndex
  }

  function ReportOf(m: Manifest, s: StateRecord, head: Commit, verified: bool): Report
    requires 0 <= ReportIndex(m, s, head) <= |m.steps|
  {
    var i := ReportIndex(m, s, head);
    var status := if s.phase == Completed then CompletedRun else if s.phase == Aborted then AbortedRun else InterruptedRun;
    Report(status, verified, s.phase, m.digest, head, CheckpointAt(m, i).1, StepIds(m)[..i])
  }

  /** A report is about the actual head: it names the tree of that commit and the operations that
      its chain records. */
  ghost predicate NamesHead(m: Manifest, r: Report, head: Commit) {
    && r.resultCommit == head
    && r.resultTree == TreeOf(m, head)
    && r.completedOperations == OperationsOf(head)
    && r.digest == m.digest
  }

  lemma RepoDepth(m: Manifest, r: Repo, i: nat)
    requires WellFormed(m) && i <= |m.steps| && RepoAt(m, r, i)
    ensures Depth(r.head) == i
    ensures r.head == m.base <==> i == 0
    ensures forall k :: 0 <= k < |m.steps| ==> (r.head == m.steps[k].commit <==> k + 1 == i)
  {
    CheckpointContent(m, i);
    CheckpointContent(m, 0);
    forall k | 0 <= k < |m.steps|
      ensures r.head == m.steps[k].commit <==> k + 1 == i
    {
      CheckpointContent(m, k + 1);
    }
  }

  lemma ReportNamesHead(m: Manifest, d: Disk, verified: bool)
    requires WellFormed(m) && Owned(m, d) && d.repo.Some?
    ensures 0 <= ReportIndex(m, d.state, d.repo.value.head) <= |m.steps|
    ensures ReportIndex(m, d.state, d.repo.value.head) == Position(d)
    ensures NamesHead(m, ReportOf(m, d.state, d.repo.value.head, verified), d.repo.value.head)
  {
    var r, i := d.repo.value, d.state.nextIndex;
    var at := if d.state.phase == Applying && RepoAt(m, r, i + 1) then i + 1
              else if d.state.phase == Aborting && RepoAt(m, r, 0) then 0
              else i;
    RepoDepth(m, r, at);
    CheckpointContent(m, at);
  }

  // ----- sessions -----

  datatype Action = Resume | Abort

  datatype Outcome = Reported(report: Report) | KilledRun | RefusedRun(reason: Refusal)

  /** `d'` differs from `d` in scratch only: lock files, index, stage and further stored objects. */
  ghost predicate Scratch(d: Disk, d': Disk) {
    && d.manifest == d'.manifest
    && d.state == d'.state
    && match (d.repo, d'.repo)
       case (None, None) => true
       case (Some(r), Some(r')) => r.config == r'.config && r.head == r'.head && r.objects <= r'.objects
       case _ => false
  }

  lemma ScratchKeepsOwned(m: Manifest, d: Disk, d': Disk)
    requires Owned(m, d) && Scratch(d, d')
    ensures Owned(m, d') && Position(d') == Position(d)
  {
  }

  /** One resume, from `d` to `d'`: it never loses a committed step, never undoes a recorded abort
      and is refused for nothing else; if it reports, the whole batch is committed. */
  ghost predicate Resumed(m: Manifest, d: Disk, out: Outcome, d': Disk) {
    if AbortRecorded(d) then
      Scratch(d, d') && (out == KilledRun || out == RefusedRun(CannotResume))
    else
      && !out.RefusedRun?
      && !AbortRecorded(d')
      && Position(d) <= Position(d')
      && (out.Reported? ==> FinishedRun(m, out.report, d'))
  }

  ghost predicate FinishedRun(m: Manifest, r: Report, d: Disk) {
    && d.state == State(m, Completed, |m.steps|)
    && d.repo.Some?
    && d.repo.value.head == CheckpointAt(m, |m.steps|).0
    && NamesHead(m, r, d.repo.value.head)
    && r.status == CompletedRun && r.phase == Completed && !r.verified
    && r.resultTree == CheckpointAt(m, |m.steps|).1
    && r.completedOperations == StepIds(m)
  }

  /** One abort, from `d` to `d'`: the result stays where it was until the recorded abort takes it to the base, and
      if the abort reports, it is the base. */
  ghost predicate AbortedBy(m: Manifest, d: Disk, out: Outcome, d': Disk) {
    && !out.RefusedRun?
    && (AbortRecorded(d) ==> AbortRecorded(d'))
    && (Position(d') == Position(d) || (AbortRecorded(d') && Position(d') == 0))
    && (out.Reported? ==> UndoneRun(m, out.report, d'))
  }

  ghost predicate UndoneRun(m: Manifest, r: Report, d: Disk) {
    && d.state == State(m, Aborted, 0)
    && d.repo.Some?
    && d.repo.value.head == m.base
    && NamesHead(m, r, m.base)
    && r.status == AbortedRun && r.phase == Aborted && !r.verified
    && r.completedOperations == []
  }

  ghost predicate Drove(m: Manifest, d: Disk, action: Action, out: Outcome, d': Disk) {
    match action
    case Resume => Resumed(m, d, out, d')
    case Abort => AbortedBy(m, d, out, d')
  }

  /** Enough durable writes for any uninterrupted drive of `m`. */
  function Enough(m: Manifest): nat {
    16 + 9 * |m.steps|
  }

  // ----- durable writes -----

  /** The disk after these writes. */
  function After(d: Disk, writes: seq<Disk>): Disk {
    if writes == [] then d else writes[|writes| - 1]
  }

  /** What is left when the process is killed after `credit` writes, or lives to make them all. */
  function Left(d: Disk, writes: seq<Disk>, credit: nat): Disk {
    After(d, writes[..if credit < |writes| then credit else |writes|])
  }

  lemma LeftIsSomeWrite(d: Disk, writes: seq<Disk>, credit: nat)
    ensures Left(d, writes, credit) == d || Left(d, writes, credit) in writes
    ensures credit == 0 ==> Left(d, writes, credit) == d
    ensures credit >= |writes| ==> Left(d, writes, credit) == After(d, writes)
    ensures 0 < credit <= |writes| ==> Left(d, writes, credit) == writes[credit - 1]
  {
    assert writes[..|writes|] == writes;
  }

  lemma AfterBoth(d: Disk, first: seq<Disk>, next: seq<Disk>)
    ensures After(d, first + next) == After(After(d, first), next)
  {
  }

  function WithRepo(d: Disk, r: Repo): Disk {
    d.(repo := Some(r))
  }

  /** A Git command under a lock file: the lock appears, then the new repository with the lock gone. */
  function LockedWrites(d: Disk, lock: Lock, next: Repo): (writes: seq<Disk>)
    requires d.repo.Some?
    ensures |writes| == 2 && After(d, writes) == WithRepo(d, next)
  {
    var r := d.repo.value;
    [WithRepo(d, r.(locks := r.locks + {lock})), WithRepo(d, next)]
  }

  /** Applying a patch in scratch; the empty patch writes nothing. */
  function PatchWrites(d: Disk, patch: Patch): (writes: seq<Disk>)
    requires d.repo.Some?
    ensures |writes| <= 2 && After(d, writes).repo.Some?
  {
    if patch.EmptyPatch? then [] else
    match Apply(patch, d.repo.value.index)
    case None => []
    case Some(tree) => LockedWrites(d, IndexLock, d.repo.value.(index := tree))
  }

  /** The first half of step `i`: scratch from the head, intent on record, patch. */
  ghost function ApplyWrites(m: Manifest, patches: Patches, d: Disk, i: nat): (writes: seq<Disk>)
    requires Admits(m, patches) && d.repo.Some? && i < |m.steps|
    ensures 3 <= |writes| <= 5 && After(d, writes).repo.Some?
  {
    var r := d.repo.value;
    var read := LockedWrites(d, IndexLock, r.(index := TreeOf(m, r.head)));
    var intent := After(d, read).(state := State(m, Applying, i));
    assert AdmitsStep(m, patches, i);
    read + [intent] + PatchWrites(intent, patches[m.steps[i].op.id])
  }

  /** The second half of step `i`: checkpoint object, ref, new record. */
  function CommitWrites(m: Manifest, d: Disk, i: nat): (writes: seq<Disk>)
    requires d.repo.Some? && i < |m.steps|
    ensures |writes| == 4 && After(d, writes).repo.Some?
  {
    var r := d.repo.value;
    var commit := Checkpoint(r.index, r.head, m.steps[i].op);
    var stored := WithRepo(d, r.(objects := r.objects + {commit}));
    var moved := LockedWrites(stored, RefLock, stored.repo.value.(head := commit));
    var phase := if i + 1 == |m.steps| then Completed else Ready;
    [stored] + moved + [After(stored, moved).(state := State(m, phase, i + 1))]
  }

  ghost function StepWrites(m: Manifest, patches: Patches, d: Disk, i: nat): (writes: seq<Disk>)
    requires Admits(m, patches) && d.repo.Some? && i < |m.steps|
    ensures 7 <= |writes| <= 9 && After(d, writes).repo.Some?
  {
    var applied := ApplyWrites(m, patches, d, i);
    applied + CommitWrites(m, After(d, applied), i)
  }

  ghost predicate Runnable(m: Manifest, patches: Patches) {
    WellFormed(m) && Admits(m, patches)
  }

  /** All steps from `i` on, and the record of completion. */
  ghost function ForwardWrites(m: Manifest, patches: Patches, d: Disk, i: nat): (writes: seq<Disk>)
    requires Admits(m, patches) && d.repo.Some? && i <= |m.steps|
    ensures 1 <= |writes| <= 1 + 9 * (|m.steps| - i)
    decreases |m.steps| - i
  {
    if i == |m.steps| then [d.(state := State(m, Completed, i))] else
    var step := StepWrites(m, patches, d, i);
    step + ForwardWrites(m, patches, After(d, step), i + 1)
  }

  /** The abort on record, the ref and the scratch back at the base, and that on record. */
  function BackWrites(m: Manifest, d: Disk, index: nat): (writes: seq<Disk>)
    requires d.repo.Some?
    ensures |writes| == 6
  {
    var aborting := d.(state := State(m, Aborting, index));
    var moved := LockedWrites(aborting, RefLock, aborting.repo.value.(head := m.base));
    var back := After(aborting, moved);
    var read := LockedWrites(back, IndexLock, back.repo.value.(index := TreeOf(m, m.base)));
    [aborting] + moved + read + [After(back, read).(state := State(m, Aborted, 0))]
  }

  /** The unpublished repository is built anew, after whatever an earlier attempt left is gone. */
  function StageWrites(m: Manifest, d: Disk): (writes: seq<Disk>)
    ensures 3 <= |writes| <= 5
    ensures After(d, writes) == d.(stage := Staged(Repo(m.config, m.base, m.baseTree, {}, {})))
  {
    (if d.stage == NoStage then [] else [d.(stage := Partial), d.(stage := NoStage)])
    + [d.(stage := Partial), d.(stage := Unborn(m.config, m.baseTree)),
       d.(stage := Staged(Repo(m.config, m.base, m.baseTree, {}, {})))]
  }

  /** The repository is built and published unless it already is, and the first record follows. */
  function BootWrites(m: Manifest, d: Disk): (writes: seq<Disk>)
    ensures 1 <= |writes| <= 7 && After(d, writes).repo.Some?
  {
    if d.repo.Some? then [d.(state := State(m, Ready, 0))] else
    var published := d.(repo := Some(Repo(m.config, m.base, m.baseTree, {}, {})), stage := NoStage);
    StageWrites(m, d) + [published, published.(state := State(m, Ready, 0))]
  }

  /** Abandoned lock files go, the one of the index first. */
  function UnlockWrites(d: Disk): (writes: seq<Disk>)
    requires d.repo.Some?
    ensures |writes| <= 2 && After(d, writes).repo.Some?
  {
    var r := d.repo.value;
    var index := if IndexLock in r.locks then [WithRepo(d, r.(locks := r.locks - {IndexLock}))] else [];
    var rest := r.locks - {IndexLock};
    index + if RefLock in r.locks then [WithRepo(d, r.(locks := rest - {RefLock}))] else []
  }

  /** The position a session works from: an operation that was committed but not recorded counts. */
  function StartIndex(m: Manifest, d: Disk): int
    requires d.repo.Some?
  {
    var s := d.state;
    if s.phase == Applying && 0 <= s.nextIndex < |m.steps| && d.repo.value.head == m.steps[s.nextIndex].commit
    then s.nextIndex + 1 else s.nextIndex
  }

  function BootedDisk(m: Manifest, d: Disk): (r: (Disk, seq<Disk>))
    ensures r.0 == After(d, r.1) && |r.1| <= 7
  {
    var boot := if d.state == State(m, Initializing, 0) then BootWrites(m, d) else [];
    (After(d, boot), boot)
  }

  /** What a session does once the directory is booted and unlocked. */
  ghost function WorkWrites(m: Manifest, patches: Patches, ready: Disk, action: Action): (writes: seq<Disk>)
    requires Runnable(m, patches) && Owned(m, ready) && ready.repo.Some?
    ensures |writes| <= 6 + 9 * |m.steps|
  {
    StartFacts(m, ready);
    if action == Abort then BackWrites(m, ready, StartIndex(m, ready))
    else if AbortRecorded(ready) then []
    else ForwardWrites(m, patches, ready, StartIndex(m, ready))
  }

  /** The directory once it is booted and unlocked. */
  ghost function ReadyDisk(m: Manifest, d: Disk): (ready: Disk)
    requires WellFormed(m) && Owned(m, d)
    ensures Owned(m, ready) && ready.repo.Some?
  {
    var booted := BootedDisk(m, d).0;
    BootTrail(m, d);
    UnlockTrail(m, booted);
    After(booted, UnlockWrites(booted))
  }

  ghost function PrepareWrites(m: Manifest, d: Disk): (writes: seq<Disk>)
    requires WellFormed(m) && Owned(m, d)
    ensures |writes| <= 9 && After(d, writes) == ReadyDisk(m, d)
  {
    var (booted, boot) := BootedDisk(m, d);
    BootTrail(m, d);
    AfterBoth(d, boot, UnlockWrites(booted));
    boot + UnlockWrites(booted)
  }

  /** Every durable write of a session that lives to its end. */
  ghost function DriveWrites(m: Manifest, patches: Patches, d: Disk, action: Action): (writes: seq<Disk>)
    requires Runnable(m, patches) && Owned(m, d)
    ensures |writes| <= Enough(m)
  {
    PrepareWrites(m, d) + WorkWrites(m, patches, ReadyDisk(m, d), action)
  }

  // ----- every write leaves an owned directory -----

  /** The directory stands at position `i`, under a record that agrees. */
  ghost predicate At(m: Manifest, d: Disk, i: nat) {
    Owned(m, d) && d.repo.Some? && i <= |m.steps| && RepoAt(m, d.repo.value, i)
  }

  lemma AtPosition(m: Manifest, d: Disk, i: nat)
    requires WellFormed(m) && At(m, d, i)
    ensures Position(d) == i
  {
    RepoDepth(m, d.repo.value, i);
  }

  /** Between two steps: the first `i` operations are committed and no lock is held. */
  ghost predicate Between(m: Manifest, d: Disk, i: nat) {
    At(m, d, i) && !AbortRecorded(d) && d.repo.value.locks == {}
  }

  /** The patch of step `i` is applied in scratch, and the intent is on record. */
  ghost predicate Applied(m: Manifest, d: Disk, i: nat) {
    && At(m, d, i) && i < |m.steps| && d.state == State(m, Applying, i)
    && d.repo.value.locks == {} && d.repo.value.index == m.steps[i].outputTree
  }

  /** A directory at the base on the way to its first record. */
  lemma BootTrail(m: Manifest, d: Disk)
    requires WellFormed(m) && Owned(m, d)
    ensures forall e :: e in BootedDisk(m, d).1 ==> At(m, e, 0) || (Owned(m, e) && e.repo.None?)
    ensures forall e :: e in BootedDisk(m, d).1 ==> !AbortRecorded(e)
    ensures var booted := BootedDisk(m, d).0;
      Owned(m, booted) && booted.repo.Some? && Position(booted) == Position(d)
      && (AbortRecorded(booted) <==> AbortRecorded(d))
      && (d.state == State(m, Initializing, 0) ==> At(m, booted, 0) && booted.state == State(m, Ready, 0))
      && (d.state != State(m, Initializing, 0) ==> booted == d)
  {
    CheckpointContent(m, 0);
  }

  lemma UnlockTrail(m: Manifest, d: Disk)
    requires Owned(m, d) && d.repo.Some?
    ensures forall e :: e in UnlockWrites(d) ==> Scratch(d, e) && e.repo.Some?
    ensures var ready := After(d, UnlockWrites(d));
      Scratch(d, ready) && Owned(m, ready) && Position(ready) == Position(d)
      && ready == WithRepo(d, d.repo.value.(locks := {}))
  {
    var r := d.repo.value;
    var rest := r.locks - {IndexLock} - {RefLock};
    forall l ensures l !in rest {
      match l {
        case RefLock =>
        case IndexLock =>
      }
    }
    assert rest == {};
    assert IndexLock !in r.locks ==> r.locks - {IndexLock} == r.locks;
    assert RefLock !in r.locks ==> r.locks - {IndexLock} == rest;
  }

  /** Abandoned lock files are scratch, whatever the directory is. */
  lemma UnlockLeaves(d: Disk, credit: nat)
    requires d.repo.Some?
    ensures Scratch(d, Left(d, UnlockWrites(d), credit))
    ensures credit >= |UnlockWrites(d)| ==> Left(d, UnlockWrites(d), credit).repo.value.objects == d.repo.value.objects
  {
    LeftIsSomeWrite(d, UnlockWrites(d), credit);
  }

  /** A session starts where the ref stands, or at the recorded position of an abort that has not moved it yet. */
  lemma StartFacts(m: Manifest, d: Disk)
    requires WellFormed(m) && Owned(m, d) && d.repo.Some?
    ensures 0 <= StartIndex(m, d) <= |m.steps|
    ensures !AbortRecorded(d) ==> At(m, d, StartIndex(m, d))
    ensures AbortRecorded(d) ==> At(m, d, 0) || At(m, d, StartIndex(m, d))
  {
    var s, r := d.state, d.repo.value;
    CheckpointContent(m, 0);
    if s.phase == Applying {
      CheckpointsDistinctHere(m, s.nextIndex);
    }
  }

  lemma CheckpointsDistinctHere(m: Manifest, i: nat)
    requires WellFormed(m) && i < |m.steps|
    ensures CheckpointAt(m, i).0 != m.steps[i].commit
  {
    CheckpointContent(m, i);
    CheckpointContent(m, i + 1);
  }

  /** A directory that a forward session passes through from position `i` on. */
  ghost predicate Going(m: Manifest, i: nat, d: Disk) {
    Owned(m, d) && d.repo.Some? && !AbortRecorded(d) && i <= Position(d)
  }

  /** Scratch is read from the head and the intent of step `i` is put on record. */
  lemma IntentTrail(m: Manifest, d: Disk, i: nat)
    requires WellFormed(m) && Between(m, d, i) && i < |m.steps|
    ensures var read := LockedWrites(d, IndexLock, d.repo.value.(index := TreeOf(m, d.repo.value.head)));
      var intent := After(d, read).(state := State(m, Applying, i));
      && Going(m, i, read[0]) && Going(m, i, read[1]) && Going(m, i, intent)
      && At(m, intent, i) && intent.repo.value.locks == {} && intent.repo.value.index == m.steps[i].inputTree
  {
    assert SealedStep(m, i);
    CheckpointContent(m, i);
  }

  lemma ApplyTrail(m: Manifest, patches: Patches, d: Disk, i: nat)
    requires Runnable(m, patches) && Between(m, d, i) && i < |m.steps|
    ensures forall e :: e in ApplyWrites(m, patches, d, i) ==> Going(m, i, e)
    ensures Applied(m, After(d, ApplyWrites(m, patches, d, i)), i)
  {
    assert AdmitsStep(m, patches, i);
    IntentTrail(m, d, i);
    var read := LockedWrites(d, IndexLock, d.repo.value.(index := TreeOf(m, d.repo.value.head)));
    PatchTrail(m, patches, After(d, read).(state := State(m, Applying, i)), i);
  }

  /** From the intent on, the patch of step `i` takes scratch to the declared tree. */
  lemma PatchTrail(m: Manifest, patches: Patches, intent: Disk, i: nat)
    requires Runnable(m, patches) && At(m, intent, i) && i < |m.steps| && intent.state == State(m, Applying, i)
    requires intent.repo.value.locks == {} && intent.repo.value.index == m.steps[i].inputTree
    ensures m.steps[i].op.id in patches
    ensures forall e :: e in PatchWrites(intent, patches[m.steps[i].op.id]) ==> Going(m, i, e)
    ensures Applied(m, After(intent, PatchWrites(intent, patches[m.steps[i].op.id])), i)
  {
    assert AdmitsStep(m, patches, i);
    CheckpointContent(m, i);
  }

  lemma CommitTrail(m: Manifest, d: Disk, i: nat)
    requires WellFormed(m) && Applied(m, d, i)
    ensures forall e :: e in CommitWrites(m, d, i) ==> Going(m, i, e)
    ensures Between(m, After(d, CommitWrites(m, d, i)), i + 1)
  {
    assert SealedStep(m, i);
    CheckpointContent(m, i);
    CheckpointContent(m, i + 1);
  }

  lemma StepTrail(m: Manifest, patches: Patches, d: Disk, i: nat)
    requires Runnable(m, patches) && Between(m, d, i) && i < |m.steps|
    ensures forall e :: e in StepWrites(m, patches, d, i) ==> Going(m, i, e)
    ensures Between(m, After(d, StepWrites(m, patches, d, i)), i + 1)
  {
    ApplyTrail(m, patches, d, i);
    var applied := ApplyWrites(m, patches, d, i);
    CommitTrail(m, After(d, applied), i);
    AfterBoth(d, applied, CommitWrites(m, After(d, applied), i));
  }

  /** The whole batch is committed and recorded as completed. */
  ghost predicate Ended(m: Manifest, d: Disk) {
    At(m, d, |m.steps|) && d.state == State(m, Completed, |m.steps|)
  }

  lemma {:induction false} ForwardTrail(m: Manifest, patches: Patches, d: Disk, i: nat)
    requires Runnable(m, patches) && Between(m, d, i)
    ensures forall e :: e in ForwardWrites(m, patches, d, i) ==> Going(m, i, e)
    ensures Ended(m, After(d, ForwardWrites(m, patches, d, i)))
    decreases |m.steps| - i
  {
    if i == |m.steps| {
      CheckpointContent(m, i);
    } else {
      var step := StepWrites(m, patches, d, i);
      StepTrail(m, patches, d, i);
      ForwardTrail(m, patches, After(d, step), i + 1);
      AfterBoth(d, step, ForwardWrites(m, patches, After(d, step), i + 1));
    }
  }

  /** A directory on the way back from position `i`: it has not left that position, or it is at the base. */
  ghost predicate GoingBack(m: Manifest, i: nat, d: Disk) {
    Owned(m, d) && d.repo.Some? && AbortRecorded(d) && (Position(d) == i || Position(d) == 0)
  }

  lemma BackTrail(m: Manifest, d: Disk, index: nat)
    requires WellFormed(m) && d.repo.Some? && index <= |m.steps|
    requires At(m, d, index) || (At(m, d, 0) && AbortRecorded(d))
    ensures forall e :: e in BackWrites(m, d, index) ==> GoingBack(m, Position(d), e)
    ensures var back := After(d, BackWrites(m, d, index));
      At(m, back, 0) && back.state == State(m, Aborted, 0)
  {
    CheckpointContent(m, 0);
    CheckpointContent(m, index);
  }

  /** What a session may have left behind at any of its writes. */
  ghost predicate LeftBy(m: Manifest, d: Disk, action: Action, e: Disk) {
    && Owned(m, e)
    && match action
       case Resume =>
         if AbortRecorded(d) then Scratch(d, e)
         else !AbortRecorded(e) && Position(d) <= Position(e)
       case Abort =>
         && (AbortRecorded(d) ==> AbortRecorded(e))
         && (Position(e) == Position(d) || (AbortRecorded(e) && Position(e) == 0))
  }

  lemma PreparingLeaves(m: Manifest, d: Disk, action: Action)
    requires WellFormed(m) && Owned(m, d)
    ensures forall e :: e in PrepareWrites(m, d) ==> LeftBy(m, d, action, e)
    ensures var ready := ReadyDisk(m, d);
      && Position(ready) == Position(d) && (AbortRecorded(ready) <==> AbortRecorded(d))
      && (AbortRecorded(d) ==> Scratch(d, ready)) && ready.repo.value.locks == {}
  {
    BootTrail(m, d);
    var booted := BootedDisk(m, d).0;
    UnlockTrail(m, booted);
    forall e | e in PrepareWrites(m, d) ensures LeftBy(m, d, action, e) {
      if e in BootedDisk(m, d).1 {
        BootedLeaves(m, d, action, e);
      } else {
        ScratchKeepsOwned(m, booted, e);
      }
    }
  }

  lemma BootedLeaves(m: Manifest, d: Disk, action: Action, e: Disk)
    requires WellFormed(m) && Owned(m, d) && e in BootedDisk(m, d).1
    ensures LeftBy(m, d, action, e)
  {
    BootTrail(m, d);
    CheckpointContent(m, 0);
  }

  /** The work of a session, and where it ends if it is not killed. */
  lemma WorkTrail(m: Manifest, patches: Patches, ready: Disk, action: Action)
    requires Runnable(m, patches) && Owned(m, ready) && ready.repo.Some? && ready.repo.value.locks == {}
    ensures forall e :: e in WorkWrites(m, patches, ready, action) ==> LeftBy(m, ready, action, e)
    ensures var last := After(ready, WorkWrites(m, patches, ready, action));
      && (action == Abort ==> At(m, last, 0) && last.state == State(m, Aborted, 0))
      && (action == Resume && AbortRecorded(ready) ==> last == ready)
      && (action == Resume && !AbortRecorded(ready) ==> Ended(m, last))
  {
    StartFacts(m, ready);
    var index := StartIndex(m, ready);
    if action == Abort {
      BackTrail(m, ready, index);
    } else if !AbortRecorded(ready) {
      AtPosition(m, ready, index);
      ForwardTrail(m, patches, ready, index);
    }
  }

  lemma LeftByThen(m: Manifest, d: Disk, ready: Disk, action: Action, e: Disk)
    requires Position(ready) == Position(d) && (AbortRecorded(ready) <==> AbortRecorded(d))
    requires AbortRecorded(d) ==> Scratch(d, ready)
    requires LeftBy(m, ready, action, e)
    ensures LeftBy(m, d, action, e)
  {
  }

  /** Whatever the write after which a session is killed, the directory it leaves is owned, keeps every committed
      operation or is recorded as aborting, and is never anywhere else. */
  lemma DriveTrail(m: Manifest, patches: Patches, d: Disk, action: Action)
    requires Runnable(m, patches) && Owned(m, d)
    ensures forall e :: e in DriveWrites(m, patches, d, action) ==> LeftBy(m, d, action, e)
    ensures var last := After(d, DriveWrites(m, patches, d, action));
      && Owned(m, last) && last.repo.Some?
      && (action == Abort ==> At(m, last, 0) && last.state == State(m, Aborted, 0))
      && (action == Resume && AbortRecorded(d) ==> Scratch(d, last))
      && (action == Resume && !AbortRecorded(d) ==> Ended(m, last))
  {
    var ready := ReadyDisk(m, d);
    PreparingLeaves(m, d, action);
    WorkTrail(m, patches, ready, action);
    AfterBoth(d, PrepareWrites(m, d), WorkWrites(m, patches, ready, action));
    forall e | e in WorkWrites(m, patches, ready, action) ensures LeftBy(m, d, action, e) {
      LeftByThen(m, d, ready, action, e);
    }
  }

  // ----- one session -----

  /** What a session with `credit` durable writes to go leaves. */
  ghost function SessionLeaves(m: Manifest, patches: Patches, d: Disk, action: Action, credit: nat): (e: Disk)
    requires Runnable(m, patches) && Owned(m, d)
    ensures Owned(m, e)
  {
    DriveTrail(m, patches, d, action);
    LeftIsSomeWrite(d, DriveWrites(m, patches, d, action), credit);
    Left(d, DriveWrites(m, patches, d, action), credit)
  }

  /** What such a session says. */
  ghost function SessionSays(m: Manifest, patches: Patches, d: Disk, action: Action, credit: nat): Outcome
    requires Runnable(m, patches) && Owned(m, d)
  {
    if credit < |DriveWrites(m, patches, d, action)| then KilledRun
    else if action == Resume && AbortRecorded(d) then RefusedRun(CannotResume)
    else
      var last := After(d, DriveWrites(m, patches, d, action));
      DriveTrail(m, patches, d, action);
      ReportNamesHead(m, last, false);
      Reported(ReportOf(m, last.state, last.repo.value.head, false))
  }

  lemma LeftByItself(m: Manifest, d: Disk, action: Action)
    requires Owned(m, d)
    ensures LeftBy(m, d, action, d)
  {
  }

  lemma EndedReports(m: Manifest, last: Disk)
    requires WellFormed(m) && Ended(m, last)
    ensures 0 <= ReportIndex(m, last.state, last.repo.value.head) <= |m.steps|
    ensures FinishedRun(m, ReportOf(m, last.state, last.repo.value.head, false), last)
  {
    ReportNamesHead(m, last, false);
    CheckpointContent(m, |m.steps|);
    assert StepIds(m)[..|m.steps|] == StepIds(m);
  }

  lemma UndoneReports(m: Manifest, last: Disk)
    requires WellFormed(m) && At(m, last, 0) && last.state == State(m, Aborted, 0)
    ensures 0 <= ReportIndex(m, last.state, last.repo.value.head) <= |m.steps|
    ensures UndoneRun(m, ReportOf(m, last.state, last.repo.value.head, false), last)
  {
    ReportNamesHead(m, last, false);
    CheckpointContent(m, 0);
  }

  lemma KillLeavesOnly(m: Manifest, patches: Patches, d: Disk, action: Action, credit: nat)
    requires Runnable(m, patches) && Owned(m, d)
    ensures LeftBy(m, d, action, SessionLeaves(m, patches, d, action, credit))
  {
    DriveTrail(m, patches, d, action);
    LeftIsSomeWrite(d, DriveWrites(m, patches, d, action), credit);
    LeftByItself(m, d, action);
  }

  /** A session, killed after any number of writes or not at all, keeps the promises of its action. */
  lemma SessionKeepsPromise(m: Manifest, patches: Patches, d: Disk, action: Action, credit: nat)
    requires Runnable(m, patches) && Owned(m, d)
    ensures Drove(m, d, action, SessionSays(m, patches, d, action, credit), SessionLeaves(m, patches, d, action, credit))
    ensures credit >= Enough(m) ==> SessionSays(m, patches, d, action, credit) != KilledRun
  {
    var writes := DriveWrites(m, patches, d, action);
    KillLeavesOnly(m, patches, d, action, credit);
    if credit >= |writes| {
      DriveTrail(m, patches, d, action);
      LeftIsSomeWrite(d, writes, credit);
      if action == Abort {
        UndoneReports(m, After(d, writes));
      } else if !AbortRecorded(d) {
        EndedReports(m, After(d, writes));
      }
    }
  }

  // ----- whole runs -----

  datatype Session = Session(action: Action, credit: nat)

  /** The directory after the first `k` of these sessions, each from what the one before it left and killed after its
      own number of writes. */
  ghost function DiskAfter(m: Manifest, patches: Patches, sessions: seq<Session>, k: nat): (d: Disk)
    requires Runnable(m, patches) && k <= |sessions|
    ensures Owned(m, d)
  {
    if k == 0 then Published(m) else
    SessionLeaves(m, patches, DiskAfter(m, patches, sessions, k - 1), sessions[k - 1].action, sessions[k - 1].credit)
  }

  /** What session `k` says. */
  ghost function Said(m: Manifest, patches: Patches, sessions: seq<Session>, k: nat): Outcome
    requires Runnable(m, patches) && k < |sessions|
  {
    SessionSays(m, patches, DiskAfter(m, patches, sessions, k), sessions[k].action, sessions[k].credit)
  }

  /** In every state of every run the ref names the checkpoint of a prefix of the manifest that the recorded phase
      and index agree with, and a recorded completion means the whole batch. */
  lemma RunIsOwned(m: Manifest, patches: Patches, sessions: seq<Session>, k: nat)
    requires Runnable(m, patches) && k <= |sessions|
    ensures var d := DiskAfter(m, patches, sessions, k);
      && Owned(m, d) && Position(d) <= |m.steps|
      && (d.repo.Some? ==> d.repo.value.head == CheckpointAt(m, Position(d)).0)
      && (d.state.phase == Completed ==> Position(d) == |m.steps|)
      && (d.state.phase == Aborted ==> Position(d) == 0)
  {
    OwnedPosition(m, DiskAfter(m, patches, sessions, k));
  }

  lemma OwnedPosition(m: Manifest, d: Disk)
    requires WellFormed(m) && Owned(m, d)
    ensures Position(d) <= |m.steps|
    ensures d.repo.Some? ==> At(m, d, Position(d))
    ensures d.state.phase == Completed ==> Position(d) == |m.steps|
    ensures d.state.phase == Aborted ==> Position(d) == 0
  {
    if d.repo.Some? {
      var i: nat :| i <= |m.steps| && RepoAt(m, d.repo.value, i);
      RepoDepth(m, d.repo.value, i);
      CheckpointContent(m, |m.steps|);
      CheckpointContent(m, 0);
    }
  }

  /** An abort is on record in `d'`, and its result is that of `d` or the base. */
  predicate StillAborting(d: Disk, d': Disk) {
    AbortRecorded(d') && (Position(d') == Position(d) || Position(d') == 0)
  }

  /** If no abort is on record in `d'`, then none is in `d` and `d'` has every operation that `d` has. */
  predicate KeepsSteps(d: Disk, d': Disk) {
    !AbortRecorded(d') ==> !AbortRecorded(d) && Position(d) <= Position(d')
  }

  lemma SessionKeepsRecord(m: Manifest, patches: Patches, d: Disk, session: Session)
    requires Runnable(m, patches) && Owned(m, d)
    ensures KeepsSteps(d, SessionLeaves(m, patches, d, session.action, session.credit))
    ensures AbortRecorded(d) ==> StillAborting(d, SessionLeaves(m, patches, d, session.action, session.credit))
  {
    var d' := SessionLeaves(m, patches, d, session.action, session.credit);
    KillLeavesOnly(m, patches, d, session.action, session.credit);
    if Scratch(d, d') {
      ScratchKeepsOwned(m, d, d');
    }
  }

  /** Along these directories no operation is lost before an abort is on record, and no abort goes off record. */
  predicate Keeping(disks: seq<Disk>) {
    forall i :: 0 <= i < |disks| - 1 ==>
      KeepsSteps(disks[i], disks[i + 1]) && (AbortRecorded(disks[i]) ==> StillAborting(disks[i], disks[i + 1]))
  }

  lemma {:induction false} KeepingAll(disks: seq<Disk>, j: nat, k: nat)
    requires Keeping(disks) && j <= k < |disks|
    ensures KeepsSteps(disks[j], disks[k])
    ensures AbortRecorded(disks[j]) ==> StillAborting(disks[j], disks[k])
    decreases k
  {
    if j < k {
      KeepingAll(disks, j, k - 1);
      assert KeepsSteps(disks[k - 1], disks[k - 1 + 1]);
    }
  }

  /** The directories of a run, one after the other. */
  ghost function Trail(m: Manifest, patches: Patches, sessions: seq<Session>): (disks: seq<Disk>)
    requires Runnable(m, patches)
    ensures |disks| == |sessions| + 1
    ensures forall k :: 0 <= k <= |sessions| ==> disks[k] == DiskAfter(m, patches, sessions, k)
  {
    seq(|sessions| + 1, k requires 0 <= k <= |sessions| => DiskAfter(m, patches, sessions, k))
  }

  /** What the sessions of a run say, one after the other. */
  ghost function Words(m: Manifest, patches: Patches, sessions: seq<Session>): (words: seq<Outcome>)
    requires Runnable(m, patches)
    ensures |words| == |sessions|
    ensures forall k :: 0 <= k < |sessions| ==> words[k] == Said(m, patches, sessions, k)
  {
    seq(|sessions|, k requires 0 <= k < |sessions| => Said(m, patches, sessions, k))
  }

  lemma TrailStep(m: Manifest, patches: Patches, sessions: seq<Session>, k: nat)
    requires Runnable(m, patches) && k < |sessions|
    ensures var d, session := Trail(m, patches, sessions)[k], sessions[k];
      && Owned(m, d)
      && Trail(m, patches, sessions)[k + 1] == SessionLeaves(m, patches, d, session.action, session.credit)
      && Words(m, patches, sessions)[k] == SessionSays(m, patches, d, session.action, session.credit)
  {
  }

  lemma TrailKeeps(m: Manifest, patches: Patches, sessions: seq<Session>)
    requires Runnable(m, patches)
    ensures Keeping(Trail(m, patches, sessions))
  {
    var disks := Trail(m, patches, sessions);
    forall i | 0 <= i < |disks| - 1
      ensures KeepsSteps(disks[i], disks[i + 1]) && (AbortRecorded(disks[i]) ==> StillAborting(disks[i], disks[i + 1]))
    {
      SessionKeepsRecord(m, patches, DiskAfter(m, patches, sessions, i), sessions[i]);
    }
  }

  /** A recorded abort is final: no later state is anything but aborting or aborted, and the result stays where it was
      or goes to the base. */
  lemma AbortIsFinal(m: Manifest, patches: Patches, sessions: seq<Session>, j: nat, k: nat)
    requires Runnable(m, patches) && j <= k <= |sessions| && AbortRecorded(DiskAfter(m, patches, sessions, j))
    ensures StillAborting(DiskAfter(m, patches, sessions, j), DiskAfter(m, patches, sessions, k))
  {
    TrailKeeps(m, patches, sessions);
    KeepingAll(Trail(m, patches, sessions), j, k);
  }

  /** Until an abort is recorded, no committed operation is ever lost, whatever the kills. */
  lemma CommittedStepsAreKept(m: Manifest, patches: Patches, sessions: seq<Session>, j: nat, k: nat)
    requires Runnable(m, patches) && j <= k <= |sessions| && !AbortRecorded(DiskAfter(m, patches, sessions, k))
    ensures Position(DiskAfter(m, patches, sessions, j)) <= Position(DiskAfter(m, patches, sessions, k))
  {
    TrailKeeps(m, patches, sessions);
    KeepingAll(Trail(m, patches, sessions), j, k);
  }

  /** What a session says anywhere in any run: a resume reports the whole batch or is refused because of an abort
      recorded earlier; an abort reports the base. Nothing else is refused. */
  lemma SessionsReportTruly(m: Manifest, patches: Patches, sessions: seq<Session>, k: nat)
    requires Runnable(m, patches) && k < |sessions|
    ensures var said := Said(m, patches, sessions, k);
      && (said.RefusedRun? ==>
            sessions[k].action == Resume && AbortRecorded(DiskAfter(m, patches, sessions, k)))
      && (said.Reported? && sessions[k].action == Resume ==>
            FinishedRun(m, said.report, DiskAfter(m, patches, sessions, k + 1)))
      && (said.Reported? && sessions[k].action == Abort ==>
            UndoneRun(m, said.report, DiskAfter(m, patches, sessions, k + 1)))
  {
    SessionKeepsPromise(m, patches, DiskAfter(m, patches, sessions, k), sessions[k].action, sessions[k].credit);
  }

  /** No resume reports once an abort is on record. */
  lemma NoReportAfterAbort(m: Manifest, patches: Patches, sessions: seq<Session>, j: nat, k: nat)
    requires Runnable(m, patches) && j <= k < |sessions| && AbortRecorded(DiskAfter(m, patches, sessions, j))
    ensures sessions[k].action == Resume ==> !Said(m, patches, sessions, k).Reported?
  {
    AbortIsFinal(m, patches, sessions, j, k);
  }

  /** Recovery does not show: after any sessions that record no abort, a resume that is not killed says exactly what
      one uninterrupted resume of the published batch says. */
  lemma RecoveryDoesNotShow(m: Manifest, patches: Patches, sessions: seq<Session>, k: nat, credit: nat)
    requires Runnable(m, patches) && k <= |sessions| && !AbortRecorded(DiskAfter(m, patches, sessions, k))
    requires credit >= Enough(m)
    ensures SessionSays(m, patches, DiskAfter(m, patches, sessions, k), Resume, credit)
         == SessionSays(m, patches, Published(m), Resume, credit)
    ensures SessionSays(m, patches, Published(m), Resume, credit).Reported?
  {
    DriveTrail(m, patches, DiskAfter(m, patches, sessions, k), Resume);
    DriveTrail(m, patches, Published(m), Resume);
  }

  // ----- every owned position is reached -----

  /** The record of a settled position. */
  function SettledState(m: Manifest, i: nat): StateRecord {
    State(m, if i == |m.steps| then Completed else Ready, i)
  }

  ghost predicate Settled(m: Manifest, d: Disk, i: nat) {
    At(m, d, i) && d.repo.value.locks == {} && d.state == SettledState(m, i)
  }

  /** The writes of step `i` pass through the intent, the moved ref and the settled record. */
  lemma StepVisits(m: Manifest, patches: Patches, d: Disk, i: nat)
    requires Runnable(m, patches) && Between(m, d, i) && i < |m.steps|
    ensures var writes := StepWrites(m, patches, d, i);
      var n := |writes|;
      && At(m, writes[2], i) && writes[2].state == State(m, Applying, i)
      && At(m, writes[n - 2], i + 1) && writes[n - 2].state == State(m, Applying, i)
      && Settled(m, writes[n - 1], i + 1)
  {
    StepTrail(m, patches, d, i);
    ApplyTrail(m, patches, d, i);
    var applied := ApplyWrites(m, patches, d, i);
    var committed := CommitWrites(m, After(d, applied), i);
    assert applied[2] in applied;
    CheckpointContent(m, i);
    CheckpointContent(m, i + 1);
    assert SealedStep(m, i);
    CommitTrail(m, After(d, applied), i);
  }

  /** The intent of step `k` is on record and the ref stands at `i`. */
  ghost predicate Stepping(m: Manifest, d: Disk, k: nat, i: nat) {
    At(m, d, i) && d.state == State(m, Applying, k)
  }

  /** Every write of `part` is one of `writes`. */
  predicate Within(part: seq<Disk>, writes: seq<Disk>) {
    forall e :: e in part ==> e in writes
  }

  /** From `i` on, a resume passes through every step `k`. */
  lemma {:induction false} ForwardVisits(m: Manifest, patches: Patches, d: Disk, i: nat, k: nat) returns (found: Disk)
    requires Runnable(m, patches) && Between(m, d, i) && i <= k < |m.steps|
    ensures Between(m, found, k)
    ensures Within(StepWrites(m, patches, found, k), ForwardWrites(m, patches, d, i))
    decreases k - i
  {
    if i == k {
      found := d;
    } else {
      var step := StepWrites(m, patches, d, i);
      StepTrail(m, patches, d, i);
      found := ForwardVisits(m, patches, After(d, step), i + 1, k);
    }
  }

  lemma WriteIsLeft(d: Disk, writes: seq<Disk>, e: Disk) returns (credit: nat)
    requires e in writes
    ensures Left(d, writes, credit) == e
  {
    var k :| 0 <= k < |writes| && writes[k] == e;
    credit := k + 1;
    LeftIsSomeWrite(d, writes, credit);
  }

  /** Everything a session writes is what a kill can leave. */
  lemma KillLeaves(m: Manifest, patches: Patches, d: Disk, action: Action, e: Disk) returns (credit: nat)
    requires Runnable(m, patches) && Owned(m, d) && e in DriveWrites(m, patches, d, action)
    ensures SessionLeaves(m, patches, d, action, credit) == e
  {
    credit := WriteIsLeft(d, DriveWrites(m, patches, d, action), e);
  }

  /** The first resume publishes the repository, records that, and goes forward from there. */
  lemma FirstResume(m: Manifest, patches: Patches)
    requires Runnable(m, patches)
    ensures var boot := BootWrites(m, Published(m));
      && |boot| == 5 && At(m, boot[3], 0) && boot[3].state == State(m, Initializing, 0)
      && Settled(m, boot[4], 0) && Between(m, boot[4], 0)
      && DriveWrites(m, patches, Published(m), Resume) == boot + ForwardWrites(m, patches, boot[4], 0)
  {
    CheckpointContent(m, 0);
    var boot := BootWrites(m, Published(m));
    assert UnlockWrites(boot[4]) == [];
    assert boot + [] == boot;
  }

  /** The first resume makes all the writes of every step. */
  lemma StepIsWritten(m: Manifest, patches: Patches, k: nat) returns (found: Disk)
    requires Runnable(m, patches) && k < |m.steps|
    ensures Between(m, found, k)
    ensures Within(StepWrites(m, patches, found, k), DriveWrites(m, patches, Published(m), Resume))
  {
    FirstResume(m, patches);
    found := ForwardVisits(m, patches, BootWrites(m, Published(m))[4], 0, k);
  }

  lemma SettledIsWritten(m: Manifest, patches: Patches, i: nat) returns (e: Disk)
    requires Runnable(m, patches) && i <= |m.steps|
    ensures Settled(m, e, i) && e in DriveWrites(m, patches, Published(m), Resume)
  {
    if i == 0 {
      FirstResume(m, patches);
      e := BootWrites(m, Published(m))[4];
      assert e in BootWrites(m, Published(m));
    } else {
      var found := StepIsWritten(m, patches, i - 1);
      StepVisits(m, patches, found, i - 1);
      e := After(found, StepWrites(m, patches, found, i - 1));
    }
  }

  /** A resume killed in time leaves the directory settled at any position. */
  lemma SettledIsReached(m: Manifest, patches: Patches, i: nat) returns (credit: nat)
    requires Runnable(m, patches) && i <= |m.steps|
    ensures Settled(m, SessionLeaves(m, patches, Published(m), Resume, credit), i)
  {
    var e := SettledIsWritten(m, patches, i);
    credit := KillLeaves(m, patches, Published(m), Resume, e);
  }

  lemma SteppingIsWritten(m: Manifest, patches: Patches, k: nat, moved: bool) returns (e: Disk)
    requires Runnable(m, patches) && k < |m.steps|
    ensures Stepping(m, e, k, if moved then k + 1 else k) && e in DriveWrites(m, patches, Published(m), Resume)
  {
    var found := StepIsWritten(m, patches, k);
    StepVisits(m, patches, found, k);
    var step := StepWrites(m, patches, found, k);
    e := if moved then step[|step| - 2] else step[2];
    assert e in step;
  }

  /** An abort of a settled directory goes through the three records of an abort. */
  lemma AbortVisits(m: Manifest, patches: Patches, d: Disk, i: nat)
    requires Runnable(m, patches) && Settled(m, d, i)
    ensures var writes := DriveWrites(m, patches, d, Abort);
      && |writes| == 6
      && At(m, writes[0], i) && writes[0].state == State(m, Aborting, i)
      && At(m, writes[2], 0) && writes[2].state == State(m, Aborting, i)
      && At(m, writes[5], 0) && writes[5].state == State(m, Aborted, 0)
  {
    assert UnlockWrites(d) == [];
    CheckpointContent(m, 0);
    CheckpointContent(m, i);
  }

  /** The directories stand at the same position under the same record. */
  predicate Alike(d: Disk, e: Disk) {
    d.state == e.state && (d.repo.Some? <==> e.repo.Some?) && Position(d) == Position(e)
  }

  lemma RunOfTwo(m: Manifest, patches: Patches, first: nat, next: nat)
    requires Runnable(m, patches)
    ensures DiskAfter(m, patches, [Session(Resume, first)], 1) == SessionLeaves(m, patches, Published(m), Resume, first)
    ensures DiskAfter(m, patches, [Session(Resume, first), Session(Abort, next)], 2) ==
            SessionLeaves(m, patches, SessionLeaves(m, patches, Published(m), Resume, first), Abort, next)
  {
    var one, two := [Session(Resume, first)], [Session(Resume, first), Session(Abort, next)];
    assert DiskAfter(m, patches, one, 0) == Published(m) == DiskAfter(m, patches, two, 0);
    assert DiskAfter(m, patches, two, 1) == SessionLeaves(m, patches, Published(m), Resume, first);
  }

  /** What the record of a directory without an abort says about its position. */
  lemma StandsSo(m: Manifest, d: Disk)
    requires WellFormed(m) && Owned(m, d) && d.repo.Some? && !AbortRecorded(d)
    ensures Position(d) <= |m.steps| && 0 <= d.state.nextIndex <= |m.steps|
    ensures d.state.phase == Initializing ==> d.state == State(m, Initializing, 0) && Position(d) == 0
    ensures d.state.phase == Applying ==>
              && d.state == State(m, Applying, d.state.nextIndex) && d.state.nextIndex < |m.steps|
              && (Position(d) == d.state.nextIndex || Position(d) == d.state.nextIndex + 1)
    ensures d.state.phase == Ready || d.state.phase == Completed ==> d.state == SettledState(m, Position(d))
  {
    OwnedPosition(m, d);
    RepoDepth(m, d.repo.value, Position(d));
  }

  lemma PublishedIsWritten(m: Manifest, patches: Patches) returns (e: Disk)
    requires Runnable(m, patches)
    ensures At(m, e, 0) && e.state == State(m, Initializing, 0) && e in DriveWrites(m, patches, Published(m), Resume)
  {
    FirstResume(m, patches);
    e := BootWrites(m, Published(m))[3];
    assert e in BootWrites(m, Published(m));
  }

  lemma AlikeAt(m: Manifest, d: Disk, e: Disk, i: nat)
    requires WellFormed(m) && At(m, e, i) && d.repo.Some? && d.state == e.state && Position(d) == i
    ensures Alike(d, e)
  {
    AtPosition(m, e, i);
  }

  lemma StepRecordIsWritten(m: Manifest, patches: Patches, d: Disk) returns (e: Disk)
    requires Runnable(m, patches) && Owned(m, d) && d.repo.Some? && d.state.phase == Applying
    ensures e in DriveWrites(m, patches, Published(m), Resume) && Alike(d, e)
  {
    StandsSo(m, d);
    e := SteppingIsWritten(m, patches, d.state.nextIndex, Position(d) == d.state.nextIndex + 1);
    AlikeAt(m, d, e, Position(d));
  }

  lemma ForwardIsWritten(m: Manifest, patches: Patches, d: Disk) returns (e: Disk)
    requires Runnable(m, patches) && Owned(m, d) && d.repo.Some? && !AbortRecorded(d)
    ensures e in DriveWrites(m, patches, Published(m), Resume) && Alike(d, e)
  {
    StandsSo(m, d);
    if d.state.phase == Applying {
      e := StepRecordIsWritten(m, patches, d);
      return;
    }
    if d.state.phase == Initializing {
      e := PublishedIsWritten(m, patches);
    } else {
      e := SettledIsWritten(m, patches, Position(d));
    }
    AlikeAt(m, d, e, Position(d));
  }

  lemma AbortIsWritten(m: Manifest, patches: Patches, d: Disk, settled: Disk, i: nat) returns (e: Disk)
    requires Runnable(m, patches) && Owned(m, d) && d.repo.Some? && AbortRecorded(d) && d.state.nextIndex == i
    requires Settled(m, settled, i)
    ensures e in DriveWrites(m, patches, settled, Abort) && Alike(d, e)
  {
    OwnedPosition(m, d);
    RepoDepth(m, d.repo.value, Position(d));
    AbortVisits(m, patches, settled, i);
    var writes := DriveWrites(m, patches, settled, Abort);
    e := if d.state.phase == Aborted then writes[5] else if Position(d) == 0 then writes[2] else writes[0];
    AtPosition(m, e, Position(d));
  }

  /** The resume and the abort that lead to the record of an aborting directory. */
  lemma AbortIsReached(m: Manifest, patches: Patches, d: Disk) returns (first: nat, next: nat)
    requires Runnable(m, patches) && Owned(m, d) && d.repo.Some? && AbortRecorded(d)
    ensures Alike(d, SessionLeaves(m, patches, SessionLeaves(m, patches, Published(m), Resume, first), Abort, next))
  {
    var i := d.state.nextIndex;
    first := SettledIsReached(m, patches, i);
    var settled := SessionLeaves(m, patches, Published(m), Resume, first);
    var e := AbortIsWritten(m, patches, d, settled, i);
    next := KillLeaves(m, patches, settled, Abort, e);
  }

  /** Every owned directory is, up to scratch and further stored objects, left by a run of at most two sessions: the
      consistency that recovery checks admits no record and position that sessions do not leave. */
  lemma OwnedIsReached(m: Manifest, patches: Patches, d: Disk) returns (sessions: seq<Session>)
    requires Runnable(m, patches) && Owned(m, d)
    ensures |sessions| <= 2 && Alike(d, DiskAfter(m, patches, sessions, |sessions|))
  {
    if d.repo.None? {
      return [];
    }
    if AbortRecorded(d) {
      var first, next := AbortIsReached(m, patches, d);
      RunOfTwo(m, patches, first, next);
      return [Session(Resume, first), Session(Abort, next)];
    }
    var e := ForwardIsWritten(m, patches, d);
    var first := KillLeaves(m, patches, Published(m), Resume, e);
    RunOfTwo(m, patches, first, 0);
    return [Session(Resume, first)];
  }
}
