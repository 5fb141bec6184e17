/** The private Git runtime: a sealed manifest is executed in an owned directory, checkpoint by checkpoint, so that
    a process killed between any two durable writes can be resumed or aborted. */
module GitRuntime {
  import opened Wrappers
  import opened GitManifest
  import opened RunDirectory

  // ----- what a process does with its writes -----

  datatype Progress = Done | Killed | Refused(reason: Refusal)

  /** From `d` with `c` writes to go, a process makes these writes, or is killed within them. */
  ghost predicate Spent(d: Disk, c: nat, writes: seq<Disk>, p: Progress, d': Disk, c': nat) {
    && p == (if c < |writes| then Killed else Done)
    && c' == (if c < |writes| then 0 else c - |writes|)
    && d' == Left(d, writes, c)
  }

  lemma SpentThen(d: Disk, c: nat, first: seq<Disk>, d1: Disk, c1: nat, next: seq<Disk>, p: Progress, d2: Disk, c2: nat)
    requires Spent(d, c, first, Done, d1, c1) && Spent(d1, c1, next, p, d2, c2)
    ensures Spent(d, c, first + next, p, d2, c2)
  {
    LeftIsSomeWrite(d, first, c);
    var all := first + next;
    if c < |all| {
      assert all[..c] == first + next[..c1];
    } else {
      assert all[..|all|] == all && next[..|next|] == next;
    }
  }

  lemma SpentWithin(d: Disk, c: nat, first: seq<Disk>, d1: Disk, c1: nat, next: seq<Disk>)
    requires Spent(d, c, first, Killed, d1, c1)
    ensures Spent(d, c, first + next, Killed, d1, c1)
  {
    assert (first + next)[..c] == first[..c];
  }

  /** These writes were made and the run that ends with them is reported, or the process was killed within them. */
  ghost predicate Told(d: Disk, c: nat, writes: seq<Disk>, m: Manifest, out: Outcome, d': Disk, c': nat) {
    && Spent(d, c, writes, if c < |writes| then Killed else Done, d', c')
    && if c < |writes| then out == KilledRun
       else d'.repo.Some? && 0 <= ReportIndex(m, d'.state, d'.repo.value.head) <= |m.steps|
            && out == Reported(ReportOf(m, d'.state, d'.repo.value.head, false))
  }

  /** Where a process started, with how many writes to go, which writes it makes in all and which of them are made. */
  datatype Journey = Journey(start: Disk, credit: nat, whole: seq<Disk>, made: seq<Disk>)

  /** The journey has come to `d`, and these writes are ahead. */
  ghost predicate Underway(j: Journey, d: Disk, c: nat, ahead: seq<Disk>) {
    j.whole == j.made + ahead && Spent(j.start, j.credit, j.made, Done, d, c)
  }

  /** The writes that a resume makes from `d` on, before step `i`. */
  ghost function Ahead(m: Manifest, patches: Patches, d: Disk, i: nat): seq<Disk>
    requires Admits(m, patches) && d.repo.Some? && i <= |m.steps|
  {
    ForwardWrites(m, patches, d, i)
  }

  /** The process has come to `d`, before step `i`, or was killed on the way. */
  ghost predicate Came(m: Manifest, patches: Patches, j: Journey, p: Progress, d: Disk, c: nat, i: nat)
    requires Admits(m, patches)
  {
    match p
    case Done => Between(m, d, i) && Underway(j, d, c, Ahead(m, patches, d, i))
    case Killed => Spent(j.start, j.credit, j.whole, p, d, c)
    case Refused(_) => false
  }

  lemma Onward(j: Journey, d: Disk, c: nat, step: seq<Disk>, ahead: seq<Disk>, p: Progress, d': Disk, c': nat)
    returns (next: Journey)
    requires Underway(j, d, c, step + ahead) && Spent(d, c, step, p, d', c')
    ensures next.start == j.start && next.credit == j.credit && next.whole == j.whole
    ensures p == Done ==> d' == After(d, step) && Underway(next, d', c', ahead)
    ensures p == Killed ==> Spent(j.start, j.credit, j.whole, p, d', c')
  {
    next := j.(made := j.made + step);
    assert j.made + (step + ahead) == next.made + ahead;
    SpentThen(j.start, j.credit, j.made, d, c, step, p, d', c');
    if p == Killed {
      SpentWithin(j.start, j.credit, next.made, d', c', ahead);
    } else {
      LeftIsSomeWrite(d, step, c);
    }
  }

  lemma PreparedLeaves(m: Manifest, patches: Patches, start: Disk, action: Action, c: nat, p: Progress, d: Disk, c': nat)
    requires Runnable(m, patches) && Owned(m, start) && Spent(start, c, PrepareWrites(m, start), p, d, c')
    ensures p == Killed ==> d == SessionLeaves(m, patches, start, action, c)
    ensures p == Killed ==> SessionSays(m, patches, start, action, c) == KilledRun
    ensures p == Done ==> d == ReadyDisk(m, start) && d.repo.value.locks == {}
    ensures p == Done ==> (AbortRecorded(d) <==> AbortRecorded(start))
  {
    if p == Killed {
      var work := WorkWrites(m, patches, ReadyDisk(m, start), action);
      SpentWithin(start, c, PrepareWrites(m, start), d, c', work);
    } else {
      LeftIsSomeWrite(start, PrepareWrites(m, start), c);
      PreparingLeaves(m, start, action);
    }
  }

  lemma WorkedLeaves(m: Manifest, patches: Patches, start: Disk, action: Action, c: nat, c1: nat,
                     out: Outcome, d: Disk, c': nat)
    requires Runnable(m, patches) && Owned(m, start)
    requires var ready := ReadyDisk(m, start);
      && Spent(start, c, PrepareWrites(m, start), Done, ready, c1)
      && (AbortRecorded(ready) <==> AbortRecorded(start))
      && if action == Resume && AbortRecorded(ready)
         then out == RefusedRun(CannotResume) && d == ready && c' == c1
         else Told(ready, c1, WorkWrites(m, patches, ready, action), m, out, d, c')
    ensures d == SessionLeaves(m, patches, start, action, c)
    ensures out == SessionSays(m, patches, start, action, c)
  {
    var ready := ReadyDisk(m, start);
    var work := WorkWrites(m, patches, ready, action);
    SpentThen(start, c, PrepareWrites(m, start), ready, c1, work, if c1 < |work| then Killed else Done, d, c');
    LeftIsSomeWrite(start, DriveWrites(m, patches, start, action), c);
  }

  /** The process that owns the run directory. It is killed when `credit` durable writes are done; since every property
      below holds for every `credit`, it may be killed between any two. */
  class Coordinator {
    var disk: Disk
    var credit: nat

    /** Takes over a run directory as it was left behind. */
    constructor (left: Disk, credit: nat)
      ensures disk == left && this.credit == credit
    {
      disk := left;
      this.credit := credit;
    }

    method Write(next: Disk) returns (p: Progress)
      modifies this
      ensures Spent(old(disk), old(credit), [next], p, disk, credit)
    {
      if credit == 0 {
        return Killed;
      }
      credit := credit - 1;
      disk := next;
      return Done;
    }

    method WriteState(s: StateRecord) returns (p: Progress)
      modifies this
      ensures Spent(old(disk), old(credit), [old(disk).(state := s)], p, disk, credit)
    {
      p := Write(disk.(state := s));
    }

    /** A Git command that works on a locked file: it creates the lock file and then renames it over the file. A kill in
        between leaves the lock behind. */
    method LockedUpdate(lock: Lock, next: Repo) returns (p: Progress)
      requires disk.repo.Some? && next.locks == disk.repo.value.locks
      modifies this
      ensures lock in old(disk).repo.value.locks ==>
                disk == old(disk) && credit == old(credit) && p == Refused(if lock == RefLock then RefLocked else IndexLocked)
      ensures lock !in old(disk).repo.value.locks ==>
                Spent(old(disk), old(credit), LockedWrites(old(disk), lock, next), p, disk, credit)
    {
      var repo := disk.repo.value;
      if lock in repo.locks {
        return Refused(if lock == RefLock then RefLocked else IndexLocked);
      }
      p := Write(disk.(repo := Some(repo.(locks := repo.locks + {lock}))));
      if p != Done {
        return p;
      }
      p := Write(disk.(repo := Some(next)));
    }

    method ReadTree(m: Manifest, c: Commit) returns (p: Progress)
      requires disk.repo.Some?
      modifies this
      ensures IndexLock in old(disk).repo.value.locks ==>
                disk == old(disk) && credit == old(credit) && p == Refused(IndexLocked)
      ensures IndexLock !in old(disk).repo.value.locks ==>
                var next := old(disk).repo.value.(index := TreeOf(m, c));
                Spent(old(disk), old(credit), LockedWrites(old(disk), IndexLock, next), p, disk, credit)
    {
      p := LockedUpdate(IndexLock, disk.repo.value.(index := TreeOf(m, c)));
    }

    method ApplyPatch(patch: Patch) returns (p: Progress)
      requires disk.repo.Some?
      modifies this
      ensures Apply(patch, old(disk).repo.value.index).None? ==>
                disk == old(disk) && credit == old(credit) && p == Refused(PatchRejected)
      ensures Apply(patch, old(disk).repo.value.index).Some? && IndexLock !in old(disk).repo.value.locks ==>
                Spent(old(disk), old(credit), PatchWrites(old(disk), patch), p, disk, credit)
    {
      if patch.EmptyPatch? {
        return Done;
      }
      var applied := patch.edit(disk.repo.value.index);
      if applied == None {
        return Refused(PatchRejected);
      }
      p := LockedUpdate(IndexLock, disk.repo.value.(index := applied.value));
    }

    method StoreCommit(c: Commit) returns (p: Progress)
      requires disk.repo.Some?
      modifies this
      ensures var r := old(disk).repo.value;
        Spent(old(disk), old(credit), [WithRepo(old(disk), r.(objects := r.objects + {c}))], p, disk, credit)
    {
      var repo := disk.repo.value;
      p := Write(disk.(repo := Some(repo.(objects := repo.objects + {c}))));
    }

    /** Advances the private result ref from `expected` to `c`, or refuses. */
    method UpdateRef(c: Commit, expected: Commit) returns (p: Progress)
      requires disk.repo.Some?
      modifies this
      ensures old(disk).repo.value.head != expected ==>
                disk == old(disk) && credit == old(credit) && p == Refused(RefMismatch)
      ensures old(disk).repo.value.head == expected && RefLock in old(disk).repo.value.locks ==>
                disk == old(disk) && credit == old(credit) && p == Refused(RefLocked)
      ensures old(disk).repo.value.head == expected && RefLock !in old(disk).repo.value.locks ==>
                var next := old(disk).repo.value.(head := c);
                Spent(old(disk), old(credit), LockedWrites(old(disk), RefLock, next), p, disk, credit)
    {
      if disk.repo.value.head != expected {
        return Refused(RefMismatch);
      }
      p := LockedUpdate(RefLock, disk.repo.value.(head := c));
    }

    /** Builds the repository in the stage, discarding unpublished scratch of an earlier attempt. */
    method BuildStage(m: Manifest) returns (p: Progress)
      requires m.base.Base? && disk.repo.None?
      modifies this
      ensures Spent(old(disk), old(credit), StageWrites(m, old(disk)), p, disk, credit)
    {
      LeftIsSomeWrite(disk, StageWrites(m, disk), credit);
      if disk.stage != NoStage {
        p := Write(disk.(stage := Partial));
        if p != Done { return; }
        p := Write(disk.(stage := NoStage));
        if p != Done { return; }
      }
      p := Write(disk.(stage := Partial));
      if p != Done { return; }
      p := Write(disk.(stage := Unborn(m.config, m.baseTree)));
      if p != Done { return; }
      p := Write(disk.(stage := Staged(Repo(m.config, m.base, m.baseTree, {}, {}))));
    }

    /** Publishes the private repository at the base, unless that already happened, and leaves the initializing
        phase. */
    method Bootstrap(m: Manifest) returns (p: Progress)
      requires WellFormed(m) && Owned(m, disk) && disk.state.phase == Initializing
      modifies this
      ensures Spent(old(disk), old(credit), BootWrites(m, old(disk)), p, disk, credit)
    {
      LeftIsSomeWrite(disk, BootWrites(m, disk), credit);
      CheckpointContent(m, 0);
      if disk.repo.None? {
        p := BuildStage(m);
        if p != Done { return; }
        var repo := disk.stage.repo;
        if repo.config != m.config {
          return Refused(ConfigDiffers);
        }
        p := Write(disk.(repo := Some(repo), stage := NoStage));
        if p != Done { return; }
      }
      if disk.repo.value.config != m.config {
        return Refused(ConfigDiffers);
      }
      if disk.repo.value.head != m.base {
        return Refused(RefMismatch);
      }
      p := WriteState(State(m, Ready, 0));
    }

    /** Removes the lock files an earlier owner left behind. */
    method ClearLocks() returns (p: Progress)
      requires disk.repo.Some?
      modifies this
      ensures Spent(old(disk), old(credit), UnlockWrites(old(disk)), p, disk, credit)
    {
      LeftIsSomeWrite(disk, UnlockWrites(disk), credit);
      ghost var locks := disk.repo.value.locks;
      assert IndexLock !in locks ==> locks - {IndexLock} == locks;
      p := Done;
      if IndexLock in disk.repo.value.locks {
        p := Write(disk.(repo := Some(disk.repo.value.(locks := disk.repo.value.locks - {IndexLock}))));
        if p != Done { return; }
      }
      if RefLock in disk.repo.value.locks {
        p := Write(disk.(repo := Some(disk.repo.value.(locks := disk.repo.value.locks - {RefLock}))));
        if p != Done { return; }
      }
    }

    /** The checks on the manifest, the recorded phase and index, and the ref. They leave open only
        whether the stored checkpoints are there. */
    method CheckRef(m: Manifest) returns (reason: Option<Refusal>, committed: nat)
      requires WellFormed(m)
      ensures reason.Some? ==> !(Owned(m, disk) && disk.repo.Some?)
      ensures reason.None? ==> disk.repo.Some? && committed <= |m.steps|
      ensures reason.None? ==> disk.repo.value.head == CheckpointAt(m, committed).0
      ensures reason.None? ==> (Owned(m, disk) <==> Stored(m, committed, disk.repo.value.objects))
    {
      reason, committed := None, 0;
      if disk.repo.None? {
        reason := Some(NoRepository);
        return;
      }
      if disk.manifest != m {
        reason := Some(ManifestDiffers);
        return;
      }
      var s, size := disk.state, |m.steps|;
      if s.digest != m.digest || !(0 <= s.nextIndex <= size)
         || (s.phase == Initializing && s.nextIndex != 0)
         || (s.phase == Applying && s.nextIndex >= size)
         || (s.phase == Completed && s.nextIndex != size)
         || (s.phase == Ready && s.nextIndex >= size)
         || (s.phase == Aborted && s.nextIndex != 0)
      {
        reason := Some(InvalidState);
        return;
      }
      var index := s.nextIndex;
      if disk.repo.value.config != m.config {
        reason := Some(ConfigDiffers);
        return;
      }
      var head := disk.repo.value.head;
      var before := CheckpointAt(m, index).0;
      var admitted := {before};
      if s.phase == Applying {
        admitted := admitted + {m.steps[index].commit};
      }
      if s.phase == Aborting {
        admitted := admitted + {m.base};
      }
      if head !in admitted {
        reason := Some(RefMismatch);
        return;
      }
      if s.phase == Aborted && head != m.base {
        reason := Some(RefMismatch);
        return;
      }
      committed := index + if s.phase == Applying && head != before then 1 else 0;
      if (s.phase == Aborting || s.phase == Aborted) && head == m.base {
        committed := 0;
      }
      AdmittedMeansPosition(m, s, head);
      HeadDecides(m, disk, committed);
    }

    /** The stored checkpoints of the first `committed` steps are there. */
    method CheckChain(m: Manifest, committed: nat) returns (reason: Option<Refusal>)
      requires committed <= |m.steps| && disk.repo.Some?
      ensures reason == if Stored(m, committed, disk.repo.value.objects) then None else Some(MissingCheckpoint)
    {
      for k := 0 to committed
        invariant Stored(m, k, disk.repo.value.objects)
      {
        if m.steps[k].commit !in disk.repo.value.objects {
          return Some(MissingCheckpoint);
        }
      }
      return None;
    }

    /** The inspection without recovery; nothing is written. */
    method CheckState(m: Manifest) returns (reason: Option<Refusal>)
      requires WellFormed(m)
      ensures reason == None <==> Owned(m, disk) && disk.repo.Some?
    {
      var committed;
      reason, committed := CheckRef(m);
      if reason == None {
        reason := CheckChain(m, committed);
      }
    }

    /** The inspection of a found run directory for recovery. Once the ref is known to be owned the abandoned lock files
        go, then the stored checkpoints are checked. It accepts exactly the owned states. */
    method Inspect(m: Manifest) returns (p: Progress)
      requires WellFormed(m)
      modifies this
      ensures Owned(m, old(disk)) && old(disk).repo.Some? ==>
                Spent(old(disk), old(credit), UnlockWrites(old(disk)), p, disk, credit)
      ensures !(Owned(m, old(disk)) && old(disk).repo.Some?) ==> p != Done && Scratch(old(disk), disk)
      ensures old(credit) >= 2 ==> p != Killed
    {
      ghost var found := disk;
      var reason, committed := CheckRef(m);
      if reason.Some? {
        return Refused(reason.value);
      }
      p := ClearLocks();
      UnlockLeaves(found, old(credit));
      if p != Done { return; }
      reason := CheckChain(m, committed);
      if reason.Some? {
        return Refused(reason.value);
      }
    }

    /** The first half of a step: scratch from the head, intent on record, patch, checks. */
    method ApplyStep(m: Manifest, patches: Patches, i: nat) returns (p: Progress)
      requires Runnable(m, patches) && i < |m.steps| && Between(m, disk, i)
      modifies this
      ensures Spent(old(disk), old(credit), ApplyWrites(m, patches, old(disk), i), p, disk, credit)
      ensures p == Done ==> Applied(m, disk, i)
    {
      LeftIsSomeWrite(disk, ApplyWrites(m, patches, disk, i), credit);
      var step := m.steps[i];
      assert SealedStep(m, i) && AdmitsStep(m, patches, i);
      IntentTrail(m, disk, i);
      ApplyTrail(m, patches, disk, i);
      p := ReadTree(m, disk.repo.value.head);
      if p != Done { return; }
      p := WriteState(State(m, Applying, i));
      if p != Done { return; }
      p := ApplyPatch(patches[step.op.id]);
      if p != Done { return; }
      var tree := disk.repo.value.index;
      if tree != step.outputTree || EffectsBetween(step.inputTree, tree) != Some(step.effects) {
        return Refused(EffectsDiffer);
      }
    }

    /** The second half of a step: checkpoint object, compare-and-swap of the ref, new record. */
    method CommitStep(m: Manifest, i: nat) returns (p: Progress)
      requires WellFormed(m) && Applied(m, disk, i)
      modifies this
      ensures Spent(old(disk), old(credit), CommitWrites(m, old(disk), i), p, disk, credit)
      ensures p == Done ==> Between(m, disk, i + 1)
    {
      LeftIsSomeWrite(disk, CommitWrites(m, disk, i), credit);
      var step := m.steps[i];
      var head, tree := disk.repo.value.head, disk.repo.value.index;
      assert SealedStep(m, i);
      CommitTrail(m, disk, i);
      var commit := Checkpoint(tree, head, step.op);
      p := StoreCommit(commit);
      if p != Done { return; }
      if commit != step.commit {
        return Refused(MissingCheckpoint);
      }
      p := UpdateRef(commit, head);
      if p != Done { return; }
      p := WriteState(State(m, if i + 1 == |m.steps| then Completed else Ready, i + 1));
    }

    /** Executes one operation, in two halves. */
    method DriveStep(m: Manifest, patches: Patches, i: nat) returns (p: Progress)
      requires Runnable(m, patches) && i < |m.steps| && Between(m, disk, i)
      modifies this
      ensures Spent(old(disk), old(credit), StepWrites(m, patches, old(disk), i), p, disk, credit)
      ensures p == Done ==> Between(m, disk, i + 1)
    {
      ghost var start, c := disk, credit;
      ApplyTrail(m, patches, disk, i);
      ghost var applied := ApplyWrites(m, patches, disk, i);
      ghost var committed := CommitWrites(m, After(disk, applied), i);
      p := ApplyStep(m, patches, i);
      if p != Done {
        SpentWithin(start, c, applied, disk, credit, committed);
        return;
      }
      ghost var half, c1 := disk, credit;
      LeftIsSomeWrite(start, applied, c);
      p := CommitStep(m, i);
      SpentThen(start, c, applied, half, c1, committed, p, disk, credit);
    }

    /** One operation on a journey forward. */
    method DriveOn(m: Manifest, patches: Patches, i: nat, ghost j: Journey) returns (p: Progress, ghost next: Journey)
      requires Runnable(m, patches) && i < |m.steps| && Came(m, patches, j, Done, disk, credit, i)
      modifies this
      ensures next.start == j.start && next.credit == j.credit && next.whole == j.whole
      ensures Came(m, patches, next, p, disk, credit, i + 1)
    {
      ghost var d, c, step := disk, credit, StepWrites(m, patches, disk, i);
      p := DriveStep(m, patches, i);
      next := Onward(j, d, c, step, Ahead(m, patches, After(d, step), i + 1), p, disk, credit);
    }

    /** Commits the remaining operations from position `index`. */
    method DriveSteps(m: Manifest, patches: Patches, index: nat, ghost j: Journey)
      returns (p: Progress, ghost next: Journey)
      requires Runnable(m, patches) && index <= |m.steps| && Came(m, patches, j, Done, disk, credit, index)
      modifies this
      ensures next.start == j.start && next.credit == j.credit && next.whole == j.whole
      ensures Came(m, patches, next, p, disk, credit, |m.steps|)
    {
      p, next := Done, j;
      for i := index to |m.steps|
        invariant p == Done && Came(m, patches, next, p, disk, credit, i)
        invariant next.start == j.start && next.credit == j.credit && next.whole == j.whole
      {
        p, next := DriveOn(m, patches, i, next);
        if p != Done { return; }
      }
    }

    /** Commits the remaining operations from position `index` and records completion. */
    method FinishForward(m: Manifest, patches: Patches, index: nat) returns (out: Outcome)
      requires Runnable(m, patches) && Between(m, disk, index)
      modifies this
      ensures Told(old(disk), old(credit), ForwardWrites(m, patches, old(disk), index), m, out, disk, credit)
    {
      var p;
      ghost var j := Journey(disk, credit, Ahead(m, patches, disk, index), []);
      p, j := DriveSteps(m, patches, index, j);
      if p != Done {
        return KilledRun;
      }
      out := RecordCompletion(m, patches, j);
    }

    /** Records that all operations are committed. */
    method RecordCompletion(m: Manifest, patches: Patches, ghost j: Journey) returns (out: Outcome)
      requires Runnable(m, patches) && Came(m, patches, j, Done, disk, credit, |m.steps|)
      modifies this
      ensures Told(j.start, j.credit, j.whole, m, out, disk, credit)
    {
      var head := disk.repo.value.head;
      ghost var d, c, last := disk, credit, [disk.(state := State(m, Completed, |m.steps|))];
      var p := WriteState(State(m, Completed, |m.steps|));
      assert last + [] == last;
      ghost var next := Onward(j, d, c, last, [], p, disk, credit);
      if p == Killed {
        return KilledRun;
      }
      assert next.whole == next.made;
      EndedReports(m, disk);
      return Reported(ReportOf(m, disk.state, head, false));
    }

    /** Records the abort, moves the ref back to the base and records that. */
    method GoBack(m: Manifest, index: nat) returns (out: Outcome)
      requires WellFormed(m) && Owned(m, disk) && disk.repo.Some? && disk.repo.value.locks == {}
      requires index <= |m.steps| && (At(m, disk, index) || (AbortRecorded(disk) && At(m, disk, 0)))
      modifies this
      ensures Told(old(disk), old(credit), BackWrites(m, old(disk), index), m, out, disk, credit)
    {
      LeftIsSomeWrite(disk, BackWrites(m, disk, index), credit);
      var head := disk.repo.value.head;
      BackTrail(m, disk, index);
      var p := WriteState(State(m, Aborting, index));
      if p == Killed {
        return KilledRun;
      }
      p := UpdateRef(m.base, head);
      if p != Done {
        return KilledRun;
      }
      p := ReadTree(m, m.base);
      if p != Done {
        return KilledRun;
      }
      p := WriteState(State(m, Aborted, 0));
      if p == Killed {
        return KilledRun;
      }
      UndoneReports(m, disk);
      return Reported(ReportOf(m, disk.state, m.base, false));
    }

    /** Boots the directory if it never was, inspects it and clears its locks. */
    method Found(m: Manifest) returns (p: Progress)
      requires WellFormed(m) && Owned(m, disk)
      modifies this
      ensures Spent(old(disk), old(credit), PrepareWrites(m, old(disk)), p, disk, credit)
    {
      ghost var start, c := disk, credit;
      ghost var booted, boot := BootedDisk(m, disk).0, BootedDisk(m, disk).1;
      BootTrail(m, disk);
      p := Done;
      if disk.state == State(m, Initializing, 0) {
        p := Bootstrap(m);
        match p {
          case Done =>
          case Killed => SpentWithin(start, c, boot, disk, credit, UnlockWrites(booted)); return;
          case Refused(reason) => return;
        }
      }
      LeftIsSomeWrite(start, boot, c);
      ghost var c1 := credit;
      p := Inspect(m);
      SpentThen(start, c, boot, booted, c1, UnlockWrites(booted), p, disk, credit);
    }

    /** What a drive does in a directory that is booted, inspected and free of locks. */
    method Work(m: Manifest, patches: Patches, action: Action) returns (out: Outcome)
      requires Runnable(m, patches) && Owned(m, disk) && disk.repo.Some? && disk.repo.value.locks == {}
      modifies this
      ensures action == Resume && AbortRecorded(old(disk)) ==>
                out == RefusedRun(CannotResume) && disk == old(disk) && credit == old(credit)
      ensures !(action == Resume && AbortRecorded(old(disk))) ==>
                Told(old(disk), old(credit), WorkWrites(m, patches, old(disk), action), m, out, disk, credit)
    {
      StartFacts(m, disk);
      var phase, index := disk.state.phase, disk.state.nextIndex;
      var head := disk.repo.value.head;
      if action == Resume && (phase == Aborting || phase == Aborted) {
        return RefusedRun(CannotResume);
      }
      if phase == Applying && head == m.steps[index].commit {
        index := index + 1;
      }
      if action == Abort {
        out := GoBack(m, index);
      } else {
        out := FinishForward(m, patches, index);
      }
    }

    /** Drives an owned run directory forward or back, from whatever an earlier owner left. */
    method Drive(m: Manifest, patches: Patches, action: Action) returns (out: Outcome)
      requires Runnable(m, patches) && Owned(m, disk)
      modifies this
      ensures disk == SessionLeaves(m, patches, old(disk), action, old(credit))
      ensures out == SessionSays(m, patches, old(disk), action, old(credit))
      ensures Owned(m, disk) && Drove(m, old(disk), action, out, disk)
      ensures old(credit) >= Enough(m) ==> out != KilledRun
    {
      SessionKeepsPromise(m, patches, disk, action, credit);
      ghost var start, c := disk, credit;
      var p := Found(m);
      PreparedLeaves(m, patches, start, action, c, p, disk, credit);
      match p {
        case Done =>
        case Killed => return KilledRun;
        case Refused(reason) => return RefusedRun(reason);
      }
      ghost var c1 := credit;
      out := Work(m, patches, action);
      WorkedLeaves(m, patches, start, action, c, c1, out, disk, credit);
    }

    /** The read-only verifier: it reports on an owned run and writes nothing. */
    method Verify(m: Manifest) returns (r: Result<Report, Refusal>)
      requires WellFormed(m)
      ensures r.Ok? <==> Owned(m, disk)
      ensures r.Ok? && disk.repo.Some? ==> NamesHead(m, r.value, disk.repo.value.head)
      ensures r.Ok? && disk.repo.None? ==> NamesHead(m, r.value, m.base)
      ensures r.Ok? ==> r.value.verified && r.value.phase == disk.state.phase
      ensures r.Ok? ==> (r.value.status == CompletedRun <==> disk.state.phase == Completed)
      ensures r.Ok? ==> (r.value.status == AbortedRun <==> disk.state.phase == Aborted)
      ensures r.Ok? && r.value.status == CompletedRun ==>
                r.value.completedOperations == StepIds(m) && r.value.resultTree == CheckpointAt(m, |m.steps|).1
      ensures r.Ok? && r.value.status == AbortedRun ==> r.value.completedOperations == [] && r.value.resultCommit == m.base
    {
      CheckpointContent(m, 0);
      CheckpointContent(m, |m.steps|);
      assert StepIds(m)[..|m.steps|] == StepIds(m);
      if disk.state == State(m, Initializing, 0) {
        if disk.manifest != m {
          return Err(ManifestDiffers);
        }
        if disk.repo.Some? {
          var reason := CheckState(m);
          if reason.Some? {
            return Err(reason.value);
          }
        }
        return Ok(ReportOf(m, disk.state, m.base, true));
      }
      var reason := CheckState(m);
      if reason.Some? {
        return Err(reason.value);
      }
      ReportNamesHead(m, disk, true);
      return Ok(ReportOf(m, disk.state, disk.repo.value.head, true));
    }
  }

  /** The ref names the checkpoint of exactly one position. */
  lemma AdmittedMeansPosition(m: Manifest, s: StateRecord, head: Commit)
    requires WellFormed(m) && 0 <= s.nextIndex <= |m.steps|
    ensures CheckpointAt(m, 0).0 == m.base
    ensures s.nextIndex < |m.steps| ==> CheckpointAt(m, s.nextIndex + 1).0 == m.steps[s.nextIndex].commit
    ensures s.nextIndex < |m.steps| ==> CheckpointAt(m, s.nextIndex).0 != m.steps[s.nextIndex].commit
    ensures CheckpointAt(m, s.nextIndex).0 == m.base ==> s.nextIndex == 0
  {
    CheckpointContent(m, 0);
    CheckpointContent(m, s.nextIndex);
    if s.nextIndex < |m.steps| {
      CheckpointContent(m, s.nextIndex + 1);
    }
  }

  /** The ref decides which position a directory can stand for: it is owned there or nowhere. */
  lemma PositionIsUnique(m: Manifest, r: Repo, committed: nat, i: nat)
    requires WellFormed(m) && committed <= |m.steps| && i <= |m.steps|
    requires r.head == CheckpointAt(m, committed).0
    ensures RepoAt(m, r, i) <==> i == committed && r.config == m.config && Stored(m, committed, r.objects)
  {
    if r.head == CheckpointAt(m, i).0 {
      CheckpointsDistinct(m, i, committed);
    }
  }

  lemma HeadDecides(m: Manifest, d: Disk, committed: nat)
    requires WellFormed(m) && d.manifest == m && d.state.digest == m.digest && d.repo.Some?
    requires d.repo.value.config == m.config && committed <= |m.steps|
    requires d.repo.value.head == CheckpointAt(m, committed).0
    requires var s := d.state;
      && 0 <= s.nextIndex <= |m.steps|
      && match s.phase
         case Initializing => s.nextIndex == 0 == committed
         case Ready => s.nextIndex < |m.steps| && committed == s.nextIndex
         case Applying => s.nextIndex < |m.steps| && (committed == s.nextIndex || committed == s.nextIndex + 1)
         case Completed => s.nextIndex == |m.steps| == committed
         case Aborting => committed == s.nextIndex || committed == 0
         case Aborted => s.nextIndex == 0 == committed
    ensures Owned(m, d) <==> Stored(m, committed, d.repo.value.objects)
  {
    var r, s := d.repo.value, d.state;
    PositionIsUnique(m, r, committed, 0);
    PositionIsUnique(m, r, committed, s.nextIndex);
    PositionIsUnique(m, r, committed, |m.steps|);
    if s.nextIndex < |m.steps| {
      PositionIsUnique(m, r, committed, s.nextIndex + 1);
    }
  }

  // ----- whole runs -----

  /** One process takes over the directory. */
  method RunSession(m: Manifest, patches: Patches, d: Disk, session: Session) returns (d': Disk, out: Outcome)
    requires Runnable(m, patches) && Owned(m, d)
    ensures d' == SessionLeaves(m, patches, d, session.action, session.credit)
    ensures out == SessionSays(m, patches, d, session.action, session.credit)
  {
    var process := new Coordinator(d, session.credit);
    out := process.Drive(m, patches, session.action);
    d' := process.disk;
  }

  lemma OneMoreWord(words: seq<Outcome>, said: seq<Outcome>, out: Outcome)
    requires |said| < |words| && said == words[..|said|] && out == words[|said|]
    ensures said + [out] == words[..|said| + 1]
  {
  }

  /** Any number of processes, one after the other, each taking over the directory that the one before it left. */
  method RunSessions(m: Manifest, patches: Patches, sessions: seq<Session>) returns (d: Disk, said: seq<Outcome>)
    requires Runnable(m, patches)
    ensures d == DiskAfter(m, patches, sessions, |sessions|) && said == Words(m, patches, sessions)
  {
    ghost var trail, words := Trail(m, patches, sessions), Words(m, patches, sessions);
    d, said := Published(m), [];
    for k := 0 to |sessions|
      invariant d == trail[k] && |said| == k && said == words[..|said|]
    {
      TrailStep(m, patches, sessions, k);
      var out;
      d, out := RunSession(m, patches, d, sessions[k]);
      OneMoreWord(words, said, out);
      said := said + [out];
    }
  }
}
