/** The rehearsal of a serial batch of fixed patches: every step is applied, checked against its declaration and
    sealed into a manifest whose checkpoints are addressed by their content. */
module GitManifest {
  import opened Wrappers
  import T = Traces
  import R = GitReplay

  type Path = string

  /** A tree maps paths to their mode and blob. Trees are their own identifiers. */
  type Tree = map<Path, string>

  datatype Operation = Operation(id: nat, attempt: nat, declaredWrites: set<Path>)

  /** A commit is its content, so that equal identifiers mean equal tree, parent and operation. */
  datatype Commit = Base(revision: nat) | Checkpoint(tree: Tree, parent: Commit, op: Operation)

  datatype Patch = EmptyPatch | Edits(edit: Tree -> Option<Tree>)

  type Patches = map<nat, Patch>

  function Apply(p: Patch, t: Tree): Option<Tree> {
    match p
    case EmptyPatch => Some(t)
    case Edits(edit) => edit(t)
  }

  datatype Change = Change(before: Option<string>, after: string)

  type Effects = map<Path, Change>

  /** The observed path changes between two trees; deletions are not supported. */
  function EffectsBetween(before: Tree, after: Tree): Option<Effects> {
    if !(before.Keys <= after.Keys) then None else
      Some(map p | p in after && (p !in before || before[p] != after[p]) ::
             Change(if p in before then Some(before[p]) else None, after[p]))
  }

  /** The effects are exactly the difference: nothing is deleted, every change is a real one with its true former
      value, and making the changes gives the later tree. */
  lemma EffectsAreTheDifference(before: Tree, after: Tree)
    ensures EffectsBetween(before, after).None? <==> exists p :: p in before && p !in after
    ensures EffectsBetween(before, after).Some? ==>
              var effects := EffectsBetween(before, after).value;
              && after == before + (map p | p in effects :: effects[p].after)
              && forall p :: p in effects ==>
                   && effects[p].before == (if p in before then Some(before[p]) else None)
                   && effects[p].before != Some(effects[p].after)
  {
    if EffectsBetween(before, after).Some? {
      var effects := EffectsBetween(before, after).value;
      var made := before + (map p | p in effects :: effects[p].after);
      forall p
        ensures p in made <==> p in after
        ensures p in made && p in after ==> made[p] == after[p]
      {
      }
      assert made == after;
    }
  }

  datatype Step = Step(op: Operation, inputTree: Tree, outputTree: Tree, parent: Commit, commit: Commit, effects: Effects)

  datatype Manifest = Manifest(digest: nat, base: Commit, baseTree: Tree, steps: seq<Step>, config: nat)

  /** The commit and tree reached after the first `i` steps. */
  function CheckpointAt(m: Manifest, i: nat): (Commit, Tree)
    requires i <= |m.steps|
  {
    if i == 0 then (m.base, m.baseTree) else (m.steps[i - 1].commit, m.steps[i - 1].outputTree)
  }

  /** The step starts where the one before it ended and is sealed by its own content. */
  ghost predicate SealedStep(m: Manifest, i: nat)
    requires i < |m.steps|
  {
    var s := m.steps[i];
    && s.parent == CheckpointAt(m, i).0
    && s.inputTree == CheckpointAt(m, i).1
    && s.commit == Checkpoint(s.outputTree, s.parent, s.op)
    && EffectsBetween(s.inputTree, s.outputTree) == Some(s.effects)
    && s.effects.Keys == s.op.declaredWrites
  }

  ghost predicate WellFormed(m: Manifest) {
    m.base.Base? && m.steps != [] && forall i :: 0 <= i < |m.steps| ==> SealedStep(m, i)
  }

  ghost predicate AdmitsStep(m: Manifest, patches: Patches, i: nat)
    requires i < |m.steps|
  {
    var s := m.steps[i];
    s.op.id in patches && Apply(patches[s.op.id], s.inputTree) == Some(s.outputTree)
  }

  ghost predicate Admits(m: Manifest, patches: Patches) {
    forall i :: 0 <= i < |m.steps| ==> AdmitsStep(m, patches, i)
  }

  // ----- what a commit says about itself -----

  function Depth(c: Commit): nat {
    match c
    case Base(_) => 0
    case Checkpoint(_, parent, _) => 1 + Depth(parent)
  }

  /** The operations recorded by the chain of commits down to the base. */
  function OperationsOf(c: Commit): seq<nat> {
    match c
    case Base(_) => []
    case Checkpoint(_, parent, op) => OperationsOf(parent) + [op.id]
  }

  function TreeOf(m: Manifest, c: Commit): Tree {
    match c
    case Base(_) => m.baseTree
    case Checkpoint(tree, _, _) => tree
  }

  function StepIds(m: Manifest): seq<nat> {
    seq(|m.steps|, i requires 0 <= i < |m.steps| => m.steps[i].op.id)
  }

  lemma {:induction false} CheckpointContent(m: Manifest, i: nat)
    requires WellFormed(m) && i <= |m.steps|
    ensures Depth(CheckpointAt(m, i).0) == i
    ensures TreeOf(m, CheckpointAt(m, i).0) == CheckpointAt(m, i).1
    ensures OperationsOf(CheckpointAt(m, i).0) == StepIds(m)[..i]
  {
    if i > 0 {
      CheckpointContent(m, i - 1);
      assert SealedStep(m, i - 1);
      assert StepIds(m)[..i] == StepIds(m)[..i - 1] + [m.steps[i - 1].op.id];
    }
  }

  /** The checkpoints of a chain are distinct, because each is addressed by its content. */
  lemma CheckpointsDistinct(m: Manifest, i: nat, j: nat)
    requires WellFormed(m) && i <= |m.steps| && j <= |m.steps|
    requires CheckpointAt(m, i).0 == CheckpointAt(m, j).0
    ensures i == j
  {
    CheckpointContent(m, i);
    CheckpointContent(m, j);
  }

  // ----- the serial run of the patches -----

  ghost predicate Supplied(ops: seq<Operation>, patches: Patches) {
    forall op :: op in ops ==> op.id in patches
  }

  function Ids(ops: seq<Operation>): (ids: seq<nat>)
    ensures |ids| == |ops| && forall i :: 0 <= i < |ops| ==> ids[i] == ops[i].id
  {
    seq(|ops|, i requires 0 <= i < |ops| => ops[i].id)
  }

  /** Every patch as a step from tree to tree. */
  function StepsOf(patches: Patches): map<nat, T.Step<Tree>> {
    map id | id in patches :: var p := patches[id]; (t: Tree) => Apply(p, t)
  }

  /** The tree after the first `k` patches, if they all apply. */
  ghost function TreeAfter(ops: seq<Operation>, patches: Patches, t: Tree, k: nat): Option<Tree>
    requires Supplied(ops, patches) && k <= |ops|
  {
    SuppliedIds(ops, patches);
    T.Run(StepsOf(patches), Ids(ops)[..k], t)
  }

  lemma SuppliedIds(ops: seq<Operation>, patches: Patches)
    requires Supplied(ops, patches)
    ensures forall id :: id in Ids(ops) ==> id in StepsOf(patches)
  {
    forall id | id in Ids(ops) ensures id in StepsOf(patches) {
      var i :| 0 <= i < |ops| && Ids(ops)[i] == id;
      assert ops[i] in ops;
    }
  }

  lemma TreeStep(ops: seq<Operation>, patches: Patches, t: Tree, k: nat)
    requires Supplied(ops, patches) && k < |ops|
    ensures ops[k].id in patches
    ensures TreeAfter(ops, patches, t, k + 1) ==
            match TreeAfter(ops, patches, t, k)
            case None => None
            case Some(u) => Apply(patches[ops[k].id], u)
  {
    assert ops[k] in ops;
    SuppliedIds(ops, patches);
    R.RunExtend(StepsOf(patches), Ids(ops), k, t);
  }

  /** Patch `i` applies to the tree before it and changes exactly the declared paths, all of them in a
      supported way. */
  ghost predicate Passes(ops: seq<Operation>, patches: Patches, t: Tree, i: nat)
    requires Supplied(ops, patches) && i < |ops|
  {
    && TreeAfter(ops, patches, t, i).Some? && TreeAfter(ops, patches, t, i + 1).Some?
    && match EffectsBetween(TreeAfter(ops, patches, t, i).value, TreeAfter(ops, patches, t, i + 1).value)
       case None => false
       case Some(effects) => effects.Keys == ops[i].declaredWrites
  }

  ghost predicate PassUpTo(ops: seq<Operation>, patches: Patches, t: Tree, k: nat)
    requires Supplied(ops, patches) && k <= |ops|
  {
    forall i :: 0 <= i < k ==> Passes(ops, patches, t, i)
  }

  datatype Refusal =
    | PatchRejected | UnsupportedChange | EffectsDiffer | FinalTreeDiffers
    | NoRepository | ManifestDiffers | ConfigDiffers | InvalidState | RefMismatch
    | MissingCheckpoint | CannotResume | RefLocked | IndexLocked

  /** Patch `i` is the first that does not pass, for this reason. */
  ghost predicate FailsAt(ops: seq<Operation>, patches: Patches, t: Tree, i: nat, error: Refusal)
    requires Supplied(ops, patches)
  {
    && i < |ops| && PassUpTo(ops, patches, t, i) && TreeAfter(ops, patches, t, i).Some?
    && match TreeAfter(ops, patches, t, i + 1)
       case None => error == PatchRejected
       case Some(tree) =>
         match EffectsBetween(TreeAfter(ops, patches, t, i).value, tree)
         case None => error == UnsupportedChange
         case Some(effects) => effects.Keys != ops[i].declaredWrites && error == EffectsDiffer
  }

  // ----- rehearsal -----

  function Operations(m: Manifest): seq<Operation> {
    seq(|m.steps|, i requires 0 <= i < |m.steps| => m.steps[i].op)
  }

  /** A manifest under construction: its steps are those of the batch, sealed and admitted. */
  ghost predicate Sealed(m: Manifest, patches: Patches, ops: seq<Operation>) {
    && |m.steps| <= |ops|
    && forall i :: 0 <= i < |m.steps| ==> SealedStep(m, i) && AdmitsStep(m, patches, i) && m.steps[i].op == ops[i]
  }

  /** The steps so far all pass, and the last tree is the serial result. */
  ghost predicate Rehearsed(m: Manifest, patches: Patches, ops: seq<Operation>)
    requires Supplied(ops, patches)
  {
    && |m.steps| <= |ops| && PassUpTo(ops, patches, m.baseTree, |m.steps|)
    && TreeAfter(ops, patches, m.baseTree, |m.steps|) == Some(CheckpointAt(m, |m.steps|).1)
  }

  /** The step follows from its input tree as the batch says. */
  ghost predicate NextStep(m: Manifest, patches: Patches, ops: seq<Operation>, step: Step) {
    && |m.steps| < |ops| && step.op == ops[|m.steps|]
    && step.parent == CheckpointAt(m, |m.steps|).0 && step.inputTree == CheckpointAt(m, |m.steps|).1
    && step.commit == Checkpoint(step.outputTree, step.parent, step.op)
    && EffectsBetween(step.inputTree, step.outputTree) == Some(step.effects)
    && step.effects.Keys == step.op.declaredWrites
    && step.op.id in patches && Apply(patches[step.op.id], step.inputTree) == Some(step.outputTree)
  }

  lemma SealedAt(m: Manifest, patches: Patches, ops: seq<Operation>, step: Step, i: nat)
    requires Sealed(m, patches, ops) && NextStep(m, patches, ops, step) && i <= |m.steps|
    ensures var m' := m.(steps := m.steps + [step]);
      SealedStep(m', i) && AdmitsStep(m', patches, i) && m'.steps[i].op == ops[i]
  {
    var m' := m.(steps := m.steps + [step]);
    if i < |m.steps| {
      assert m'.steps[..|m.steps|] == m.steps;
      EarlierStepStands(m, m', patches, i);
    } else {
      LastStepStands(m, patches, step);
    }
  }

  lemma SealStep(m: Manifest, patches: Patches, ops: seq<Operation>, step: Step)
    requires Sealed(m, patches, ops) && NextStep(m, patches, ops, step)
    ensures Sealed(m.(steps := m.steps + [step]), patches, ops)
  {
    forall i | 0 <= i < |m.steps| + 1
      ensures var m' := m.(steps := m.steps + [step]);
        SealedStep(m', i) && AdmitsStep(m', patches, i) && m'.steps[i].op == ops[i]
    {
      SealedAt(m, patches, ops, step, i);
    }
  }

  lemma RehearseOn(m: Manifest, patches: Patches, ops: seq<Operation>, step: Step)
    requires Supplied(ops, patches) && Rehearsed(m, patches, ops) && NextStep(m, patches, ops, step)
    ensures Rehearsed(m.(steps := m.steps + [step]), patches, ops) && Passes(ops, patches, m.baseTree, |m.steps|)
  {
    TreeStep(ops, patches, m.baseTree, |m.steps|);
    assert Passes(ops, patches, m.baseTree, |m.steps|);
  }

  lemma LastStepStands(m: Manifest, patches: Patches, step: Step)
    requires step.parent == CheckpointAt(m, |m.steps|).0 && step.inputTree == CheckpointAt(m, |m.steps|).1
    requires step.commit == Checkpoint(step.outputTree, step.parent, step.op)
    requires EffectsBetween(step.inputTree, step.outputTree) == Some(step.effects)
    requires step.effects.Keys == step.op.declaredWrites
    requires step.op.id in patches && Apply(patches[step.op.id], step.inputTree) == Some(step.outputTree)
    ensures var m' := m.(steps := m.steps + [step]);
      SealedStep(m', |m.steps|) && AdmitsStep(m', patches, |m.steps|)
      && CheckpointAt(m', |m.steps| + 1).1 == step.outputTree
  {
    var m' := m.(steps := m.steps + [step]);
    assert CheckpointAt(m', |m.steps|) == CheckpointAt(m, |m.steps|);
  }

  lemma EarlierStepStands(m: Manifest, m': Manifest, patches: Patches, i: nat)
    requires i < |m.steps| <= |m'.steps| && m'.steps[..|m.steps|] == m.steps
    requires m'.base == m.base && m'.baseTree == m.baseTree
    requires SealedStep(m, i) && AdmitsStep(m, patches, i)
    ensures SealedStep(m', i) && AdmitsStep(m', patches, i)
  {
    assert m'.steps[..|m.steps|][i] == m'.steps[i];
    if i > 0 {
      assert m'.steps[..|m.steps|][i - 1] == m'.steps[i - 1];
    }
    assert CheckpointAt(m', i) == CheckpointAt(m, i);
  }

  /** What keeps a patch with this declaration from passing on the tree before it. */
  function StepFault(op: Operation, patch: Patch, before: Tree): Option<Refusal> {
    match Apply(patch, before)
    case None => Some(PatchRejected)
    case Some(tree) =>
      match EffectsBetween(before, tree)
      case None => Some(UnsupportedChange)
      case Some(effects) => if effects.Keys == op.declaredWrites then None else Some(EffectsDiffer)
  }

  lemma FaultFails(m: Manifest, patches: Patches, ops: seq<Operation>)
    requires Supplied(ops, patches) && Rehearsed(m, patches, ops) && |m.steps| < |ops|
    ensures ops[|m.steps|].id in patches
    ensures var op := ops[|m.steps|];
      var fault := StepFault(op, patches[op.id], CheckpointAt(m, |m.steps|).1);
      && (fault == None <==> Passes(ops, patches, m.baseTree, |m.steps|))
      && (fault.Some? ==> FailsAt(ops, patches, m.baseTree, |m.steps|, fault.value))
  {
    TreeStep(ops, patches, m.baseTree, |m.steps|);
  }

  /** Rehearses one operation on top of the manifest so far, or says why it does not pass. */
  method RehearseStep(m: Manifest, patches: Patches, ghost ops: seq<Operation>, op: Operation)
    returns (r: Result<Step, Refusal>)
    requires Supplied(ops, patches) && Sealed(m, patches, ops) && Rehearsed(m, patches, ops)
    requires |m.steps| < |ops| && op == ops[|m.steps|] && op.id in patches
    ensures r.Ok? <==> Passes(ops, patches, m.baseTree, |m.steps|)
    ensures r.Ok? ==> NextStep(m, patches, ops, r.value)
    ensures r.Err? ==> FailsAt(ops, patches, m.baseTree, |m.steps|, r.error)
  {
    FaultFails(m, patches, ops);
    var (parent, previous) := CheckpointAt(m, |m.steps|);
    var applied := Apply(patches[op.id], previous);
    if applied == None {
      return Err(PatchRejected);
    }
    var tree := applied.value;
    var effects := EffectsBetween(previous, tree);
    if effects == None {
      return Err(UnsupportedChange);
    }
    if effects.value.Keys != op.declaredWrites {
      return Err(EffectsDiffer);
    }
    var commit := Checkpoint(tree, parent, op);
    return Ok(Step(op, previous, tree, parent, commit, effects.value));
  }

  /** Rehearses the batch in the given order and seals every step. It succeeds exactly when every patch passes and
      the last tree is the declared one; otherwise it names the first patch that fails, or the last tree. */
  method Prepare(base: Commit, baseTree: Tree, ops: seq<Operation>, patches: Patches, expected: Tree,
                 config: nat, digest: nat) returns (r: Result<Manifest, Refusal>)
    requires base.Base? && ops != [] && Supplied(ops, patches)
    ensures r.Ok? <==>
              PassUpTo(ops, patches, baseTree, |ops|) && TreeAfter(ops, patches, baseTree, |ops|) == Some(expected)
    ensures r.Ok? ==> WellFormed(r.value) && Admits(r.value, patches) && Operations(r.value) == ops
    ensures r.Ok? ==> r.value.base == base && r.value.baseTree == baseTree
    ensures r.Ok? ==> r.value.digest == digest && r.value.config == config
    ensures r.Ok? ==> CheckpointAt(r.value, |r.value.steps|).1 == expected
    ensures r == Err(FinalTreeDiffers) <==>
              PassUpTo(ops, patches, baseTree, |ops|) && TreeAfter(ops, patches, baseTree, |ops|) != Some(expected)
    ensures r.Err? && r.error != FinalTreeDiffers ==> exists i: nat :: FailsAt(ops, patches, baseTree, i, r.error)
  {
    var m := Manifest(digest, base, baseTree, [], config);
    for i := 0 to |ops|
      invariant m.base == base && m.baseTree == baseTree && m.digest == digest && m.config == config
      invariant |m.steps| == i && Sealed(m, patches, ops) && Rehearsed(m, patches, ops)
    {
      assert ops[i] in ops;
      var step := RehearseStep(m, patches, ops, ops[i]);
      if step.Err? {
        assert FailsAt(ops, patches, baseTree, i, step.error);
        assert !Passes(ops, patches, baseTree, i);
        return Err(step.error);
      }
      SealStep(m, patches, ops, step.value);
      RehearseOn(m, patches, ops, step.value);
      m := m.(steps := m.steps + [step.value]);
    }
    if CheckpointAt(m, |m.steps|).1 != expected {
      return Err(FinalTreeDiffers);
    }
    assert Operations(m) == ops;
    return Ok(m);
  }
}
