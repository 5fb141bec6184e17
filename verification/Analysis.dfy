/** The interaction analyzer: batch validation, transitive dependencies and the classification of
    every pair of operations, and what a clean report means for the batch. */
module Analysis {
  import opened Wrappers
  import opened DependencyGraphs
  import opened Traces
  import opened Footprints

  datatype Kind = Read | Write | Call | Transform | Emit | Delete | Deploy | UnknownKind

  const EXTERNAL_OR_TRANSFORMING := {Call, Transform, Emit, Delete, Deploy, UnknownKind}
  const WRITE_LIKE := {Write, Transform, Delete, Deploy}

  datatype Effect = Effect(kind: Kind, resource: string)

  datatype Coverage = Complete | Partial | UnknownCoverage

  datatype Record = Record(
    instanceId: Id, attemptId: nat, dependencies: seq<Id>,
    declared: seq<Effect>, inferred: seq<Effect>, observed: seq<Effect>,
    coverage: Coverage)

  datatype BatchError = DuplicateInstance | DuplicateAttempt | UnknownDependency | SelfDependency | CyclicDependencies

  datatype Classification = Ordered | Conflicting | Unknown | IndependentCandidate

  datatype Interaction = Interaction(left: Id, right: Id, classification: Classification, shared: set<string>)

  function Ids(records: seq<Record>): seq<Id> {
    seq(|records|, i requires 0 <= i < |records| => records[i].instanceId)
  }

  function Attempts(records: seq<Record>): seq<nat> {
    seq(|records|, i requires 0 <= i < |records| => records[i].attemptId)
  }

  function ById(records: seq<Record>): map<Id, Record> {
    if records == [] then map[] else
      ById(records[..|records| - 1])[records[|records| - 1].instanceId := records[|records| - 1]]
  }

  function GraphOf(batch: map<Id, Record>): Graph {
    map x | x in batch :: Elements(batch[x].dependencies)
  }

  lemma {:induction false} ByIdKeys(records: seq<Record>)
    ensures ById(records).Keys == Elements(Ids(records))
    ensures forall x :: x in ById(records) ==> ById(records)[x] in records && ById(records)[x].instanceId == x
    decreases |records|
  {
    var n := |records|;
    if n > 0 {
      var init := records[..n - 1];
      ByIdKeys(init);
      assert Ids(records) == Ids(init) + [records[n - 1].instanceId];
      assert records == init + [records[n - 1]];
    }
  }

  lemma ByIdLooksUp(records: seq<Record>)
    ensures ById(records).Keys == Elements(Ids(records))
    ensures forall x :: x in ById(records) ==> ById(records)[x] in records && ById(records)[x].instanceId == x
    ensures Distinct(Ids(records)) ==>
              forall r :: r in records ==> r.instanceId in ById(records) && ById(records)[r.instanceId] == r
  {
    ByIdKeys(records);
    if Distinct(Ids(records)) {
      forall r | r in records
        ensures r.instanceId in ById(records) && ById(records)[r.instanceId] == r
      {
        var i :| 0 <= i < |records| && records[i] == r;
        assert Ids(records)[i] == r.instanceId;
        var other := ById(records)[r.instanceId];
        var k :| 0 <= k < |records| && records[k] == other;
        assert Ids(records)[k] == other.instanceId;
      }
    }
  }

  ghost predicate WellFormedBatch(records: seq<Record>) {
    && Distinct(Ids(records))
    && Distinct(Attempts(records))
    && (forall r :: r in records ==> Elements(r.dependencies) <= Elements(Ids(records)))
    && (forall r :: r in records ==> r.instanceId !in r.dependencies)
    && Acyclic(GraphOf(ById(records)))
  }

  lemma WellFormedIsClosed(records: seq<Record>)
    requires forall r :: r in records ==> Elements(r.dependencies) <= Elements(Ids(records))
    ensures Closed(GraphOf(ById(records)))
  {
    ByIdLooksUp(records);
  }

  method IsDistinct(xs: seq<nat>) returns (ok: bool)
    ensures ok <==> Distinct(xs)
  {
    var seen: set<nat> := {};
    for i := 0 to |xs|
      invariant seen == Elements(xs[..i])
      invariant Distinct(xs[..i])
    {
      if xs[i] in seen {
        var k :| 0 <= k < i && xs[k] == xs[i];
        return false;
      }
      assert forall k :: 0 <= k < i ==> xs[..i][k] in seen;
      assert xs[..i + 1] == xs[..i] + [xs[i]];
      seen := seen + {xs[i]};
    }
    assert xs[..|xs|] == xs;
    return true;
  }

  /** Refuses a batch unless identifiers are unique, every dependency is known, and peeling off the
      operations whose dependencies are done never gets stuck, which is exactly when no operation
      depends on itself. */
  method ValidateBatch(records: seq<Record>) returns (refusal: Option<BatchError>)
    ensures refusal == None <==> WellFormedBatch(records)
    ensures refusal == Some(DuplicateInstance) <==> !Distinct(Ids(records))
    ensures refusal == Some(CyclicDependencies) ==>
              Closed(GraphOf(ById(records))) && !Acyclic(GraphOf(ById(records)))
  {
    var ids := Ids(records);
    var distinctIds := IsDistinct(ids);
    if !distinctIds {
      return Some(DuplicateInstance);
    }
    var distinctAttempts := IsDistinct(Attempts(records));
    if !distinctAttempts {
      return Some(DuplicateAttempt);
    }
    var known := Elements(ids);
    for i := 0 to |records|
      invariant forall k :: 0 <= k < i ==> Elements(records[k].dependencies) <= known
      invariant forall k :: 0 <= k < i ==> records[k].instanceId !in records[k].dependencies
    {
      if !(Elements(records[i].dependencies) <= known) {
        return Some(UnknownDependency);
      }
      if records[i].instanceId in records[i].dependencies {
        return Some(SelfDependency);
      }
    }
    ghost var g := GraphOf(ById(records));
    ByIdLooksUp(records);
    WellFormedIsClosed(records);
    ghost var order: seq<Id> := [];
    var completed: set<Id> := {};
    while completed != known
      invariant completed <= known
      invariant (forall x :: x in order ==> x in g) && Distinct(order) && Respects(g, order)
      invariant Elements(order) == completed
      decreases known - completed
    {
      var ready := (set r | r in records && Elements(r.dependencies) <= completed :: r.instanceId) - completed;
      ReadyInGraph(records, completed, ready);
      if ready == {} {
        StuckIsCyclic(g, completed);
        return Some(CyclicDependencies);
      }
      SortedElements(ready);
      AppendReady(g, order, Sorted(ready));
      order := order + Sorted(ready);
      completed := completed + ready;
    }
    OrderedIsAcyclic(g, order);
    return None;
  }

  lemma ReadyInGraph(records: seq<Record>, completed: set<Id>, ready: set<Id>)
    requires Distinct(Ids(records))
    requires ready == (set r | r in records && Elements(r.dependencies) <= completed :: r.instanceId) - completed
    ensures forall x :: x in ready <==>
              x in GraphOf(ById(records)) && x !in completed && GraphOf(ById(records))[x] <= completed
  {
    ByIdLooksUp(records);
    var g := GraphOf(ById(records));
    forall x
      ensures x in ready <==> x in g && x !in completed && g[x] <= completed
    {
      if x in ready {
        var r :| r in records && Elements(r.dependencies) <= completed && r.instanceId == x;
        assert ById(records)[r.instanceId] == r;
      }
      if x in g && x !in completed && g[x] <= completed {
        var r := ById(records)[x];
        assert r in records && r.instanceId == x;
      }
    }
  }

  // ----- transitive dependencies -----

  /** Pairs the table does not hold yet; the fixpoint iteration only ever removes some. */
  ghost function Missing(g: Graph, up: map<Id, set<Id>>): set<(Id, Id)>
    requires up.Keys == g.Keys
  {
    set x, y | x in g.Keys && y in g.Keys && y !in up[x] :: (x, y)
  }

  ghost predicate SoundTable(g: Graph, up: map<Id, set<Id>>) {
    && up.Keys == g.Keys
    && (forall x :: x in g ==> g[x] <= up[x] <= g.Keys)
    && (forall x, y :: x in up && y in up[x] ==> Depends(g, x, y))
  }

  lemma ExpandedIsSound(g: Graph, up: map<Id, set<Id>>, x: Id, expanded: set<Id>)
    requires Closed(g) && SoundTable(g, up) && x in g
    requires expanded == up[x] + set z, y | z in up[x] && y in up[z] :: y
    ensures SoundTable(g, up[x := expanded])
    ensures expanded != up[x] ==> Missing(g, up[x := expanded]) < Missing(g, up)
  {
    forall y | y in expanded
      ensures Depends(g, x, y) && y in g
    {
      if y !in up[x] {
        var z :| z in up[x] && y in up[z];
        DependsTransitive(g, x, z, y);
      }
    }
    if expanded != up[x] {
      var y :| y in expanded && y !in up[x];
      assert (x, y) in Missing(g, up);
      assert (x, y) !in Missing(g, up[x := expanded]);
    }
  }

  /** Whatever `x` needs, it also needs what that needs. */
  ghost predicate RowIsClosed(up: map<Id, set<Id>>, x: Id) {
    x in up && forall y :: y in up && y in up[x] ==> up[y] <= up[x]
  }

  lemma ExpandedIsClosed(up: map<Id, set<Id>>, x: Id)
    requires x in up && up[x] <= up.Keys
    requires up[x] == up[x] + set z, y | z in up[x] && y in up[z] :: y
    ensures RowIsClosed(up, x)
  {
    forall y, z | y in up && y in up[x] && z in up[y] ensures z in up[x] {
      assert z in up[x] + set z, y | z in up[x] && y in up[z] :: y;
    }
  }

  ghost predicate TableIsClosed(up: map<Id, set<Id>>) {
    forall x, y :: x in up && y in up && y in up[x] ==> up[y] <= up[x]
  }

  lemma AllRowsAreClosed(up: map<Id, set<Id>>, ids: seq<Id>)
    requires Elements(ids) == up.Keys && forall m :: 0 <= m < |ids| ==> RowIsClosed(up, ids[m])
    ensures TableIsClosed(up)
  {
    forall x | x in up ensures RowIsClosed(up, x) {
      assert x in Elements(ids);
      var m :| 0 <= m < |ids| && ids[m] == x;
    }
  }

  lemma TableIsComplete(g: Graph, up: map<Id, set<Id>>)
    requires SoundTable(g, up) && TableIsClosed(up)
    ensures forall x, y :: x in g && Depends(g, x, y) ==> y in up[x]
  {
    forall x, y | x in g && Depends(g, x, y)
      ensures y in up[x]
    {
      var p :| IsChain(g, p) && |p| >= 2 && p[0] == x && p[|p| - 1] == y;
      ClosureCoversChain(g, up, p);
    }
  }

  /** Between the direct dependencies and the transitive ones, only the latter are closed. */
  lemma ClosedIsExact(g: Graph, up: map<Id, set<Id>>)
    requires SoundTable(g, up) && TableIsClosed(up)
    ensures up == AncestorTable(g)
  {
    TableIsComplete(g, up);
    assert forall x :: x in g ==> up[x] == AncestorTable(g)[x];
  }

  lemma GraphIsSound(g: Graph)
    requires Closed(g)
    ensures SoundTable(g, g)
  {
    forall x, y | x in g && y in g[x]
      ensures Depends(g, x, y)
    {
      DependsDirect(g, x, y);
    }
  }

  /** One turn over all rows. If no row changes, the table is closed; else there is less missing. */
  method ExpandRows(g: Graph, ids: seq<Id>, before: map<Id, set<Id>>) returns (up: map<Id, set<Id>>, changed: bool)
    requires Closed(g) && Elements(ids) == g.Keys && SoundTable(g, before)
    ensures SoundTable(g, up)
    ensures changed ==> Missing(g, up) < Missing(g, before)
    ensures !changed ==> up == before && TableIsClosed(up)
  {
    up, changed := before, false;
    for k := 0 to |ids|
      invariant SoundTable(g, up)
      invariant Missing(g, up) <= Missing(g, before)
      invariant changed ==> Missing(g, up) < Missing(g, before)
      invariant !changed ==> up == before && forall m :: 0 <= m < k ==> RowIsClosed(up, ids[m])
    {
      var x := ids[k];
      assert x in Elements(ids);
      var expanded := up[x] + set z, y | z in up[x] && y in up[z] :: y;
      ExpandedIsSound(g, up, x, expanded);
      if expanded != up[x] {
        up := up[x := expanded];
        changed := true;
      } else {
        ExpandedIsClosed(up, x);
      }
    }
    if !changed {
      AllRowsAreClosed(up, ids);
    }
  }

  /** The fixpoint iteration over a table that is updated in place ends with exactly the
      transitive dependencies of every operation, whatever order the operations come in. */
  method Ancestors(g: Graph, ids: seq<Id>) returns (up: map<Id, set<Id>>)
    requires Closed(g) && Elements(ids) == g.Keys
    ensures up == AncestorTable(g)
  {
    up := g;
    GraphIsSound(g);
    var changed := true;
    while changed
      invariant SoundTable(g, up)
      invariant !changed ==> TableIsClosed(up)
      decreases Missing(g, up), changed
    {
      up, changed := ExpandRows(g, ids, up);
    }
    ClosedIsExact(g, up);
  }

  // ----- effects and interactions -----

  function AllEffects(r: Record): seq<Effect> {
    r.declared + r.inferred + r.observed
  }

  function KindsAt(effects: seq<Effect>, resource: string): set<Kind> {
    set e | e in effects && e.resource == resource :: e.kind
  }

  function KindMap(effects: seq<Effect>): map<string, set<Kind>> {
    map e | e in effects :: e.resource := KindsAt(effects, e.resource)
  }

  /** The kinds of effect recorded for every resource, over all three channels. */
  function EffectsOf(r: Record): map<string, set<Kind>> {
    KindMap(AllEffects(r))
  }

  lemma KindsAtAppend(effects: seq<Effect>, e: Effect, resource: string)
    ensures KindsAt(effects + [e], resource) ==
            KindsAt(effects, resource) + if e.resource == resource then {e.kind} else {}
  {
    var all := effects + [e];
    forall k | k in KindsAt(effects, resource)
      ensures k in KindsAt(all, resource)
    {
      var f :| f in effects && f.resource == resource && f.kind == k;
      assert f in all;
    }
    assert e in all;
  }

  function AddKind(m: map<string, set<Kind>>, e: Effect): map<string, set<Kind>> {
    m[e.resource := (if e.resource in m then m[e.resource] else {}) + {e.kind}]
  }

  lemma KindMapAppend(effects: seq<Effect>, e: Effect)
    ensures KindMap(effects + [e]) == AddKind(KindMap(effects), e)
  {
    var all := effects + [e];
    var m, m' := KindMap(all), AddKind(KindMap(effects), e);
    assert e in all;
    assert forall f :: f in all <==> f in effects || f == e;
    forall x
      ensures x in m <==> x in m'
      ensures x in m ==> m[x] == m'[x]
    {
      KindsAtAppend(effects, e, x);
      if x !in KindMap(effects) {
        assert forall f :: f in effects ==> f.resource != x;
      }
    }
  }

  method AddChannel(before: map<string, set<Kind>>, channel: seq<Effect>, ghost done: seq<Effect>)
    returns (m: map<string, set<Kind>>)
    requires before == KindMap(done)
    ensures m == KindMap(done + channel)
  {
    m := before;
    assert done + channel[..0] == done;
    for i := 0 to |channel|
      invariant m == KindMap(done + channel[..i])
    {
      var e := channel[i];
      KindMapAppend(done + channel[..i], e);
      assert done + channel[..i + 1] == done + channel[..i] + [e];
      m := m[e.resource := (if e.resource in m then m[e.resource] else {}) + {e.kind}];
    }
    assert channel[..|channel|] == channel;
  }

  method EffectMap(r: Record) returns (m: map<string, set<Kind>>)
    ensures m == EffectsOf(r)
  {
    m := AddChannel(map[], r.declared, []);
    m := AddChannel(m, r.inferred, [] + r.declared);
    m := AddChannel(m, r.observed, [] + r.declared + r.inferred);
    assert [] + r.declared + r.inferred + r.observed == AllEffects(r);
  }

  function WriteLikeAt(m: map<string, set<Kind>>, resource: string): bool {
    resource in m && m[resource] * WRITE_LIKE != {}
  }

  predicate External(m: map<string, set<Kind>>) {
    exists r | r in m :: m[r] * EXTERNAL_OR_TRANSFORMING != {}
  }

  function Classify(left: Record, right: Record, up: map<Id, set<Id>>): Classification
    requires left.instanceId in up && right.instanceId in up
  {
    var l, r := EffectsOf(left), EffectsOf(right);
    if left.instanceId in up[right.instanceId] || right.instanceId in up[left.instanceId] then Ordered
    else if exists x | x in l.Keys * r.Keys :: WriteLikeAt(l, x) || WriteLikeAt(r, x) then Conflicting
    else if left.coverage != Complete || right.coverage != Complete then Unknown
    else if External(l) || External(r) then Unknown
    else IndependentCandidate
  }

  // ----- what a classification says about the records -----

  /** One of the three channels of the record has the effect. */
  ghost predicate Has(r: Record, e: Effect) {
    e in r.declared || e in r.inferred || e in r.observed
  }

  ghost predicate On(r: Record, resource: string) {
    exists k :: Has(r, Effect(k, resource))
  }

  ghost predicate Changes(r: Record, resource: string) {
    || Has(r, Effect(Write, resource)) || Has(r, Effect(Transform, resource))
    || Has(r, Effect(Delete, resource)) || Has(r, Effect(Deploy, resource))
  }

  /** Some effect is neither a read nor a write. */
  ghost predicate BeyondReadsAndWrites(r: Record) {
    exists k, resource :: Has(r, Effect(k, resource)) && k != Read && k != Write
  }

  lemma SomeWriteLike(kinds: set<Kind>)
    ensures kinds * WRITE_LIKE != {} <==> Write in kinds || Transform in kinds || Delete in kinds || Deploy in kinds
  {
    if k :| k in kinds * WRITE_LIKE {
      assert k in WRITE_LIKE;
    }
    forall k | k in kinds && k in WRITE_LIKE ensures k in kinds * WRITE_LIKE {
    }
    assert Write in kinds ==> Write in kinds * WRITE_LIKE;
    assert Transform in kinds ==> Transform in kinds * WRITE_LIKE;
    assert Delete in kinds ==> Delete in kinds * WRITE_LIKE;
    assert Deploy in kinds ==> Deploy in kinds * WRITE_LIKE;
  }

  lemma EffectsMeaning(r: Record, resource: string)
    ensures resource in EffectsOf(r) <==> On(r, resource)
    ensures resource in EffectsOf(r) ==> forall k :: k in EffectsOf(r)[resource] <==> Has(r, Effect(k, resource))
    ensures WriteLikeAt(EffectsOf(r), resource) <==> Changes(r, resource)
  {
    var all := AllEffects(r);
    assert forall e :: e in all <==> Has(r, e);
    if resource in EffectsOf(r) {
      var e :| e in all && e.resource == resource;
      assert e == Effect(e.kind, resource);
      forall k ensures k in EffectsOf(r)[resource] <==> Has(r, Effect(k, resource)) {
        assert k in KindsAt(all, resource) ==> exists f :: f in all && f.resource == resource && f.kind == k;
      }
      SomeWriteLike(EffectsOf(r)[resource]);
    }
    if k :| Has(r, Effect(k, resource)) {
      assert Effect(k, resource).resource == resource;
    }
  }

  lemma ExternalKinds(k: Kind)
    ensures k in EXTERNAL_OR_TRANSFORMING <==> k != Read && k != Write
  {
  }

  lemma ExternalShows(r: Record)
    requires External(EffectsOf(r))
    ensures BeyondReadsAndWrites(r)
  {
    var m := EffectsOf(r);
    var x :| x in m && m[x] * EXTERNAL_OR_TRANSFORMING != {};
    var k :| k in m[x] * EXTERNAL_OR_TRANSFORMING;
    ExternalKinds(k);
    EffectsMeaning(r, x);
    assert Has(r, Effect(k, x));
  }

  lemma ExternalMeaning(r: Record)
    ensures External(EffectsOf(r)) <==> BeyondReadsAndWrites(r)
  {
    if External(EffectsOf(r)) {
      ExternalShows(r);
    }
    if k, x :| Has(r, Effect(k, x)) && k != Read && k != Write {
      ExternalKinds(k);
      EffectsMeaning(r, x);
      assert k in EffectsOf(r)[x] * EXTERNAL_OR_TRANSFORMING;
    }
  }

  ghost predicate OrderedByNeed(g: Graph, left: Record, right: Record) {
    Depends(g, left.instanceId, right.instanceId) || Depends(g, right.instanceId, left.instanceId)
  }

  /** Both operations have an effect on one resource, and one of them changes it. */
  ghost predicate Collide(left: Record, right: Record) {
    exists x :: On(left, x) && On(right, x) && (Changes(left, x) || Changes(right, x))
  }

  ghost predicate Unclear(left: Record, right: Record) {
    left.coverage != Complete || right.coverage != Complete || BeyondReadsAndWrites(left) || BeyondReadsAndWrites(right)
  }

  /** What each classification says; for every pair of records exactly one holds. */
  ghost predicate Fits(g: Graph, left: Record, right: Record, c: Classification) {
    match c
    case Ordered => OrderedByNeed(g, left, right)
    case Conflicting => !OrderedByNeed(g, left, right) && Collide(left, right)
    case Unknown => !OrderedByNeed(g, left, right) && !Collide(left, right) && Unclear(left, right)
    case IndependentCandidate =>
      !OrderedByNeed(g, left, right) && !Collide(left, right) && !Unclear(left, right)
  }

  lemma CollideMeaning(left: Record, right: Record)
    ensures var l, r := EffectsOf(left), EffectsOf(right);
      (exists x | x in l.Keys * r.Keys :: WriteLikeAt(l, x) || WriteLikeAt(r, x)) <==> Collide(left, right)
  {
    var l, r := EffectsOf(left), EffectsOf(right);
    if x :| x in l.Keys * r.Keys && (WriteLikeAt(l, x) || WriteLikeAt(r, x)) {
      EffectsMeaning(left, x);
      EffectsMeaning(right, x);
    }
    if x :| On(left, x) && On(right, x) && (Changes(left, x) || Changes(right, x)) {
      EffectsMeaning(left, x);
      EffectsMeaning(right, x);
      assert x in l.Keys * r.Keys;
    }
  }

  /** The classification is the one that the dependencies and the effects of the records determine. */
  lemma ClassificationMeaning(g: Graph, left: Record, right: Record, c: Classification)
    requires left.instanceId in g && right.instanceId in g
    ensures c == Classify(left, right, AncestorTable(g)) <==> Fits(g, left, right, c)
  {
    CollideMeaning(left, right);
    ExternalMeaning(left);
    ExternalMeaning(right);
  }

  /** The resources that both records have effects on. */
  ghost predicate AreShared(left: Record, right: Record, shared: set<string>) {
    forall x :: x in shared <==> On(left, x) && On(right, x)
  }

  lemma SharedMeaning(left: Record, right: Record)
    ensures AreShared(left, right, EffectsOf(left).Keys * EffectsOf(right).Keys)
  {
    forall x ensures x in EffectsOf(left).Keys * EffectsOf(right).Keys <==> On(left, x) && On(right, x) {
      EffectsMeaning(left, x);
      EffectsMeaning(right, x);
    }
  }

  method Interact(left: Record, right: Record, up: map<Id, set<Id>>) returns (it: Interaction)
    requires left.instanceId in up && right.instanceId in up
    ensures it.left == left.instanceId && it.right == right.instanceId
    ensures it.classification == Classify(left, right, up)
    ensures it.shared == EffectsOf(left).Keys * EffectsOf(right).Keys
  {
    var l := EffectMap(left);
    var r := EffectMap(right);
    var shared := l.Keys * r.Keys;
    var classification;
    if left.instanceId in up[right.instanceId] || right.instanceId in up[left.instanceId] {
      classification := Ordered;
    } else if exists x | x in shared :: (l[x] + r[x]) * WRITE_LIKE != {} {
      classification := Conflicting;
    } else if {left.coverage, right.coverage} != {Complete} {
      assert left.coverage in {left.coverage, right.coverage};
      classification := Unknown;
    } else if (set k, x | x in l && k in l[x] :: k) * EXTERNAL_OR_TRANSFORMING != {}
           || (set k, x | x in r && k in r[x] :: k) * EXTERNAL_OR_TRANSFORMING != {} {
      classification := Unknown;
    } else {
      classification := IndependentCandidate;
    }
    it := Interaction(left.instanceId, right.instanceId, classification, shared);
  }

  /** A report classifies every pair of distinct operations of the batch exactly once. */
  ghost predicate IsReport(batch: map<Id, Record>, report: seq<Interaction>) {
    && (forall it :: it in report ==>
          && it.left in batch && it.right in batch && it.left < it.right
          && batch[it.left].instanceId == it.left && batch[it.right].instanceId == it.right
          && Fits(GraphOf(batch), batch[it.left], batch[it.right], it.classification))
    && (forall it :: it in report ==> AreShared(batch[it.left], batch[it.right], it.shared))
    && (forall l, r :: l in batch && r in batch && l < r ==>
          exists it :: it in report && it.left == l && it.right == r)
    && (forall i, j :: 0 <= i < j < |report| ==>
          !(report[i].left == report[j].left && report[i].right == report[j].right))
  }

  method Interactions(batch: map<Id, Record>, ids: seq<Id>, up: map<Id, set<Id>>)
    returns (report: seq<Interaction>)
    requires forall x :: x in batch ==> batch[x].instanceId == x
    requires Elements(ids) == batch.Keys && Increasing(ids) && up.Keys == batch.Keys
    ensures |report| == |Combinations(ids)|
    ensures forall m :: 0 <= m < |report| ==> Describes(batch, up, Combinations(ids)[m], report[m])
  {
    var pairs := Combinations(ids);
    CombinationsExact(ids);
    report := [];
    for k := 0 to |pairs|
      invariant |report| == k
      invariant forall m :: 0 <= m < k ==> Describes(batch, up, pairs[m], report[m])
    {
      assert pairs[k] in pairs;
      var l, r := pairs[k].0, pairs[k].1;
      assert l in Elements(ids) && r in Elements(ids);
      var it := Interact(batch[l], batch[r], up);
      SharedMeaning(batch[l], batch[r]);
      report := report + [it];
    }
  }

  /** The whole analysis: a refusal, or a classification of every pair. */
  method Analyze(records: seq<Record>) returns (result: Result<seq<Interaction>, BatchError>)
    ensures result.Ok? <==> WellFormedBatch(records)
    ensures result.Ok? ==> IsReport(ById(records), result.value)
  {
    var refusal := ValidateBatch(records);
    if refusal.Some? {
      return Err(refusal.value);
    }
    var batch := ById(records);
    ByIdLooksUp(records);
    WellFormedIsClosed(records);
    var ids := Sorted(batch.Keys);
    SortedElements(batch.Keys);
    var up := Ancestors(GraphOf(batch), ids);
    var report := Interactions(batch, ids, up);
    DescribedReport(batch, ids, report);
    return Ok(report);
  }

  ghost predicate Describes(batch: map<Id, Record>, up: map<Id, set<Id>>, pair: (Id, Id), it: Interaction) {
    && pair.0 in batch && pair.1 in batch
    && batch[pair.0].instanceId == it.left == pair.0 && batch[pair.1].instanceId == it.right == pair.1
    && it.left in up && it.right in up
    && it.classification == Classify(batch[pair.0], batch[pair.1], up)
    && AreShared(batch[pair.0], batch[pair.1], it.shared)
  }

  lemma DescribedReport(batch: map<Id, Record>, ids: seq<Id>, report: seq<Interaction>)
    requires Elements(ids) == batch.Keys && Increasing(ids)
    requires |report| == |Combinations(ids)|
    requires forall m :: 0 <= m < |report| ==>
               Describes(batch, AncestorTable(GraphOf(batch)), Combinations(ids)[m], report[m])
    ensures IsReport(batch, report)
  {
    var pairs, up := Combinations(ids), AncestorTable(GraphOf(batch));
    CombinationsExact(ids);
    assert forall x :: x in ids <==> x in Elements(ids);
    forall l, r | l in batch && r in batch && l < r
      ensures exists it :: it in report && it.left == l && it.right == r
    {
      assert (l, r) in pairs;
      Reported(batch, up, pairs, report, (l, r));
    }
    forall it | it in report
      ensures it.left in batch && it.right in batch && it.left < it.right
      ensures Describes(batch, up, (it.left, it.right), it)
      ensures Fits(GraphOf(batch), batch[it.left], batch[it.right], it.classification)
    {
      ReportsAPair(batch, up, pairs, report, it);
      ClassificationMeaning(GraphOf(batch), batch[it.left], batch[it.right], it.classification);
    }
    ReportedOnce(batch, up, pairs, report);
  }

  lemma Reported(
    batch: map<Id, Record>, up: map<Id, set<Id>>, pairs: seq<(Id, Id)>, report: seq<Interaction>, pair: (Id, Id))
    requires |report| == |pairs| && pair in pairs
    requires forall m :: 0 <= m < |report| ==> Describes(batch, up, pairs[m], report[m])
    ensures exists it :: it in report && it.left == pair.0 && it.right == pair.1
  {
    var m :| 0 <= m < |pairs| && pairs[m] == pair;
    assert Describes(batch, up, pairs[m], report[m]);
    assert report[m] in report;
  }

  lemma ReportsAPair(
    batch: map<Id, Record>, up: map<Id, set<Id>>, pairs: seq<(Id, Id)>, report: seq<Interaction>, it: Interaction)
    requires |report| == |pairs| && it in report
    requires forall m :: 0 <= m < |report| ==> Describes(batch, up, pairs[m], report[m])
    ensures (it.left, it.right) in pairs && Describes(batch, up, (it.left, it.right), it)
  {
    var m :| 0 <= m < |report| && report[m] == it;
    assert Describes(batch, up, pairs[m], report[m]);
    assert pairs[m] == (it.left, it.right);
  }

  lemma ReportedOnce(batch: map<Id, Record>, up: map<Id, set<Id>>, pairs: seq<(Id, Id)>, report: seq<Interaction>)
    requires Distinct(pairs) && |report| == |pairs|
    requires forall m :: 0 <= m < |report| ==> Describes(batch, up, pairs[m], report[m])
    ensures forall i, j :: 0 <= i < j < |report| ==>
      !(report[i].left == report[j].left && report[i].right == report[j].right)
  {
    forall i, j | 0 <= i < j < |report|
      ensures !(report[i].left == report[j].left && report[i].right == report[j].right)
    {
      assert Describes(batch, up, pairs[i], report[i]) && Describes(batch, up, pairs[j], report[j]);
      assert pairs[i] != pairs[j];
    }
  }

  // ----- what a clean report means -----

  /** Every pair is ordered by dependencies or a candidate for independence. */
  predicate Clean(report: seq<Interaction>) {
    forall it :: it in report ==> it.classification == Ordered || it.classification == IndependentCandidate
  }

  ghost function Footprint(r: Record): iset<string> {
    iset x | On(r, x)
  }

  ghost function WriteFootprint(r: Record): iset<string> {
    iset x | Has(r, Effect(Write, x))
  }

  /** An operation with a complete footprint of reads and writes changes only what it declares to
      write, as a function of what it declares to touch. Nothing is assumed of the others. */
  ghost predicate HonestSteps<V(!new)>(batch: map<Id, Record>, steps: map<Id, Step<Store<string, V>>>) {
    && steps.Keys == batch.Keys
    && forall x :: x in batch && batch[x].coverage == Complete && !BeyondReadsAndWrites(batch[x]) ==>
         StaysWithin(steps[x], Footprint(batch[x]), WriteFootprint(batch[x]))
  }

  ghost function CandidatePairs(report: seq<Interaction>): Pairs {
    set it | it in report && it.classification == IndependentCandidate :: (it.left, it.right)
  }

  lemma CandidateIsDeclared(g: Graph, left: Record, right: Record)
    requires Fits(g, left, right, IndependentCandidate)
    ensures left.coverage == Complete && !BeyondReadsAndWrites(left)
    ensures right.coverage == Complete && !BeyondReadsAndWrites(right)
    ensures WriteFootprint(left) !! Footprint(right) && WriteFootprint(right) !! Footprint(left)
  {
    forall x ensures !(Has(left, Effect(Write, x)) && On(right, x)) && !(Has(right, Effect(Write, x)) && On(left, x)) {
      assert Has(left, Effect(Write, x)) ==> On(left, x) && Changes(left, x);
      assert Has(right, Effect(Write, x)) ==> On(right, x) && Changes(right, x);
    }
  }

  lemma CommuteSymmetric<S(!new)>(f: Step<S>, h: Step<S>)
    requires Commute(f, h)
    ensures Commute(h, f)
  {
  }

  lemma CandidateCommutes<V(!new)>(batch: map<Id, Record>, it: Interaction, steps: map<Id, Step<Store<string, V>>>)
    requires HonestSteps(batch, steps) && it.left in batch && it.right in batch
    requires batch[it.left].instanceId == it.left && batch[it.right].instanceId == it.right
    requires Fits(GraphOf(batch), batch[it.left], batch[it.right], IndependentCandidate)
    ensures Commute(steps[it.left], steps[it.right]) && Commute(steps[it.right], steps[it.left])
  {
    var l, r := batch[it.left], batch[it.right];
    CandidateIsDeclared(GraphOf(batch), l, r);
    DisjointFootprintsCommute(steps[it.left], Footprint(l), WriteFootprint(l), steps[it.right], Footprint(r), WriteFootprint(r));
    CommuteSymmetric(steps[it.left], steps[it.right]);
  }

  lemma CandidatePairsCommute<V(!new)>(batch: map<Id, Record>, report: seq<Interaction>, steps: map<Id, Step<Store<string, V>>>)
    requires IsReport(batch, report) && HonestSteps(batch, steps)
    ensures IndependentCommute(CandidatePairs(report), steps)
  {
    forall it | it in report && it.classification == IndependentCandidate
      ensures it.left in steps && it.right in steps
      ensures Commute(steps[it.left], steps[it.right]) && Commute(steps[it.right], steps[it.left])
    {
      CandidateCommutes(batch, it, steps);
    }
    forall a, b | a in steps && b in steps && Independent(CandidatePairs(report), a, b)
      ensures Commute(steps[a], steps[b])
    {
      var it :| it in report && it.classification == IndependentCandidate && (it.left, it.right) == SortedPair(a, b);
    }
  }

  /** What is not a candidate is ordered by dependencies. */
  lemma RestIsOrdered(batch: map<Id, Record>, report: seq<Interaction>, a: Id, b: Id)
    requires IsReport(batch, report) && Clean(report)
    requires a in batch && b in batch && a != b && !Independent(CandidatePairs(report), a, b)
    ensures Depends(GraphOf(batch), a, b) || Depends(GraphOf(batch), b, a)
  {
    var p := SortedPair(a, b);
    var it :| it in report && it.left == p.0 && it.right == p.1;
    assert (it.left, it.right) == p;
  }

  lemma BeforeElements(o: Order, a: Id, b: Id)
    requires Before(o, a, b)
    ensures a in Elements(o) && b in Elements(o)
  {
  }

  /** Two admissible orders place every pair that is not a candidate the same way round. */
  lemma OrderedPairsAgree(batch: map<Id, Record>, report: seq<Interaction>, o: Order, o': Order)
    requires IsReport(batch, report) && Clean(report)
    requires Admissible(GraphOf(batch), o) && Admissible(GraphOf(batch), o')
    ensures SameDependentOrder(CandidatePairs(report), o, o')
  {
    forall a, b | a != b && !Independent(CandidatePairs(report), a, b)
      ensures Before(o, a, b) <==> Before(o', a, b)
    {
      if Before(o, a, b) || Before(o', a, b) {
        if Before(o, a, b) {
          BeforeElements(o, a, b);
        } else {
          BeforeElements(o', a, b);
        }
        RestIsOrdered(batch, report, a, b);
        if Before(o, a, b) {
          OrderedPairKept(GraphOf(batch), o, o', a, b);
        } else {
          OrderedPairKept(GraphOf(batch), o', o, a, b);
        }
      }
    }
  }

  /** If a report finds only ordered pairs and candidates, all serial orders that respect the
      dependencies have the same outcome, failures included, from every start state. */
  lemma CleanReportIsOrderIndependent<V(!new)>(
      batch: map<Id, Record>, report: seq<Interaction>, steps: map<Id, Step<Store<string, V>>>,
      o: Order, o': Order, s: Store<string, V>)
    requires IsReport(batch, report) && Clean(report) && HonestSteps(batch, steps)
    requires Admissible(GraphOf(batch), o) && Admissible(GraphOf(batch), o')
    ensures (forall x :: x in o ==> x in steps) && (forall x :: x in o' ==> x in steps)
    ensures Run(steps, o, s) == Run(steps, o', s)
  {
    forall x | x in o
      ensures x in steps
    {
      assert x in Elements(o);
    }
    CandidatePairsCommute(batch, report, steps);
    OrderedPairsAgree(batch, report, o, o');
    ConnectedIffSameDependentOrder(CandidatePairs(report), o, o');
    ConnectedKeepsOutcome(CandidatePairs(report), steps, o, o', s);
  }
}
