/** The greedy wave scheduler of the integration prototype: operations without conflicting
    footprints share a wave, unknown footprints run alone. */
module IntegrationWaves {
  import opened Wrappers
  import opened DependencyGraphs
  import opened Footprints
  import opened GitReplay
  import opened PartialOrder
  import opened Paths
  import opened Traces

  datatype Footprint = Footprint(complete: bool, reading: set<string>, writing: set<string>, shared: set<string>)

  predicate Conflicts(candidate: Footprint, accepted: Footprint) {
    || PathsOverlap(candidate.writing, accepted.reading + accepted.writing)
    || PathsOverlap(accepted.writing, candidate.reading)
    || candidate.shared * accepted.shared != {}
  }

  // ----- what a conflict is -----

  /** What an operation can meet another one on: a path, or a shared resource. */
  datatype Place = At(path: string) | Common(resource: string)

  ghost predicate Touches(f: Footprint, place: Place) {
    match place
    case At(path) => Near(f.reading + f.writing, path)
    case Common(resource) => resource in f.shared
  }

  ghost predicate Writes(f: Footprint, place: Place) {
    match place
    case At(path) => path in f.writing
    case Common(resource) => resource in f.shared
  }

  /** Two footprints conflict exactly when one writes a place that the other touches. */
  lemma ConflictMeaning(f: Footprint, h: Footprint)
    ensures Conflicts(f, h) <==> exists place :: (Writes(f, place) && Touches(h, place)) || (Writes(h, place) && Touches(f, place))
  {
    var fAll, hAll := f.reading + f.writing, h.reading + h.writing;
    if PathsOverlap(f.writing, hAll) {
      var a, b :| a in f.writing && b in hAll && Related(a, b);
      assert Near(hAll, a) && Writes(f, At(a)) && Touches(h, At(a));
    } else if PathsOverlap(h.writing, f.reading) {
      var a, b :| a in h.writing && b in f.reading && Related(a, b);
      assert Near(fAll, a) && Writes(h, At(a)) && Touches(f, At(a));
    } else if f.shared * h.shared != {} {
      var resource :| resource in f.shared * h.shared;
      assert Writes(f, Common(resource)) && Touches(h, Common(resource));
    }
    forall place | (Writes(f, place) && Touches(h, place)) || (Writes(h, place) && Touches(f, place))
      ensures Conflicts(f, h)
    {
      MeetingConflicts(f, h, place);
    }
  }

  lemma MeetingConflicts(f: Footprint, h: Footprint, place: Place)
    requires (Writes(f, place) && Touches(h, place)) || (Writes(h, place) && Touches(f, place))
    ensures Conflicts(f, h)
  {
    match place
    case Common(resource) => assert resource in f.shared * h.shared;
    case At(path) =>
      if path in f.writing && Near(h.reading + h.writing, path) {
        assert Meet(f.writing, h.reading + h.writing);
      } else {
        var p :| p in f.reading + f.writing && Related(p, path);
        assert p in f.reading ==> Meet(h.writing, f.reading);
        assert p in f.writing ==> Meet(f.writing, h.reading + h.writing);
      }
  }

  ghost predicate Honest<V(!new)>(f: Footprint, step: Step<Store<Place, V>>) {
    StaysWithin(step, iset place | Touches(f, place), iset place | Writes(f, place))
  }

  /** Operations that keep to their footprints commute unless the footprints conflict. */
  lemma NoConflictCommutes<V(!new)>(f: Footprint, h: Footprint, a: Step<Store<Place, V>>, b: Step<Store<Place, V>>)
    requires !Conflicts(f, h) && Honest(f, a) && Honest(h, b)
    ensures Commute(a, b) && Commute(b, a)
  {
    ConflictMeaning(f, h);
    DisjointFootprintsCommute(a, (iset place | Touches(f, place)), (iset place | Writes(f, place)),
                              b, (iset place | Touches(h, place)), (iset place | Writes(h, place)));
  }

  ghost predicate HonestSteps<V(!new)>(fp: map<Id, Footprint>, steps: map<Id, Step<Store<Place, V>>>) {
    steps.Keys == fp.Keys && forall x :: x in fp && fp[x].complete ==> Honest(fp[x], steps[x])
  }

  /** The members of a wave of two or more can be integrated in any order: every order has the same outcome. */
  lemma WaveOrderDoesNotMatter<V(!new)>(
      fp: map<Id, Footprint>, wave: seq<Id>, steps: map<Id, Step<Store<Place, V>>>, o: Order, s: Store<Place, V>)
    requires ConflictFree(fp, wave) && HonestSteps(fp, steps) && Rearrangement(wave, o)
    ensures (forall x :: x in wave ==> x in steps) && (forall x :: x in o ==> x in steps)
    ensures Run(steps, o, s) == Run(steps, wave, s)
  {
    var ind := set a, b | a in Elements(wave) && b in Elements(wave) && a < b :: (a, b);
    assert forall x :: x in o <==> x in Elements(o);
    assert forall x :: x in wave <==> x in Elements(wave);
    forall a, b | a != b && !Independent(ind, a, b)
      ensures Before(wave, a, b) <==> Before(o, a, b)
    {
      assert SortedPair(a, b) == if a <= b then (a, b) else (b, a);
    }
    WaveCommutes(fp, wave, steps, ind);
    ConnectedIffSameDependentOrder(ind, wave, o);
    ConnectedKeepsOutcome(ind, steps, wave, o, s);
  }

  lemma WaveCommutes<V(!new)>(
      fp: map<Id, Footprint>, wave: seq<Id>, steps: map<Id, Step<Store<Place, V>>>, ind: Pairs)
    requires ConflictFree(fp, wave) && HonestSteps(fp, steps)
    requires ind == set a, b | a in Elements(wave) && b in Elements(wave) && a < b :: (a, b)
    ensures IndependentCommute(ind, steps)
  {
    forall a, b | a in steps && b in steps && Independent(ind, a, b)
      ensures Commute(steps[a], steps[b])
    {
      assert a in wave && b in wave && a != b;
      var i :| 0 <= i < |wave| && wave[i] == a;
      var j :| 0 <= j < |wave| && wave[j] == b;
      if i < j {
        NoConflictCommutes(fp[b], fp[a], steps[b], steps[a]);
      } else {
        NoConflictCommutes(fp[a], fp[b], steps[a], steps[b]);
      }
    }
  }

  // ----- one wave -----

  ghost predicate ConflictFree(fp: map<Id, Footprint>, wave: seq<Id>) {
    && (forall x :: x in wave ==> x in fp && fp[x].complete)
    && (forall i, j :: 0 <= i < j < |wave| ==> !Conflicts(fp[wave[j]], fp[wave[i]]))
  }

  /** What keeps a ready operation out of a wave. */
  ghost predicate HeldBack(fp: map<Id, Footprint>, wave: seq<Id>, y: Id)
    requires y in fp && forall x :: x in wave ==> x in fp
  {
    !fp[y].complete || exists x :: x in wave && Conflicts(fp[y], fp[x])
  }

  ghost predicate Placed(fp: map<Id, Footprint>, wave: seq<Id>, y: Id)
    requires y in fp && forall x :: x in wave ==> x in fp
  {
    y in wave || HeldBack(fp, wave, y)
  }

  lemma StaysPlaced(fp: map<Id, Footprint>, wave: seq<Id>, next: Id, y: Id)
    requires y in fp && next in fp && (forall x :: x in wave ==> x in fp) && Placed(fp, wave, y)
    ensures Placed(fp, wave + [next], y)
  {
    assert forall x :: x in wave ==> x in wave + [next];
  }

  lemma JoinsWave(fp: map<Id, Footprint>, wave: seq<Id>, y: Id)
    requires y in fp && (forall x :: x in wave ==> x in fp) && ConflictFree(fp, wave)
    requires fp[y].complete && forall x :: x in wave ==> !Conflicts(fp[y], fp[x])
    ensures ConflictFree(fp, wave + [y]) && Placed(fp, wave + [y], y)
  {
  }

  method ConflictsWithWave(fp: map<Id, Footprint>, wave: seq<Id>, y: Id) returns (conflict: bool)
    requires y in fp && forall x :: x in wave ==> x in fp
    ensures conflict <==> exists x :: x in wave && Conflicts(fp[y], fp[x])
  {
    conflict := false;
    for k := 0 to |wave|
      invariant forall m :: 0 <= m < k ==> !Conflicts(fp[y], fp[wave[m]])
    {
      if Conflicts(fp[y], fp[wave[k]]) {
        return true;
      }
    }
  }

  /** One wave chosen from the ready operations, first come first served. */
  method GreedyWave(fp: map<Id, Footprint>, ready: seq<Id>) returns (wave: seq<Id>)
    requires (forall x :: x in ready ==> x in fp) && Distinct(ready) && ready != []
    ensures wave != [] && Distinct(wave) && forall x :: x in wave ==> x in ready
    ensures |wave| >= 2 ==> ConflictFree(fp, wave)
    ensures forall y :: y in ready && y !in wave ==> HeldBack(fp, wave, y)
  {
    wave := [];
    for k := 0 to |ready|
      invariant forall x :: x in wave ==> x in ready[..k]
      invariant Distinct(wave) && ConflictFree(fp, wave)
      invariant forall m :: 0 <= m < k ==> Placed(fp, wave, ready[m])
    {
      var y := ready[k];
      if !fp[y].complete {
        assert Placed(fp, wave, y);
        continue;
      }
      var conflict := ConflictsWithWave(fp, wave, y);
      if conflict {
        assert Placed(fp, wave, y);
        continue;
      }
      forall m | 0 <= m < k
        ensures Placed(fp, wave + [y], ready[m])
      {
        StaysPlaced(fp, wave, y, ready[m]);
      }
      JoinsWave(fp, wave, y);
      wave := wave + [y];
    }
    forall y | y in ready
      ensures Placed(fp, wave, y)
    {
      var m :| 0 <= m < |ready| && ready[m] == y;
    }
    if wave == [] {
      wave := [ready[0]];
      assert forall y :: y in ready ==> !fp[y].complete;
    }
  }

  /** The properties of a schedule of waves, over the operations done so far. */
  ghost predicate GoodWaves(g: Graph, fp: map<Id, Footprint>, waves: seq<seq<Id>>) {
    forall k :: 0 <= k < |waves| ==> GoodWave(g, fp, Elements(Flatten(waves[..k])), waves[k])
  }

  ghost predicate GoodWave(g: Graph, fp: map<Id, Footprint>, done: set<Id>, wave: seq<Id>) {
    && wave != []
    && (forall x :: x in wave ==> x in g && x !in done && x in fp && g[x] <= done)
    && (|wave| >= 2 ==> ConflictFree(fp, wave))
    && (forall y :: y in g && y in fp && y !in done && y !in wave && g[y] <= done ==> HeldBack(fp, wave, y))
  }

  lemma WavesExtend(g: Graph, fp: map<Id, Footprint>, waves: seq<seq<Id>>, wave: seq<Id>)
    requires GoodWaves(g, fp, waves) && GoodWave(g, fp, Elements(Flatten(waves)), wave)
    ensures GoodWaves(g, fp, waves + [wave])
  {
    var all := waves + [wave];
    forall k | 0 <= k < |all|
      ensures GoodWave(g, fp, Elements(Flatten(all[..k])), all[k])
    {
      if k < |waves| {
        assert all[..k] == waves[..k];
      } else {
        assert all[..k] == waves;
      }
    }
  }

  lemma PrefixExtend(g: Graph, fp: map<Id, Footprint>, waves: seq<seq<Id>>, done: set<Id>, wave: seq<Id>)
    requires OrderedPrefix(g, Flatten(waves), done) && GoodWave(g, fp, done, wave) && Distinct(wave)
    ensures OrderedPrefix(g, Flatten(waves + [wave]), done + Elements(wave))
  {
    FlattenAppend(waves, wave);
    assert forall x :: x in Flatten(waves) ==> x in Elements(Flatten(waves));
    AppendReady(g, Flatten(waves), wave);
  }

  /** The next wave, or nothing when the dependencies left cannot make progress. */
  method NextWave(g: Graph, fp: map<Id, Footprint>, pending: set<Id>, completed: set<Id>)
    returns (wave: Option<seq<Id>>)
    requires Closed(g) && fp.Keys == g.Keys && pending != {}
    requires completed == g.Keys - pending && pending <= g.Keys
    ensures wave == None ==> !Acyclic(g)
    ensures wave.Some? ==> Distinct(wave.value) && GoodWave(g, fp, completed, wave.value) && Elements(wave.value) <= pending
  {
    var ready := set x | x in pending && g[x] <= completed;
    assert forall x :: x in ready <==> x in g && x !in completed && g[x] <= completed;
    if ready == {} {
      StuckIsCyclic(g, completed);
      return None;
    }
    var m :| m in ready;
    assert m in Sorted(ready);
    var chosen := GreedyWave(fp, Sorted(ready));
    return Some(chosen);
  }

  /** Schedules the whole batch; it cannot make progress exactly when the batch is cyclic. The waves
      hold every operation once, after all its dependencies; a wave of two or more has complete,
      pairwise compatible footprints; whoever is left out of a wave is incomplete or conflicts. */
  method Waves(g: Graph, fp: map<Id, Footprint>) returns (waves: Option<seq<seq<Id>>>)
    requires Closed(g) && fp.Keys == g.Keys
    ensures waves == None <==> !Acyclic(g)
    ensures waves.Some? ==> GoodWaves(g, fp, waves.value) && Admissible(g, Flatten(waves.value))
    ensures waves.Some? ==> TopologicalOrders(g).Some? && Flatten(waves.value) in TopologicalOrders(g).value
  {
    var pending := g.Keys;
    var completed: set<Id> := {};
    var planned: seq<seq<Id>> := [];
    while pending != {}
      invariant completed == g.Keys - pending && pending <= g.Keys
      invariant OrderedPrefix(g, Flatten(planned), completed)
      invariant GoodWaves(g, fp, planned)
      decreases pending
    {
      var next := NextWave(g, fp, pending, completed);
      if next == None {
        return None;
      }
      var wave := next.value;
      assert wave[0] in Elements(wave);
      PrefixExtend(g, fp, planned, completed, wave);
      WavesExtend(g, fp, planned, wave);
      planned := planned + [wave];
      completed := completed + Elements(wave);
      pending := pending - Elements(wave);
    }
    OrderedIsAcyclic(g, Flatten(planned));
    TopologicalOrdersExact(g);
    return Some(planned);
  }
}
