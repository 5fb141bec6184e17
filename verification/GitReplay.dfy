/** Enumeration of the admissible orders of a batch, exhaustive replay of fixed patches, the verdict
    over the observed results, and the preparation plan drawn from it. */
module GitReplay {
  import opened Wrappers
  import opened DependencyGraphs
  import opened Lexicographic
  import opened Traces

  // ----- admissible orders -----

  function Without(xs: seq<Id>, i: nat): seq<Id>
    requires i < |xs|
  {
    xs[..i] + xs[i + 1..]
  }

  function Prefixed(x: Id, os: seq<Order>): seq<Order> {
    if os == [] then [] else [[x] + os[0]] + Prefixed(x, os[1..])
  }

  /** All permutations, in the order in which they are generated from `xs`. */
  function Permutations(xs: seq<Id>): seq<Order>
    decreases |xs|, |xs| + 1
  {
    if xs == [] then [[]] else PermutationsFrom(xs, 0)
  }

  /** The permutations whose first element stands at position `k` or later in `xs`. */
  function PermutationsFrom(xs: seq<Id>, k: nat): seq<Order>
    requires k <= |xs|
    decreases |xs|, |xs| - k
  {
    if k == |xs| then [] else Prefixed(xs[k], Permutations(Without(xs, k))) + PermutationsFrom(xs, k + 1)
  }

  lemma {:induction false} PrefixedExact(x: Id, os: seq<Order>)
    ensures forall o :: o in Prefixed(x, os) <==> o != [] && o[0] == x && o[1..] in os
    ensures Distinct(os) ==> Distinct(Prefixed(x, os))
  {
    if os != [] {
      PrefixedExact(x, os[1..]);
      forall o
        ensures o in Prefixed(x, os) <==> o != [] && o[0] == x && o[1..] in os
      {
        assert o in Prefixed(x, os) <==> o == [x] + os[0] || o in Prefixed(x, os[1..]);
        assert o != [] ==> o == [o[0]] + o[1..];
      }
      if Distinct(os) {
        assert ([x] + os[0])[1..] == os[0];
        assert os[0] !in os[1..];
        assert [x] + os[0] !in Prefixed(x, os[1..]);
      }
    }
  }

  lemma WithoutElements(xs: seq<Id>, i: nat)
    requires Distinct(xs) && i < |xs|
    ensures Distinct(Without(xs, i)) && Elements(Without(xs, i)) == Elements(xs) - {xs[i]}
  {
    forall x | x in xs && x != xs[i]
      ensures x in Without(xs, i)
    {
      var k :| 0 <= k < |xs| && xs[k] == x;
      assert Without(xs, i)[if k < i then k else k - 1] == x;
    }
  }

  ghost predicate Permutation(xs: seq<Id>, o: Order) {
    Distinct(o) && Elements(o) == Elements(xs)
  }

  lemma SplitPermutation(xs: seq<Id>, k: nat, o: Order)
    requires Distinct(xs) && k < |xs|
    ensures (o != [] && o[0] == xs[k] && Permutation(Without(xs, k), o[1..])) <==>
            (o != [] && o[0] == xs[k] && Permutation(xs, o))
  {
    WithoutElements(xs, k);
    if o != [] && o[0] == xs[k] {
      assert o == [o[0]] + o[1..];
      assert Elements(o) == {o[0]} + Elements(o[1..]);
      if Distinct(o) {
        assert o[0] !in o[1..];
        assert Elements(o[1..]) == Elements(o) - {o[0]};
      }
      if Permutation(Without(xs, k), o[1..]) {
        assert o[0] !in Elements(o[1..]);
        assert Distinct(o);
        assert xs[k] in Elements(xs);
      }
    }
  }

  lemma {:induction false} PermutationsExact(xs: seq<Id>)
    requires Distinct(xs)
    ensures forall o :: o in Permutations(xs) <==> Permutation(xs, o)
    ensures Distinct(Permutations(xs))
    decreases |xs|, |xs| + 1
  {
    if xs == [] {
      forall o
        ensures o in Permutations(xs) <==> Permutation(xs, o)
      {
        assert o != [] ==> o[0] in Elements(o);
      }
    } else {
      PermutationsFromExact(xs, 0);
      forall o
        ensures o in Permutations(xs) <==> Permutation(xs, o)
      {
        assert xs[0] in Elements(xs);
        if Permutation(xs, o) {
          if o != [] {
            assert o[0] in Elements(o);
            var i :| 0 <= i < |xs| && xs[i] == o[0];
          }
        }
      }
    }
  }

  lemma PermutationsStartingAt(xs: seq<Id>, k: nat)
    requires Distinct(xs) && k < |xs|
    ensures forall o :: o in Prefixed(xs[k], Permutations(Without(xs, k))) <==>
              Permutation(xs, o) && o != [] && o[0] == xs[k]
    ensures Distinct(Prefixed(xs[k], Permutations(Without(xs, k))))
    decreases |xs|, 0
  {
    var first := Prefixed(xs[k], Permutations(Without(xs, k)));
    WithoutElements(xs, k);
    PermutationsExact(Without(xs, k));
    PrefixedExact(xs[k], Permutations(Without(xs, k)));
    forall o
      ensures o in first <==> Permutation(xs, o) && o != [] && o[0] == xs[k]
    {
      SplitPermutation(xs, k, o);
    }
  }

  lemma {:induction false} PermutationsFromExact(xs: seq<Id>, k: nat)
    requires Distinct(xs) && k <= |xs|
    ensures forall o :: o in PermutationsFrom(xs, k) <==> Permutation(xs, o) && o != [] && o[0] in xs[k..]
    ensures Distinct(PermutationsFrom(xs, k))
    decreases |xs|, |xs| - k
  {
    if k < |xs| {
      PermutationsStartingAt(xs, k);
      PermutationsFromExact(xs, k + 1);
      assert xs[k..] == [xs[k]] + xs[k + 1..];
      assert xs[k] !in xs[k + 1..];
      DistinctAppendOrders(Prefixed(xs[k], Permutations(Without(xs, k))), PermutationsFrom(xs, k + 1));
    }
  }

  lemma DistinctAppendOrders(a: seq<Order>, b: seq<Order>)
    requires Distinct(a) && Distinct(b)
    requires forall x :: x in a ==> x !in b
    ensures Distinct(a + b)
  {
    DistinctAppend(a, b);
  }

  /** The first position of `x`. */
  function IndexOf(o: Order, x: Id): (i: nat)
    requires x in o
    ensures i < |o| && o[i] == x && x !in o[..i]
  {
    if o[0] == x then 0 else
      assert o == [o[0]] + o[1..];
      var k := IndexOf(o[1..], x);
      assert o[..k + 1] == [o[0]] + o[1..][..k];
      1 + k
  }

  predicate DependenciesFirst(g: Graph, o: Order)
    requires Closed(g) && forall x :: x in g ==> x in o
  {
    forall x, d | x in g && d in g[x] :: IndexOf(o, d) < IndexOf(o, x)
  }

  lemma DependenciesFirstIsRespects(g: Graph, o: Order)
    requires Closed(g) && Distinct(o) && Elements(o) == g.Keys
    ensures forall x :: x in g ==> x in o
    ensures DependenciesFirst(g, o) <==> Respects(g, o)
  {
    assert forall x :: x in g ==> x in Elements(o);
    if DependenciesFirst(g, o) {
      forall j | 0 <= j < |o|
        ensures g[o[j]] <= Elements(o[..j])
      {
        assert o[j] in Elements(o);
        assert IndexOf(o, o[j]) == j;
        forall d | d in g[o[j]]
          ensures d in o[..j]
        {
          var i := IndexOf(o, d);
          assert i < j && o[..j][i] == d;
        }
      }
    }
    if Respects(g, o) {
      forall x, d | x in g && d in g[x]
        ensures IndexOf(o, d) < IndexOf(o, x)
      {
        var j := IndexOf(o, x);
        assert d in Elements(o[..j]);
        var k :| 0 <= k < j && o[k] == d;
      }
    }
  }

  ghost predicate Arranges(g: Graph, o: Order) {
    Distinct(o) && Elements(o) == g.Keys
  }

  function Select(g: Graph, os: seq<Order>): seq<Order>
    requires Closed(g) && forall o :: o in os ==> Arranges(g, o)
  {
    if os == [] then [] else
      assert Arranges(g, os[0]);
      DependenciesFirstIsRespects(g, os[0]);
      (if DependenciesFirst(g, os[0]) then [os[0]] else []) + Select(g, os[1..])
  }

  lemma {:induction false} SelectExact(g: Graph, os: seq<Order>)
    requires Closed(g) && forall o :: o in os ==> Arranges(g, o)
    ensures forall o :: o in Select(g, os) <==> o in os && Admissible(g, o)
    ensures Distinct(os) ==> Distinct(Select(g, os))
  {
    if os != [] {
      assert os[0] in os;
      DependenciesFirstIsRespects(g, os[0]);
      SelectExact(g, os[1..]);
      assert os == [os[0]] + os[1..];
      if Distinct(os) {
        assert os[0] !in os[1..];
      }
    }
  }

  /** Every permutation of the batch that places dependencies first; a refusal when there is none. */
  function TopologicalOrders(g: Graph): Option<seq<Order>>
    requires Closed(g)
  {
    var ids := Sorted(g.Keys);
    SortedElements(g.Keys);
    PermutationsExact(ids);
    assert forall o :: Permutation(ids, o) ==> Arranges(g, o);
    var orders := Select(g, Permutations(ids));
    if orders == [] then None else Some(orders)
  }

  /** The enumeration lists exactly the admissible orders, each once, and is refused exactly for a
      batch in which some operation depends on itself. */
  lemma TopologicalOrdersExact(g: Graph)
    requires Closed(g)
    ensures TopologicalOrders(g) == None <==> !Acyclic(g)
    ensures TopologicalOrders(g).Some? ==>
              && Distinct(TopologicalOrders(g).value)
              && forall o :: o in TopologicalOrders(g).value <==> Admissible(g, o)
  {
    var ids := Sorted(g.Keys);
    SortedElements(g.Keys);
    PermutationsExact(ids);
    assert forall o :: Permutation(ids, o) ==> Arranges(g, o);
    var orders := Select(g, Permutations(ids));
    SelectExact(g, Permutations(ids));
    AcyclicIffOrdered(g);
    assert forall o :: Admissible(g, o) ==> Permutation(ids, o);
    assert orders != [] ==> orders[0] in orders;
    if Acyclic(g) {
      var o :| Admissible(g, o);
      assert o in orders;
    }
  }

  // ----- replay -----

  datatype StepRecord<T> = Applied(op: Id, input: T, output: T) | Rejected(op: Id, input: T)

  datatype Schedule<T> = Schedule(order: Order, complete: bool, steps: seq<StepRecord<T>>, finalTree: Option<T>)

  /** A schedule record is a true trace of its order: every step names the tree the steps before it
      produced, and the record ends at the first rejected patch or at the end of the order. */
  ghost predicate TrueTrace<T(!new)>(patches: map<Id, Step<T>>, base: T, sch: Schedule<T>)
    requires forall x :: x in sch.order ==> x in patches
  {
    && |sch.steps| <= |sch.order|
    && (forall k :: 0 <= k < |sch.steps| ==>
          && sch.steps[k].op == sch.order[k]
          && Run(patches, sch.order[..k], base) == Some(sch.steps[k].input)
          && patches[sch.order[k]](sch.steps[k].input) ==
               (match sch.steps[k] case Applied(_, _, output) => Some(output) case Rejected(_, _) => None)
          && (sch.steps[k].Rejected? ==> k + 1 == |sch.steps| && !sch.complete))
    && (sch.complete ==> |sch.steps| == |sch.order|)
    && (!sch.complete ==> sch.steps != [] && sch.steps[|sch.steps| - 1].Rejected?)
  }

  lemma {:induction false} RunExtend<T(!new)>(patches: map<Id, Step<T>>, o: Order, k: nat, s: T)
    requires (forall x :: x in o ==> x in patches) && k < |o|
    ensures Run(patches, o[..k + 1], s) == Then(Run(patches, o[..k], s), patches[o[k]])
  {
    assert o[..k + 1] == o[..k] + [o[k]];
    RunAppend(patches, o[..k], [o[k]], s);
    match Run(patches, o[..k], s) {
      case None =>
      case Some(t) =>
        match patches[o[k]](t) {
          case None =>
          case Some(u) => assert Run(patches, [o[k]][1..], u) == Some(u);
        }
    }
  }

  lemma {:induction false} RunStaysFailed<T(!new)>(patches: map<Id, Step<T>>, o: Order, k: nat, s: T)
    requires (forall x :: x in o ==> x in patches) && k <= |o|
    requires Run(patches, o[..k], s) == None
    ensures Run(patches, o, s) == None
  {
    assert o == o[..k] + o[k..];
    RunAppend(patches, o[..k], o[k..], s);
  }

  /** Replays one order from the base tree, stopping at the first rejected patch. */
  method ReplayOrder<T(!new)>(patches: map<Id, Step<T>>, order: Order, base: T) returns (sch: Schedule<T>)
    requires forall x :: x in order ==> x in patches
    ensures sch.order == order
    ensures sch.finalTree == Run(patches, order, base) && (sch.complete <==> sch.finalTree.Some?)
    ensures TrueTrace(patches, base, sch)
  {
    var steps: seq<StepRecord<T>> := [];
    var tree := base;
    for i := 0 to |order|
      invariant |steps| == i
      invariant Run(patches, order[..i], base) == Some(tree)
      invariant forall k :: 0 <= k < i ==>
        && steps[k].Applied? && steps[k].op == order[k]
        && Run(patches, order[..k], base) == Some(steps[k].input)
        && patches[order[k]](steps[k].input) == Some(steps[k].output)
    {
      RunExtend(patches, order, i, base);
      match patches[order[i]](tree) {
        case None =>
          RunStaysFailed(patches, order, i + 1, base);
          return Schedule(order, false, steps + [Rejected(order[i], tree)], None);
        case Some(after) =>
          steps := steps + [Applied(order[i], tree, after)];
          tree := after;
      }
    }
    assert order[..|order|] == order;
    return Schedule(order, true, steps, Some(tree));
  }

  /** There is only one true trace of an order that ends in the tree of its patches. */
  lemma TraceIsUnique<T(!new)>(patches: map<Id, Step<T>>, base: T, a: Schedule<T>, b: Schedule<T>)
    requires a.order == b.order && forall x :: x in a.order ==> x in patches
    requires TrueTrace(patches, base, a) && TrueTrace(patches, base, b)
    requires a.finalTree == b.finalTree && a.complete == b.complete
    ensures a == b
  {
    var n := if |a.steps| < |b.steps| then |a.steps| else |b.steps|;
    forall k | 0 <= k < n
      ensures a.steps[k] == b.steps[k]
    {
      assert Some(a.steps[k].input) == Some(b.steps[k].input);
    }
    assert a.steps == b.steps;
  }

  ghost predicate Observed<T(!new)>(patches: map<Id, Step<T>>, base: T, orders: seq<Order>, schedules: seq<Schedule<T>>)
    requires forall o, x :: o in orders && x in o ==> x in patches
  {
    && |schedules| == |orders|
    && forall i :: 0 <= i < |orders| ==>
         && schedules[i].order == orders[i]
         && schedules[i].finalTree == Run(patches, orders[i], base)
         && (schedules[i].complete <==> schedules[i].finalTree.Some?)
  }

  /** Replays every selected order in isolation. */
  method ReplayOrders<T(!new)>(patches: map<Id, Step<T>>, orders: seq<Order>, base: T)
    returns (schedules: seq<Schedule<T>>)
    requires forall o, x :: o in orders && x in o ==> x in patches
    ensures Observed(patches, base, orders, schedules)
    ensures forall sch :: sch in schedules ==>
              (forall x :: x in sch.order ==> x in patches) && TrueTrace(patches, base, sch)
  {
    schedules := [];
    for i := 0 to |orders|
      invariant |schedules| == i
      invariant Observed(patches, base, orders[..i], schedules)
      invariant forall sch :: sch in schedules ==>
                  (forall x :: x in sch.order ==> x in patches) && TrueTrace(patches, base, sch)
    {
      assert orders[i] in orders;
      var sch := ReplayOrder(patches, orders[i], base);
      schedules := schedules + [sch];
    }
    assert orders[..|orders|] == orders;
  }

  // ----- the verdict -----

  datatype Verdict = EquivalentObserved | Divergent | Inconclusive

  /** The verdict over the replayed schedules; there must be one at least. */
  function ResultOf<T(==)>(schedules: seq<Schedule<T>>): Option<Verdict> {
    if schedules == [] then None
    else if exists sch | sch in schedules :: sch.finalTree == None then Some(Inconclusive)
    else if |set sch | sch in schedules :: sch.finalTree| == 1 then Some(EquivalentObserved)
    else Some(Divergent)
  }

  lemma SingletonSet<T>(s: set<T>, x: T)
    requires x in s
    ensures |s| == 1 <==> forall y :: y in s ==> y == x
  {
    if |s| == 1 {
      assert |s - {x}| == 0;
      forall y | y in s
        ensures y == x
      {
        assert y in s - {x} <==> y != x;
      }
    }
    if forall y :: y in s ==> y == x {
      assert s == {x};
    }
  }

  /** `equivalent-observed` means one and the same tree for every replayed order. */
  lemma VerdictMeaning<T>(schedules: seq<Schedule<T>>)
    requires schedules != []
    ensures ResultOf(schedules) == Some(EquivalentObserved) <==>
              exists t :: forall sch :: sch in schedules ==> sch.finalTree == Some(t)
    ensures ResultOf(schedules) == Some(Inconclusive) <==> exists sch :: sch in schedules && sch.finalTree == None
  {
    var trees := set sch | sch in schedules :: sch.finalTree;
    var first := schedules[0];
    assert first in schedules && first.finalTree in trees;
    SingletonSet(trees, first.finalTree);
    if ResultOf(schedules) == Some(EquivalentObserved) {
      assert first.finalTree != None;
      assert forall sch :: sch in schedules ==> sch.finalTree in trees;
      assert forall sch :: sch in schedules ==> sch.finalTree == Some(first.finalTree.value);
    }
  }

  // ----- the preparation plan -----

  /** The longest dependency chain that starts at `x` has `n` operations. */
  ghost predicate LongestChain(g: Graph, x: Id, n: nat) {
    && (exists p :: IsChain(g, p) && p[0] == x && |p| == n)
    && (forall p :: IsChain(g, p) && p[0] == x ==> |p| <= n)
  }

  function Flatten(waves: seq<seq<Id>>): seq<Id> {
    if waves == [] then [] else Flatten(waves[..|waves| - 1]) + waves[|waves| - 1]
  }

  lemma FlattenAppend(waves: seq<seq<Id>>, w: seq<Id>)
    ensures Flatten(waves + [w]) == Flatten(waves) + w
  {
    assert (waves + [w])[..|waves|] == waves;
  }

  lemma {:induction false} ReadyHasLongestChain(g: Graph, done: set<Id>, x: Id, n: nat)
    requires Closed(g) && x in g && g[x] <= done <= g.Keys
    requires forall y :: y in done ==> forall p :: IsChain(g, p) && p[0] == y ==> |p| <= n
    requires exists p :: IsChain(g, p) && p[0] == x && |p| == n + 1
    ensures LongestChain(g, x, n + 1)
  {
    forall p | IsChain(g, p) && p[0] == x
      ensures |p| <= n + 1
    {
      if |p| > 1 {
        assert IsChain(g, p[1..]);
        assert p[0 + 1] in g[p[0]];
      }
    }
  }

  lemma LongerChain(g: Graph, x: Id, y: Id, n: nat)
    requires x in g && y in g[x]
    requires exists p :: IsChain(g, p) && p[0] == y && |p| == n
    ensures exists p :: IsChain(g, p) && p[0] == x && |p| == n + 1
  {
    var p :| IsChain(g, p) && p[0] == y && |p| == n;
    assert IsChain(g, [x] + p);
  }

  /** Waves planned so far: a planned operation sits in the wave of its longest chain, and every
      other operation starts a chain longer than the number of waves. */
  ghost predicate LayeredByChains(g: Graph, planned: seq<seq<Id>>, done: set<Id>) {
    && (forall k, x :: 0 <= k < |planned| && x in planned[k] ==> LongestChain(g, x, k + 1))
    && (forall x, p :: x in done && IsChain(g, p) && p[0] == x ==> |p| <= |planned|)
    && (forall x :: x in g && x !in done ==> StartsChain(g, x, |planned| + 1))
  }

  ghost predicate StartsChain(g: Graph, x: Id, n: nat) {
    exists p :: IsChain(g, p) && p[0] == x && |p| == n
  }

  ghost predicate OrderedPrefix(g: Graph, o: Order, done: set<Id>) {
    (forall x :: x in o ==> x in g) && Distinct(o) && Respects(g, o) && Elements(o) == done
  }

  lemma LayerStep(g: Graph, planned: seq<seq<Id>>, done: set<Id>, ready: set<Id>)
    requires Closed(g) && done <= g.Keys && LayeredByChains(g, planned, done)
    requires ready == set x | x in g && x !in done && g[x] <= done
    ensures LayeredByChains(g, planned + [Sorted(ready)], done + ready)
  {
    var n := |planned|;
    forall x | x in ready
      ensures LongestChain(g, x, n + 1)
    {
      assert StartsChain(g, x, n + 1);
      ReadyHasLongestChain(g, done, x, n);
    }
    forall x | x in g && x !in done + ready
      ensures StartsChain(g, x, n + 2)
    {
      var y :| y in g[x] && y !in done;
      assert StartsChain(g, y, n + 1);
      LongerChain(g, x, y, n + 1);
    }
    forall x, p | x in done + ready && IsChain(g, p) && p[0] == x
      ensures |p| <= n + 1
    {
      assert x in ready ==> LongestChain(g, x, n + 1);
    }
  }

  lemma PrefixStep(g: Graph, planned: seq<seq<Id>>, done: set<Id>, ready: set<Id>)
    requires OrderedPrefix(g, Flatten(planned), done)
    requires ready == set x | x in g && x !in done && g[x] <= done
    ensures OrderedPrefix(g, Flatten(planned + [Sorted(ready)]), done + ready)
  {
    SortedElements(ready);
    FlattenAppend(planned, Sorted(ready));
    assert forall x :: x in Flatten(planned) ==> x in Elements(Flatten(planned));
    AppendReady(g, Flatten(planned), Sorted(ready));
  }

  /** Preparation waves: refused exactly for a cyclic batch; otherwise the flattened waves are an
      admissible order and an operation's wave is the length of its longest dependency chain. */
  method PlanWaves(g: Graph) returns (waves: Option<seq<seq<Id>>>)
    requires Closed(g)
    ensures waves == None <==> !Acyclic(g)
    ensures waves.Some? ==> Admissible(g, Flatten(waves.value))
    ensures waves.Some? ==> forall k, x :: 0 <= k < |waves.value| && x in waves.value[k] ==> LongestChain(g, x, k + 1)
  {
    var done: set<Id> := {};
    var planned: seq<seq<Id>> := [];
    forall x | x in g
      ensures StartsChain(g, x, 1)
    {
      assert IsChain(g, [x]);
    }
    while done != g.Keys
      invariant done <= g.Keys
      invariant OrderedPrefix(g, Flatten(planned), done)
      invariant LayeredByChains(g, planned, done)
      decreases g.Keys - done
    {
      var ready := set x | x in g && x !in done && g[x] <= done;
      assert forall x :: x in ready <==> x in g && x !in done && g[x] <= done;
      if ready == {} {
        StuckIsCyclic(g, done);
        return None;
      }
      LayerStep(g, planned, done, ready);
      PrefixStep(g, planned, done, ready);
      planned := planned + [Sorted(ready)];
      done := done + ready;
    }
    OrderedIsAcyclic(g, Flatten(planned));
    return Some(planned);
  }

  datatype Mode = CandidatePreparationWaves | SerialFallback | ManualReview

  datatype Plan = Plan(mode: Mode, waves: seq<seq<Id>>, fallbackOrder: Option<Order>)

  datatype Bundle<T> = Bundle(g: Graph, eligible: map<Id, bool>, schedules: seq<Schedule<T>>, result: Verdict)

  ghost predicate Candidate<T>(bundle: Bundle<T>, verified: bool) {
    && verified
    && bundle.result == EquivalentObserved
    && (forall sch :: sch in bundle.schedules ==> sch.complete)
    && (forall x :: x in bundle.eligible ==> bundle.eligible[x])
  }

  /** Schedule `k` is the first one with the least order, and it was replayed to its end. */
  ghost predicate LeastIsComplete<T>(schedules: seq<Schedule<T>>, k: nat) {
    && k < |schedules| && schedules[k].complete
    && IsLexMin(set sch | sch in schedules :: sch.order, schedules[k].order)
    && forall m :: 0 <= m < k ==> schedules[m].order != schedules[k].order
  }

  /** The advisory plan: candidate waves only for verified, complete, equivalent and eligible
      evidence; otherwise the least admissible order if it was observed complete; else review. */
  method MakePlan<T(==)>(bundle: Bundle<T>, verified: bool) returns (plan: Option<Plan>)
    requires Closed(bundle.g)
    ensures plan == None <==> Candidate(bundle, verified) && !Acyclic(bundle.g)
    ensures plan.Some? ==> (plan.value.mode == CandidatePreparationWaves <==> Candidate(bundle, verified))
    ensures plan.Some? && plan.value.mode == CandidatePreparationWaves ==>
              && plan.value.fallbackOrder == Some(Flatten(plan.value.waves))
              && Admissible(bundle.g, Flatten(plan.value.waves))
              && forall k, x :: 0 <= k < |plan.value.waves| && x in plan.value.waves[k] ==> LongestChain(bundle.g, x, k + 1)
    ensures plan.Some? ==>
              (plan.value.mode == SerialFallback <==>
                !Candidate(bundle, verified) && verified && exists k: nat :: LeastIsComplete(bundle.schedules, k))
    ensures plan.Some? && plan.value.mode == SerialFallback ==>
              && plan.value.fallbackOrder.Some?
              && (exists k: nat :: LeastIsComplete(bundle.schedules, k)
                   && bundle.schedules[k].order == plan.value.fallbackOrder.value)
              && |plan.value.waves| == |plan.value.fallbackOrder.value|
              && forall k :: 0 <= k < |plan.value.waves| ==> plan.value.waves[k] == [plan.value.fallbackOrder.value[k]]
    ensures plan.Some? && plan.value.mode == ManualReview ==> plan.value.waves == [] && plan.value.fallbackOrder == None
  {
    var allEligible := forall x | x in bundle.eligible :: bundle.eligible[x];
    var allComplete := forall sch | sch in bundle.schedules :: sch.complete;
    if verified && bundle.result == EquivalentObserved && allComplete && allEligible {
      var waves := PlanWaves(bundle.g);
      if waves == None {
        return None;
      }
      return Some(Plan(CandidatePreparationWaves, waves.value, Some(Flatten(waves.value))));
    }
    if !verified || bundle.schedules == [] {
      return Some(Plan(ManualReview, [], None));
    }
    var orders := set i | 0 <= i < |bundle.schedules| :: bundle.schedules[i].order;
    assert orders == set sch | sch in bundle.schedules :: sch.order;
    assert bundle.schedules[0].order in orders;
    var least := LexMin(orders);
    var k := 0;
    while k < |bundle.schedules| && bundle.schedules[k].order != least
      invariant 0 <= k <= |bundle.schedules|
      invariant forall m :: 0 <= m < k ==> bundle.schedules[m].order != least
    {
      k := k + 1;
    }
    var canonical := bundle.schedules[k];
    OnlyLeast(bundle.schedules, least, k);
    if canonical.complete {
      return Some(Plan(SerialFallback, seq(|least|, i requires 0 <= i < |least| => [least[i]]), Some(least)));
    }
    return Some(Plan(ManualReview, [], None));
  }

  /** There is one least order and one first schedule with it, so that schedule alone decides. */
  lemma OnlyLeast<T>(schedules: seq<Schedule<T>>, least: Order, k: nat)
    requires IsLexMin(set sch | sch in schedules :: sch.order, least)
    requires k < |schedules| && schedules[k].order == least && forall m :: 0 <= m < k ==> schedules[m].order != least
    ensures (exists j: nat :: LeastIsComplete(schedules, j)) <==> schedules[k].complete
    ensures schedules[k].complete ==> LeastIsComplete(schedules, k)
  {
    if j: nat :| LeastIsComplete(schedules, j) {
      LexMinUnique(set sch | sch in schedules :: sch.order, least, schedules[j].order);
      assert j == k;
    }
    if schedules[k].complete {
      assert LeastIsComplete(schedules, k);
    }
  }
}
