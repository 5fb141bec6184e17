/** The partial-order experiment: independent pairs of fixed patches, the partition of the
    admissible orders into swap classes, and the agreement of a class on its outcome. */
module PartialOrder {
  import opened Wrappers
  import opened DependencyGraphs
  import opened Lexicographic
  import opened Traces
  import opened Footprints
  import opened GitReplay
  import opened Paths

  // ----- independent pairs -----

  /** What has been found depends on nothing outside what is found or still pending. */
  ghost predicate Worklist(g: Graph, id: Id, found: set<Id>, pending: seq<Id>) {
    && id in g
    && (forall y :: y in pending || y in found ==> y in g && Depends(g, id, y))
    && (forall y :: y in g[id] ==> y in found || y in pending)
    && (forall x, y :: x in found && x in g && y in g[x] ==> y in found || y in pending)
  }

  lemma WorklistStep(g: Graph, id: Id, found: set<Id>, pending: seq<Id>)
    requires Closed(g) && Worklist(g, id, found, pending) && pending != []
    ensures var n := |pending| - 1;
            pending[n] in g &&
            Worklist(g, id, found + {pending[n]},
                     if pending[n] in found then pending[..n] else pending[..n] + Sorted(g[pending[n]]))
  {
    var n := |pending| - 1;
    var current := pending[n];
    assert current in pending && pending == pending[..n] + [current];
    forall y | y in g[current]
      ensures Depends(g, id, y)
    {
      DependsDirect(g, current, y);
      DependsTransitive(g, id, current, y);
    }
    var more := Sorted(g[current]);
    assert forall y :: y in pending[..n] + more <==> y in pending[..n] || y in g[current];
    assert forall y :: y in pending <==> y in pending[..n] || y == current;
  }

  /** Everything `id` transitively depends on, found with a worklist. */
  method Prerequisites(id: Id, g: Graph) returns (found: set<Id>)
    requires Closed(g) && id in g
    ensures found == set y | y in g && Depends(g, id, y)
  {
    found := {};
    var pending := Sorted(g[id]);
    forall y | y in g[id]
      ensures Depends(g, id, y)
    {
      DependsDirect(g, id, y);
    }
    while pending != []
      invariant Worklist(g, id, found, pending)
      decreases g.Keys - found, |pending|
    {
      var n := |pending| - 1;
      var current := pending[n];
      WorklistStep(g, id, found, pending);
      pending := pending[..n];
      if current !in found {
        found := found + {current};
        pending := pending + Sorted(g[current]);
      } else {
        assert found + {current} == found;
      }
    }
    forall y | Depends(g, id, y)
      ensures y in found
    {
      FoundCoversDependencies(g, id, found, y);
    }
  }

  lemma FoundCoversDependencies(g: Graph, id: Id, found: set<Id>, y: Id)
    requires Closed(g) && id in g && g[id] <= found <= g.Keys
    requires forall x :: x in found ==> g[x] <= found
    requires Depends(g, id, y)
    ensures y in found
  {
    var p :| IsChain(g, p) && |p| >= 2 && p[0] == id && p[|p| - 1] == y;
    FoundCoversChain(g, found, p);
  }

  lemma {:induction false} FoundCoversChain(g: Graph, found: set<Id>, p: seq<Id>)
    requires forall x :: x in found ==> x in g && g[x] <= found
    requires IsChain(g, p) && |p| >= 2 && g[p[0]] <= found
    ensures p[|p| - 1] in found
    decreases |p|
  {
    assert p[0 + 1] in g[p[0]];
    if |p| > 2 {
      assert IsChain(g, p[1..]);
      FoundCoversChain(g, found, p[1..]);
    }
  }

  /** What the provenance of one operation shows: whether its patch is of a supported kind, and the
      paths it changes. */
  datatype Observation = Observation(supported: bool, paths: set<string>)

  ghost predicate Incomparable(g: Graph, a: Id, b: Id) {
    !Depends(g, a, b) && !Depends(g, b, a)
  }

  /** Conservative independence: supported, not ordered by dependencies, and no path of one is or lies under a path of
      the other. */
  ghost predicate MayCommute(g: Graph, seen: map<Id, Observation>, l: Id, r: Id)
    requires l in seen && r in seen
  {
    && seen[l].supported && seen[r].supported
    && Incomparable(g, l, r)
    && !Meet(seen[l].paths, seen[r].paths)
  }

  ghost predicate IsIndependence(g: Graph, seen: map<Id, Observation>, ind: Pairs)
    requires seen.Keys == g.Keys
  {
    && (forall p :: p in ind ==> p.0 in g && p.1 in g && p.0 < p.1)
    && (forall l, r :: l in g && r in g && l < r ==> ((l, r) in ind <==> MayCommute(g, seen, l, r)))
  }

  method AllPrerequisites(g: Graph, ids: seq<Id>) returns (up: map<Id, set<Id>>)
    requires Closed(g) && Elements(ids) == g.Keys
    ensures up == AncestorTable(g)
  {
    up := map[];
    for i := 0 to |ids|
      invariant up.Keys == Elements(ids[..i])
      invariant forall x :: x in up ==> x in g && up[x] == AncestorTable(g)[x]
    {
      assert ids[i] in Elements(ids);
      var found := Prerequisites(ids[i], g);
      up := up[ids[i] := found];
    }
    assert ids[..|ids|] == ids;
  }

  ghost predicate Decided(g: Graph, seen: map<Id, Observation>, done: seq<(Id, Id)>, pairs: Pairs)
    requires seen.Keys == g.Keys
  {
    && (forall p :: p in pairs ==> p in done)
    && (forall p :: p in done ==> p.0 in g && p.1 in g && (p in pairs <==> MayCommute(g, seen, p.0, p.1)))
  }

  lemma DecideNext(g: Graph, seen: map<Id, Observation>, done: seq<(Id, Id)>, pairs: Pairs, p: (Id, Id), ok: bool)
    requires seen.Keys == g.Keys && Decided(g, seen, done, pairs) && p !in done
    requires p.0 in g && p.1 in g && (ok <==> MayCommute(g, seen, p.0, p.1))
    ensures Decided(g, seen, done + [p], if ok then pairs + {p} else pairs)
  {
  }

  lemma TakeOneMore<T>(s: seq<T>, k: nat)
    requires k < |s|
    ensures s[..k + 1] == s[..k] + [s[k]]
  {
  }

  method DecidePairs(g: Graph, seen: map<Id, Observation>, up: map<Id, set<Id>>, all: seq<(Id, Id)>)
    returns (pairs: Pairs)
    requires seen.Keys == g.Keys && up == AncestorTable(g) && Distinct(all)
    requires forall p :: p in all ==> p.0 in g && p.1 in g
    ensures Decided(g, seen, all, pairs)
  {
    pairs := {};
    for k := 0 to |all|
      invariant Decided(g, seen, all[..k], pairs)
    {
      assert all[k] in all;
      var excluded := Excluded(g, seen, up, all[k].0, all[k].1);
      DistinctPrefix(all, k);
      DecideNext(g, seen, all[..k], pairs, all[k], !excluded);
      TakeOneMore(all, k);
      if !excluded {
        pairs := pairs + {all[k]};
      }
    }
    assert all[..|all|] == all;
  }

  /** Exactly the pairs that the conservative rule lets commute. */
  method IndependentPairs(g: Graph, seen: map<Id, Observation>) returns (pairs: Pairs)
    requires Closed(g) && seen.Keys == g.Keys
    ensures IsIndependence(g, seen, pairs)
  {
    var ids := Sorted(g.Keys);
    SortedElements(g.Keys);
    CombinationsExact(ids);
    var up := AllPrerequisites(g, ids);
    pairs := DecidePairs(g, seen, up, Combinations(ids));
    DecidedAll(g, seen, ids, pairs);
  }

  method Excluded(g: Graph, seen: map<Id, Observation>, up: map<Id, set<Id>>, left: Id, right: Id)
    returns (excluded: bool)
    requires seen.Keys == g.Keys && up == AncestorTable(g) && left in g && right in g
    ensures excluded <==> !MayCommute(g, seen, left, right)
  {
    if !seen[left].supported || !seen[right].supported {
      return true;
    }
    if left in up[right] || right in up[left] {
      return true;
    }
    return PathsOverlap(seen[left].paths, seen[right].paths);
  }

  lemma DecidedAll(g: Graph, seen: map<Id, Observation>, ids: seq<Id>, pairs: Pairs)
    requires seen.Keys == g.Keys && Elements(ids) == g.Keys && Increasing(ids)
    requires Decided(g, seen, Combinations(ids), pairs)
    ensures IsIndependence(g, seen, pairs)
  {
    CombinationsExact(ids);
    forall l, r | l in g && r in g && l < r
      ensures (l, r) in pairs <==> MayCommute(g, seen, l, r)
    {
      assert l in Elements(ids) && r in Elements(ids);
      assert (l, r) in Combinations(ids);
    }
  }

  lemma DistinctPrefix<T>(s: seq<T>, k: nat)
    requires Distinct(s) && k < |s|
    ensures s[k] !in s[..k]
  {
  }

  // ----- swap classes -----

  datatype Class = Class(representative: Order, orders: set<Order>)

  ghost predicate SwapClosed(ind: Pairs, orders: set<Order>) {
    forall o, o' :: o in orders && AdjacentSwap(ind, o, o') ==> o' in orders
  }

  lemma {:induction false} ClosedHoldsPath(ind: Pairs, orders: set<Order>, path: seq<Order>)
    requires SwapClosed(ind, orders) && SwapPath(ind, path) && path[0] in orders
    ensures path[|path| - 1] in orders
    decreases |path|
  {
    if |path| > 1 {
      assert AdjacentSwap(ind, path[0], path[0 + 1]);
      assert SwapPath(ind, path[1..]);
      ClosedHoldsPath(ind, orders, path[1..]);
    }
  }

  lemma ClosedHoldsConnected(ind: Pairs, orders: set<Order>, o: Order, o': Order)
    requires SwapClosed(ind, orders) && o in orders && Connected(ind, o, o')
    ensures o' in orders
  {
    var p :| SwapPath(ind, p) && p[0] == o && p[|p| - 1] == o';
    ClosedHoldsPath(ind, orders, p);
  }

  /** The search from `start` inside `all`: visited orders are reachable, and their neighbours are
      visited or pending. */
  ghost predicate Search(ind: Pairs, all: set<Order>, start: Order, unseen: set<Order>,
                         component: set<Order>, pending: seq<Order>)
  {
    && component + unseen == all && component !! unseen
    && (start in component || start in pending)
    && (forall o :: o in pending ==> o in all && Connected(ind, start, o))
    && (forall o :: o in component ==> Connected(ind, start, o))
    && (forall o, o' :: o in component && AdjacentSwap(ind, o, o') ==> o' in component || o' in pending)
  }

  /** Orders reached by one swap that are still unseen, in position order. */
  method Neighbours(ind: Pairs, orders: set<Order>, unseen: set<Order>, order: Order)
    returns (next: seq<Order>)
    ensures forall o :: o in next ==> o in unseen && AdjacentSwap(ind, order, o)
    ensures forall o :: AdjacentSwap(ind, order, o) && o in orders && o in unseen ==> o in next
  {
    next := [];
    for index := 0 to if order == [] then 0 else |order| - 1
      invariant forall o :: o in next ==> o in unseen && AdjacentSwap(ind, order, o)
      invariant forall i: nat :: i < index && i + 1 < |order| ==>
        (Independent(ind, order[i], order[i + 1]) && SwapAt(order, i) in orders * unseen ==> SwapAt(order, i) in next)
    {
      if !Independent(ind, order[index], order[index + 1]) {
        continue;
      }
      var neighbour := order[index := order[index + 1]][index + 1 := order[index]];
      assert neighbour == SwapAt(order, index);
      if neighbour in orders && neighbour in unseen {
        next := next + [neighbour];
      }
    }
  }

  lemma SearchStep(ind: Pairs, orders: set<Order>, all: set<Order>, start: Order, unseen: set<Order>,
                   component: set<Order>, pending: seq<Order>, order: Order, next: seq<Order>)
    requires SwapClosed(ind, all) && all <= orders && order in unseen
    requires Search(ind, all, start, unseen, component, pending + [order])
    requires forall o :: o in next ==> o in unseen - {order} && AdjacentSwap(ind, order, o)
    requires forall o :: AdjacentSwap(ind, order, o) && o in orders && o in unseen - {order} ==> o in next
    ensures Search(ind, all, start, unseen - {order}, component + {order}, pending + next)
  {
    assert forall o :: o in pending + [order] <==> o in pending || o == order;
    assert forall o :: o in pending + next <==> o in pending || o in next;
    forall o | o in next
      ensures Connected(ind, start, o)
    {
      ConnectedStep(ind, order, o);
      ConnectedTransitive(ind, start, order, o);
    }
    forall o, o' | o in component + {order} && AdjacentSwap(ind, o, o')
      ensures o' in component + {order} || o' in pending + next
    {
      if o == order {
        assert o' in all;
      }
    }
  }

  /** The connected component of `start` among the unseen orders. */
  method Component(ind: Pairs, orders: set<Order>, all: set<Order>, start: Order)
    returns (unseen: set<Order>, component: set<Order>)
    requires SwapClosed(ind, all) && all <= orders && start in all
    ensures component == ConnectedTo(ind, all, start)
    ensures unseen == all - component && SwapClosed(ind, unseen) && start in component
  {
    unseen, component := all, {};
    var pending := [start];
    ConnectedReflexive(ind, start);
    while pending != []
      invariant Search(ind, all, start, unseen, component, pending)
      decreases unseen, |pending|
    {
      var order := pending[|pending| - 1];
      ghost var before := pending;
      pending := pending[..|pending| - 1];
      assert before == pending + [order];
      if order !in unseen {
        continue;
      }
      ghost var was := unseen;
      unseen := unseen - {order};
      var next := Neighbours(ind, orders, unseen, order);
      SearchStep(ind, orders, all, start, was, component, pending, order, next);
      component := component + {order};
      pending := pending + next;
    }
    ComponentIsExact(ind, all, start, unseen, component);
  }

  lemma ComponentIsExact(ind: Pairs, all: set<Order>, start: Order, unseen: set<Order>, component: set<Order>)
    requires Search(ind, all, start, unseen, component, []) && SwapClosed(ind, all)
    ensures component == ConnectedTo(ind, all, start)
    ensures unseen == all - component && SwapClosed(ind, unseen) && start in component
  {
    assert SwapClosed(ind, component);
    forall o | o in all && Connected(ind, start, o)
      ensures o in component
    {
      ClosedHoldsConnected(ind, component, start, o);
    }
    forall o, o' | o in unseen && AdjacentSwap(ind, o, o')
      ensures o' in unseen
    {
      if o' in component {
        SwapBack(ind, o, o');
      }
    }
  }

  ghost function ConnectedTo(ind: Pairs, orders: set<Order>, o: Order): set<Order> {
    set o' | o' in orders && Connected(ind, o, o')
  }

  ghost predicate IsClass(ind: Pairs, orders: set<Order>, c: Class) {
    IsLexMin(c.orders, c.representative) && c.orders == ConnectedTo(ind, orders, c.representative)
  }

  ghost predicate Apart(c: Class, c': Class) {
    c.orders !! c'.orders && LexLeq(c.representative, c'.representative)
  }

  ghost predicate Covered(classes: seq<Class>, o: Order) {
    exists c :: c in classes && o in c.orders
  }

  ghost predicate PairwiseApart(classes: seq<Class>) {
    forall i, j :: 0 <= i < j < |classes| ==> Apart(classes[i], classes[j])
  }

  /** The classes are the connected components of the orders, each with its least order, listed by
      increasing representative. */
  ghost predicate IsPartition(ind: Pairs, orders: set<Order>, classes: seq<Class>) {
    && (forall c :: c in classes ==> IsClass(ind, orders, c))
    && (forall o :: o in orders ==> Covered(classes, o))
    && PairwiseApart(classes)
  }

  /** A finished class is complete and comes before everything that is still unseen. */
  ghost predicate Finished(ind: Pairs, orders: set<Order>, unseen: set<Order>, c: Class) {
    && IsClass(ind, orders, c)
    && c.orders !! unseen
    && (forall o :: o in unseen ==> LexLeq(c.representative, o))
  }

  ghost predicate PartitionSoFar(ind: Pairs, orders: set<Order>, classes: seq<Class>, unseen: set<Order>) {
    && unseen <= orders && SwapClosed(ind, unseen)
    && (forall c :: c in classes ==> Finished(ind, orders, unseen, c))
    && (forall o :: o in orders && o !in unseen ==> Covered(classes, o))
    && PairwiseApart(classes)
  }

  lemma WholeClass(ind: Pairs, orders: set<Order>, unseen: set<Order>, start: Order)
    requires unseen <= orders && SwapClosed(ind, unseen) && IsLexMin(unseen, start)
    ensures ConnectedTo(ind, unseen, start) == ConnectedTo(ind, orders, start)
    ensures start in ConnectedTo(ind, unseen, start)
    ensures IsClass(ind, orders, Class(start, ConnectedTo(ind, unseen, start)))
  {
    ConnectedReflexive(ind, start);
    forall o | o in orders && Connected(ind, start, o)
      ensures o in unseen
    {
      ClosedHoldsConnected(ind, unseen, start, o);
    }
  }

  lemma FinishedShrinks(ind: Pairs, orders: set<Order>, unseen: set<Order>, rest: set<Order>, c: Class)
    requires Finished(ind, orders, unseen, c) && rest <= unseen
    ensures Finished(ind, orders, rest, c)
  {
  }

  lemma FinishedApart(ind: Pairs, orders: set<Order>, unseen: set<Order>, c: Class, c': Class)
    requires Finished(ind, orders, unseen, c) && c'.orders <= unseen && c'.representative in unseen
    ensures Apart(c, c')
  {
  }

  lemma AppendApart(classes: seq<Class>, c: Class)
    requires PairwiseApart(classes)
    requires forall i :: 0 <= i < |classes| ==> Apart(classes[i], c)
    ensures PairwiseApart(classes + [c])
  {
  }

  lemma AppendCovers(classes: seq<Class>, c: Class, o: Order)
    requires Covered(classes, o) || o in c.orders
    ensures Covered(classes + [c], o)
  {
    if Covered(classes, o) {
      var d :| d in classes && o in d.orders;
      assert d in classes + [c];
    } else {
      assert c in classes + [c];
    }
  }

  lemma NextClass(ind: Pairs, orders: set<Order>, classes: seq<Class>, unseen: set<Order>, start: Order)
    requires PartitionSoFar(ind, orders, classes, unseen) && IsLexMin(unseen, start)
    requires SwapClosed(ind, unseen - ConnectedTo(ind, unseen, start))
    ensures var component := ConnectedTo(ind, unseen, start);
            && IsLexMin(component, start)
            && PartitionSoFar(ind, orders, classes + [Class(start, component)], unseen - component)
  {
    WholeClass(ind, orders, unseen, start);
    var component := ConnectedTo(ind, unseen, start);
    var c' := Class(start, component);
    var rest := unseen - component;
    forall i | 0 <= i < |classes|
      ensures Apart(classes[i], c')
    {
      assert classes[i] in classes;
      FinishedApart(ind, orders, unseen, classes[i], c');
    }
    AppendApart(classes, c');
    forall c | c in classes + [c']
      ensures Finished(ind, orders, rest, c)
    {
      if c in classes {
        FinishedShrinks(ind, orders, unseen, rest, c);
      }
    }
    forall o | o in orders && o !in rest
      ensures Covered(classes + [c'], o)
    {
      AppendCovers(classes, c', o);
    }
  }

  /** Groups the orders into classes. Every round starts from the least order left, so the classes
      come out in the order in which the final sort would put them. */
  method Classes(ind: Pairs, orders: set<Order>) returns (classes: seq<Class>)
    requires SwapClosed(ind, orders)
    ensures IsPartition(ind, orders, classes)
  {
    classes := [];
    var unseen := orders;
    while unseen != {}
      invariant PartitionSoFar(ind, orders, classes, unseen)
      decreases unseen
    {
      var start := LexMin(unseen);
      var rest, component := Component(ind, orders, unseen, start);
      NextClass(ind, orders, classes, unseen, start);
      var representative := LexMin(component);
      LexMinUnique(component, start, representative);
      classes := classes + [Class(representative, component)];
      unseen := rest;
    }
  }

  /** Pairs of an independence relation are not ordered by dependencies. */
  ghost predicate RespectsGraph(g: Graph, ind: Pairs) {
    forall a, b :: a in g && b in g && Independent(ind, a, b) ==> Incomparable(g, a, b)
  }

  lemma IndependenceRespectsGraph(g: Graph, seen: map<Id, Observation>, ind: Pairs)
    requires seen.Keys == g.Keys && IsIndependence(g, seen, ind)
    ensures RespectsGraph(g, ind)
  {
    forall a, b | a in g && b in g && Independent(ind, a, b)
      ensures Incomparable(g, a, b)
    {
      var p := SortedPair(a, b);
      assert p.0 < p.1;
      assert MayCommute(g, seen, p.0, p.1);
    }
  }

  lemma PrefixElements(o: Order, i: nat, j: nat)
    requires i + 1 < |o| && j <= |o| && j != i + 1
    ensures Elements(SwapAt(o, i)[..j]) == Elements(o[..j])
  {
    var o' := SwapAt(o, i);
    if j <= i {
      assert o'[..j] == o[..j];
    } else {
      assert o'[..j] == SwapAt(o[..j], i);
      SwapKeepsElements(o[..j], i);
    }
  }

  /** Swapping adjacent independent operations keeps a serial order admissible. */
  lemma SwapKeepsAdmissible(g: Graph, ind: Pairs, o: Order, o': Order)
    requires Closed(g) && RespectsGraph(g, ind)
    requires Admissible(g, o) && AdjacentSwap(ind, o, o')
    ensures Admissible(g, o')
  {
    var i: nat :| i + 1 < |o| && Independent(ind, o[i], o[i + 1]) && o' == SwapAt(o, i);
    SwapKeepsElements(o, i);
    assert o[i] in Elements(o) && o[i + 1] in Elements(o);
    assert forall x :: x in o' ==> x in Elements(o');
    if o[i] in g[o[i + 1]] {
      DependsDirect(g, o[i + 1], o[i]);
    }
    forall j | 0 <= j < |o'|
      ensures g[o'[j]] <= Elements(o'[..j])
    {
      PlacedAfterSwap(g, o, i, j);
    }
  }

  /** After the swap every operation still follows its dependencies. */
  lemma PlacedAfterSwap(g: Graph, o: Order, i: nat, j: nat)
    requires (forall x :: x in o ==> x in g) && Respects(g, o)
    requires i + 1 < |o| && j < |o| && o[i] !in g[o[i + 1]]
    ensures g[SwapAt(o, i)[j]] <= Elements(SwapAt(o, i)[..j])
  {
    var o' := SwapAt(o, i);
    if j == i {
      assert g[o[i + 1]] <= Elements(o[..i + 1]);
      assert o[..i + 1] == o[..i] + [o[i]];
      assert o'[..i] == o[..i];
    } else if j == i + 1 {
      assert g[o[i]] <= Elements(o[..i]);
      assert o'[..i + 1] == o[..i] + [o[i + 1]];
    } else {
      assert g[o[j]] <= Elements(o[..j]);
      PrefixElements(o, i, j);
    }
  }

  datatype Partition = Partition(classes: seq<Class>, independentPairs: Pairs, orderCount: nat)

  function Representatives(classes: seq<Class>): seq<Order> {
    seq(|classes|, i requires 0 <= i < |classes| => classes[i].representative)
  }

  ghost predicate SameClass(classes: seq<Class>, o: Order, o': Order) {
    exists c :: c in classes && o in c.orders && o' in c.orders
  }

  /** Partitions the admissible orders; refused exactly for a cyclic batch. Two orders share a class
      exactly when they order every pair that is not independent the same way. */
  method PartitionOrders(g: Graph, seen: map<Id, Observation>) returns (p: Option<Partition>)
    requires Closed(g) && seen.Keys == g.Keys
    ensures p == None <==> !Acyclic(g)
    ensures p.Some? ==>
              && IsIndependence(g, seen, p.value.independentPairs)
              && TopologicalOrders(g).Some?
              && IsPartition(p.value.independentPairs, Elements(TopologicalOrders(g).value), p.value.classes)
              && p.value.orderCount == |TopologicalOrders(g).value|
    ensures p.Some? ==> forall o, o' :: Admissible(g, o) && Admissible(g, o') ==>
              (SameClass(p.value.classes, o, o') <==> SameDependentOrder(p.value.independentPairs, o, o'))
  {
    var listed := TopologicalOrders(g);
    TopologicalOrdersExact(g);
    if listed == None {
      return None;
    }
    var orders := Elements(listed.value);
    var ind := IndependentPairs(g, seen);
    IndependenceRespectsGraph(g, seen, ind);
    forall o, o' | o in orders && AdjacentSwap(ind, o, o')
      ensures o' in orders
    {
      SwapKeepsAdmissible(g, ind, o, o');
    }
    var classes := Classes(ind, orders);
    forall o, o' | Admissible(g, o) && Admissible(g, o')
      ensures SameClass(classes, o, o') <==> SameDependentOrder(ind, o, o')
    {
      SameClassMeaning(g, ind, orders, classes, o, o');
    }
    DistinctLength(listed.value);
    return Some(Partition(classes, ind, |orders|));
  }

  lemma SameClassMeaning(g: Graph, ind: Pairs, orders: set<Order>, classes: seq<Class>, o: Order, o': Order)
    requires IsPartition(ind, orders, classes) && o in orders && o' in orders
    requires Admissible(g, o) && Admissible(g, o')
    ensures SameClass(classes, o, o') <==> SameDependentOrder(ind, o, o')
  {
    SameClassIsConnected(ind, orders, classes, o, o');
    ConnectedIffSameDependentOrder(ind, o, o');
  }

  lemma SameClassIsConnected(ind: Pairs, orders: set<Order>, classes: seq<Class>, o: Order, o': Order)
    requires IsPartition(ind, orders, classes) && o in orders && o' in orders
    ensures SameClass(classes, o, o') <==> Connected(ind, o, o')
  {
    assert Covered(classes, o);
    var c :| c in classes && o in c.orders;
    assert IsClass(ind, orders, c);
    ConnectedSymmetric(ind, c.representative, o);
    if SameClass(classes, o, o') {
      var d :| d in classes && o in d.orders && o' in d.orders;
      assert IsClass(ind, orders, d);
      ConnectedSymmetric(ind, d.representative, o);
      ConnectedTransitive(ind, o, d.representative, o');
    }
    if Connected(ind, o, o') {
      ConnectedTransitive(ind, c.representative, o, o');
      assert o' in c.orders;
    }
  }

  lemma AllIndependentConnects(g: Graph, ind: Pairs, o: Order, o': Order)
    requires Admissible(g, o) && Admissible(g, o')
    requires forall a, b :: a in g && b in g && a != b && Incomparable(g, a, b) ==> Independent(ind, a, b)
    ensures Connected(ind, o, o')
  {
    forall a, b | a != b && !Independent(ind, a, b)
      ensures Before(o, a, b) <==> Before(o', a, b)
    {
      if Before(o, a, b) {
        InGraph(g, o, a, b);
        OrderedPairKept(g, o, o', a, b);
      }
      if Before(o', a, b) {
        InGraph(g, o', a, b);
        OrderedPairKept(g, o', o, a, b);
      }
    }
    ConnectedIffSameDependentOrder(ind, o, o');
  }

  ghost predicate AllConnected(ind: Pairs, orders: set<Order>) {
    forall o, o' :: o in orders && o' in orders ==> Connected(ind, o, o')
  }

  lemma ClassIsEverything(ind: Pairs, orders: set<Order>, c: Class)
    requires IsClass(ind, orders, c) && AllConnected(ind, orders)
    ensures c.orders == orders
  {
    assert c.representative in orders;
  }

  lemma AllConnectedMeansOneClass(ind: Pairs, orders: set<Order>, classes: seq<Class>, o: Order)
    requires IsPartition(ind, orders, classes) && o in orders && AllConnected(ind, orders)
    ensures |classes| == 1 && classes[0].orders == orders
  {
    assert Covered(classes, o);
    var c :| c in classes && o in c.orders;
    assert classes[0] in classes;
    ClassIsEverything(ind, orders, classes[0]);
    if |classes| > 1 {
      assert classes[1] in classes;
      assert Apart(classes[0], classes[1]);
      ClassIsEverything(ind, orders, classes[1]);
    }
  }

  /** When every pair not ordered by dependencies is independent, one replay stands for all orders. */
  lemma AllIndependentMeansOneClass(g: Graph, ind: Pairs, orders: set<Order>, classes: seq<Class>)
    requires IsPartition(ind, orders, classes) && orders != {}
    requires forall o :: o in orders ==> Admissible(g, o)
    requires forall a, b :: a in g && b in g && a != b && Incomparable(g, a, b) ==> Independent(ind, a, b)
    ensures |classes| == 1 && classes[0].orders == orders
  {
    forall o, o' | o in orders && o' in orders
      ensures Connected(ind, o, o')
    {
      AllIndependentConnects(g, ind, o, o');
    }
    var o :| o in orders;
    AllConnectedMeansOneClass(ind, orders, classes, o);
  }

  lemma InGraph(g: Graph, o: Order, a: Id, b: Id)
    requires Admissible(g, o) && Before(o, a, b)
    ensures a in g && b in g
  {
    assert forall x :: x in o ==> x in Elements(o);
  }

  // ----- outcomes of a class -----

  /** Agreement on status and final tree inside every class. */
  ghost predicate Agreeing<T>(classes: seq<Class>, outcomes: map<Order, Option<T>>)
    requires forall c, o :: c in classes && o in c.orders ==> o in outcomes
  {
    forall c, o, o' :: c in classes && o in c.orders && o' in c.orders ==> outcomes[o] == outcomes[o']
  }

  method ClassesAgree<T(==)>(classes: seq<Class>, outcomes: map<Order, Option<T>>) returns (agree: bool)
    requires forall c, o :: c in classes && o in c.orders ==> o in outcomes
    requires forall c :: c in classes ==> c.orders != {}
    ensures agree <==> Agreeing(classes, outcomes)
  {
    for k := 0 to |classes|
      invariant forall c, o, o' :: c in classes[..k] && o in c.orders && o' in c.orders ==> outcomes[o] == outcomes[o']
    {
      var c := classes[k];
      assert c in classes;
      var signatures := set o | o in c.orders :: outcomes[o];
      var o :| o in c.orders;
      SingletonSet(signatures, outcomes[o]);
      if |signatures| != 1 {
        assert exists o' :: o' in c.orders && outcomes[o'] != outcomes[o];
        return false;
      }
      assert classes[..k + 1] == classes[..k] + [c];
      assert forall o' :: o' in c.orders ==> outcomes[o'] in signatures;
    }
    assert classes[..|classes|] == classes;
    return true;
  }

  ghost predicate Replayed<T(!new)>(patches: map<Id, Step<T>>, base: T, orders: set<Order>, outcomes: map<Order, Option<T>>)
    requires forall o, x :: o in orders && x in o ==> x in patches
  {
    outcomes.Keys == orders && forall o :: o in orders ==> outcomes[o] == Run(patches, o, base)
  }

  /** If the patches of independent pairs commute as partial functions, no class can disagree. */
  lemma CommutingClassesAgree<T(!new)>(
      patches: map<Id, Step<T>>, base: T, ind: Pairs, orders: set<Order>, classes: seq<Class>,
      outcomes: map<Order, Option<T>>)
    requires forall o, x :: o in orders && x in o ==> x in patches
    requires IsPartition(ind, orders, classes) && IndependentCommute(ind, patches)
    requires Replayed(patches, base, orders, outcomes)
    ensures forall c, o :: c in classes && o in c.orders ==> o in outcomes
    ensures Agreeing(classes, outcomes)
  {
    assert forall c :: c in classes ==> IsClass(ind, orders, c);
    forall c, o, o' | c in classes && o in c.orders && o' in c.orders
      ensures outcomes[o] == outcomes[o']
    {
      assert IsClass(ind, orders, c);
      ConnectedKeepsOutcome(ind, patches, c.representative, o, base);
      ConnectedKeepsOutcome(ind, patches, c.representative, o', base);
    }
  }

  /** The representative of an order's class has its outcome, if every class agrees. */
  lemma StandsFor<T>(ind: Pairs, orders: set<Order>, classes: seq<Class>, outcomes: map<Order, Option<T>>, o: Order)
    returns (i: nat)
    requires IsPartition(ind, orders, classes) && o in orders && outcomes.Keys == orders
    requires forall c, o :: c in classes && o in c.orders ==> o in outcomes
    requires Agreeing(classes, outcomes)
    ensures i < |classes| && classes[i].representative in orders
    ensures outcomes[classes[i].representative] == outcomes[o]
  {
    assert Covered(classes, o);
    var c :| c in classes && o in c.orders;
    i :| 0 <= i < |classes| && classes[i] == c;
    assert IsClass(ind, orders, c);
  }

  /** Every replay of some orders shows the tree of a replay of more orders. */
  lemma FewerTrees<T(!new)>(
      patches: map<Id, Step<T>>, base: T, few: seq<Order>, all: seq<Order>, selected: seq<Schedule<T>>,
      full: seq<Schedule<T>>)
    requires forall o, x :: o in all && x in o ==> x in patches
    requires forall o :: o in few ==> o in all
    requires Observed(patches, base, few, selected) && Observed(patches, base, all, full)
    ensures Trees(selected) <= Trees(full)
  {
    forall sch | sch in selected
      ensures sch.finalTree in Trees(full)
    {
      var i :| 0 <= i < |selected| && selected[i] == sch;
      assert few[i] in few;
      var k :| 0 <= k < |all| && all[k] == few[i];
      assert full[k] in full;
    }
  }

  lemma AgreeingShowsTree<T>(
      ind: Pairs, all: seq<Order>, classes: seq<Class>, outcomes: map<Order, Option<T>>, selected: seq<Schedule<T>>, k: nat)
    requires IsPartition(ind, Elements(all), classes) && outcomes.Keys == Elements(all) && k < |all|
    requires forall c, o :: c in classes && o in c.orders ==> o in outcomes
    requires Agreeing(classes, outcomes) && |selected| == |classes|
    requires forall i :: 0 <= i < |classes| && classes[i].representative in outcomes ==>
               selected[i].finalTree == outcomes[classes[i].representative]
    ensures all[k] in outcomes && outcomes[all[k]] in Trees(selected)
  {
    assert all[k] in Elements(all);
    var i := StandsFor(ind, Elements(all), classes, outcomes, all[k]);
    assert selected[i] in selected;
  }

  lemma RepresentativesShow<T(!new)>(
      patches: map<Id, Step<T>>, base: T, all: seq<Order>, classes: seq<Class>, outcomes: map<Order, Option<T>>,
      selected: seq<Schedule<T>>)
    requires forall o, x :: o in all && x in o ==> x in patches
    requires Replayed(patches, base, Elements(all), outcomes)
    requires forall o :: o in Representatives(classes) ==> o in all
    requires Observed(patches, base, Representatives(classes), selected)
    ensures |selected| == |classes|
    ensures forall i :: 0 <= i < |classes| && classes[i].representative in outcomes ==>
              selected[i].finalTree == outcomes[classes[i].representative]
  {
    var reps := Representatives(classes);
    forall i | 0 <= i < |classes| && classes[i].representative in outcomes
      ensures selected[i].finalTree == outcomes[classes[i].representative]
    {
      assert reps[i] in reps;
    }
  }

  lemma AgreeingShowsAllTrees<T(!new)>(
      patches: map<Id, Step<T>>, base: T, ind: Pairs, all: seq<Order>, classes: seq<Class>,
      outcomes: map<Order, Option<T>>, full: seq<Schedule<T>>, selected: seq<Schedule<T>>)
    requires forall o, x :: o in all && x in o ==> x in patches
    requires IsPartition(ind, Elements(all), classes)
    requires Replayed(patches, base, Elements(all), outcomes)
    requires forall c, o :: c in classes && o in c.orders ==> o in outcomes
    requires Agreeing(classes, outcomes)
    requires forall o :: o in Representatives(classes) ==> o in all
    requires Observed(patches, base, all, full)
    requires Observed(patches, base, Representatives(classes), selected)
    ensures Trees(full) <= Trees(selected)
  {
    RepresentativesShow(patches, base, all, classes, outcomes, selected);
    forall f | f in full
      ensures f.finalTree in Trees(selected)
    {
      var k :| 0 <= k < |full| && full[k] == f;
      AgreeingShowsTree(ind, all, classes, outcomes, selected, k);
    }
  }

  lemma SomeRepresentative(ind: Pairs, all: seq<Order>, classes: seq<Class>)
    requires IsPartition(ind, Elements(all), classes)
    requires forall o :: o in Representatives(classes) ==> o in all
    ensures all == [] <==> classes == []
  {
    assert all != [] ==> all[0] in Elements(all) && Covered(classes, all[0]);
    assert classes != [] ==> Representatives(classes)[0] in Representatives(classes);
  }

  /** Where every class agrees on its outcome, its representative stands for it: replaying only the representatives
      gives the verdict of the exhaustive replay. */
  lemma AgreeingGivesTheVerdict<T(!new)>(
      patches: map<Id, Step<T>>, base: T, ind: Pairs, all: seq<Order>, classes: seq<Class>,
      outcomes: map<Order, Option<T>>, full: seq<Schedule<T>>, selected: seq<Schedule<T>>)
    requires forall o, x :: o in all && x in o ==> x in patches
    requires IsPartition(ind, Elements(all), classes)
    requires Replayed(patches, base, Elements(all), outcomes)
    requires forall c, o :: c in classes && o in c.orders ==> o in outcomes
    requires Agreeing(classes, outcomes)
    requires forall o :: o in Representatives(classes) ==> o in all
    requires Observed(patches, base, all, full)
    requires Observed(patches, base, Representatives(classes), selected)
    ensures ResultOf(selected) == ResultOf(full)
  {
    FewerTrees(patches, base, Representatives(classes), all, selected, full);
    AgreeingShowsAllTrees(patches, base, ind, all, classes, outcomes, full, selected);
    SomeRepresentative(ind, all, classes);
    SameVerdict(full, selected);
  }

  /** Replaying only the representatives gives the verdict of the exhaustive replay. */
  lemma RepresentativesGiveTheVerdict<T(!new)>(
      patches: map<Id, Step<T>>, base: T, ind: Pairs, all: seq<Order>, classes: seq<Class>,
      full: seq<Schedule<T>>, selected: seq<Schedule<T>>)
    requires forall o, x :: o in all && x in o ==> x in patches
    requires IsPartition(ind, Elements(all), classes) && IndependentCommute(ind, patches)
    requires forall o :: o in Representatives(classes) ==> o in all
    requires Observed(patches, base, all, full)
    requires Observed(patches, base, Representatives(classes), selected)
    ensures ResultOf(selected) == ResultOf(full)
  {
    var outcomes := map o | o in Elements(all) :: Run(patches, o, base);
    CommutingClassesAgree(patches, base, ind, Elements(all), classes, outcomes);
    AgreeingGivesTheVerdict(patches, base, ind, all, classes, outcomes, full, selected);
  }

  ghost function Trees<T>(schedules: seq<Schedule<T>>): set<Option<T>> {
    set sch | sch in schedules :: sch.finalTree
  }

  lemma VerdictFromTrees<T>(schedules: seq<Schedule<T>>)
    requires schedules != []
    ensures ResultOf(schedules) ==
            Some(if None in Trees(schedules) then Inconclusive
                 else if |Trees(schedules)| == 1 then EquivalentObserved
                 else Divergent)
  {
  }

  lemma SameVerdict<T>(a: seq<Schedule<T>>, b: seq<Schedule<T>>)
    requires Trees(a) == Trees(b) && (a == [] <==> b == [])
    ensures ResultOf(a) == ResultOf(b)
  {
    if a != [] {
      VerdictFromTrees(a);
      VerdictFromTrees(b);
    }
  }

  // ----- why the path rule is enough for fixed patches -----

  /** A supported patch changes only its own paths, decided by what it finds around them. */
  ghost predicate PathLocal<V(!new)>(g: Graph, seen: map<Id, Observation>, patches: map<Id, Step<Store<string, V>>>) {
    && seen.Keys == g.Keys && patches.Keys == g.Keys
    && forall x :: x in g && seen[x].supported ==>
         StaysWithin(patches[x], Region(seen[x].paths), iset p | p in seen[x].paths)
  }

  /** The path rule is sound: pairs it admits commute on every tree, failures included. */
  lemma PathRuleIsSound<V(!new)>(g: Graph, seen: map<Id, Observation>, ind: Pairs, patches: map<Id, Step<Store<string, V>>>)
    requires PathLocal(g, seen, patches) && IsIndependence(g, seen, ind)
    ensures IndependentCommute(ind, patches)
  {
    forall a, b | a in patches && b in patches && Independent(ind, a, b)
      ensures Commute(patches[a], patches[b])
    {
      var p := SortedPair(a, b);
      assert p in ind && p == (p.0, p.1);
      assert MayCommute(g, seen, p.0, p.1);
      DisjointPathsCommute(seen[a].paths, seen[b].paths, patches[a], patches[b]);
    }
  }

  lemma DisjointPathsCommute<V(!new)>(a: set<string>, b: set<string>, f: Step<Store<string, V>>, h: Step<Store<string, V>>)
    requires !Meet(a, b)
    requires StaysWithin(f, Region(a), iset p | p in a) && StaysWithin(h, Region(b), iset p | p in b)
    ensures Commute(f, h)
  {
    MeetSymmetric(a, b);
    ApartFromRegion(a, b);
    ApartFromRegion(b, a);
    DisjointFootprintsCommute(f, Region(a), (iset p | p in a), h, Region(b), (iset p | p in b));
  }

  // ----- the experiment -----

  datatype Status = NotCompared | Counterexample | Matched | OracleInconclusive

  /** The exhaustive replay, the partition of its orders, and the replay of the representatives alone. */
  datatype Comparison<T> =
    Comparison(status: Status, oracle: seq<Schedule<T>>, partition: Option<Partition>, selected: seq<Schedule<T>>)

  method ByOrder<T>(schedules: seq<Schedule<T>>) returns (found: map<Order, Schedule<T>>)
    ensures found.Keys == set sch | sch in schedules :: sch.order
    ensures forall o :: o in found ==> found[o] in schedules && found[o].order == o
  {
    found := map[];
    for i := 0 to |schedules|
      invariant found.Keys == set sch | sch in schedules[..i] :: sch.order
      invariant forall o :: o in found ==> found[o] in schedules && found[o].order == o
    {
      assert schedules[..i + 1] == schedules[..i] + [schedules[i]];
      found := found[schedules[i].order := schedules[i]];
    }
    assert schedules[..|schedules|] == schedules;
  }

  /** Where the patches take `base` in this order. */
  ghost function Ends<T(!new)>(g: Graph, patches: map<Id, Step<T>>, base: T, o: Order): Option<T>
    requires patches.Keys == g.Keys && Admissible(g, o)
  {
    OrderIsKnown(g, o);
    Run(patches, o, base)
  }

  lemma OrderIsKnown(g: Graph, o: Order)
    requires Admissible(g, o)
    ensures forall x :: x in o ==> x in g
  {
    assert forall x :: x in o ==> x in Elements(o);
  }

  /** Two orders that agree on every dependent pair and still end differently. */
  ghost predicate SwapsMatter<T(!new)>(g: Graph, patches: map<Id, Step<T>>, base: T, ind: Pairs)
    requires patches.Keys == g.Keys
  {
    exists o, o' :: Admissible(g, o) && Admissible(g, o')
                    && SameDependentOrder(ind, o, o') && Ends(g, patches, base, o) != Ends(g, patches, base, o')
  }

  /** Both replays of an experiment are what their orders give. */
  ghost predicate Experiment<T(!new)>(g: Graph, patches: map<Id, Step<T>>, base: T, c: Comparison<T>)
    requires Closed(g) && patches.Keys == g.Keys
  {
    match (TopologicalOrders(g), c.partition)
    case (Some(orders), Some(p)) =>
      && (forall o, x :: o in orders && x in o ==> x in patches)
      && (forall o :: o in Representatives(p.classes) ==> o in orders)
      && Observed(patches, base, orders, c.oracle)
      && Observed(patches, base, Representatives(p.classes), c.selected)
    case _ => false
  }

  lemma RepresentativesAreListed(ind: Pairs, orders: seq<Order>, classes: seq<Class>)
    requires IsPartition(ind, Elements(orders), classes)
    ensures forall o :: o in Representatives(classes) ==> o in orders
  {
    forall o | o in Representatives(classes)
      ensures o in orders
    {
      var i :| 0 <= i < |classes| && Representatives(classes)[i] == o;
      assert classes[i] in classes;
      assert IsClass(ind, Elements(orders), classes[i]);
    }
  }

  /** A class disagrees exactly when swaps matter. */
  lemma DisagreementMeaning<T(!new)>(
      g: Graph, patches: map<Id, Step<T>>, base: T, ind: Pairs, orders: seq<Order>, classes: seq<Class>,
      outcomes: map<Order, Option<T>>)
    requires patches.Keys == g.Keys && forall o :: o in orders <==> Admissible(g, o)
    requires forall o, x :: o in orders && x in o ==> x in patches
    requires IsPartition(ind, Elements(orders), classes)
    requires Replayed(patches, base, Elements(orders), outcomes)
    requires forall c, o :: c in classes && o in c.orders ==> o in outcomes
    ensures Agreeing(classes, outcomes) <==> !SwapsMatter(g, patches, base, ind)
  {
    if !Agreeing(classes, outcomes) {
      var c, o, o' :| c in classes && o in c.orders && o' in c.orders && outcomes[o] != outcomes[o'];
      SameClassMeaning(g, ind, Elements(orders), classes, o, o');
      assert Ends(g, patches, base, o) != Ends(g, patches, base, o');
    }
    if SwapsMatter(g, patches, base, ind) {
      var o, o' :| Admissible(g, o) && Admissible(g, o') && SameDependentOrder(ind, o, o')
                   && Ends(g, patches, base, o) != Ends(g, patches, base, o');
      SameClassMeaning(g, ind, Elements(orders), classes, o, o');
      assert outcomes[o] != outcomes[o'];
    }
  }

  /** The path rule leaves no swap that matters. */
  lemma PathLocalSwapsDoNotMatter<V(!new)>(
      g: Graph, seen: map<Id, Observation>, patches: map<Id, Step<Store<string, V>>>, base: Store<string, V>, ind: Pairs)
    requires PathLocal(g, seen, patches) && IsIndependence(g, seen, ind)
    ensures !SwapsMatter(g, patches, base, ind)
  {
    PathRuleIsSound(g, seen, ind, patches);
    forall o, o' | Admissible(g, o) && Admissible(g, o') && SameDependentOrder(ind, o, o')
      ensures Ends(g, patches, base, o) == Ends(g, patches, base, o')
    {
      OrderIsKnown(g, o);
      OrderIsKnown(g, o');
      ConnectedIffSameDependentOrder(ind, o, o');
      ConnectedKeepsOutcome(ind, patches, o, o', base);
    }
  }

  lemma ClassOrdersAreListed(ind: Pairs, orders: set<Order>, classes: seq<Class>)
    requires IsPartition(ind, orders, classes)
    ensures forall c, o :: c in classes && o in c.orders ==> o in orders
    ensures forall c :: c in classes ==> c.orders != {}
  {
    forall c | c in classes
      ensures c.orders != {} && c.orders <= orders
    {
      assert IsClass(ind, orders, c);
    }
  }

  lemma OutcomesAreReplayed<T(!new)>(
      patches: map<Id, Step<T>>, base: T, orders: seq<Order>, oracle: seq<Schedule<T>>, found: map<Order, Schedule<T>>)
    requires forall o, x :: o in orders && x in o ==> x in patches
    requires Observed(patches, base, orders, oracle)
    requires found.Keys == set sch | sch in oracle :: sch.order
    requires forall o :: o in found ==> found[o] in oracle && found[o].order == o
    ensures Replayed(patches, base, Elements(orders), map o | o in found :: found[o].finalTree)
  {
    assert found.Keys == Elements(orders) by {
      forall o | o in orders
        ensures o in found
      {
        var i :| 0 <= i < |orders| && orders[i] == o;
        assert oracle[i] in oracle;
      }
    }
    forall o | o in found
      ensures o in orders && found[o].finalTree == Run(patches, o, base)
    {
      var i :| 0 <= i < |oracle| && oracle[i] == found[o];
    }
  }

  lemma OrdersGiveAVerdict<T>(g: Graph, orders: seq<Order>, oracle: seq<Schedule<T>>)
    requires Closed(g) && TopologicalOrders(g) == Some(orders) && |oracle| == |orders|
    ensures ResultOf(oracle).Some?
  {
    TopologicalOrdersExact(g);
    AcyclicIffOrdered(g);
  }

  /** The replays of the representatives repeat the records of the exhaustive replay: fixed patches leave one trace. */
  method RepeatsOracle<T(==,!new)>(
      patches: map<Id, Step<T>>, base: T, orders: seq<Order>, oracle: seq<Schedule<T>>, chosen: seq<Order>,
      selected: seq<Schedule<T>>, byOrder: map<Order, Schedule<T>>) returns (same: bool)
    requires forall o, x :: o in orders && x in o ==> x in patches
    requires forall o :: o in chosen ==> o in orders
    requires Observed(patches, base, orders, oracle) && Observed(patches, base, chosen, selected)
    requires forall sch :: sch in oracle ==> (forall x :: x in sch.order ==> x in patches) && TrueTrace(patches, base, sch)
    requires forall sch :: sch in selected ==> (forall x :: x in sch.order ==> x in patches) && TrueTrace(patches, base, sch)
    requires byOrder.Keys == set sch | sch in oracle :: sch.order
    requires forall o :: o in byOrder ==> byOrder[o] in oracle && byOrder[o].order == o
    ensures same
  {
    for i := 0 to |selected|
    {
      assert chosen[i] in chosen && selected[i] in selected;
      FoundRecord(patches, base, orders, oracle, selected[i], byOrder);
      if byOrder[selected[i].order] != selected[i] {
        return false;
      }
    }
    return true;
  }

  lemma FoundRecord<T(!new)>(
      patches: map<Id, Step<T>>, base: T, orders: seq<Order>, oracle: seq<Schedule<T>>, sch: Schedule<T>,
      byOrder: map<Order, Schedule<T>>)
    requires forall o, x :: o in orders && x in o ==> x in patches
    requires Observed(patches, base, orders, oracle) && sch.order in orders
    requires forall s :: s in oracle ==> (forall x :: x in s.order ==> x in patches) && TrueTrace(patches, base, s)
    requires TrueTrace(patches, base, sch)
    requires sch.finalTree == Run(patches, sch.order, base) && (sch.complete <==> sch.finalTree.Some?)
    requires byOrder.Keys == set s | s in oracle :: s.order
    requires forall o :: o in byOrder ==> byOrder[o] in oracle && byOrder[o].order == o
    ensures sch.order in byOrder && byOrder[sch.order] == sch
  {
    var i :| 0 <= i < |orders| && orders[i] == sch.order;
    assert oracle[i] in oracle;
    var found := byOrder[sch.order];
    var k :| 0 <= k < |oracle| && oracle[k] == found;
    TraceIsUnique(patches, base, found, sch);
  }

  /** The comparison of two replays that were made. */
  method Judge<V(==,!new)>(
      g: Graph, seen: map<Id, Observation>, patches: map<Id, Step<Store<string, V>>>, base: Store<string, V>, p: Partition,
      orders: seq<Order>, oracle: seq<Schedule<Store<string, V>>>, selected: seq<Schedule<Store<string, V>>>) returns (status: Status)
    requires Closed(g) && seen.Keys == g.Keys && patches.Keys == g.Keys && TopologicalOrders(g) == Some(orders)
    requires forall o, x :: o in orders && x in o ==> x in patches
    requires IsIndependence(g, seen, p.independentPairs)
    requires IsPartition(p.independentPairs, Elements(orders), p.classes)
    requires forall o :: o in Representatives(p.classes) ==> o in orders
    requires Observed(patches, base, orders, oracle)
    requires Observed(patches, base, Representatives(p.classes), selected)
    requires forall sch :: sch in oracle ==> (forall x :: x in sch.order ==> x in patches) && TrueTrace(patches, base, sch)
    requires forall sch :: sch in selected ==> (forall x :: x in sch.order ==> x in patches) && TrueTrace(patches, base, sch)
    ensures status != NotCompared
    ensures status == Counterexample <==> SwapsMatter(g, patches, base, p.independentPairs)
    ensures status != Counterexample ==> ResultOf(selected) == ResultOf(oracle) && ResultOf(oracle).Some?
    ensures status != Counterexample ==> (status == OracleInconclusive <==> ResultOf(oracle) == Some(Inconclusive))
  {
    var byOrder := ByOrder(oracle);
    var repeated := RepeatsOracle(patches, base, orders, oracle, Representatives(p.classes), selected, byOrder);
    if !repeated {
      return NotCompared;
    }
    OutcomesAreReplayed(patches, base, orders, oracle, byOrder);
    var outcomes := map o | o in byOrder :: byOrder[o].finalTree;
    TopologicalOrdersExact(g);
    ClassOrdersAreListed(p.independentPairs, Elements(orders), p.classes);
    DisagreementMeaning(g, patches, base, p.independentPairs, orders, p.classes, outcomes);
    var agree := ClassesAgree(p.classes, outcomes);
    if !agree {
      return Counterexample;
    }
    AgreeingGivesTheVerdict(patches, base, p.independentPairs, orders, p.classes, outcomes, oracle, selected);
    OrdersGiveAVerdict(g, orders, oracle);
    return if ResultOf(oracle) == Some(Inconclusive) then OracleInconclusive else Matched;
  }

  /** Replays every order and then the representatives alone, and compares. It reports a counterexample exactly when
      some swap of independent operations matters, which it never does for patches that keep to their paths; otherwise
      the representatives give the verdict of the exhaustive replay. */
  method Compare<V(==,!new)>(
      g: Graph, seen: map<Id, Observation>, patches: map<Id, Step<Store<string, V>>>, base: Store<string, V>, verified: bool)
    returns (c: Comparison<Store<string, V>>)
    requires Closed(g) && seen.Keys == g.Keys && patches.Keys == g.Keys
    ensures c.status == NotCompared <==> !(Acyclic(g) && verified)
    ensures c.status != NotCompared ==>
              && Experiment(g, patches, base, c)
              && IsIndependence(g, seen, c.partition.value.independentPairs)
              && IsPartition(c.partition.value.independentPairs, Elements(TopologicalOrders(g).value), c.partition.value.classes)
              && (c.status == Counterexample <==> SwapsMatter(g, patches, base, c.partition.value.independentPairs))
    ensures c.status == Counterexample ==> !PathLocal(g, seen, patches)
    ensures c.status in {Matched, OracleInconclusive} ==> ResultOf(c.selected) == ResultOf(c.oracle)
    ensures c.status == Matched ==> ResultOf(c.oracle) in {Some(EquivalentObserved), Some(Divergent)}
    ensures c.status == OracleInconclusive ==> ResultOf(c.oracle) == Some(Inconclusive)
  {
    var listed := TopologicalOrders(g);
    TopologicalOrdersExact(g);
    if listed == None {
      return Comparison(NotCompared, [], None, []);
    }
    var orders := listed.value;
    forall o | o in orders
      ensures forall x :: x in o ==> x in patches
    {
      OrderIsKnown(g, o);
    }
    var oracle := ReplayOrders(patches, orders, base);
    if !verified {
      return Comparison(NotCompared, oracle, None, []);
    }
    var partition := PartitionOrders(g, seen);
    var p := partition.value;
    RepresentativesAreListed(p.independentPairs, orders, p.classes);
    var selected := ReplayOrders(patches, Representatives(p.classes), base);
    if PathLocal(g, seen, patches) {
      PathLocalSwapsDoNotMatter(g, seen, patches, base, p.independentPairs);
    }
    var status := Judge(g, seen, patches, base, p, orders, oracle, selected);
    return Comparison(status, oracle, partition, selected);
  }
}
