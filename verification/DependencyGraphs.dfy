/** Declared dependencies between operations: chains, cycles and admissible serial orders.
    Shared by the analyzer, the replay engine and the wave schedulers. */
module DependencyGraphs {

  /** An operation identifier, standing for its rank among the sorted identifiers of a batch. */
  type Id = nat

  /** The direct dependencies of every operation of a batch. */
  type Graph = map<Id, set<Id>>

  /** No operation names an unknown dependency. */
  ghost predicate Closed(g: Graph) {
    forall x :: x in g ==> g[x] <= g.Keys
  }

  /** `p` walks from an operation to one of its dependencies, and so on. */
  ghost predicate IsChain(g: Graph, p: seq<Id>) {
    && |p| >= 1
    && (forall i :: 0 <= i < |p| ==> p[i] in g)
    && (forall i :: 0 <= i < |p| - 1 ==> p[i + 1] in g[p[i]])
  }

  /** `x` depends on `y`, directly or through other operations. */
  ghost predicate Depends(g: Graph, x: Id, y: Id) {
    exists p :: IsChain(g, p) && |p| >= 2 && p[0] == x && p[|p| - 1] == y
  }

  ghost predicate Acyclic(g: Graph) {
    forall x :: x in g ==> !Depends(g, x, x)
  }

  /** What every operation transitively depends on. */
  ghost function AncestorTable(g: Graph): map<Id, set<Id>> {
    map x | x in g :: set y | y in g && Depends(g, x, y)
  }

  predicate Distinct<T(==)>(s: seq<T>) {
    forall i, j :: 0 <= i < j < |s| ==> s[i] != s[j]
  }

  function Elements<T>(s: seq<T>): set<T> {
    set x | x in s
  }

  /** Every dependency is placed before the operation that needs it. */
  predicate Respects(g: Graph, o: seq<Id>)
    requires forall x :: x in o ==> x in g
  {
    forall j :: 0 <= j < |o| ==> g[o[j]] <= Elements(o[..j])
  }

  /** A serial order of the whole batch that respects the dependencies. */
  predicate Admissible(g: Graph, o: seq<Id>) {
    Distinct(o) && Elements(o) == g.Keys && Respects(g, o)
  }

  // ----- chains -----

  lemma DependsDirect(g: Graph, x: Id, y: Id)
    requires x in g && y in g && y in g[x]
    ensures Depends(g, x, y)
  {
    assert IsChain(g, [x, y]);
  }

  lemma DependsTransitive(g: Graph, x: Id, y: Id, z: Id)
    requires Depends(g, x, y) && Depends(g, y, z)
    ensures Depends(g, x, z)
  {
    var p :| IsChain(g, p) && |p| >= 2 && p[0] == x && p[|p| - 1] == y;
    var q :| IsChain(g, q) && |q| >= 2 && q[0] == y && q[|q| - 1] == z;
    var r := p + q[1..];
    forall i | 0 <= i < |r| - 1
      ensures r[i + 1] in g[r[i]]
    {
      if i >= |p| - 1 {
        assert r[i] == q[i - (|p| - 1)] && r[i + 1] == q[i + 1 - (|p| - 1)];
      }
    }
    assert IsChain(g, r);
  }

  /** A relation that holds the direct dependencies and is closed under them holds every path. */
  lemma {:induction false} ClosureCoversChain(g: Graph, up: map<Id, set<Id>>, p: seq<Id>)
    requires up.Keys == g.Keys
    requires forall x :: x in g ==> g[x] <= up[x]
    requires forall x, y :: x in up && y in up && y in up[x] ==> up[y] <= up[x]
    requires IsChain(g, p) && |p| >= 2
    ensures p[|p| - 1] in up[p[0]]
    decreases |p|
  {
    if |p| > 2 {
      assert IsChain(g, p[1..]);
      ClosureCoversChain(g, up, p[1..]);
      assert p[1] in g[p[0]];
    }
  }

  // ----- cycles and orders -----

  /** Without cycles, every nonempty part of the batch has an operation that needs nothing in it. */
  lemma {:induction false} MinimalElement(g: Graph, part: set<Id>) returns (m: Id)
    requires Closed(g) && part != {} && part <= g.Keys
    requires forall x :: x in part ==> !Depends(g, x, x)
    ensures m in part && g[m] !! part
    decreases |part|
  {
    var x :| x in part;
    var below := set y | y in part && Depends(g, x, y);
    if below == {} {
      m := x;
      forall y | y in part
        ensures y !in g[x]
      {
        assert y in below <==> Depends(g, x, y);
        if y in g[x] {
          DependsDirect(g, x, y);
        }
      }
    } else {
      assert below <= part - {x};
      SubsetSize(below, part - {x});
      m := MinimalElement(g, below);
      forall y | y in part
        ensures y !in g[m]
      {
        if y in g[m] {
          DependsDirect(g, m, y);
          DependsTransitive(g, x, m, y);
        }
      }
    }
  }

  /** A batch that cannot make progress, because every operation left needs another one left, is cyclic. */
  lemma StuckIsCyclic(g: Graph, completed: set<Id>)
    requires Closed(g) && completed <= g.Keys && completed != g.Keys
    requires forall x :: x in g && g[x] <= completed ==> x in completed
    ensures !Acyclic(g)
  {
    var rest := g.Keys - completed;
    assert completed + rest == g.Keys;
    assert forall x, y :: x in g && y in g[x] ==> y in completed || y in rest;
    if Acyclic(g) {
      var m := MinimalElement(g, rest);
    }
  }

  lemma {:induction false} SubsetSize<T>(a: set<T>, b: set<T>)
    requires a <= b
    ensures |a| <= |b|
    decreases a
  {
    if a != {} {
      var x :| x in a;
      SubsetSize(a - {x}, b - {x});
    }
  }

  /** An order that respects direct dependencies respects chains of them. */
  lemma {:induction false} ChainGoesBack(g: Graph, o: seq<Id>, p: seq<Id>, j: nat)
    requires Admissible(g, o) && IsChain(g, p) && |p| >= 2
    requires j < |o| && o[j] == p[0]
    ensures p[|p| - 1] in o[..j]
    decreases |p|
  {
    assert p[1] in g[o[j]];
    assert p[1] in Elements(o[..j]);
    var k :| 0 <= k < j && o[k] == p[1];
    if |p| > 2 {
      assert IsChain(g, p[1..]);
      ChainGoesBack(g, o, p[1..], k);
      assert o[..k] <= o[..j];
    }
  }

  lemma DependencyPlacedEarlier(g: Graph, o: seq<Id>, i: nat, j: nat)
    requires Admissible(g, o) && i < |o| && j < |o| && Depends(g, o[j], o[i])
    ensures i < j
  {
    var p :| IsChain(g, p) && |p| >= 2 && p[0] == o[j] && p[|p| - 1] == o[i];
    ChainGoesBack(g, o, p, j);
    var k :| 0 <= k < j && o[k] == o[i];
  }

  /** An admissible order rules out cycles. */
  lemma OrderedIsAcyclic(g: Graph, o: seq<Id>)
    requires Admissible(g, o)
    ensures Acyclic(g)
  {
    forall x | x in g
      ensures !Depends(g, x, x)
    {
      if Depends(g, x, x) {
        assert x in Elements(o);
        var j :| 0 <= j < |o| && o[j] == x;
        DependencyPlacedEarlier(g, o, j, j);
      }
    }
  }

  lemma PlaceNext(g: Graph, o: seq<Id>, m: Id)
    requires Closed(g)
    requires (forall x :: x in o ==> x in g) && Distinct(o) && Respects(g, o)
    requires m in g.Keys - Elements(o) && g[m] !! g.Keys - Elements(o)
    ensures (forall x :: x in o + [m] ==> x in g) && Distinct(o + [m]) && Respects(g, o + [m])
    ensures |g.Keys - Elements(o + [m])| < |g.Keys - Elements(o)|
  {
    var rest := g.Keys - Elements(o);
    forall y | y in g[m] ensures y in Elements(o) {
      assert y in g.Keys && y !in rest;
    }
    AppendReady(g, o, [m]);
    assert g.Keys - Elements(o + [m]) == rest - {m};
  }

  /** Without cycles, a respectful prefix extends to a serial order of the whole batch. */
  lemma {:induction false} ExtendToOrder(g: Graph, o: seq<Id>) returns (full: seq<Id>)
    requires Closed(g) && Acyclic(g)
    requires (forall x :: x in o ==> x in g) && Distinct(o) && Respects(g, o)
    ensures Admissible(g, full)
    decreases |g.Keys - Elements(o)|
  {
    var rest := g.Keys - Elements(o);
    if rest == {} {
      assert forall x :: x in g ==> x in Elements(o);
      full := o;
    } else {
      var m := MinimalElement(g, rest);
      PlaceNext(g, o, m);
      full := ExtendToOrder(g, o + [m]);
    }
  }

  /** A batch has an admissible serial order exactly when no operation depends on itself. */
  lemma AcyclicIffOrdered(g: Graph)
    requires Closed(g)
    ensures Acyclic(g) <==> exists o :: Admissible(g, o)
  {
    if Acyclic(g) {
      var o := ExtendToOrder(g, []);
    }
    if exists o :: Admissible(g, o) {
      var o :| Admissible(g, o);
      OrderedIsAcyclic(g, o);
    }
  }

  // ----- sorted sequences of identifiers -----

  lemma {:induction false} MinimumExists(s: set<nat>) returns (m: nat)
    requires s != {}
    ensures m in s && forall y :: y in s ==> m <= y
    decreases |s|
  {
    var x :| x in s;
    if s == {x} {
      m := x;
    } else {
      var rest := MinimumExists(s - {x});
      m := if x < rest then x else rest;
      assert forall y :: y in s ==> y == x || y in s - {x};
    }
  }

  function Minimum(s: set<nat>): (m: nat)
    requires s != {}
    ensures m in s && forall y :: y in s ==> m <= y
  {
    MinimumWitness(s);
    var m :| m in s && forall y :: y in s ==> m <= y;
    m
  }

  lemma MinimumWitness(s: set<nat>)
    requires s != {}
    ensures exists m :: m in s && forall y :: y in s ==> m <= y
  {
    var m := MinimumExists(s);
  }

  /** The members of a set in increasing order. */
  function Sorted(s: set<nat>): (o: seq<nat>)
    ensures forall x :: x in o <==> x in s
    ensures forall i, j :: 0 <= i < j < |o| ==> o[i] < o[j]
  {
    if s == {} then [] else
      var m := Minimum(s);
      [m] + Sorted(s - {m})
  }

  lemma SortedElements(s: set<nat>)
    ensures Elements(Sorted(s)) == s && Distinct(Sorted(s))
  {
  }

  function PairsWith(x: Id, rest: seq<Id>): seq<(Id, Id)> {
    if rest == [] then [] else [(x, rest[0])] + PairsWith(x, rest[1..])
  }

  /** The pairs of distinct positions of a sequence, in enumeration order. */
  function Combinations(ids: seq<Id>): seq<(Id, Id)> {
    if ids == [] then [] else PairsWith(ids[0], ids[1..]) + Combinations(ids[1..])
  }

  ghost predicate Increasing(ids: seq<Id>) {
    forall i, j :: 0 <= i < j < |ids| ==> ids[i] < ids[j]
  }

  lemma {:induction false} PairsWithExact(x: Id, rest: seq<Id>)
    ensures forall p :: p in PairsWith(x, rest) <==> p.0 == x && p.1 in rest
    ensures Increasing(rest) ==> Distinct(PairsWith(x, rest))
  {
    if rest != [] {
      PairsWithExact(x, rest[1..]);
    }
  }

  lemma DistinctAppend<T>(a: seq<T>, b: seq<T>)
    requires Distinct(a) && Distinct(b)
    requires forall x :: x in a ==> x !in b
    ensures Distinct(a + b)
  {
    forall i, j | 0 <= i < j < |a + b|
      ensures (a + b)[i] != (a + b)[j]
    {
      if i < |a| <= j {
        assert a[i] in a && b[j - |a|] in b;
      }
    }
  }

  lemma {:induction false} CombinationsExact(ids: seq<Id>)
    requires Increasing(ids)
    ensures forall p :: p in Combinations(ids) <==> p.0 in ids && p.1 in ids && p.0 < p.1
    ensures Distinct(Combinations(ids))
  {
    if ids != [] {
      var rest := ids[1..];
      PairsWithExact(ids[0], rest);
      CombinationsExact(rest);
      assert forall x :: x in ids <==> x == ids[0] || x in rest;
      assert forall x :: x in rest ==> ids[0] < x;
      DistinctAppend(PairsWith(ids[0], rest), Combinations(rest));
    }
  }

  /** Placing a batch of ready operations after a respectful prefix keeps it respectful. */
  lemma AppendReady(g: Graph, o: seq<Id>, next: seq<Id>)
    requires (forall x :: x in o ==> x in g) && Distinct(o) && Respects(g, o)
    requires (forall x :: x in next ==> x in g) && Distinct(next)
    requires forall x :: x in next ==> x !in o && g[x] <= Elements(o)
    ensures (forall x :: x in o + next ==> x in g) && Distinct(o + next) && Respects(g, o + next)
    ensures Elements(o + next) == Elements(o) + Elements(next)
  {
    var all := o + next;
    forall j | 0 <= j < |all|
      ensures g[all[j]] <= Elements(all[..j])
    {
      if j < |o| {
        assert all[..j] == o[..j];
      } else {
        assert all[j] == next[j - |o|];
        assert all[..j] == o + next[..j - |o|];
        assert forall x :: x in Elements(o) ==> x in all[..j];
      }
    }
    forall i, j | 0 <= i < j < |all|
      ensures all[i] != all[j]
    {
      if i < |o| <= j {
        assert all[i] in o && all[j] in next;
      }
    }
  }
}
