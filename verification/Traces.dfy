/** Serial orders up to swaps of adjacent independent operations.

    The central fact of the order-independence engine, stated for any independence relation:
    two serial orders are connected by such swaps exactly when they order every pair that is not
    independent the same way, and swaps of commuting steps change no outcome. */
module Traces {
  import opened Wrappers
  import opened DependencyGraphs

  type Order = seq<Id>
  type Pairs = set<(Id, Id)>

  function SortedPair(a: Id, b: Id): (Id, Id) {
    if a <= b then (a, b) else (b, a)
  }

  predicate Independent(ind: Pairs, a: Id, b: Id) {
    SortedPair(a, b) in ind
  }

  function SwapAt(o: Order, i: nat): Order
    requires i + 1 < |o|
  {
    o[i := o[i + 1]][i + 1 := o[i]]
  }

  ghost predicate AdjacentSwap(ind: Pairs, o: Order, o': Order) {
    exists i: nat :: i + 1 < |o| && Independent(ind, o[i], o[i + 1]) && o' == SwapAt(o, i)
  }

  ghost predicate SwapPath(ind: Pairs, path: seq<Order>) {
    |path| >= 1 && forall i :: 0 <= i < |path| - 1 ==> AdjacentSwap(ind, path[i], path[i + 1])
  }

  /** `o'` is reachable from `o` by swaps of adjacent independent operations. */
  ghost predicate Connected(ind: Pairs, o: Order, o': Order) {
    exists path :: SwapPath(ind, path) && path[0] == o && path[|path| - 1] == o'
  }

  ghost predicate Before(o: Order, a: Id, b: Id) {
    exists i, j :: 0 <= i < j < |o| && o[i] == a && o[j] == b
  }

  /** Both orders place every pair that is not independent the same way round. */
  ghost predicate SameDependentOrder(ind: Pairs, o: Order, o': Order) {
    forall a, b :: a != b && !Independent(ind, a, b) ==> (Before(o, a, b) <==> Before(o', a, b))
  }

  ghost predicate Rearrangement(o: Order, o': Order) {
    Distinct(o) && Distinct(o') && Elements(o) == Elements(o')
  }

  // ----- connectedness -----

  lemma ConnectedReflexive(ind: Pairs, o: Order)
    ensures Connected(ind, o, o)
  {
    assert SwapPath(ind, [o]);
  }

  lemma ConnectedTransitive(ind: Pairs, o: Order, o': Order, o'': Order)
    requires Connected(ind, o, o') && Connected(ind, o', o'')
    ensures Connected(ind, o, o'')
  {
    var p :| SwapPath(ind, p) && p[0] == o && p[|p| - 1] == o';
    var q :| SwapPath(ind, q) && q[0] == o' && q[|q| - 1] == o'';
    var r := p + q[1..];
    forall i | 0 <= i < |r| - 1
      ensures AdjacentSwap(ind, r[i], r[i + 1])
    {
      if i >= |p| - 1 {
        assert r[i] == q[i - (|p| - 1)] && r[i + 1] == q[i + 1 - (|p| - 1)];
      }
    }
    assert SwapPath(ind, r);
    assert r[|r| - 1] == o'';
  }

  lemma ConnectedStep(ind: Pairs, o: Order, o': Order)
    requires AdjacentSwap(ind, o, o')
    ensures Connected(ind, o, o')
  {
    assert SwapPath(ind, [o, o']);
  }

  lemma SwapBack(ind: Pairs, o: Order, o': Order)
    requires AdjacentSwap(ind, o, o')
    ensures AdjacentSwap(ind, o', o)
  {
    var i: nat :| i + 1 < |o| && Independent(ind, o[i], o[i + 1]) && o' == SwapAt(o, i);
    assert SwapAt(o', i) == o;
    assert Independent(ind, o'[i], o'[i + 1]);
  }

  lemma {:induction false} ConnectedSymmetric(ind: Pairs, o: Order, o': Order)
    requires Connected(ind, o, o')
    ensures Connected(ind, o', o)
  {
    var p :| SwapPath(ind, p) && p[0] == o && p[|p| - 1] == o';
    var n := |p|;
    var q := seq(n, i requires 0 <= i < n => p[n - 1 - i]);
    forall i | 0 <= i < |q| - 1
      ensures AdjacentSwap(ind, q[i], q[i + 1])
    {
      SwapBack(ind, p[n - 2 - i], p[n - 1 - i]);
    }
    assert SwapPath(ind, q);
  }

  // ----- a swap moves only one independent pair -----

  function Swapped(i: nat, k: nat): nat {
    if k == i then i + 1 else if k == i + 1 then i else k
  }

  lemma SwapKeepsElements(o: Order, i: nat)
    requires i + 1 < |o|
    ensures Elements(SwapAt(o, i)) == Elements(o)
    ensures Distinct(o) ==> Distinct(SwapAt(o, i))
  {
    var o' := SwapAt(o, i);
    forall x | x in o
      ensures x in o'
    {
      var k :| 0 <= k < |o| && o[k] == x;
      assert o'[Swapped(i, k)] == x;
    }
    forall x | x in o'
      ensures x in o
    {
      var k :| 0 <= k < |o'| && o'[k] == x;
      assert o[Swapped(i, k)] == x;
    }
    if Distinct(o) {
      forall k, m | 0 <= k < m < |o'|
        ensures o'[k] != o'[m]
      {
        assert o'[k] == o[Swapped(i, k)] && o'[m] == o[Swapped(i, m)];
      }
    }
  }

  lemma SwapKeepsBefore(ind: Pairs, o: Order, i: nat, a: Id, b: Id)
    requires i + 1 < |o| && Independent(ind, o[i], o[i + 1])
    requires !Independent(ind, a, b) && Before(o, a, b)
    ensures Before(SwapAt(o, i), a, b)
  {
    var o' := SwapAt(o, i);
    var k, m :| 0 <= k < m < |o| && o[k] == a && o[m] == b;
    assert !(k == i && m == i + 1);
    assert o'[Swapped(i, k)] == a && o'[Swapped(i, m)] == b;
  }

  lemma SwapSound(ind: Pairs, o: Order, o': Order)
    requires AdjacentSwap(ind, o, o')
    ensures SameDependentOrder(ind, o, o')
    ensures Elements(o') == Elements(o) && (Distinct(o) ==> Distinct(o'))
  {
    var i: nat :| i + 1 < |o| && Independent(ind, o[i], o[i + 1]) && o' == SwapAt(o, i);
    SwapKeepsElements(o, i);
    forall a, b | a != b && !Independent(ind, a, b)
      ensures Before(o, a, b) <==> Before(o', a, b)
    {
      if Before(o, a, b) {
        SwapKeepsBefore(ind, o, i, a, b);
      }
      if Before(o', a, b) {
        assert SwapAt(o', i) == o;
        SwapKeepsBefore(ind, o', i, a, b);
      }
    }
  }

  lemma {:induction false} PathSound(ind: Pairs, path: seq<Order>)
    requires SwapPath(ind, path)
    ensures SameDependentOrder(ind, path[0], path[|path| - 1])
    ensures Elements(path[|path| - 1]) == Elements(path[0])
    ensures Distinct(path[0]) ==> Distinct(path[|path| - 1])
    decreases |path|
  {
    if |path| > 1 {
      SwapSound(ind, path[0], path[1]);
      assert SwapPath(ind, path[1..]);
      PathSound(ind, path[1..]);
    }
  }

  /** Swaps of adjacent independent operations never reorder a dependent pair. */
  lemma ConnectedSound(ind: Pairs, o: Order, o': Order)
    requires Connected(ind, o, o')
    ensures SameDependentOrder(ind, o, o')
    ensures Elements(o) == Elements(o') && (Distinct(o) ==> Distinct(o'))
  {
    var p :| SwapPath(ind, p) && p[0] == o && p[|p| - 1] == o';
    PathSound(ind, p);
  }

  // ----- orders that agree on dependent pairs are connected -----

  /** `o` with its element at `k` moved down to `j`. */
  function Moved(o: Order, j: nat, k: nat): Order
    requires j <= k < |o|
  {
    o[..j] + [o[k]] + o[j..k] + o[k + 1..]
  }

  lemma MovedAfterSwap(o: Order, j: nat, k: nat)
    requires j < k < |o|
    ensures Moved(SwapAt(o, k - 1), j, k - 1) == Moved(o, j, k)
  {
    var o' := SwapAt(o, k - 1);
    assert o'[..j] == o[..j] && o'[k + 1..] == o[k + 1..];
    assert o'[j..k - 1] == o[j..k - 1];
    assert o'[k..] == [o[k - 1]] + o[k + 1..];
    assert o[j..k] == o[j..k - 1] + [o[k - 1]];
  }

  lemma {:induction false} BubbleDown(ind: Pairs, o: Order, j: nat, k: nat)
    requires j <= k < |o|
    requires forall m :: j <= m < k ==> Independent(ind, o[m], o[k])
    ensures Connected(ind, o, Moved(o, j, k))
    decreases k
  {
    if j == k {
      assert Moved(o, j, k) == o;
      ConnectedReflexive(ind, o);
    } else {
      var i := k - 1;
      var o' := SwapAt(o, i);
      assert AdjacentSwap(ind, o, o');
      ConnectedStep(ind, o, o');
      assert forall m :: j <= m < i ==> o'[m] == o[m];
      BubbleDown(ind, o', j, i);
      MovedAfterSwap(o, j, k);
      ConnectedTransitive(ind, o, o', Moved(o, j, k));
    }
  }

  lemma PrefixAgrees(o: Order, o': Order, j: nat)
    requires j <= |o| && j <= |o'| && o[..j] == o'[..j]
    ensures forall m :: 0 <= m < j ==> o[m] == o'[m]
  {
    assert forall m :: 0 <= m < j ==> o[..j][m] == o[m] && o'[..j][m] == o'[m];
  }

  /** The elements that stand between the agreed prefix and the next element of `o'` are all
      independent of it. */
  lemma CrossedAreIndependent(ind: Pairs, o: Order, o': Order, j: nat, k: nat)
    requires Rearrangement(o, o') && SameDependentOrder(ind, o, o')
    requires j < |o'| && j <= k < |o| && o[..j] == o'[..j] && o[k] == o'[j]
    ensures forall m :: j <= m < k ==> Independent(ind, o[m], o[k])
  {
    PrefixAgrees(o, o', j);
    forall m | j <= m < k
      ensures Independent(ind, o[m], o[k])
    {
      var x, y := o[k], o[m];
      assert x != y && Before(o, y, x);
      assert forall a :: 0 <= a < j ==> o'[a] != y;
      assert forall b :: 0 <= b < |o'| && o'[b] == x ==> b == j;
      assert !Before(o', y, x);
    }
  }

  lemma FindNext(o: Order, o': Order, j: nat) returns (k: nat)
    requires Rearrangement(o, o')
    requires j < |o'| && j <= |o| && o[..j] == o'[..j]
    ensures j <= k < |o| && o[k] == o'[j]
  {
    assert o'[j] in Elements(o);
    k :| 0 <= k < |o| && o[k] == o'[j];
    PrefixAgrees(o, o', j);
  }

  lemma {:induction false} DistinctLength<T>(s: seq<T>)
    requires Distinct(s)
    ensures |Elements(s)| == |s|
  {
    if s != [] {
      assert Distinct(s[1..]);
      DistinctLength(s[1..]);
      assert Elements(s) == Elements(s[1..]) + {s[0]};
    }
  }

  lemma {:induction false} ConnectFromPrefix(ind: Pairs, o: Order, o': Order, j: nat)
    requires Rearrangement(o, o') && SameDependentOrder(ind, o, o')
    requires j <= |o| && j <= |o'| && o[..j] == o'[..j]
    ensures Connected(ind, o, o')
    decreases |o'| - j
  {
    DistinctLength(o);
    DistinctLength(o');
    if j == |o'| {
      assert o == o[..j] == o'[..j] == o';
      ConnectedReflexive(ind, o);
    } else {
      var k := FindNext(o, o', j);
      CrossedAreIndependent(ind, o, o', j, k);
      BubbleDown(ind, o, j, k);
      var o2 := Moved(o, j, k);
      ConnectedSound(ind, o, o2);
      assert o2[..j + 1] == o[..j] + [o[k]] == o'[..j + 1];
      ConnectFromPrefix(ind, o2, o', j + 1);
      ConnectedTransitive(ind, o, o2, o');
    }
  }

  /** Two rearrangements of the same operations are connected by swaps of adjacent independent
      operations exactly when they order every other pair the same way. */
  lemma ConnectedIffSameDependentOrder(ind: Pairs, o: Order, o': Order)
    requires Rearrangement(o, o')
    ensures Connected(ind, o, o') <==> SameDependentOrder(ind, o, o')
  {
    if Connected(ind, o, o') {
      ConnectedSound(ind, o, o');
    }
    if SameDependentOrder(ind, o, o') {
      assert o[..0] == o'[..0];
      ConnectFromPrefix(ind, o, o', 0);
    }
  }

  /** A pair ordered by dependencies is placed the same way round by all admissible orders. */
  lemma OrderedPairKept(g: Graph, o: Order, o': Order, a: Id, b: Id)
    requires Admissible(g, o) && Admissible(g, o')
    requires Depends(g, a, b) || Depends(g, b, a)
    requires Before(o, a, b)
    ensures Before(o', a, b)
  {
    var i, j :| 0 <= i < j < |o| && o[i] == a && o[j] == b;
    assert a in Elements(o) && b in Elements(o);
    if Depends(g, a, b) {
      DependencyPlacedEarlier(g, o, j, i);
    }
    assert a in Elements(o') && b in Elements(o');
    var k :| 0 <= k < |o'| && o'[k] == a;
    var m :| 0 <= m < |o'| && o'[m] == b;
    DependencyPlacedEarlier(g, o', k, m);
  }

  // ----- outcomes -----

  type Step<!S> = S -> Option<S>

  function Then<S>(r: Option<S>, f: Step<S>): Option<S> {
    match r
    case None => None
    case Some(s) => f(s)
  }

  ghost predicate Commute<S(!new)>(f: Step<S>, h: Step<S>) {
    forall s: S :: Then(f(s), h) == Then(h(s), f)
  }

  /** Applying the operations one after the other; a failure is absorbing. */
  function Run<S>(steps: map<Id, Step<S>>, o: Order, s: S): Option<S>
    requires forall x :: x in o ==> x in steps
  {
    if o == [] then Some(s) else
      match steps[o[0]](s)
      case None => None
      case Some(t) => Run(steps, o[1..], t)
  }

  lemma {:induction false} RunAppend<S>(steps: map<Id, Step<S>>, a: Order, b: Order, s: S)
    requires forall x :: x in a + b ==> x in steps
    requires (forall x :: x in a ==> x in steps) && (forall x :: x in b ==> x in steps)
    ensures Run(steps, a + b, s) ==
            match Run(steps, a, s) { case None => None case Some(t) => Run(steps, b, t) }
    decreases |a|
  {
    if a == [] {
      assert a + b == b;
    } else {
      assert (a + b)[1..] == a[1..] + b;
      match steps[a[0]](s) {
        case None =>
        case Some(t) => RunAppend(steps, a[1..], b, t);
      }
    }
  }

  lemma RunPair<S>(steps: map<Id, Step<S>>, x: Id, y: Id, s: S)
    requires x in steps && y in steps
    ensures Run(steps, [x, y], s) == Then(steps[x](s), steps[y])
  {
    match steps[x](s) {
      case None =>
      case Some(t) =>
        assert [x, y][1..] == [y];
        match steps[y](t) {
          case None =>
          case Some(u) => assert Run(steps, [y][1..], u) == Some(u);
        }
    }
  }

  ghost predicate IndependentCommute<S(!new)>(ind: Pairs, steps: map<Id, Step<S>>) {
    forall a, b :: a in steps && b in steps && Independent(ind, a, b) ==> Commute(steps[a], steps[b])
  }

  /** The swapped pair sits between the same operations. */
  lemma SwapSplit(o: Order, i: nat)
    requires i + 1 < |o|
    ensures o == o[..i] + ([o[i], o[i + 1]] + o[i + 2..])
    ensures SwapAt(o, i) == o[..i] + ([o[i + 1], o[i]] + o[i + 2..])
  {
  }

  lemma RunThrough<S>(steps: map<Id, Step<S>>, pre: Order, x: Id, y: Id, post: Order, s: S)
    requires forall z :: z in pre ==> z in steps
    requires forall z :: z in post ==> z in steps
    requires x in steps && y in steps
    ensures (forall z :: z in pre + ([x, y] + post) ==> z in steps)
    ensures Run(steps, pre + ([x, y] + post), s) ==
            match Run(steps, pre, s)
            case None => None
            case Some(t) =>
              match Then(steps[x](t), steps[y])
              case None => None
              case Some(u) => Run(steps, post, u)
  {
    RunAppend(steps, pre, [x, y] + post, s);
    match Run(steps, pre, s) {
      case None =>
      case Some(t) =>
        RunAppend(steps, [x, y], post, t);
        RunPair(steps, x, y, t);
    }
  }

  lemma CommutingPair<S(!new)>(steps: map<Id, Step<S>>, pre: Order, x: Id, y: Id, post: Order, s: S)
    requires forall z :: z in pre ==> z in steps
    requires forall z :: z in post ==> z in steps
    requires x in steps && y in steps && Commute(steps[x], steps[y])
    ensures forall z :: z in pre + ([x, y] + post) ==> z in steps
    ensures forall z :: z in pre + ([y, x] + post) ==> z in steps
    ensures Run(steps, pre + ([x, y] + post), s) == Run(steps, pre + ([y, x] + post), s)
  {
    RunThrough(steps, pre, x, y, post, s);
    RunThrough(steps, pre, y, x, post, s);
  }

  lemma SwapKeepsOutcome<S(!new)>(ind: Pairs, steps: map<Id, Step<S>>, o: Order, i: nat, s: S)
    requires forall x :: x in o ==> x in steps
    requires IndependentCommute(ind, steps)
    requires i + 1 < |o| && Independent(ind, o[i], o[i + 1])
    ensures forall x :: x in SwapAt(o, i) ==> x in steps
    ensures Run(steps, o, s) == Run(steps, SwapAt(o, i), s)
  {
    SwapSplit(o, i);
    CommutingPair(steps, o[..i], o[i], o[i + 1], o[i + 2..], s);
  }

  lemma {:induction false} PathKeepsOutcome<S(!new)>(ind: Pairs, steps: map<Id, Step<S>>, path: seq<Order>, s: S)
    requires SwapPath(ind, path) && IndependentCommute(ind, steps)
    requires forall x :: x in path[0] ==> x in steps
    ensures forall x :: x in path[|path| - 1] ==> x in steps
    ensures Run(steps, path[0], s) == Run(steps, path[|path| - 1], s)
    decreases |path|
  {
    if |path| > 1 {
      assert AdjacentSwap(ind, path[0], path[0 + 1]);
      var i: nat :| i + 1 < |path[0]| && Independent(ind, path[0][i], path[0][i + 1]) && path[1] == SwapAt(path[0], i);
      SwapKeepsOutcome(ind, steps, path[0], i, s);
      assert SwapPath(ind, path[1..]);
      PathKeepsOutcome(ind, steps, path[1..], s);
    }
  }

  /** When independent steps commute as partial functions, connected orders have the same outcome
      from every start state. */
  lemma ConnectedKeepsOutcome<S(!new)>(ind: Pairs, steps: map<Id, Step<S>>, o: Order, o': Order, s: S)
    requires forall x :: x in o ==> x in steps
    requires IndependentCommute(ind, steps) && Connected(ind, o, o')
    ensures forall x :: x in o' ==> x in steps
    ensures Run(steps, o, s) == Run(steps, o', s)
  {
    var p :| SwapPath(ind, p) && p[0] == o && p[|p| - 1] == o';
    PathKeepsOutcome(ind, steps, p, s);
  }
}
