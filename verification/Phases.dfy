/** Reconciling timed phases with the wall clock: a sweep over the sorted intervals measures exactly
    the instants that some phase covers. */
module Phases {
  import opened Wrappers
  import opened DependencyGraphs
  import opened Identifiers

  const MAX_INTEGER := 0x7FFF_FFFF_FFFF_FFFF
  const MAX_PHASES := 1024

  datatype Refusal =
    | InvalidIdentifier
    | InvalidInteger
    | PhaseBudgetExceeded
    | InvalidPhaseInterval

  datatype Phase = Phase(name: string, start: int, end: int)

  /** A half-open interval of nanoseconds. */
  datatype Interval = Interval(start: int, end: int)

  datatype Reconciled = Reconciled(wall: nat, covered: nat, residual: nat)

  predicate IsIdentifier(s: string) {
    IsIdentifierUpTo(s, 128)
  }

  predicate IsInteger(n: int) {
    0 <= n <= MAX_INTEGER
  }

  predicate ValidPhase(p: Phase, wall: int) {
    IsIdentifier(p.name) && 0 <= p.start <= p.end <= wall
  }

  // ----- what is measured -----

  /** The instants from `low` up to, but not including, `high`. */
  ghost function Instants(low: int, high: int): (s: set<int>)
    ensures |s| == if low <= high then high - low else 0
    ensures forall t :: t in s <==> low <= t < high
    decreases high - low
  {
    if low >= high then {} else Instants(low, high - 1) + {high - 1}
  }

  predicate Contains(x: Interval, t: int) {
    x.start <= t < x.end
  }

  /** The instants that at least one of the intervals contains. */
  ghost function Covered(s: seq<Interval>): set<int> {
    if s == [] then {} else Instants(s[0].start, s[0].end) + Covered(s[1..])
  }

  lemma {:induction false} InCovered(s: seq<Interval>, t: int)
    ensures t in Covered(s) <==> exists x :: x in s && Contains(x, t)
  {
    if s != [] {
      InCovered(s[1..], t);
      assert s == [s[0]] + s[1..];
      assert Contains(s[0], t) <==> t in Instants(s[0].start, s[0].end);
    }
  }

  lemma CoveredIgnoresOrder(a: seq<Interval>, b: seq<Interval>)
    requires multiset(a) == multiset(b)
    ensures Covered(a) == Covered(b)
  {
    SameMembers(a, b);
    forall t ensures t in Covered(a) <==> t in Covered(b) {
      InCovered(a, t);
      InCovered(b, t);
    }
  }

  lemma {:induction false} CoveredGrows(s: seq<Interval>, x: Interval)
    ensures Covered(s + [x]) == Covered(s) + Instants(x.start, x.end)
  {
    if s == [] {
      assert s + [x] == [x];
      assert [x][1..] == [];
    } else {
      CoveredGrows(s[1..], x);
      assert (s + [x])[1..] == s[1..] + [x];
    }
  }

  // ----- sorting -----

  predicate NotAfter(a: Interval, b: Interval) {
    a.start < b.start || (a.start == b.start && a.end <= b.end)
  }

  predicate Ascending(s: seq<Interval>) {
    forall i, j :: 0 <= i < j < |s| ==> NotAfter(s[i], s[j])
  }

  function Insert(x: Interval, s: seq<Interval>): (r: seq<Interval>)
    ensures multiset(r) == multiset(s) + multiset{x}
  {
    if s == [] then [x]
    else if NotAfter(x, s[0]) then [x] + s
    else
      assert s == [s[0]] + s[1..];
      [s[0]] + Insert(x, s[1..])
  }

  function Sort(s: seq<Interval>): (r: seq<Interval>)
    ensures multiset(r) == multiset(s)
  {
    if s == [] then [] else
      assert s == [s[0]] + s[1..];
      Insert(s[0], Sort(s[1..]))
  }

  lemma {:induction false} InsertAscends(x: Interval, s: seq<Interval>)
    requires Ascending(s)
    ensures Ascending(Insert(x, s))
  {
    if s != [] && !NotAfter(x, s[0]) {
      InsertAscends(x, s[1..]);
      var r := Insert(x, s[1..]);
      forall y | y in r ensures NotAfter(s[0], y) {
        assert y in multiset(r);
        assert y == x || y in s[1..];
      }
    }
  }

  lemma {:induction false} SortAscends(s: seq<Interval>)
    ensures Ascending(Sort(s))
  {
    if s != [] {
      SortAscends(s[1..]);
      InsertAscends(s[0], Sort(s[1..]));
    }
  }

  // ----- the sweep -----

  function Max(a: int, b: int): int {
    if a < b then b else a
  }

  /** What the sweep knows after some intervals: its measure, and the latest end. */
  ghost predicate Swept(s: seq<Interval>, covered: int, finish: int) {
    && covered == |Covered(s)|
    && 0 <= finish
    && (forall t :: t in Covered(s) ==> t < finish)
    && (finish == 0 || exists x :: x in s && x.end == finish)
  }

  /** Everything the interval contains before the latest end has been covered already. */
  lemma OverlapIsCovered(s: seq<Interval>, x: Interval, covered: int, finish: int, t: int)
    requires Swept(s, covered, finish)
    requires forall y :: y in s ==> y.start <= x.start
    requires 0 <= x.start <= t < finish
    ensures t in Covered(s)
  {
    var y :| y in s && y.end == finish;
    assert Contains(y, t);
    InCovered(s, t);
  }

  lemma DisjointSizes(a: set<int>, b: set<int>)
    requires a !! b
    ensures |a + b| == |a| + |b|
  {
  }

  /** One step of the sweep adds exactly the instants that are new. */
  lemma SweepStep(s: seq<Interval>, x: Interval, covered: int, finish: int)
    requires Swept(s, covered, finish)
    requires 0 <= x.start <= x.end
    requires forall y :: y in s ==> y.start <= x.start
    ensures Swept(s + [x], covered + Max(0, x.end - Max(x.start, finish)), Max(finish, x.end))
  {
    var added, whole := Instants(Max(x.start, finish), x.end), Instants(x.start, x.end);
    CoveredGrows(s, x);
    forall t | t in whole && t !in added ensures t in Covered(s) {
      OverlapIsCovered(s, x, covered, finish, t);
    }
    assert Covered(s) + whole == Covered(s) + added;
    DisjointSizes(Covered(s), added);
    EndsCarryOver(s, x, covered, finish);
  }

  lemma EndsCarryOver(s: seq<Interval>, x: Interval, covered: int, finish: int)
    requires Swept(s, covered, finish)
    ensures Max(finish, x.end) == 0 || exists y :: y in s + [x] && y.end == Max(finish, x.end)
  {
    if finish < x.end {
      assert x in s + [x];
    } else if finish != 0 {
      var y :| y in s && y.end == finish;
      assert y in s + [x];
    }
  }

  lemma SweepNext(s: seq<Interval>, k: nat, covered: int, finish: int)
    requires k < |s| && Ascending(s)
    requires forall x :: x in s ==> 0 <= x.start <= x.end
    requires Swept(s[..k], covered, finish)
    ensures Swept(s[..k + 1], covered + Max(0, s[k].end - Max(s[k].start, finish)), Max(finish, s[k].end))
  {
    forall y | y in s[..k] ensures y.start <= s[k].start {
      var i :| 0 <= i < k && s[i] == y;
      assert NotAfter(s[i], s[k]);
    }
    assert s[..k + 1] == s[..k] + [s[k]];
    SweepStep(s[..k], s[k], covered, finish);
  }

  /** Measure the union of the intervals in one pass over their sorted order. */
  method Sweep(intervals: seq<Interval>) returns (covered: int)
    requires forall x :: x in intervals ==> 0 <= x.start <= x.end
    ensures covered == |Covered(intervals)|
  {
    var s := Sort(intervals);
    SortAscends(intervals);
    SameMembers(s, intervals);
    covered := 0;
    var finish := 0;
    for k := 0 to |s|
      invariant Swept(s[..k], covered, finish)
    {
      SweepNext(s, k, covered, finish);
      covered := covered + Max(0, s[k].end - Max(s[k].start, finish));
      finish := Max(finish, s[k].end);
    }
    assert s[..|s|] == s;
    CoveredIgnoresOrder(s, intervals);
  }

  lemma SameMembers(a: seq<Interval>, b: seq<Interval>)
    requires multiset(a) == multiset(b)
    ensures forall x :: x in a <==> x in b
  {
    forall x ensures x in a <==> x in b {
      assert x in a <==> x in multiset(a);
      assert x in b <==> x in multiset(b);
    }
  }

  function IntervalsOf(phases: seq<Phase>): (r: seq<Interval>)
    ensures |r| == |phases|
    ensures forall i :: 0 <= i < |r| ==> r[i] == Interval(phases[i].start, phases[i].end)
  {
    seq(|phases|, i requires 0 <= i < |phases| => Interval(phases[i].start, phases[i].end))
  }

  function CheckPhase(p: Phase, wall: int): (r: Option<Refusal>)
    ensures r.None? <==> ValidPhase(p, wall) && p.end <= MAX_INTEGER
  {
    if !IsIdentifier(p.name) then Some(InvalidIdentifier)
    else if !IsInteger(p.start) || !IsInteger(p.end) then Some(InvalidInteger)
    else if !(p.start <= p.end <= wall) then Some(InvalidPhaseInterval)
    else None
  }

  /** Check every phase, then split the wall time into covered and residual. */
  method ReconcilePhases(phases: seq<Phase>, wall: int) returns (r: Result<Reconciled, Refusal>)
    ensures r.Ok? <==>
      IsInteger(wall) && |phases| <= MAX_PHASES && forall i :: 0 <= i < |phases| ==> ValidPhase(phases[i], wall)
    ensures r.Ok? ==>
      r.value.wall == wall
      && r.value.covered == |Covered(IntervalsOf(phases))|
      && r.value.covered + r.value.residual == wall
    ensures !IsInteger(wall) ==> r == Err(InvalidInteger)
    ensures IsInteger(wall) && |phases| > MAX_PHASES ==> r == Err(PhaseBudgetExceeded)
    ensures r.Err? && IsInteger(wall) && |phases| <= MAX_PHASES ==>
      exists k :: 0 <= k < |phases| && CheckPhase(phases[k], wall) == Some(r.error)
        && forall i :: 0 <= i < k ==> ValidPhase(phases[i], wall)
  {
    if !IsInteger(wall) { return Err(InvalidInteger); }
    if |phases| > MAX_PHASES { return Err(PhaseBudgetExceeded); }
    for k := 0 to |phases|
      invariant forall i :: 0 <= i < k ==> ValidPhase(phases[i], wall)
    {
      var refusal := CheckPhase(phases[k], wall);
      if refusal.Some? { return Err(refusal.value); }
    }
    var covered := Sweep(IntervalsOf(phases));
    CoveredWithin(IntervalsOf(phases), wall);
    r := Ok(Reconciled(wall, covered, wall - covered));
  }

  lemma CoveredWithin(s: seq<Interval>, wall: nat)
    requires forall x :: x in s ==> 0 <= x.start && x.end <= wall
    ensures |Covered(s)| <= wall
  {
    forall t | t in Covered(s) ensures t in Instants(0, wall) {
      InCovered(s, t);
    }
    SubsetSize(Covered(s), Instants(0, wall));
  }

  lemma PhasesCoverWithin(phases: seq<Phase>, wall: nat)
    requires forall p :: p in phases ==> ValidPhase(p, wall)
    ensures |Covered(IntervalsOf(phases))| <= wall
  {
    var s := IntervalsOf(phases);
    forall x | x in s ensures 0 <= x.start && x.end <= wall {
      var i :| 0 <= i < |s| && s[i] == x;
      assert phases[i] in phases;
    }
    CoveredWithin(s, wall);
  }

  // ----- the union against the sum -----

  function Total(s: seq<Interval>): int {
    if s == [] then 0 else s[0].end - s[0].start + Total(s[1..])
  }

  ghost predicate Apart(a: Interval, b: Interval) {
    forall t :: !(Contains(a, t) && Contains(b, t))
  }

  ghost predicate PairwiseApart(s: seq<Interval>) {
    forall i, j :: 0 <= i < j < |s| ==> Apart(s[i], s[j])
  }

  /** The union never exceeds the sum of the phases, and reaches it exactly when none overlap. */
  lemma {:induction false} CoveredAgainstTotal(s: seq<Interval>)
    requires forall x :: x in s ==> x.start <= x.end
    ensures |Covered(s)| <= Total(s)
    ensures |Covered(s)| == Total(s) <==> PairwiseApart(s)
  {
    if s != [] {
      var head, rest := Instants(s[0].start, s[0].end), Covered(s[1..]);
      CoveredAgainstTotal(s[1..]);
      assert |head + rest| == |head| + |rest| - |head * rest|;
      assert |head * rest| == 0 <==> head !! rest;
      ApartSplits(s);
    }
  }

  lemma ApartSplits(s: seq<Interval>)
    requires s != []
    ensures PairwiseApart(s) <==> PairwiseApart(s[1..]) && Instants(s[0].start, s[0].end) !! Covered(s[1..])
  {
    var head, rest := Instants(s[0].start, s[0].end), s[1..];
    if PairwiseApart(s) {
      forall i, j | 0 <= i < j < |rest| ensures Apart(rest[i], rest[j]) {
        assert rest[i] == s[i + 1] && rest[j] == s[j + 1];
      }
      forall t | t in Covered(rest) ensures t !in head {
        InCovered(rest, t);
        var j :| 0 <= j < |rest| && Contains(rest[j], t);
        assert Apart(s[0], s[j + 1]);
        assert t in head <==> Contains(s[0], t);
      }
    }
    if PairwiseApart(rest) && head !! Covered(rest) {
      forall i, j | 0 <= i < j < |s| ensures Apart(s[i], s[j]) {
        if i > 0 {
          assert s[i] == rest[i - 1] && s[j] == rest[j - 1];
        } else {
          forall t ensures !(Contains(s[0], t) && Contains(s[j], t)) {
            InCovered(rest, t);
            assert s[j] == rest[j - 1];
            assert t in head <==> Contains(s[0], t);
          }
        }
      }
    }
  }
}
