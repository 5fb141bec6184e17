/** Exact Clopper-Pearson intervals in micros, the paired noninferiority assessment, and what they
    promise about rounding, symmetry and missing outcomes. */
module Evaluation {
  import opened Binomial
  import opened Outcomes

  const SCALE: int := 1000000

  // ----- tail probabilities, scaled to integers -----

  /** P(X <= x) for X ~ Binomial(n, a / SCALE), times SCALE ** n. */
  function ScaledCdf(x: nat, n: nat, a: int): int {
    Tail(x + 1, n, a, SCALE - a)
  }

  /** Sum of the terms for `from .. n` successes. */
  function UpperSum(from: nat, n: nat, a: int, b: int): int
    decreases n + 1 - from
  {
    if from > n then 0 else Term(n, from, a, b) + UpperSum(from + 1, n, a, b)
  }

  /** P(X >= x) for X ~ Binomial(n, a / SCALE), times SCALE ** n. */
  function ScaledUpper(x: nat, n: nat, a: int): int {
    UpperSum(x, n, a, SCALE - a)
  }

  lemma {:induction false} SumsMeet(x: nat, n: nat, a: int, b: int)
    requires x <= n + 1
    ensures Tail(x, n, a, b) + UpperSum(x, n, a, b) == Pow(a + b, n)
    decreases n + 1 - x
  {
    if x == n + 1 {
      TailIsWhole(n + 1, n, a, b);
    } else {
      SumsMeet(x + 1, n, a, b);
    }
  }

  lemma UpperMirrorsLower(x: nat, n: nat, a: int)
    requires x <= n
    ensures ScaledUpper(x, n, a) == ScaledCdf(n - x, n, SCALE - a)
  {
    SumsMeet(x, n, a, SCALE - a);
    TailReflects(x, n, a, SCALE - a);
  }

  // ----- the bisection -----

  /** The smallest point of the scale that satisfies a predicate which is monotone along it. */
  method First(ok: int -> bool) returns (lo: int)
    requires forall a, b :: 0 <= a <= b <= SCALE && ok(a) ==> ok(b)
    ensures 0 <= lo <= SCALE
    ensures forall a :: 0 <= a < lo ==> !ok(a)
    ensures ok(SCALE) ==> ok(lo)
  {
    lo := 0;
    var hi := SCALE;
    while lo < hi
      invariant 0 <= lo <= hi <= SCALE
      invariant forall a :: 0 <= a < lo ==> !ok(a)
      invariant hi < SCALE ==> ok(hi)
    {
      var mid := (lo + hi) / 2;
      if ok(mid) {
        hi := mid;
      } else {
        lo := mid + 1;
      }
    }
  }

  // ----- the interval -----

  /** At most one fortieth of the whole. */
  predicate Within(tail: int, n: nat) {
    tail * 40 <= Pow(SCALE, n)
  }

  /** `u` is the least point at which observing at most `x` successes is within the tail. */
  ghost predicate IsUpper(x: nat, n: nat, u: int) {
    if x == n then u == SCALE else
      && 0 <= u <= SCALE
      && Within(ScaledCdf(x, n, u), n)
      && forall a :: 0 <= a < u ==> !Within(ScaledCdf(x, n, a), n)
  }

  /** `l` is the greatest point at which observing at least `x` successes is within the tail. */
  ghost predicate IsLower(x: nat, n: nat, l: int) {
    if x == 0 then l == 0 else
      && 0 <= l <= SCALE
      && Within(ScaledUpper(x, n, l), n)
      && forall a :: l < a <= SCALE ==> !Within(ScaledUpper(x, n, a), n)
  }

  /** With a success rate of `a` micros, all outcomes with at most `x` successes weigh at most one fortieth. */
  ghost predicate AtMostIsRare(x: nat, n: nat, a: int) {
    40 * Below(Words(n), x + 1, a, 1000000 - a) <= Whole(Words(n), a, 1000000 - a)
  }

  /** So do all outcomes with at least `x`. */
  ghost predicate AtLeastIsRare(x: nat, n: nat, a: int) {
    40 * Above(Words(n), x, a, 1000000 - a) <= Whole(Words(n), a, 1000000 - a)
  }

  ghost predicate IsUpperEnd(x: nat, n: nat, u: int) {
    if x == n then u == 1000000 else
      0 <= u <= 1000000 && AtMostIsRare(x, n, u) && forall a :: 0 <= a < u ==> !AtMostIsRare(x, n, a)
  }

  ghost predicate IsLowerEnd(x: nat, n: nat, l: int) {
    if x == 0 then l == 0 else
      0 <= l <= 1000000 && AtLeastIsRare(x, n, l) && forall a :: l < a <= 1000000 ==> !AtLeastIsRare(x, n, a)
  }

  lemma AtMostMeaning(x: nat, n: nat, a: int)
    ensures Within(ScaledCdf(x, n, a), n) <==> AtMostIsRare(x, n, a)
  {
    WholeIsPower(n, a, SCALE - a);
    TailIsWeight(x + 1, n, a, SCALE - a);
  }

  lemma AtLeastMeaning(x: nat, n: nat, a: int)
    requires x <= n
    ensures Within(ScaledUpper(x, n, a), n) <==> AtLeastIsRare(x, n, a)
  {
    WholeIsPower(n, a, SCALE - a);
    TailIsWeight(x, n, a, SCALE - a);
    SumsMeet(x, n, a, SCALE - a);
    BelowOrAbove(Words(n), x, a, SCALE - a);
  }

  /** The bounds in terms of sums are those in terms of outcomes. */
  lemma UpperMeaning(x: nat, n: nat, u: int)
    requires x <= n && IsUpper(x, n, u)
    ensures IsUpperEnd(x, n, u)
  {
    if x < n {
      AtMostMeaning(x, n, u);
      forall a | 0 <= a < u ensures !AtMostIsRare(x, n, a) {
        AtMostMeaning(x, n, a);
      }
    }
  }

  lemma LowerMeaning(x: nat, n: nat, l: int)
    requires x <= n && IsLower(x, n, l)
    ensures IsLowerEnd(x, n, l)
  {
    if x > 0 {
      AtLeastMeaning(x, n, l);
      forall a | l < a <= SCALE ensures !AtLeastIsRare(x, n, a) {
        AtLeastMeaning(x, n, a);
      }
    }
  }

  lemma CdfFalls(x: nat, n: nat, a: int, a': int)
    requires 0 <= a <= a' <= SCALE
    ensures ScaledCdf(x, n, a') <= ScaledCdf(x, n, a)
  {
    TailAntitoneFar(x + 1, n, SCALE, a, a');
  }

  lemma UpperRises(x: nat, n: nat, a: int, a': int)
    requires x <= n && 0 <= a <= a' <= SCALE
    ensures ScaledUpper(x, n, a) <= ScaledUpper(x, n, a')
  {
    UpperMirrorsLower(x, n, a);
    UpperMirrorsLower(x, n, a');
    CdfFalls(n - x, n, SCALE - a', SCALE - a);
  }

  lemma WithinAtEnds(x: nat, n: nat)
    requires x <= n
    ensures x < n ==> Within(ScaledCdf(x, n, SCALE), n)
    ensures x > 0 ==> Within(ScaledUpper(x, n, 0), n) && !Within(ScaledUpper(x, n, SCALE), n)
  {
    PowPositive(SCALE, n);
    if x < n {
      TailAtCertainty(x + 1, n, SCALE);
    }
    if x > 0 {
      UpperMirrorsLower(x, n, 0);
      TailAtCertainty(n - x + 1, n, SCALE);
      SumsMeet(x, n, SCALE, 0);
      TailAtCertainty(x, n, SCALE);
    }
  }

  /** Exact bounds for `x` successes in `n`: the upper bound is the least micro, the lower bound the
      greatest, at which the observation is in its tail. */
  method Interval(x: nat, n: nat) returns (lower: int, upper: int)
    requires x <= n
    ensures IsUpper(x, n, upper) && IsLower(x, n, lower)
    ensures IsUpperEnd(x, n, upper) && IsLowerEnd(x, n, lower)
  {
    lower, upper := Bounds(x, n);
    UpperMeaning(x, n, upper);
    LowerMeaning(x, n, lower);
  }

  method Bounds(x: nat, n: nat) returns (lower: int, upper: int)
    requires x <= n
    ensures IsUpper(x, n, upper) && IsLower(x, n, lower)
  {
    var total := Pow(SCALE, n);
    WithinAtEnds(x, n);
    if x == n {
      upper := SCALE;
    } else {
      var ok := (a: int) => ScaledCdf(x, n, a) * 40 <= total;
      forall a, b | 0 <= a <= b <= SCALE && ok(a)
        ensures ok(b)
      {
        CdfFalls(x, n, a, b);
      }
      upper := First(ok);
      assert ok(SCALE);
      forall a | 0 <= a < upper
        ensures !Within(ScaledCdf(x, n, a), n)
      {
        assert !ok(a);
      }
    }
    if x == 0 {
      lower := 0;
    } else {
      var out := (a: int) => !((total - ScaledCdf(x - 1, n, a)) * 40 <= total);
      forall a
        ensures out(a) <==> !Within(ScaledUpper(x, n, a), n)
      {
        SumsMeet(x, n, a, SCALE - a);
      }
      forall a, b | 0 <= a <= b <= SCALE && out(a)
        ensures out(b)
      {
        UpperRises(x, n, a, b);
      }
      var first := First(out);
      assert !out(0) && out(SCALE);
      lower := first - 1;
      assert !out(lower);
      forall a | lower < a <= SCALE
        ensures !Within(ScaledUpper(x, n, a), n)
      {
        assert out(first);
      }
    }
  }

  lemma UpperUnique(x: nat, n: nat, u: int, u': int)
    requires IsUpper(x, n, u) && IsUpper(x, n, u')
    ensures u == u'
  {
  }

  /** The interval of the failures is the mirror image of the interval of the successes. */
  lemma IntervalMirrors(x: nat, n: nat, l: int, u: int)
    requires x <= n && IsUpper(x, n, u) && IsLower(n - x, n, l)
    ensures l == SCALE - u
  {
    if x < n {
      var y: nat := n - x;
      forall a
        ensures ScaledUpper(y, n, a) == ScaledCdf(x, n, SCALE - a)
      {
        UpperMirrorsLower(y, n, a);
      }
      var v := SCALE - l;
      assert ScaledUpper(y, n, l) == ScaledCdf(x, n, v);
      assert IsUpper(x, n, v) by {
        forall a | 0 <= a < v
          ensures !Within(ScaledCdf(x, n, a), n)
        {
          assert ScaledUpper(y, n, SCALE - a) == ScaledCdf(x, n, a);
        }
      }
      UpperUnique(x, n, u, v);
    }
  }

  /** Bounds are ordered and within the scale. */
  lemma IntervalOrdered(x: nat, n: nat, l: int, u: int)
    requires x <= n && IsUpper(x, n, u) && IsLower(x, n, l)
    ensures 0 <= l < u <= SCALE
  {
    PowPositive(SCALE, n);
    WithinAtEnds(x, n);
    assert Tail(1, n, 0, SCALE) == Tail(0, n, 0, SCALE) + Term(n, 0, 0, SCALE) == Pow(SCALE, n);
    if 0 < x < n && u <= l {
      SumsMeet(x, n, l, SCALE - l);
      TailGrows(x, x + 1, n, l, SCALE - l);
      CdfFalls(x, n, u, l);
    }
  }

  lemma UpperMonotone(x: nat, x': nat, n: nat, u: int, u': int)
    requires x <= x' <= n && IsUpper(x, n, u) && IsUpper(x', n, u')
    ensures u <= u'
  {
    if x' < n {
      TailGrows(x + 1, x' + 1, n, u', SCALE - u');
      assert Within(ScaledCdf(x, n, u'), n);
    }
  }

  lemma LowerMonotone(x: nat, x': nat, n: nat, l: int, l': int)
    requires x <= x' <= n && IsLower(x, n, l) && IsLower(x', n, l')
    ensures l <= l'
  {
    if x > 0 {
      SumsMeet(x, n, l, SCALE - l);
      SumsMeet(x', n, l, SCALE - l);
      TailGrows(x, x', n, l, SCALE - l);
      assert Within(ScaledUpper(x', n, l), n);
    }
  }

  /** More successes move both bounds up. */
  lemma IntervalMonotone(x: nat, x': nat, n: nat, l: int, u: int, l': int, u': int)
    requires x <= x' <= n
    requires IsUpper(x, n, u) && IsLower(x, n, l) && IsUpper(x', n, u') && IsLower(x', n, l')
    ensures l <= l' && u <= u'
  {
    UpperMonotone(x, x', n, u, u');
    LowerMonotone(x, x', n, l, l');
  }

  // ----- noninferiority -----

  /** The margin 3/20 and the level 1/20, over the common denominator 20 ** pairs. */
  predicate Noninferior(pairs: nat, worse: nat) {
    Tail(worse + 1, pairs, 3, 17) * 20 < Pow(20, pairs)
  }

  /** If the true rate of worse pairs were the margin of 3/20, at most this many would be less likely than 1/20. */
  ghost predicate Demonstrated(pairs: nat, worse: nat) {
    20 * Below(Words(pairs), worse + 1, 3, 17) < Whole(Words(pairs), 3, 17)
  }

  lemma NoninferiorMeaning(pairs: nat, worse: nat)
    ensures Noninferior(pairs, worse) <==> Demonstrated(pairs, worse)
  {
    TailIsWeight(worse + 1, pairs, 3, 17);
    WholeIsPower(pairs, 3, 17);
  }

  const MIN_PAIRED_UNITS: nat := 19

  datatype Reason = RepeatedWithinLineage | BelowMinimum

  datatype Assessment = DescriptiveOnly(reasons: seq<Reason>) | Assessed(noninferior: bool)

  function Assess(pairs: nat, lineages: nat, worse: nat): Assessment {
    var reasons := (if lineages < pairs then [RepeatedWithinLineage] else []) +
                   (if pairs < MIN_PAIRED_UNITS then [BelowMinimum] else []);
    if reasons != [] then DescriptiveOnly(reasons) else Assessed(Noninferior(pairs, worse))
  }

  lemma ZeroWorse(n: nat)
    ensures Tail(1, n, 3, 17) == Pow(17, n)
  {
    assert Tail(1, n, 3, 17) == Tail(0, n, 3, 17) + Term(n, 0, 3, 17);
  }

  /** Counting up from one while zero worse pairs are not yet significant. */
  method MinimumPairedUnits() returns (n: nat)
    ensures n == MIN_PAIRED_UNITS
    ensures 1 <= n && Significant(n) && forall m :: 1 <= m < n ==> !Significant(m)
  {
    MinimumIsFirst();
    n := 1;
    while !Significant(n)
      invariant 1 <= n <= MIN_PAIRED_UNITS
      invariant forall m :: 1 <= m < n ==> !Significant(m)
      decreases MIN_PAIRED_UNITS - n
    {
      n := n + 1;
    }
  }

  /** Zero worse pairs among `n` are enough: (1 - margin) ** n is below the level. */
  predicate Significant(n: nat) {
    Pow(17, n) * 20 < Pow(20, n)
  }

  lemma MinimumIsFirst()
    ensures Significant(MIN_PAIRED_UNITS)
    ensures forall m: nat :: m < MIN_PAIRED_UNITS ==> !Significant(m)
  {
    PowersAtTheMinimum();
    forall m: nat | m < MIN_PAIRED_UNITS
      ensures !Significant(m)
    {
      if Significant(m) {
        RatioFalls(m, 18);
      }
    }
  }

  lemma PowersAtTheMinimum()
    ensures !Significant(18) && Significant(19)
  {
    assert Pow(17, 6) == 24137569 && Pow(20, 6) == 64000000;
    PowAdds(17, 6, 6);
    PowAdds(17, 12, 6);
    PowAdds(20, 6, 6);
    PowAdds(20, 12, 6);
  }

  lemma {:induction false} PowAdds(b: int, d: nat, e: nat)
    ensures Pow(b, d + e) == Pow(b, d) * Pow(b, e)
    decreases d
  {
    if d > 0 {
      PowAdds(b, d - 1, e);
      assert b * (Pow(b, d - 1) * Pow(b, e)) == (b * Pow(b, d - 1)) * Pow(b, e);
    }
  }

  lemma {:induction false} RatioFalls(m: nat, n: nat)
    requires m <= n && Significant(m)
    ensures Significant(n)
    decreases n - m
  {
    if m < n {
      PowPositive(17, m);
      RatioFalls(m + 1, n);
    }
  }

  /** Below the minimum no count of worse pairs, not even none, could demonstrate noninferiority; at
      the minimum none does. */
  lemma MinimumIsTight(pairs: nat, worse: nat)
    requires pairs < MIN_PAIRED_UNITS
    ensures !Noninferior(pairs, worse)
    ensures Noninferior(MIN_PAIRED_UNITS, 0)
  {
    MinimumIsFirst();
    ZeroWorse(MIN_PAIRED_UNITS);
    ZeroWorse(pairs);
    TailGrows(1, worse + 1, pairs, 3, 17);
    assert !Significant(pairs);
  }

  lemma FewerWorseIsBetter(pairs: nat, worse: nat, worse': nat)
    requires worse' <= worse && Noninferior(pairs, worse)
    ensures Noninferior(pairs, worse')
  {
    TailGrows(worse' + 1, worse + 1, pairs, 3, 17);
  }

  lemma {:induction false} MorePairsIsBetter(pairs: nat, pairs': nat, worse: nat)
    requires pairs <= pairs' && Noninferior(pairs, worse)
    ensures Noninferior(pairs', worse)
    decreases pairs' - pairs
  {
    if pairs < pairs' {
      TailFallsWithTrials(worse + 1, pairs, 3, 17);
      MorePairsIsBetter(pairs + 1, pairs', worse);
    }
  }

  // ----- paired outcomes -----

  datatype Cell = Correct | Incorrect | Ungraded | NotCompleted | NotAttempted

  predicate Missing(c: Cell) {
    c == Ungraded || c == NotAttempted
  }

  /** How a pair of outcomes counts; a missing outcome on either side leaves the pair unknown. */
  datatype PairKind = BothCorrect | ComparatorOnly | BaseOnly | Neither | Unknown

  function KindOf(base: Cell, comparator: Cell): PairKind {
    if Missing(base) || Missing(comparator) then Unknown
    else if base == Correct then if comparator == Correct then BothCorrect else BaseOnly
    else if comparator == Correct then ComparatorOnly else Neither
  }

  /** The pairs of that kind, by position. */
  ghost function Where(base: seq<Cell>, comparator: seq<Cell>, kind: PairKind): set<nat>
    requires |base| == |comparator|
  {
    set i: nat | i < |base| && KindOf(base[i], comparator[i]) == kind
  }

  datatype Counts = Counts(bothCorrect: nat, comparatorOnly: nat, baseOnly: nat, neither: nat, missing: nat)

  ghost function Tally(base: seq<Cell>, comparator: seq<Cell>): Counts
    requires |base| == |comparator|
  {
    Counts(|Where(base, comparator, BothCorrect)|, |Where(base, comparator, ComparatorOnly)|,
           |Where(base, comparator, BaseOnly)|, |Where(base, comparator, Neither)|,
           |Where(base, comparator, Unknown)|)
  }

  function Counted(counts: Counts, kind: PairKind): Counts {
    match kind
    case BothCorrect => counts.(bothCorrect := counts.bothCorrect + 1)
    case ComparatorOnly => counts.(comparatorOnly := counts.comparatorOnly + 1)
    case BaseOnly => counts.(baseOnly := counts.baseOnly + 1)
    case Neither => counts.(neither := counts.neither + 1)
    case Unknown => counts.(missing := counts.missing + 1)
  }

  lemma WhereGrows(base: seq<Cell>, comparator: seq<Cell>, i: nat, kind: PairKind)
    requires i < |base| == |comparator|
    ensures |Where(base[..i + 1], comparator[..i + 1], kind)|
         == |Where(base[..i], comparator[..i], kind)| + if KindOf(base[i], comparator[i]) == kind then 1 else 0
  {
    var added := if KindOf(base[i], comparator[i]) == kind then {i} else {};
    assert Where(base[..i + 1], comparator[..i + 1], kind) == Where(base[..i], comparator[..i], kind) + added;
  }

  /** Every pair adds one to the count of its kind. */
  lemma TallyGrows(base: seq<Cell>, comparator: seq<Cell>, i: nat)
    requires i < |base| == |comparator|
    ensures Tally(base[..i + 1], comparator[..i + 1])
         == Counted(Tally(base[..i], comparator[..i]), KindOf(base[i], comparator[i]))
  {
    WhereGrows(base, comparator, i, BothCorrect);
    WhereGrows(base, comparator, i, ComparatorOnly);
    WhereGrows(base, comparator, i, BaseOnly);
    WhereGrows(base, comparator, i, Neither);
    WhereGrows(base, comparator, i, Unknown);
  }

  function Pairs(counts: Counts): nat {
    counts.bothCorrect + counts.comparatorOnly + counts.baseOnly + counts.neither + counts.missing
  }

  /** A way the outcomes could turn out once every missing one is known. */
  ghost predicate Resolves(cells: seq<Cell>, truth: seq<bool>) {
    && |truth| == |cells|
    && forall i :: 0 <= i < |cells| && cells[i] != Ungraded && cells[i] != NotAttempted ==> (truth[i] <==> cells[i] == Correct)
  }

  ghost function WorsePairs(base: seq<bool>, comparator: seq<bool>): nat
    requires |base| == |comparator|
  {
    if base == [] then 0 else
      var n := |base| - 1;
      WorsePairs(base[..n], comparator[..n]) + if base[n] && !comparator[n] then 1 else 0
  }

  /** Every pair is counted under one kind. */
  lemma {:induction false} EveryPairIsTallied(base: seq<Cell>, comparator: seq<Cell>)
    requires |base| == |comparator|
    ensures Pairs(Tally(base, comparator)) == |base|
    decreases |base|
  {
    if base == [] {
      NothingTallied(base, comparator);
    } else {
      var n := |base| - 1;
      EveryPairIsTallied(base[..n], comparator[..n]);
      LastPairTallied(base, comparator);
    }
  }

  /** However the missing outcomes turn out, the comparator is worse on at least the pairs seen to be worse, and
      on at most those and the unknown ones. */
  lemma {:induction false} WorseIsBounded(base: seq<Cell>, comparator: seq<Cell>, b: seq<bool>, c: seq<bool>)
    requires |base| == |comparator| && Resolves(base, b) && Resolves(comparator, c)
    ensures var counts := Tally(base, comparator);
      counts.baseOnly <= WorsePairs(b, c) <= counts.baseOnly + counts.missing
    decreases |base|
  {
    if base == [] {
      NothingTallied(base, comparator);
    } else {
      var n := |base| - 1;
      ResolvesPrefix(base, b, n);
      ResolvesPrefix(comparator, c, n);
      WorseIsBounded(base[..n], comparator[..n], b[..n], c[..n]);
      LastPairTallied(base, comparator);
      OneMorePair(Tally(base[..n], comparator[..n]), base[n], comparator[n], b[n], c[n], WorsePairs(b[..n], c[..n]));
    }
  }

  lemma OneMorePair(counts: Counts, x: Cell, y: Cell, b: bool, c: bool, worse: nat)
    requires (!Missing(x) ==> (b <==> x == Correct)) && (!Missing(y) ==> (c <==> y == Correct))
    requires counts.baseOnly <= worse <= counts.baseOnly + counts.missing
    ensures var next, worse' := Counted(counts, KindOf(x, y)), worse + if b && !c then 1 else 0;
      Pairs(next) == Pairs(counts) + 1 && next.baseOnly <= worse' <= next.baseOnly + next.missing
  {
  }

  lemma NothingTallied(base: seq<Cell>, comparator: seq<Cell>)
    requires base == [] && comparator == []
    ensures Tally(base, comparator) == Counts(0, 0, 0, 0, 0)
  {
    assert forall kind :: Where(base, comparator, kind) == {};
  }

  lemma ResolvesPrefix(cells: seq<Cell>, truth: seq<bool>, n: nat)
    requires Resolves(cells, truth) && n < |cells|
    ensures Resolves(cells[..n], truth[..n])
    ensures !Missing(cells[n]) ==> (truth[n] <==> cells[n] == Correct)
  {
  }

  lemma LastPairTallied(base: seq<Cell>, comparator: seq<Cell>)
    requires |base| == |comparator| && base != []
    ensures var n := |base| - 1;
      Tally(base, comparator) == Counted(Tally(base[..n], comparator[..n]), KindOf(base[n], comparator[n]))
  {
    var n := |base| - 1;
    TallyGrows(base, comparator, n);
    assert base[..n + 1] == base && comparator[..n + 1] == comparator;
  }

  /** Graded, but not correct; an attempt that did not complete counts as such. */
  ghost predicate Failed(c: Cell) {
    c == Incorrect || c == NotCompleted
  }

  /** The five counts over the outcomes themselves. */
  ghost predicate CountsPairs(base: seq<Cell>, comparator: seq<Cell>, counts: Counts)
    requires |base| == |comparator|
  {
    && counts.bothCorrect == |set i: nat | i < |base| && base[i] == Correct && comparator[i] == Correct|
    && counts.comparatorOnly == |set i: nat | i < |base| && Failed(base[i]) && comparator[i] == Correct|
    && counts.baseOnly == |set i: nat | i < |base| && base[i] == Correct && Failed(comparator[i])|
    && counts.neither == |set i: nat | i < |base| && Failed(base[i]) && Failed(comparator[i])|
    && counts.missing == |set i: nat | i < |base| && (
         base[i] == Ungraded || base[i] == NotAttempted || comparator[i] == Ungraded || comparator[i] == NotAttempted)|
  }

  lemma TallyCounts(base: seq<Cell>, comparator: seq<Cell>)
    requires |base| == |comparator|
    ensures CountsPairs(base, comparator, Tally(base, comparator))
  {
    assert Where(base, comparator, BothCorrect) == set i: nat | i < |base| && base[i] == Correct && comparator[i] == Correct;
    assert Where(base, comparator, ComparatorOnly) == set i: nat | i < |base| && Failed(base[i]) && comparator[i] == Correct;
    assert Where(base, comparator, BaseOnly) == set i: nat | i < |base| && base[i] == Correct && Failed(comparator[i]);
    assert Where(base, comparator, Neither) == set i: nat | i < |base| && Failed(base[i]) && Failed(comparator[i]);
    assert Where(base, comparator, Unknown) == set i: nat | i < |base| && (
      base[i] == Ungraded || base[i] == NotAttempted || comparator[i] == Ungraded || comparator[i] == NotAttempted);
  }

  /** Tallies the pairs of one comparison and assesses it. A verdict of noninferiority holds for every way the
      missing outcomes could turn out. */
  method Paired(base: seq<Cell>, comparator: seq<Cell>, lineages: nat)
    returns (counts: Counts, worse: nat, assessment: Assessment)
    requires |base| == |comparator|
    ensures counts == Tally(base, comparator) && Pairs(counts) == |base|
    ensures worse == counts.baseOnly + counts.missing
    ensures forall b, c :: Resolves(base, b) && Resolves(comparator, c) ==>
              counts.baseOnly <= WorsePairs(b, c) <= worse
    ensures assessment == Assess(|base|, lineages, worse)
    ensures assessment.DescriptiveOnly? <==> lineages < |base| || |base| < 19
    ensures assessment.Assessed? ==> (assessment.noninferior <==> Demonstrated(|base|, worse))
    ensures assessment == Assessed(true) ==>
              forall b, c :: Resolves(base, b) && Resolves(comparator, c) ==> Demonstrated(|base|, WorsePairs(b, c))
    ensures CountsPairs(base, comparator, counts)
  {
    counts := Counts(0, 0, 0, 0, 0);
    NothingTallied(base[..0], comparator[..0]);
    for i := 0 to |base|
      invariant counts == Tally(base[..i], comparator[..i])
    {
      TallyGrows(base, comparator, i);
      counts := Counted(counts, KindOf(base[i], comparator[i]));
    }
    assert base[..|base|] == base && comparator[..|base|] == comparator;
    worse := counts.baseOnly + counts.missing;
    assessment := Assess(|base|, lineages, worse);
    EveryPairIsTallied(base, comparator);
    TallyCounts(base, comparator);
    NoninferiorMeaning(|base|, worse);
    forall b, c | Resolves(base, b) && Resolves(comparator, c)
      ensures counts.baseOnly <= WorsePairs(b, c) <= worse
      ensures assessment == Assessed(true) ==> Demonstrated(|base|, WorsePairs(b, c))
    {
      WorseIsBounded(base, comparator, b, c);
      if assessment == Assessed(true) {
        FewerWorseIsBetter(|base|, worse, WorsePairs(b, c));
        NoninferiorMeaning(|base|, WorsePairs(b, c));
      }
    }
  }
}
