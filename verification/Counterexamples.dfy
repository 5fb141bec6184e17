/** Search for a smaller divergent witness: the dependency-closed subsets of a divergent batch are replayed in
    order of size until one diverges. The replay of a subset is a function of the subset; the clock is the
    number of readings that still fall before the deadline. */
module Counterexamples {
  import opened Wrappers
  import opened DependencyGraphs
  import Binomial
  import R = GitReplay

  const MIN_SUBSET := 2
  const MAX_ATTEMPTS := 10

  /** How the evidence under reduction verified, and how a candidate subset replayed. */
  datatype Verification = Raised | Rejected | Unverified | Verified
  datatype Probe = Replayed(verified: bool, outcome: R.Verdict) | Failed

  const EQUIVALENT := Replayed(true, R.EquivalentObserved)
  const DIVERGENT := Replayed(true, R.Divergent)

  datatype Status =
    | RejectedInput
    | UnverifiedInput
    | Reduced
    | Unchanged
    | Unusable
    | Exhausted

  predicate Inconclusive(s: Status) {
    s.Unusable? || s.Exhausted?
  }

  datatype Report = Report(status: Status, selected: seq<Id>, attempts: seq<seq<Id>>, skipped: nat)

  // ----- the candidates -----

  /** The subsets of the given size, in enumeration order. */
  function Subsets(ids: seq<Id>, size: nat): seq<seq<Id>> {
    if size == 0 then [[]]
    else if ids == [] then []
    else R.Prefixed(ids[0], Subsets(ids[1..], size - 1)) + Subsets(ids[1..], size)
  }

  lemma {:induction false} SubsetsCount(ids: seq<Id>, size: nat)
    ensures |Subsets(ids, size)| == Binomial.Choose(|ids|, size)
    decreases |ids|
  {
    if size > 0 && ids != [] {
      var rest: seq<Id> := ids[1..];
      SubsetsCount(rest, size - 1);
      SubsetsCount(rest, size);
      PrefixedSize(ids[0], Subsets(rest, size - 1));
      assert |Subsets(ids, size)| == |Subsets(rest, size - 1)| + |Subsets(rest, size)|;
    }
  }

  lemma {:induction false} PrefixedSize(x: Id, subsets: seq<seq<Id>>)
    ensures |R.Prefixed(x, subsets)| == |subsets|
  {
    if subsets != [] {
      PrefixedSize(x, subsets[1..]);
    }
  }

  ghost predicate IsSubset(ids: seq<Id>, size: nat, t: seq<Id>) {
    |t| == size && Increasing(t) && forall x :: x in t ==> x in ids
  }

  lemma SubsetTail(ids: seq<Id>, size: nat, t: seq<Id>)
    requires Increasing(ids) && ids != [] && size > 0 && IsSubset(ids, size, t)
    ensures t[0] == ids[0] ==> IsSubset(ids[1..], size - 1, t[1..])
    ensures t[0] != ids[0] ==> IsSubset(ids[1..], size, t)
  {
    assert t[0] in t;
    forall i | 0 <= i < |t| && t[i] != ids[0] ensures t[i] in ids[1..] {
      assert t[i] in t && t[i] in ids;
    }
    forall i | 0 < i < |t| ensures t[i] != ids[0] {
      assert t[0] < t[i] && ids[0] <= t[0];
    }
  }

  lemma SubsetHead(ids: seq<Id>, size: nat, t: seq<Id>)
    requires Increasing(ids) && ids != [] && size > 0
    requires t != [] && t[0] == ids[0] && IsSubset(ids[1..], size - 1, t[1..])
    ensures IsSubset(ids, size, t)
  {
    assert t == [t[0]] + t[1..];
    forall i | 0 < i < |t| ensures t[i] in ids[1..] {
      assert t[i] == t[1..][i - 1] && t[i] in t[1..];
    }
    forall i, j | 0 <= i < j < |t| ensures t[i] < t[j] {
      if i > 0 {
        assert t[i] == t[1..][i - 1] && t[j] == t[1..][j - 1];
      }
    }
  }

  /** Every listed subset either takes the first operation or leaves it out. */
  lemma ListedSplits(ids: seq<Id>, size: nat, t: seq<Id>) returns (first: bool)
    requires ids != [] && size > 0 && t in Subsets(ids, size)
    ensures first ==> t != [] && t[0] == ids[0] && t[1..] in Subsets(ids[1..], size - 1)
    ensures !first ==> t in Subsets(ids[1..], size)
  {
    R.PrefixedExact(ids[0], Subsets(ids[1..], size - 1));
    first := t in R.Prefixed(ids[0], Subsets(ids[1..], size - 1));
  }

  lemma ListedWithFirst(ids: seq<Id>, size: nat, t: seq<Id>)
    requires ids != [] && size > 0 && t != []
    requires t[0] == ids[0] && t[1..] in Subsets(ids[1..], size - 1)
    ensures t in Subsets(ids, size)
  {
    R.PrefixedExact(ids[0], Subsets(ids[1..], size - 1));
  }

  lemma WiderSubset(ids: seq<Id>, size: nat, t: seq<Id>)
    requires Increasing(ids) && ids != []
    ensures Increasing(ids[1..])
    ensures IsSubset(ids[1..], size, t) ==> IsSubset(ids, size, t)
  {
  }

  lemma {:induction false} SubsetsSound(ids: seq<Id>, size: nat, t: seq<Id>)
    requires Increasing(ids) && t in Subsets(ids, size)
    ensures IsSubset(ids, size, t)
    decreases |ids|
  {
    if size > 0 && ids != [] {
      var first := ListedSplits(ids, size, t);
      WiderSubset(ids, size, t);
      if first {
        SubsetsSound(ids[1..], size - 1, t[1..]);
        SubsetHead(ids, size, t);
      } else {
        SubsetsSound(ids[1..], size, t);
      }
    }
  }

  lemma {:induction false} SubsetsComplete(ids: seq<Id>, size: nat, t: seq<Id>)
    requires Increasing(ids) && IsSubset(ids, size, t)
    ensures t in Subsets(ids, size)
    decreases |ids|
  {
    if size > 0 {
      assert t[0] in t && t[0] in ids;
      WiderSubset(ids, size, t);
      SubsetTail(ids, size, t);
      if t[0] == ids[0] {
        SubsetsComplete(ids[1..], size - 1, t[1..]);
        ListedWithFirst(ids, size, t);
      } else {
        SubsetsComplete(ids[1..], size, t);
      }
    }
  }

  /** The enumeration holds exactly the subsets of that size. */
  lemma SubsetsExact(ids: seq<Id>, size: nat, t: seq<Id>)
    requires Increasing(ids)
    ensures t in Subsets(ids, size) <==> IsSubset(ids, size, t)
  {
    if t in Subsets(ids, size) {
      SubsetsSound(ids, size, t);
    }
    if IsSubset(ids, size, t) {
      SubsetsComplete(ids, size, t);
    }
  }

  // ----- the search -----

  /** The subset contains every dependency of its members. */
  predicate DependencyClosed(g: Graph, t: seq<Id>) {
    forall x :: x in t && x in g ==> g[x] <= Elements(t)
  }

  lemma {:induction false} ChainStays(g: Graph, t: seq<Id>, p: seq<Id>)
    requires DependencyClosed(g, t) && IsChain(g, p) && p[0] in t
    ensures p[|p| - 1] in t
    decreases |p|
  {
    if |p| > 1 {
      assert IsChain(g, p[1..]) && p[1] in g[p[0]];
      assert p[1] in Elements(t);
      ChainStays(g, t, p[1..]);
    }
  }

  /** Among operations of the batch a subset is closed exactly when it holds all that its members depend on, through
      however many others. */
  lemma ClosedUnderDependence(g: Graph, t: seq<Id>)
    requires Closed(g) && Elements(t) <= g.Keys
    ensures DependencyClosed(g, t) <==> forall x, y :: x in t && Depends(g, x, y) ==> y in t
  {
    if DependencyClosed(g, t) {
      forall x, y | x in t && Depends(g, x, y) ensures y in t {
        var p :| IsChain(g, p) && |p| >= 2 && p[0] == x && p[|p| - 1] == y;
        ChainStays(g, t, p);
      }
    }
    if forall x, y :: x in t && Depends(g, x, y) ==> y in t {
      forall x, y | x in t && x in g && y in g[x] ensures y in Elements(t) {
        DependsDirect(g, x, y);
      }
    }
  }

  /** Every closed subset among those done was replayed, verified and found equivalent, the others skipped. */
  ghost predicate Passed(
    g: Graph, probe: seq<Id> -> Probe, done: seq<seq<Id>>, attempts: seq<seq<Id>>, skipped: nat)
    decreases |done|
  {
    if done == [] then attempts == [] && skipped == 0 else
    var n := |done| - 1;
    if DependencyClosed(g, done[n]) then
      && attempts != [] && attempts[|attempts| - 1] == done[n]
      && probe(done[n]) == EQUIVALENT
      && Passed(g, probe, done[..n], attempts[..|attempts| - 1], skipped)
    else
      skipped > 0 && Passed(g, probe, done[..n], attempts, skipped - 1)
  }

  lemma PassOne(
    g: Graph, probe: seq<Id> -> Probe, done: seq<seq<Id>>, attempts: seq<seq<Id>>, skipped: nat, t: seq<Id>)
    requires Passed(g, probe, done, attempts, skipped)
    requires DependencyClosed(g, t) ==> probe(t) == EQUIVALENT
    ensures if DependencyClosed(g, t) then Passed(g, probe, done + [t], attempts + [t], skipped)
            else Passed(g, probe, done + [t], attempts, skipped + 1)
  {
    assert (done + [t])[..|done|] == done;
    assert (attempts + [t])[..|attempts|] == attempts;
  }

  lemma {:induction false} PassedMeans(
    g: Graph, probe: seq<Id> -> Probe, done: seq<seq<Id>>, attempts: seq<seq<Id>>, skipped: nat)
    requires Passed(g, probe, done, attempts, skipped)
    ensures forall t :: t in done && DependencyClosed(g, t) ==> probe(t) == EQUIVALENT && t in attempts
    ensures |attempts| + skipped == |done|
    decreases |done|
  {
    if done != [] {
      var n := |done| - 1;
      if DependencyClosed(g, done[n]) {
        PassedMeans(g, probe, done[..n], attempts[..|attempts| - 1], skipped);
      } else {
        PassedMeans(g, probe, done[..n], attempts, skipped - 1);
      }
    }
  }

  /** Why the search of one size came to its end. */
  datatype Cause = Swept | Witness | Spoiled | OutOfBudget | OutOfTime

  /** Candidate `t` is next after those done, and settles the search. */
  ghost predicate Settles(
    g: Graph, probe: seq<Id> -> Probe, done: seq<seq<Id>>, t: seq<Id>, attempts: seq<seq<Id>>, skipped: nat,
    cause: Cause, limit: nat)
  {
    && DependencyClosed(g, t)
    && match cause
       case Witness => probe(t) == DIVERGENT && attempts != [] && attempts[|attempts| - 1] == t
                       && Passed(g, probe, done, attempts[..|attempts| - 1], skipped)
       case Spoiled => probe(t) != DIVERGENT && probe(t) != EQUIVALENT && attempts != []
                       && attempts[|attempts| - 1] == t && Passed(g, probe, done, attempts[..|attempts| - 1], skipped)
       case OutOfBudget => |attempts| >= limit && Passed(g, probe, done, attempts, skipped)
       case OutOfTime => Passed(g, probe, done, attempts, skipped)
       case Swept => false
  }

  /** The search ended at position `k` of the enumeration. */
  ghost predicate EndedAt(
    g: Graph, probe: seq<Id> -> Probe, all: seq<seq<Id>>, k: nat, attempts: seq<seq<Id>>, skipped: nat,
    cause: Cause, limit: nat)
  {
    k < |all| && Settles(g, probe, all[..k], all[k], attempts, skipped, cause, limit)
  }

  ghost predicate Ended(
    g: Graph, probe: seq<Id> -> Probe, all: seq<seq<Id>>, attempts: seq<seq<Id>>, skipped: nat,
    cause: Cause, limit: nat)
  {
    exists k: nat :: EndedAt(g, probe, all, k, attempts, skipped, cause, limit)
  }

  /** Replay the closed subsets of one size in turn. */
  method SearchSize(
    g: Graph, probe: seq<Id> -> Probe, ghost before: seq<seq<Id>>, subsets: seq<seq<Id>>, limit: nat,
    tried: seq<seq<Id>>, passedOver: nat, readings: nat)
    returns (cause: Cause, found: seq<Id>, attempts: seq<seq<Id>>, skipped: nat, clock: nat)
    requires Passed(g, probe, before, tried, passedOver)
    ensures cause.Swept? ==> Passed(g, probe, before + subsets, attempts, skipped)
    ensures !cause.Swept? ==> Ended(g, probe, before + subsets, attempts, skipped, cause, limit)
    ensures cause.Witness? ==> attempts != [] && found == attempts[|attempts| - 1]
    ensures cause.OutOfTime? ==> clock == 0
    ensures clock + |attempts| == readings + |tried|
  {
    cause, found, attempts, skipped, clock := Swept, [], tried, passedOver, readings;
    ghost var all := before + subsets;
    assert all[..|before|] == before;
    for i := 0 to |subsets|
      invariant cause.Swept? && clock + |attempts| == readings + |tried|
      invariant Passed(g, probe, all[..|before| + i], attempts, skipped)
    {
      var t := subsets[i];
      ghost var k := |before| + i;
      assert all[k] == t;
      if !DependencyClosed(g, t) {
        PassNext(g, probe, all, k, attempts, skipped);
        skipped := skipped + 1;
      } else if |attempts| >= limit {
        assert EndedAt(g, probe, all, k, attempts, skipped, OutOfBudget, limit);
        cause := OutOfBudget;
        return;
      } else if clock == 0 {
        assert EndedAt(g, probe, all, k, attempts, skipped, OutOfTime, limit);
        cause := OutOfTime;
        return;
      } else {
        clock := clock - 1;
        var outcome := probe(t);
        if outcome != EQUIVALENT {
          cause := if outcome == DIVERGENT then Witness else Spoiled;
          EndsThere(g, probe, all, k, attempts, skipped, cause, limit);
          found, attempts := t, attempts + [t];
          return;
        }
        PassNext(g, probe, all, k, attempts, skipped);
        attempts := attempts + [t];
      }
    }
    assert all[..|all|] == all;
  }

  lemma PassNext(
    g: Graph, probe: seq<Id> -> Probe, all: seq<seq<Id>>, k: nat, attempts: seq<seq<Id>>, skipped: nat)
    requires k < |all| && Passed(g, probe, all[..k], attempts, skipped)
    requires DependencyClosed(g, all[k]) ==> probe(all[k]) == EQUIVALENT
    ensures if DependencyClosed(g, all[k]) then Passed(g, probe, all[..k + 1], attempts + [all[k]], skipped)
            else Passed(g, probe, all[..k + 1], attempts, skipped + 1)
  {
    assert all[..k + 1] == all[..k] + [all[k]];
    PassOne(g, probe, all[..k], attempts, skipped, all[k]);
  }

  lemma EndsThere(
    g: Graph, probe: seq<Id> -> Probe, all: seq<seq<Id>>, k: nat, attempts: seq<seq<Id>>, skipped: nat,
    cause: Cause, limit: nat)
    requires k < |all| && Passed(g, probe, all[..k], attempts, skipped) && DependencyClosed(g, all[k])
    requires probe(all[k]) != EQUIVALENT
    requires cause == if probe(all[k]) == DIVERGENT then Witness else Spoiled
    ensures Ended(g, probe, all, attempts + [all[k]], skipped, cause, limit)
  {
    var now := attempts + [all[k]];
    assert now[..|now| - 1] == attempts;
    assert EndedAt(g, probe, all, k, now, skipped, cause, limit);
  }

  /** The candidates of the first `k` levels, one after the other. */
  function Joined(levels: seq<seq<seq<Id>>>, k: nat): seq<seq<Id>>
    requires k <= |levels|
  {
    if k == 0 then [] else Joined(levels, k - 1) + levels[k - 1]
  }

  /** Look for a divergent subset level by level. */
  method Search(
    g: Graph, probe: seq<Id> -> Probe, levels: seq<seq<seq<Id>>>, limit: nat, readings: nat)
    returns (cause: Cause, found: seq<Id>, attempts: seq<seq<Id>>, skipped: nat, late: bool)
    ensures cause.Swept? && !late ==> Passed(g, probe, Joined(levels, |levels|), attempts, skipped)
    ensures !cause.Swept? ==> Ended(g, probe, Joined(levels, |levels|), attempts, skipped, cause, limit)
    ensures cause.Witness? ==> attempts != [] && found == attempts[|attempts| - 1]
    ensures cause.OutOfTime? ==> late
    ensures late ==> (cause.OutOfTime? || cause.Swept?) && readings <= |attempts| + |levels|
    ensures late ==> |attempts| <= |Joined(levels, |levels|)|
  {
    var level: nat, clock: nat := 0, readings;
    cause, found, attempts, skipped, late := Swept, [], [], 0, false;
    while level < |levels| && !late
      invariant level <= |levels| && cause.Swept?
      invariant if late then readings <= |attempts| + level else clock + |attempts| + level == readings
      invariant Passed(g, probe, Joined(levels, level), attempts, skipped)
      decreases |levels| - level
    {
      cause, found, attempts, skipped, clock :=
        SearchSize(g, probe, Joined(levels, level), levels[level], limit, attempts, skipped, clock);
      if !cause.Swept? {
        EndedWithin(g, probe, levels, level + 1, attempts, skipped, cause, limit);
        late := cause.OutOfTime?;
        if late {
          AttemptsWithin(g, probe, Joined(levels, |levels|), attempts, skipped, limit);
        }
        return;
      }
      late := clock == 0;
      clock := if clock == 0 then 0 else clock - 1;
      level := level + 1;
    }
    JoinedExtends(levels, level, |levels|);
    PassedMeans(g, probe, Joined(levels, level), attempts, skipped);
  }

  lemma {:induction false} JoinedExtends(levels: seq<seq<seq<Id>>>, k: nat, more: nat)
    requires k <= more <= |levels|
    ensures Joined(levels, k) <= Joined(levels, more)
  {
    if k < more {
      JoinedExtends(levels, k, more - 1);
    }
  }

  lemma AttemptsWithin(
    g: Graph, probe: seq<Id> -> Probe, all: seq<seq<Id>>, attempts: seq<seq<Id>>, skipped: nat, limit: nat)
    requires Ended(g, probe, all, attempts, skipped, OutOfTime, limit)
    ensures |attempts| <= |all|
  {
    var k: nat :| EndedAt(g, probe, all, k, attempts, skipped, OutOfTime, limit);
    PassedMeans(g, probe, all[..k], attempts, skipped);
  }

  /** Where the search ended among the first levels is where it ended among all candidates. */
  lemma EndedWithin(
    g: Graph, probe: seq<Id> -> Probe, levels: seq<seq<seq<Id>>>, level: nat, attempts: seq<seq<Id>>, skipped: nat,
    cause: Cause, limit: nat)
    requires level <= |levels| && Ended(g, probe, Joined(levels, level), attempts, skipped, cause, limit)
    ensures Ended(g, probe, Joined(levels, |levels|), attempts, skipped, cause, limit)
  {
    var some, all := Joined(levels, level), Joined(levels, |levels|);
    var k: nat :| EndedAt(g, probe, some, k, attempts, skipped, cause, limit);
    JoinedExtends(levels, level, |levels|);
    assert all[..k] == some[..k] && all[k] == some[k];
    assert EndedAt(g, probe, all, k, attempts, skipped, cause, limit);
  }

  // ----- the candidates of a batch -----

  /** One level for each size from two up to one less than the whole batch. */
  function Levels(ids: seq<Id>): (r: seq<seq<seq<Id>>>)
    ensures |r| == if |ids| > MIN_SUBSET then |ids| - MIN_SUBSET else 0
    ensures forall i :: 0 <= i < |r| ==> r[i] == Subsets(ids, MIN_SUBSET + i)
  {
    seq(if |ids| > MIN_SUBSET then |ids| - MIN_SUBSET else 0, i requires 0 <= i => Subsets(ids, MIN_SUBSET + i))
  }

  function CandidatesBelow(ids: seq<Id>, k: nat): seq<seq<Id>>
    requires k <= |Levels(ids)|
  {
    Joined(Levels(ids), k)
  }

  function Candidates(ids: seq<Id>): seq<seq<Id>> {
    CandidatesBelow(ids, |Levels(ids)|)
  }

  lemma {:induction false} CandidatesExact(ids: seq<Id>, k: nat, t: seq<Id>)
    requires Increasing(ids) && k <= |Levels(ids)|
    ensures t in CandidatesBelow(ids, k) <==> MIN_SUBSET <= |t| < MIN_SUBSET + k && IsSubset(ids, |t|, t)
  {
    if k > 0 {
      CandidatesExact(ids, k - 1, t);
      SubsetsExact(ids, MIN_SUBSET + k - 1, t);
    }
  }

  /** Smaller candidates come first. */
  lemma {:induction false} CandidatesBySize(ids: seq<Id>, k: nat, i: nat, j: nat)
    requires Increasing(ids) && k <= |Levels(ids)| && i < j < |CandidatesBelow(ids, k)|
    ensures |CandidatesBelow(ids, k)[i]| <= |CandidatesBelow(ids, k)[j]|
  {
    var below, level := CandidatesBelow(ids, k - 1), Subsets(ids, MIN_SUBSET + k - 1);
    var a, b := (below + level)[i], (below + level)[j];
    assert CandidatesBelow(ids, k) == below + level;
    if j < |below| {
      CandidatesBySize(ids, k - 1, i, j);
    } else {
      assert b == level[j - |below|] && b in level;
      SubsetsExact(ids, MIN_SUBSET + k - 1, b);
      assert a in below + level;
      CandidatesExact(ids, k, a);
    }
  }

  lemma LevelSize(ids: seq<Id>, i: nat)
    requires i < |Levels(ids)|
    ensures |Levels(ids)[i]| == Binomial.Choose(|ids|, MIN_SUBSET + i)
  {
    SubsetsCount(ids, MIN_SUBSET + i);
  }

  lemma SmallBinomials()
    ensures Binomial.Choose(3, 2) == 3 && Binomial.Choose(4, 2) == 6 && Binomial.Choose(4, 3) == 4
  {
  }

  lemma JoinedSize(levels: seq<seq<seq<Id>>>)
    ensures |levels| == 0 ==> |Joined(levels, |levels|)| == 0
    ensures |levels| == 1 ==> |Joined(levels, |levels|)| == |levels[0]|
    ensures |levels| == 2 ==> |Joined(levels, |levels|)| == |levels[0]| + |levels[1]|
  {
  }

  lemma FourOperationsHaveTenCandidates(ids: seq<Id>)
    requires |ids| <= 4
    ensures |Candidates(ids)| <= 10
  {
    SmallBinomials();
    JoinedSize(Levels(ids));
    if |ids| >= 3 {
      LevelSize(ids, 0);
    }
    if |ids| == 4 {
      LevelSize(ids, 1);
    }
  }

  // ----- what a report means -----

  /** A reduced report names a verified divergent subset, and no smaller closed subset diverges. */
  lemma ReducedIsSmallest(
    g: Graph, probe: seq<Id> -> Probe, ids: seq<Id>, attempts: seq<seq<Id>>, skipped: nat, limit: nat, t: seq<Id>)
    requires Increasing(ids) && attempts != []
    requires Ended(g, probe, Candidates(ids), attempts, skipped, Witness, limit)
    ensures var s := attempts[|attempts| - 1];
      && IsSubset(ids, |s|, s) && MIN_SUBSET <= |s| < |ids| && DependencyClosed(g, s) && probe(s) == DIVERGENT
      && (MIN_SUBSET <= |t| < |s| && IsSubset(ids, |t|, t) && DependencyClosed(g, t) ==> probe(t) == EQUIVALENT)
  {
    var all := Candidates(ids);
    var k: nat :| EndedAt(g, probe, all, k, attempts, skipped, Witness, limit);
    assert all[k] in all;
    CandidatesExact(ids, |Levels(ids)|, all[k]);
    if MIN_SUBSET <= |t| < |all[k]| && IsSubset(ids, |t|, t) && DependencyClosed(g, t) {
      CandidatesExact(ids, |Levels(ids)|, t);
      var i :| 0 <= i < |all| && all[i] == t;
      if i > k {
        CandidatesBySize(ids, |Levels(ids)|, k, i);
      }
      PassedMeans(g, probe, all[..k], attempts[..|attempts| - 1], skipped);
      assert all[..k][i] == t;
    }
  }

  /** An unusable report rests on a closed candidate that did not replay to a verdict. */
  lemma SpoiledIsReal(
    g: Graph, probe: seq<Id> -> Probe, ids: seq<Id>, attempts: seq<seq<Id>>, skipped: nat, limit: nat)
    requires Increasing(ids) && Ended(g, probe, Candidates(ids), attempts, skipped, Spoiled, limit)
    ensures exists t ::
      MIN_SUBSET <= |t| < |ids| && IsSubset(ids, |t|, t) && DependencyClosed(g, t)
      && probe(t) != EQUIVALENT && probe(t) != DIVERGENT
  {
    var all := Candidates(ids);
    var k: nat :| EndedAt(g, probe, all, k, attempts, skipped, Spoiled, limit);
    assert all[k] in all;
    CandidatesExact(ids, |Levels(ids)|, all[k]);
  }

  /** An unchanged report means that every closed proper subset of two or more operations is equivalent. */
  lemma UnchangedIsMinimal(
    g: Graph, probe: seq<Id> -> Probe, ids: seq<Id>, attempts: seq<seq<Id>>, skipped: nat, t: seq<Id>)
    requires Increasing(ids) && Passed(g, probe, Candidates(ids), attempts, skipped)
    requires MIN_SUBSET <= |t| < |ids| && IsSubset(ids, |t|, t) && DependencyClosed(g, t)
    ensures probe(t) == EQUIVALENT
  {
    CandidatesExact(ids, |Levels(ids)|, t);
    PassedMeans(g, probe, Candidates(ids), attempts, skipped);
  }

  /** With at most four operations the budget of ten attempts never stops the search. */
  lemma TenAttemptsAreEnough(
    g: Graph, probe: seq<Id> -> Probe, ids: seq<Id>, attempts: seq<seq<Id>>, skipped: nat, cause: Cause)
    requires |ids| <= 4
    requires Ended(g, probe, Candidates(ids), attempts, skipped, cause, MAX_ATTEMPTS)
    ensures !cause.OutOfBudget?
  {
    FourOperationsHaveTenCandidates(ids);
    var k: nat :| EndedAt(g, probe, Candidates(ids), k, attempts, skipped, cause, MAX_ATTEMPTS);
    if cause.OutOfBudget? {
      PassedMeans(g, probe, Candidates(ids)[..k], attempts, skipped);
    }
  }

  /** Reduce verified evidence of divergence; anything else is turned away before the search. */
  method Reduce(
    g: Graph, probe: seq<Id> -> Probe, ids: seq<Id>, named: bool, evidence: Verification, divergent: bool,
    readings: nat)
    returns (report: Report, late: bool)
    requires Increasing(ids) && (evidence.Verified? ==> |ids| <= 4)
    ensures !named || evidence.Rejected? || (evidence.Verified? && !divergent) <==> report.status.RejectedInput?
    ensures report.status.Reduced? ==>
      && IsSubset(ids, |report.selected|, report.selected) && MIN_SUBSET <= |report.selected| < |ids|
      && DependencyClosed(g, report.selected) && probe(report.selected) == DIVERGENT
      && forall t :: MIN_SUBSET <= |t| < |report.selected| && IsSubset(ids, |t|, t) && DependencyClosed(g, t)
                     ==> probe(t) == EQUIVALENT
    ensures report.status.Unchanged? ==>
      report.selected == ids
      && forall t :: MIN_SUBSET <= |t| < |ids| && IsSubset(ids, |t|, t) && DependencyClosed(g, t)
                     ==> probe(t) == EQUIVALENT
    ensures report.status.Unusable? ==> evidence.Raised? || exists t ::
      MIN_SUBSET <= |t| < |ids| && IsSubset(ids, |t|, t) && DependencyClosed(g, t)
      && probe(t) != EQUIVALENT && probe(t) != DIVERGENT
    ensures report.status.Exhausted? ==> late
    ensures late ==> readings <= 12
    ensures report.status.UnverifiedInput? <==> named && evidence.Unverified?
  {
    late := false;
    if !named { return Report(RejectedInput, [], [], 0), late; }
    if evidence.Raised? { return Report(Unusable, [], [], 0), late; }
    if evidence.Rejected? { return Report(RejectedInput, [], [], 0), late; }
    if evidence.Unverified? { return Report(UnverifiedInput, [], [], 0), late; }
    if !divergent { return Report(RejectedInput, [], [], 0), late; }
    if |ids| <= MIN_SUBSET { return Report(Unchanged, ids, [], 0), late; }
    var cause, found, attempts, skipped;
    FourOperationsHaveTenCandidates(ids);
    cause, found, attempts, skipped, late := Search(g, probe, Levels(ids), MAX_ATTEMPTS, readings);
    match cause
    case Witness =>
      forall t ensures MIN_SUBSET <= |t| < |found| && IsSubset(ids, |t|, t) && DependencyClosed(g, t)
                       ==> probe(t) == EQUIVALENT
      {
        ReducedIsSmallest(g, probe, ids, attempts, skipped, MAX_ATTEMPTS, t);
      }
      ReducedIsSmallest(g, probe, ids, attempts, skipped, MAX_ATTEMPTS, []);
      report := Report(Reduced, found, attempts, skipped);
    case Spoiled =>
      SpoiledIsReal(g, probe, ids, attempts, skipped, MAX_ATTEMPTS);
      report := Report(Unusable, [], attempts, skipped);
    case Swept =>
      if late { return Report(Exhausted, [], attempts, skipped), late; }
      forall t | MIN_SUBSET <= |t| < |ids| && IsSubset(ids, |t|, t) && DependencyClosed(g, t)
        ensures probe(t) == EQUIVALENT
      {
        UnchangedIsMinimal(g, probe, ids, attempts, skipped, t);
      }
      report := Report(Unchanged, ids, attempts, skipped);
    case _ =>
      TenAttemptsAreEnough(g, probe, ids, attempts, skipped, cause);
      report := Report(Exhausted, [], attempts, skipped);
  }
}
