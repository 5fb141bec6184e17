/** Cost reconciliation over arms: each shared entry is charged with sensitivity bounds, and the
    charges of the arms add up to the ledger. Rationals are exact reals here. */
module Costs {
  import opened Wrappers
  import opened DependencyGraphs

  type AttemptId = nat
  type Arm = nat

  datatype Dimension = Cash | Quota | Wall | Cpu | Rss | Disk | Journal | Processes | Human

  predicate Summed(dim: Dimension) {
    dim != Rss
  }

  datatype Rule = Direct | Equal | Unallocated

  /** An entry of the ledger; a dimension it does not measure is unknown. */
  datatype Entry = Entry(id: nat, targets: set<AttemptId>, rule: Rule, values: map<Dimension, nat>)

  predicate ValidEntry(e: Entry) {
    e.targets != {} && (e.rule == Direct ==> |e.targets| == 1)
  }

  function ValueOf(e: Entry, dim: Dimension): Option<nat> {
    if dim in e.values then Some(e.values[dim]) else None
  }

  function EntryValue(e: Entry, dim: Dimension): real {
    match ValueOf(e, dim) case None => 0.0 case Some(v) => v as real
  }

  // ----- weights -----

  function Scaled(v: real, w: real): real {
    v * w
  }

  function Fraction(k: nat, size: nat): real
    requires size > 0
  {
    k as real / size as real
  }

  lemma ScaledAdds(v: real, a: real, b: real)
    ensures Scaled(v, a + b) == Scaled(v, a) + Scaled(v, b)
  {
  }

  lemma ScaledGrows(v: real, a: real, b: real)
    requires v >= 0.0 && a <= b
    ensures Scaled(v, a) <= Scaled(v, b)
  {
  }

  lemma ScaledUnits(v: real)
    ensures Scaled(v, 0.0) == 0.0 && Scaled(v, 1.0) == v && Scaled(0.0, v) == 0.0
  {
  }

  lemma FractionAdds(j: nat, k: nat, size: nat)
    requires size > 0
    ensures Fraction(j + k, size) == Fraction(j, size) + Fraction(k, size)
  {
  }

  lemma FractionBounds(k: nat, size: nat)
    requires k <= size && size > 0
    ensures 0.0 <= Fraction(k, size) <= 1.0
    ensures k == 0 ==> Fraction(k, size) == 0.0
    ensures k == size ==> Fraction(k, size) == 1.0
  {
  }

  /** An entry with its weights for one arm. No point weight marks a shared entry left out of the
      point estimate. */
  datatype Row = Row(entry: Entry, lower: real, point: Option<real>, upper: real)

  /** How an entry is charged to `members`, if it touches them at all. */
  function RowFor(e: Entry, members: set<AttemptId>): Option<Row>
    requires ValidEntry(e)
  {
    var k, size := |e.targets * members|, |e.targets|;
    if k == size then Some(Row(e, 1.0, Some(1.0), 1.0))
    else if k > 0 then Some(Row(e, 0.0, if e.rule == Equal then Some(Fraction(k, size)) else None, 1.0))
    else None
  }

  /** The entries that touch `members`, with what is certainly, by rule, and at most theirs. */
  function RowsOf(entries: seq<Entry>, members: set<AttemptId>): seq<Row>
    requires forall e :: e in entries ==> ValidEntry(e)
  {
    if entries == [] then [] else
      var n := |entries| - 1;
      assert entries[n] in entries;
      RowsOf(entries[..n], members) +
      match RowFor(entries[n], members) case None => [] case Some(row) => [row]
  }

  /** The rows of the ledger total. */
  function AllRows(entries: seq<Entry>): seq<Row> {
    seq(|entries|, i requires 0 <= i < |entries| => Row(entries[i], 1.0, Some(1.0), 1.0))
  }

  // ----- folding -----

  datatype Bound = Bound(lower: real, point: Option<real>, upper: Option<real>, unknown: set<nat>, unallocated: set<nat>)

  datatype Side = Lower | Point | Upper

  function Weight(row: Row, side: Side): real {
    match side
    case Lower => row.lower
    case Point => if row.point == None then 0.0 else row.point.value
    case Upper => row.upper
  }

  function Accumulate(dim: Dimension, acc: real, value: nat, w: real): real {
    if Summed(dim) then acc + Scaled(value as real, w)
    else var v := if w != 0.0 then value as real else 0.0; if v > acc then v else acc
  }

  function Total(dim: Dimension, rows: seq<Row>, side: Side): real {
    if rows == [] then 0.0 else
      var n := |rows| - 1;
      var before := Total(dim, rows[..n], side);
      match ValueOf(rows[n].entry, dim)
      case None => before
      case Some(v) => Accumulate(dim, before, v, Weight(rows[n], side))
  }

  function UnknownIds(dim: Dimension, rows: seq<Row>): set<nat> {
    set r | r in rows && ValueOf(r.entry, dim) == None :: r.entry.id
  }

  function UnallocatedIds(dim: Dimension, rows: seq<Row>): set<nat> {
    set r | r in rows && ValueOf(r.entry, dim).Some? && r.point == None :: r.entry.id
  }

  function BoundOf(dim: Dimension, rows: seq<Row>): Bound {
    var known := rows != [] && UnknownIds(dim, rows) == {};
    Bound(Total(dim, rows, Lower),
          if known then Some(Total(dim, rows, Point)) else None,
          if known then Some(Total(dim, rows, Upper)) else None,
          UnknownIds(dim, rows), UnallocatedIds(dim, rows))
  }

  lemma TotalNext(dim: Dimension, rows: seq<Row>, i: nat, side: Side)
    requires i < |rows|
    ensures Total(dim, rows[..i + 1], side) ==
      match ValueOf(rows[i].entry, dim)
      case None => Total(dim, rows[..i], side)
      case Some(v) => Accumulate(dim, Total(dim, rows[..i], side), v, Weight(rows[i], side))
  {
    assert rows[..i + 1][..i] == rows[..i];
  }

  lemma IdsAppend(dim: Dimension, rows: seq<Row>, r: Row)
    ensures UnknownIds(dim, rows + [r]) == UnknownIds(dim, rows) + if ValueOf(r.entry, dim) == None then {r.entry.id} else {}
    ensures UnallocatedIds(dim, rows + [r]) ==
            UnallocatedIds(dim, rows) + if ValueOf(r.entry, dim).Some? && r.point == None then {r.entry.id} else {}
  {
    assert forall x :: x in rows + [r] <==> x in rows || x == r;
  }

  /** Folds the rows of one dimension; an unknown measure leaves only the lower bound. */
  method Fold(dim: Dimension, rows: seq<Row>) returns (b: Bound)
    ensures b == BoundOf(dim, rows)
  {
    var lower, point, upper := 0.0, 0.0, 0.0;
    var unknown, unallocated: set<nat> := {}, {};
    var seen := false;
    for i := 0 to |rows|
      invariant seen <==> i > 0
      invariant lower == Total(dim, rows[..i], Lower)
      invariant point == Total(dim, rows[..i], Point)
      invariant upper == Total(dim, rows[..i], Upper)
      invariant unknown == UnknownIds(dim, rows[..i]) && unallocated == UnallocatedIds(dim, rows[..i])
    {
      var r := rows[i];
      assert rows[..i + 1] == rows[..i] + [r];
      TotalNext(dim, rows, i, Lower);
      TotalNext(dim, rows, i, Point);
      TotalNext(dim, rows, i, Upper);
      IdsAppend(dim, rows[..i], r);
      seen := true;
      match ValueOf(r.entry, dim) {
        case None => unknown := unknown + {r.entry.id};
        case Some(value) =>
          var w := 0.0;
          if r.point == None {
            unallocated := unallocated + {r.entry.id};
          } else {
            w := r.point.value;
          }
          lower := Accumulate(dim, lower, value, r.lower);
          point := Accumulate(dim, point, value, w);
          upper := Accumulate(dim, upper, value, r.upper);
      }
    }
    assert rows[..|rows|] == rows;
    var known := seen && unknown == {};
    b := Bound(lower, if known then Some(point) else None, if known then Some(upper) else None, unknown, unallocated);
  }

  // ----- conservation -----

  function Members(attempts: map<AttemptId, Arm>, arm: Arm): set<AttemptId> {
    set a | a in attempts && attempts[a] == arm
  }

  /** Every arm of the ledger once, and every attempt of an entry on one of them. */
  ghost predicate Ledger(entries: seq<Entry>, attempts: map<AttemptId, Arm>, arms: seq<Arm>) {
    && Distinct(arms)
    && (forall a :: a in attempts ==> attempts[a] in arms)
    && (forall e :: e in entries ==> ValidEntry(e) && e.targets <= attempts.Keys)
  }

  /** The share of an entry that one arm is charged. */
  function Share(e: Entry, members: set<AttemptId>, side: Side): real
    requires ValidEntry(e)
  {
    var k, size := |e.targets * members|, |e.targets|;
    if k == size then 1.0
    else if k == 0 then 0.0
    else match side
      case Lower => 0.0
      case Point => if e.rule == Equal then Fraction(k, size) else 0.0
      case Upper => 1.0
  }

  function ChargeSum(dim: Dimension, entries: seq<Entry>, members: set<AttemptId>, side: Side): real
    requires forall e :: e in entries ==> ValidEntry(e)
  {
    if entries == [] then 0.0 else
      var n := |entries| - 1;
      assert entries[n] in entries;
      ChargeSum(dim, entries[..n], members, side) + Scaled(EntryValue(entries[n], dim), Share(entries[n], members, side))
  }

  lemma TotalAppend(dim: Dimension, rows: seq<Row>, r: Row, side: Side)
    requires Summed(dim)
    ensures Total(dim, rows + [r], side) ==
            Total(dim, rows, side) + Scaled(EntryValue(r.entry, dim), Weight(r, side))
  {
    assert (rows + [r])[..|rows|] == rows;
    ScaledUnits(Weight(r, side));
  }

  lemma RowCarriesShare(e: Entry, members: set<AttemptId>, side: Side)
    requires ValidEntry(e)
    ensures RowFor(e, members) == None ==> Share(e, members, side) == 0.0
    ensures RowFor(e, members).Some? ==>
              RowFor(e, members).value.entry == e && Weight(RowFor(e, members).value, side) == Share(e, members, side)
  {
    assert |e.targets| > 0;
  }

  lemma RowsTotalStep(dim: Dimension, before: seq<Row>, e: Entry, members: set<AttemptId>, side: Side)
    requires Summed(dim) && ValidEntry(e)
    ensures Total(dim, before + (match RowFor(e, members) case None => [] case Some(row) => [row]), side) ==
            Total(dim, before, side) + Scaled(EntryValue(e, dim), Share(e, members, side))
  {
    RowCarriesShare(e, members, side);
    match RowFor(e, members) {
      case None =>
        assert before + [] == before;
        ScaledUnits(EntryValue(e, dim));
      case Some(row) => TotalAppend(dim, before, row, side);
    }
  }

  lemma FoldStep(dim: Dimension, entries: seq<Entry>, members: set<AttemptId>, side: Side)
    requires Summed(dim) && entries != [] && forall e :: e in entries ==> ValidEntry(e)
    ensures var n := |entries| - 1;
      entries[n] in entries && (forall e :: e in entries[..n] ==> ValidEntry(e))
      && (Total(dim, RowsOf(entries[..n], members), side) == ChargeSum(dim, entries[..n], members, side) ==>
            Total(dim, RowsOf(entries, members), side) == ChargeSum(dim, entries, members, side))
  {
    var n := |entries| - 1;
    assert entries[n] in entries;
    RowsTotalStep(dim, RowsOf(entries[..n], members), entries[n], members, side);
  }

  /** For a summed dimension an arm's fold is the sum of its shares. */
  lemma {:induction false} FoldIsChargeSum(dim: Dimension, entries: seq<Entry>, members: set<AttemptId>, side: Side)
    requires Summed(dim) && forall e :: e in entries ==> ValidEntry(e)
    ensures Total(dim, RowsOf(entries, members), side) == ChargeSum(dim, entries, members, side)
    decreases |entries|
  {
    if entries != [] {
      FoldStep(dim, entries, members, side);
      FoldIsChargeSum(dim, entries[..|entries| - 1], members, side);
    }
  }

  // ----- the peak of an arm -----

  /** The entry is charged to `members`: for certain when they hold all of its attempts, at most when they hold one,
      and by the rule when the equal rule shares it with them. */
  ghost predicate Charged(e: Entry, members: set<AttemptId>, side: Side) {
    match side
    case Lower => e.targets <= members
    case Point => e.targets <= members || (e.rule == Equal && e.targets * members != {})
    case Upper => e.targets * members != {}
  }

  /** The largest resident set among the charged entries, or zero without any. */
  ghost predicate IsPeak(entries: seq<Entry>, members: set<AttemptId>, side: Side, peak: real) {
    && (forall e :: e in entries && Charged(e, members, side) && Rss in e.values ==> e.values[Rss] as real <= peak)
    && (peak == 0.0 || exists e :: e in entries && Charged(e, members, side) && Rss in e.values
                                   && e.values[Rss] as real == peak)
  }

  lemma ChargedShares(e: Entry, members: set<AttemptId>, side: Side)
    requires ValidEntry(e)
    ensures Share(e, members, side) != 0.0 <==> Charged(e, members, side)
  {
    WholeIntersection(e, members);
    var k, size := |e.targets * members|, |e.targets|;
    assert size > 0 && (k == 0 <==> e.targets * members == {});
    assert Fraction(k, size) == 0.0 <==> k == 0;
  }

  lemma PeakStep(before: seq<Row>, e: Entry, members: set<AttemptId>, side: Side)
    requires ValidEntry(e) && Total(Rss, before, side) >= 0.0
    ensures var was := Total(Rss, before, side);
      var now := Total(Rss, before + (match RowFor(e, members) case None => [] case Some(row) => [row]), side);
      if Charged(e, members, side) && Rss in e.values && e.values[Rss] as real > was
      then now == e.values[Rss] as real else now == was
  {
    RowCarriesShare(e, members, side);
    ChargedShares(e, members, side);
    match RowFor(e, members) {
      case None => assert before + [] == before;
      case Some(row) => assert (before + [row])[..|before|] == before;
    }
  }

  /** A peak is not added up: an arm is charged the largest one among its entries. */
  lemma {:induction false} PeakIsLargest(entries: seq<Entry>, members: set<AttemptId>, side: Side)
    requires forall e :: e in entries ==> ValidEntry(e)
    ensures IsPeak(entries, members, side, Total(Rss, RowsOf(entries, members), side))
    decreases |entries|
  {
    if entries != [] {
      var n := |entries| - 1;
      assert entries[n] in entries;
      assert forall x :: x in entries <==> x in entries[..n] || x == entries[n];
      PeakIsLargest(entries[..n], members, side);
      PeakStep(RowsOf(entries[..n], members), entries[n], members, side);
    }
  }

  // ----- the arms together -----

  /** The sum of the shares of one entry over the arms. */
  function Shares(e: Entry, attempts: map<AttemptId, Arm>, arms: seq<Arm>, side: Side): real
    requires ValidEntry(e)
  {
    if arms == [] then 0.0 else
      Share(e, Members(attempts, arms[0]), side) + Shares(e, attempts, arms[1..], side)
  }

  function ArmsTotal(dim: Dimension, entries: seq<Entry>, attempts: map<AttemptId, Arm>, arms: seq<Arm>, side: Side): real
    requires forall e :: e in entries ==> ValidEntry(e)
  {
    if arms == [] then 0.0 else
      ChargeSum(dim, entries, Members(attempts, arms[0]), side) + ArmsTotal(dim, entries, attempts, arms[1..], side)
  }

  ghost function ChargeOf(
    dim: Dimension, entries: seq<Entry>, attempts: map<AttemptId, Arm>, arm: Arm, side: Side): real
    requires forall e :: e in entries ==> ValidEntry(e)
  {
    ChargeSum(dim, entries, Members(attempts, arm), side)
  }

  ghost function TotalOf(
    dim: Dimension, entries: seq<Entry>, attempts: map<AttemptId, Arm>, arms: seq<Arm>, side: Side): real
    requires forall e :: e in entries ==> ValidEntry(e)
  {
    ArmsTotal(dim, entries, attempts, arms, side)
  }

  /** What one entry adds to the total over the arms. */
  ghost function Added(dim: Dimension, e: Entry, attempts: map<AttemptId, Arm>, arms: seq<Arm>, side: Side): real
    requires ValidEntry(e)
  {
    Scaled(EntryValue(e, dim), Shares(e, attempts, arms, side))
  }

  /** What one entry adds to the charge of one arm. */
  ghost function AddedTo(dim: Dimension, e: Entry, attempts: map<AttemptId, Arm>, arm: Arm, side: Side): real
    requires ValidEntry(e)
  {
    Scaled(EntryValue(e, dim), Share(e, Members(attempts, arm), side))
  }

  lemma ArmNext(dim: Dimension, entries: seq<Entry>, attempts: map<AttemptId, Arm>, arms: seq<Arm>, side: Side)
    requires arms != [] && forall e :: e in entries ==> ValidEntry(e)
    ensures TotalOf(dim, entries, attempts, arms, side) ==
            ChargeOf(dim, entries, attempts, arms[0], side) + TotalOf(dim, entries, attempts, arms[1..], side)
  {
  }

  lemma ChargeNext(
    dim: Dimension, entries: seq<Entry>, before: seq<Entry>, e: Entry, attempts: map<AttemptId, Arm>, arm: Arm, side: Side)
    requires entries == before + [e] && ValidEntry(e) && (forall x :: x in before ==> ValidEntry(x))
    requires forall x :: x in entries ==> ValidEntry(x)
    ensures ChargeOf(dim, entries, attempts, arm, side) ==
            ChargeOf(dim, before, attempts, arm, side) + AddedTo(dim, e, attempts, arm, side)
  {
    assert entries[..|entries| - 1] == before;
  }

  lemma AddedNext(dim: Dimension, e: Entry, attempts: map<AttemptId, Arm>, arms: seq<Arm>, side: Side)
    requires arms != [] && ValidEntry(e)
    ensures Added(dim, e, attempts, arms, side) ==
            AddedTo(dim, e, attempts, arms[0], side) + Added(dim, e, attempts, arms[1..], side)
  {
    ScaledAdds(EntryValue(e, dim), Share(e, Members(attempts, arms[0]), side), Shares(e, attempts, arms[1..], side));
  }

  lemma NoArms(dim: Dimension, entries: seq<Entry>, e: Entry, attempts: map<AttemptId, Arm>, side: Side)
    requires ValidEntry(e) && forall x :: x in entries ==> ValidEntry(x)
    ensures TotalOf(dim, entries, attempts, [], side) == 0.0 && Added(dim, e, attempts, [], side) == 0.0
  {
    ScaledUnits(EntryValue(e, dim));
  }

  /** One more entry adds its value times its shares. */
  lemma {:induction false} TotalExtends(
    dim: Dimension, entries: seq<Entry>, before: seq<Entry>, e: Entry, attempts: map<AttemptId, Arm>, arms: seq<Arm>,
    side: Side)
    requires entries == before + [e] && ValidEntry(e) && (forall x :: x in before ==> ValidEntry(x))
    requires forall x :: x in entries ==> ValidEntry(x)
    ensures TotalOf(dim, entries, attempts, arms, side) ==
            TotalOf(dim, before, attempts, arms, side) + Added(dim, e, attempts, arms, side)
    decreases |arms|
  {
    if arms == [] {
      NoArms(dim, entries, e, attempts, side);
      NoArms(dim, before, e, attempts, side);
    } else {
      TotalExtends(dim, entries, before, e, attempts, arms[1..], side);
      ArmNext(dim, entries, attempts, arms, side);
      ArmNext(dim, before, attempts, arms, side);
      ChargeNext(dim, entries, before, e, attempts, arms[0], side);
      AddedNext(dim, e, attempts, arms, side);
    }
  }

  lemma ArmsTotalExtend(dim: Dimension, entries: seq<Entry>, attempts: map<AttemptId, Arm>, arms: seq<Arm>, side: Side)
    requires entries != [] && forall e :: e in entries ==> ValidEntry(e)
    ensures var n := |entries| - 1;
            entries[n] in entries && (forall e :: e in entries[..n] ==> e in entries) &&
            ArmsTotal(dim, entries, attempts, arms, side) ==
              ArmsTotal(dim, entries[..n], attempts, arms, side) +
              Scaled(EntryValue(entries[n], dim), Shares(entries[n], attempts, arms, side))
  {
    var n := |entries| - 1;
    assert entries[n] in entries;
    TotalExtends(dim, entries, entries[..n], entries[n], attempts, arms, side);
  }

  /** The attempts of an entry that belong to the listed arms. */
  function Covered(e: Entry, attempts: map<AttemptId, Arm>, arms: seq<Arm>): set<AttemptId> {
    set a | a in e.targets && a in attempts && attempts[a] in arms
  }

  lemma CoveredSplit(e: Entry, attempts: map<AttemptId, Arm>, arms: seq<Arm>)
    requires Distinct(arms) && arms != []
    ensures Distinct(arms[1..])
    ensures Covered(e, attempts, arms) == e.targets * Members(attempts, arms[0]) + Covered(e, attempts, arms[1..])
    ensures |Covered(e, attempts, arms)| == |e.targets * Members(attempts, arms[0])| + |Covered(e, attempts, arms[1..])|
  {
    var first, rest := e.targets * Members(attempts, arms[0]), Covered(e, attempts, arms[1..]);
    assert arms == [arms[0]] + arms[1..];
    assert arms[0] !in arms[1..];
    assert first !! rest;
    assert Covered(e, attempts, arms) == first + rest;
  }

  /** The arm that holds all attempts of an entry, if one of the listed arms does. */
  ghost predicate HeldByOne(e: Entry, attempts: map<AttemptId, Arm>, arms: seq<Arm>) {
    exists arm :: arm in arms && e.targets <= Members(attempts, arm)
  }

  lemma WholeIntersection(e: Entry, members: set<AttemptId>)
    ensures |e.targets * members| == |e.targets| <==> e.targets <= members
    ensures |e.targets * members| <= |e.targets|
  {
    SubsetSize(e.targets * members, e.targets);
    if |e.targets * members| == |e.targets| && !(e.targets <= members) {
      var x :| x in e.targets && x !in members;
      SubsetSize(e.targets * members, e.targets - {x});
    }
    if e.targets <= members {
      assert e.targets * members == e.targets;
    }
  }

  lemma HeldSplit(e: Entry, attempts: map<AttemptId, Arm>, arms: seq<Arm>)
    requires e.targets != {} && Distinct(arms) && arms != []
    ensures HeldByOne(e, attempts, arms) <==> e.targets <= Members(attempts, arms[0]) || HeldByOne(e, attempts, arms[1..])
    ensures !(e.targets <= Members(attempts, arms[0]) && HeldByOne(e, attempts, arms[1..]))
  {
    var a :| a in e.targets;
    assert arms[0] in arms && forall arm :: arm in arms ==> arm == arms[0] || arm in arms[1..];
    assert forall arm :: arm in arms[1..] ==> arm in arms && arm != arms[0];
    assert forall arm :: e.targets <= Members(attempts, arm) ==> a in Members(attempts, arm);
  }

  /** The lower shares sum to one exactly when one arm holds the whole entry. */
  lemma {:induction false} LowerShares(e: Entry, attempts: map<AttemptId, Arm>, arms: seq<Arm>)
    requires ValidEntry(e) && Distinct(arms)
    ensures Shares(e, attempts, arms, Lower) == if HeldByOne(e, attempts, arms) then 1.0 else 0.0
    decreases |arms|
  {
    if arms != [] {
      assert Distinct(arms[1..]);
      LowerShares(e, attempts, arms[1..]);
      HeldSplit(e, attempts, arms);
      WholeIntersection(e, Members(attempts, arms[0]));
    }
  }

  lemma EqualShare(e: Entry, members: set<AttemptId>)
    requires ValidEntry(e) && e.rule != Unallocated
    ensures |e.targets| > 0 && Share(e, members, Point) == Fraction(|e.targets * members|, |e.targets|)
  {
    WholeIntersection(e, members);
    assert |e.targets| > 0;
    FractionBounds(|e.targets * members|, |e.targets|);
  }

  lemma EqualSharesStep(e: Entry, attempts: map<AttemptId, Arm>, arms: seq<Arm>)
    requires ValidEntry(e) && e.rule != Unallocated && arms != [] && |e.targets| > 0
    requires Shares(e, attempts, arms[1..], Point) == Fraction(|Covered(e, attempts, arms[1..])|, |e.targets|)
    ensures Shares(e, attempts, arms, Point)
         == Fraction(|e.targets * Members(attempts, arms[0])| + |Covered(e, attempts, arms[1..])|, |e.targets|)
  {
    EqualShare(e, Members(attempts, arms[0]));
    FractionAdds(|e.targets * Members(attempts, arms[0])|, |Covered(e, attempts, arms[1..])|, |e.targets|);
  }

  /** Under the equal rule, and for an entry of one attempt, the shares are the covered fraction. */
  lemma {:induction false} EqualShares(e: Entry, attempts: map<AttemptId, Arm>, arms: seq<Arm>)
    requires ValidEntry(e) && e.rule != Unallocated && Distinct(arms)
    ensures |e.targets| > 0 && Shares(e, attempts, arms, Point) == Fraction(|Covered(e, attempts, arms)|, |e.targets|)
    decreases |arms|
  {
    assert |e.targets| > 0;
    if arms == [] {
      assert Covered(e, attempts, arms) == {};
      FractionBounds(0, |e.targets|);
    } else {
      CoveredSplit(e, attempts, arms);
      EqualShares(e, attempts, arms[1..]);
      EqualSharesStep(e, attempts, arms);
    }
  }

  lemma {:induction false} UnallocatedShares(e: Entry, attempts: map<AttemptId, Arm>, arms: seq<Arm>)
    requires ValidEntry(e) && e.rule == Unallocated
    ensures Shares(e, attempts, arms, Point) == Shares(e, attempts, arms, Lower)
    decreases |arms|
  {
    if arms != [] {
      UnallocatedShares(e, attempts, arms[1..]);
    }
  }

  lemma ShareOrdered(e: Entry, members: set<AttemptId>)
    requires ValidEntry(e)
    ensures 0.0 <= Share(e, members, Lower) <= Share(e, members, Point) <= Share(e, members, Upper)
    ensures e.targets * members != {} ==> Share(e, members, Upper) == 1.0
  {
    WholeIntersection(e, members);
    assert |e.targets| > 0;
    FractionBounds(|e.targets * members|, |e.targets|);
    assert e.targets * members != {} ==> |e.targets * members| > 0;
  }

  /** An arm that the entry touches is charged the whole of it at most. */
  lemma {:induction false} UpperShares(e: Entry, attempts: map<AttemptId, Arm>, arms: seq<Arm>, arm: Arm)
    requires ValidEntry(e)
    ensures Shares(e, attempts, arms, Upper) >= 0.0
    ensures arm in arms && e.targets * Members(attempts, arm) != {} ==> Shares(e, attempts, arms, Upper) >= 1.0
    decreases |arms|
  {
    if arms != [] {
      UpperShares(e, attempts, arms[1..], arm);
      ShareOrdered(e, Members(attempts, arms[0]));
    }
  }

  /** The value an entry leaves out of every point estimate: shared across arms and unallocated. */
  ghost predicate CrossUnallocated(e: Entry, attempts: map<AttemptId, Arm>, arms: seq<Arm>) {
    e.rule == Unallocated && !HeldByOne(e, attempts, arms)
  }

  ghost function LeftOut(dim: Dimension, entries: seq<Entry>, attempts: map<AttemptId, Arm>, arms: seq<Arm>): real {
    if entries == [] then 0.0 else
      var n := |entries| - 1;
      LeftOut(dim, entries[..n], attempts, arms) +
      if CrossUnallocated(entries[n], attempts, arms) then EntryValue(entries[n], dim) else 0.0
  }

  function LedgerTotal(dim: Dimension, entries: seq<Entry>): real {
    if entries == [] then 0.0 else
      LedgerTotal(dim, entries[..|entries| - 1]) + EntryValue(entries[|entries| - 1], dim)
  }

  /** All shares of one entry: the point shares make it whole unless it is left out. */
  lemma EntryShares(e: Entry, attempts: map<AttemptId, Arm>, arms: seq<Arm>)
    requires ValidEntry(e) && Distinct(arms) && e.targets <= attempts.Keys
    requires forall a :: a in attempts ==> attempts[a] in arms
    ensures Shares(e, attempts, arms, Point) == if CrossUnallocated(e, attempts, arms) then 0.0 else 1.0
    ensures Shares(e, attempts, arms, Lower) <= 1.0 <= Shares(e, attempts, arms, Upper)
  {
    assert Covered(e, attempts, arms) == e.targets;
    LowerShares(e, attempts, arms);
    var a :| a in e.targets;
    assert a in e.targets * Members(attempts, attempts[a]);
    UpperShares(e, attempts, arms, attempts[a]);
    if e.rule == Unallocated {
      UnallocatedShares(e, attempts, arms);
    } else {
      EqualShares(e, attempts, arms);
      FractionBounds(|e.targets|, |e.targets|);
    }
  }

  /** What one entry adds to the arms, side by side with what it adds to the ledger. */
  lemma EntryConserves(dim: Dimension, e: Entry, attempts: map<AttemptId, Arm>, arms: seq<Arm>)
    requires ValidEntry(e) && Distinct(arms) && e.targets <= attempts.Keys
    requires forall a :: a in attempts ==> attempts[a] in arms
    ensures var v := EntryValue(e, dim);
            && Scaled(v, Shares(e, attempts, arms, Point)) == (if CrossUnallocated(e, attempts, arms) then 0.0 else v)
            && Scaled(v, Shares(e, attempts, arms, Lower)) <= v <= Scaled(v, Shares(e, attempts, arms, Upper))
  {
    var v := EntryValue(e, dim);
    EntryShares(e, attempts, arms);
    ScaledUnits(v);
    ScaledGrows(v, Shares(e, attempts, arms, Lower), 1.0);
    ScaledGrows(v, 1.0, Shares(e, attempts, arms, Upper));
  }

  lemma LedgerPrefix(entries: seq<Entry>, attempts: map<AttemptId, Arm>, arms: seq<Arm>, n: nat)
    requires Ledger(entries, attempts, arms) && n <= |entries|
    ensures Ledger(entries[..n], attempts, arms)
  {
    assert forall x :: x in entries[..n] ==> x in entries;
  }

  /** Conservation: point costs of the arms and what is left out make up the ledger total. */
  lemma {:induction false} PointsConserve(dim: Dimension, entries: seq<Entry>, attempts: map<AttemptId, Arm>, arms: seq<Arm>)
    requires Ledger(entries, attempts, arms)
    ensures ArmsTotal(dim, entries, attempts, arms, Point) + LeftOut(dim, entries, attempts, arms) == LedgerTotal(dim, entries)
    decreases |entries|
  {
    if entries == [] {
      NoEntries(dim, attempts, arms, Point);
    } else {
      var n := |entries| - 1;
      assert entries[n] in entries;
      LedgerPrefix(entries, attempts, arms, n);
      PointsConserve(dim, entries[..n], attempts, arms);
      ArmsTotalExtend(dim, entries, attempts, arms, Point);
      EntryConserves(dim, entries[n], attempts, arms);
    }
  }

  /** The ledger total lies between the sums of the lower and of the upper costs. */
  lemma {:induction false} BoundsConserve(dim: Dimension, entries: seq<Entry>, attempts: map<AttemptId, Arm>, arms: seq<Arm>)
    requires Ledger(entries, attempts, arms)
    ensures ArmsTotal(dim, entries, attempts, arms, Lower) <= LedgerTotal(dim, entries)
    ensures LedgerTotal(dim, entries) <= ArmsTotal(dim, entries, attempts, arms, Upper)
    decreases |entries|
  {
    if entries == [] {
      NoEntries(dim, attempts, arms, Lower);
      NoEntries(dim, attempts, arms, Upper);
    } else {
      var n := |entries| - 1;
      assert entries[n] in entries;
      LedgerPrefix(entries, attempts, arms, n);
      BoundsConserve(dim, entries[..n], attempts, arms);
      ArmsTotalExtend(dim, entries, attempts, arms, Lower);
      ArmsTotalExtend(dim, entries, attempts, arms, Upper);
      EntryConserves(dim, entries[n], attempts, arms);
    }
  }

  lemma {:induction false} NoEntries(dim: Dimension, attempts: map<AttemptId, Arm>, arms: seq<Arm>, side: Side)
    ensures ArmsTotal(dim, [], attempts, arms, side) == 0.0
    decreases |arms|
  {
    if arms != [] {
      NoEntries(dim, attempts, arms[1..], side);
    }
  }

  // ----- the reported bounds -----

  /** The ledger has no unknown measure in this dimension. */
  predicate FullyMeasured(dim: Dimension, entries: seq<Entry>) {
    forall e | e in entries :: ValueOf(e, dim).Some?
  }

  /** What the report shows for an arm; an untouched arm counts zero. */
  function PointOrZero(b: Bound): real {
    if b.point == None then 0.0 else b.point.value
  }

  function UpperOrZero(b: Bound): real {
    if b.upper == None then 0.0 else b.upper.value
  }

  lemma {:induction false} RowsComeFromEntries(entries: seq<Entry>, members: set<AttemptId>)
    requires forall e :: e in entries ==> ValidEntry(e)
    ensures forall r :: r in RowsOf(entries, members) ==> r.entry in entries
    decreases |entries|
  {
    if entries != [] {
      var n := |entries| - 1;
      assert entries[n] in entries;
      assert forall x :: x in entries[..n] ==> x in entries;
      RowsComeFromEntries(entries[..n], members);
      RowCarriesShare(entries[n], members, Lower);
    }
  }

  /** The bounds reported for one arm are its charges, in order. */
  lemma ArmBounds(dim: Dimension, entries: seq<Entry>, members: set<AttemptId>)
    requires Summed(dim) && (forall e :: e in entries ==> ValidEntry(e)) && FullyMeasured(dim, entries)
    ensures var b := BoundOf(dim, RowsOf(entries, members));
            && b.lower == ChargeSum(dim, entries, members, Lower)
            && PointOrZero(b) == ChargeSum(dim, entries, members, Point)
            && UpperOrZero(b) == ChargeSum(dim, entries, members, Upper)
            && b.lower <= PointOrZero(b) <= UpperOrZero(b)
  {
    var rows := RowsOf(entries, members);
    FoldIsChargeSum(dim, entries, members, Lower);
    FoldIsChargeSum(dim, entries, members, Point);
    FoldIsChargeSum(dim, entries, members, Upper);
    RowsComeFromEntries(entries, members);
    assert UnknownIds(dim, rows) == {};
    ChargesOrdered(dim, entries, members);
  }

  lemma {:induction false} ChargesOrdered(dim: Dimension, entries: seq<Entry>, members: set<AttemptId>)
    requires forall e :: e in entries ==> ValidEntry(e)
    ensures ChargeSum(dim, entries, members, Lower) <= ChargeSum(dim, entries, members, Point) <= ChargeSum(dim, entries, members, Upper)
    decreases |entries|
  {
    if entries != [] {
      var n := |entries| - 1;
      assert entries[n] in entries;
      assert forall x :: x in entries[..n] ==> x in entries;
      ChargesOrdered(dim, entries[..n], members);
      ShareOrdered(entries[n], members);
      ScaledGrows(EntryValue(entries[n], dim), Share(entries[n], members, Lower), Share(entries[n], members, Point));
      ScaledGrows(EntryValue(entries[n], dim), Share(entries[n], members, Point), Share(entries[n], members, Upper));
    }
  }

  function Reported(dim: Dimension, entries: seq<Entry>, attempts: map<AttemptId, Arm>, arms: seq<Arm>, side: Side): real
    requires forall e :: e in entries ==> ValidEntry(e)
  {
    if arms == [] then 0.0 else
      var b := BoundOf(dim, RowsOf(entries, Members(attempts, arms[0])));
      (match side case Lower => b.lower case Point => PointOrZero(b) case Upper => UpperOrZero(b)) +
      Reported(dim, entries, attempts, arms[1..], side)
  }

  lemma {:induction false} ReportedIsArmsTotal(dim: Dimension, entries: seq<Entry>, attempts: map<AttemptId, Arm>, arms: seq<Arm>, side: Side)
    requires Summed(dim) && (forall e :: e in entries ==> ValidEntry(e)) && FullyMeasured(dim, entries)
    ensures Reported(dim, entries, attempts, arms, side) == ArmsTotal(dim, entries, attempts, arms, side)
    decreases |arms|
  {
    if arms != [] {
      ArmBounds(dim, entries, Members(attempts, arms[0]));
      ReportedIsArmsTotal(dim, entries, attempts, arms[1..], side);
    }
  }

  lemma {:induction false} TotalIsLedgerTotal(dim: Dimension, entries: seq<Entry>, side: Side)
    requires Summed(dim)
    ensures Total(dim, AllRows(entries), side) == LedgerTotal(dim, entries)
    decreases |entries|
  {
    if entries != [] {
      var n := |entries| - 1;
      TotalIsLedgerTotal(dim, entries[..n], side);
      assert AllRows(entries) == AllRows(entries[..n]) + [Row(entries[n], 1.0, Some(1.0), 1.0)];
      TotalAppend(dim, AllRows(entries[..n]), Row(entries[n], 1.0, Some(1.0), 1.0), side);
    }
  }

  /** What the report shows adds up: for a fully measured summed dimension the arms' point costs and
      the values left out as unallocated across arms equal the reported total, and the total lies
      between the sums of the arms' lower and upper costs. */
  lemma ReportAddsUp(dim: Dimension, entries: seq<Entry>, attempts: map<AttemptId, Arm>, arms: seq<Arm>)
    requires Summed(dim) && Ledger(entries, attempts, arms) && FullyMeasured(dim, entries)
    ensures var total := BoundOf(dim, AllRows(entries));
            && PointOrZero(total) == total.lower
            && Reported(dim, entries, attempts, arms, Point) + LeftOut(dim, entries, attempts, arms) == PointOrZero(total)
            && Reported(dim, entries, attempts, arms, Lower) <= total.lower
            && PointOrZero(total) <= Reported(dim, entries, attempts, arms, Upper)
  {
    TotalIsLedgerTotal(dim, entries, Lower);
    TotalIsLedgerTotal(dim, entries, Point);
    ReportedIsArmsTotal(dim, entries, attempts, arms, Lower);
    ReportedIsArmsTotal(dim, entries, attempts, arms, Point);
    ReportedIsArmsTotal(dim, entries, attempts, arms, Upper);
    PointsConserve(dim, entries, attempts, arms);
    BoundsConserve(dim, entries, attempts, arms);
    AllRowsKnown(dim, entries);
  }

  lemma AllRowsKnown(dim: Dimension, entries: seq<Entry>)
    requires FullyMeasured(dim, entries)
    ensures UnknownIds(dim, AllRows(entries)) == {}
  {
    forall r | r in AllRows(entries)
      ensures r.entry in entries
    {
      var i :| 0 <= i < |AllRows(entries)| && AllRows(entries)[i] == r;
    }
  }
}
