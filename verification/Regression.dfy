/** Ridge regression by in-place Gauss-Jordan elimination with partial pivoting, over the reals:
    row operations keep the solution set, the loop ends in the identity, and the coefficients it
    leaves minimise the penalised squared error. */
module Regression {
  import opened Wrappers
  import opened Vectors

  type Matrix = seq<Vector>

  function Abs(x: real): real {
    if x < 0.0 then -x else x
  }

  ghost predicate Rectangular(m: Matrix, n: nat) {
    |m| == n && forall r :: 0 <= r < n ==> |m[r]| == n + 1
  }

  /** A row is an equation: its scalar product with the unknowns and a last entry (-1 for the system,
      0 for its homogeneous part) vanishes. */
  ghost predicate Solves(m: Matrix, n: nat, y: Vector)
    requires Rectangular(m, n) && |y| == n + 1
  {
    forall r :: 0 <= r < n ==> Dot(m[r], y) == 0.0
  }

  ghost function Solutions(m: Matrix, n: nat): iset<Vector>
    requires Rectangular(m, n)
  {
    iset y: Vector | |y| == n + 1 && Solves(m, n, y)
  }

  /** Two systems are equivalent when they have the same solutions. */
  ghost predicate Equivalent(m: Matrix, m': Matrix, n: nat)
    requires Rectangular(m, n) && Rectangular(m', n)
  {
    Solutions(m, n) == Solutions(m', n)
  }

  lemma SameSolutions(m: Matrix, m': Matrix, n: nat)
    requires Rectangular(m, n) && Rectangular(m', n)
    requires forall y: Vector :: |y| == n + 1 ==> (Solves(m, n, y) <==> Solves(m', n, y))
    ensures Equivalent(m, m', n)
  {
    assert forall y :: y in Solutions(m, n) <==> y in Solutions(m', n);
  }

  lemma EquivalentSolves(m: Matrix, m': Matrix, n: nat, y: Vector)
    requires Rectangular(m, n) && Rectangular(m', n) && Equivalent(m, m', n) && |y| == n + 1
    ensures Solves(m, n, y) <==> Solves(m', n, y)
  {
    assert y in Solutions(m, n) <==> y in Solutions(m', n);
  }

  // ----- row operations -----

  lemma SwapEquivalent(m: Matrix, n: nat, i: nat, j: nat)
    requires Rectangular(m, n) && i < n && j < n
    ensures Rectangular(m[i := m[j]][j := m[i]], n) && Equivalent(m, m[i := m[j]][j := m[i]], n)
  {
    var m' := m[i := m[j]][j := m[i]];
    forall y: Vector | |y| == n + 1
      ensures Solves(m, n, y) <==> Solves(m', n, y)
    {
      if Solves(m', n, y) {
        assert m'[i] == m[j] && m'[j] == m[i];
        forall r | 0 <= r < n
          ensures Dot(m[r], y) == 0.0
        {
          assert Dot(m'[i], y) == 0.0 && Dot(m'[j], y) == 0.0 && Dot(m'[r], y) == 0.0;
        }
      }
    }
    SameSolutions(m, m', n);
  }

  function Divided(row: Vector, divisor: real): Vector
    requires divisor != 0.0
  {
    seq(|row|, k requires 0 <= k < |row| => row[k] / divisor)
  }

  lemma DotDivided(row: Vector, divisor: real, y: Vector)
    requires divisor != 0.0 && |row| == |y|
    ensures Dot(Divided(row, divisor), y) == Dot(row, y) / divisor
  {
    var c := 1.0 / divisor;
    forall k | 0 <= k < |row|
      ensures Divided(row, divisor)[k] == AddScaled(Zeros(|row|), c, row)[k]
    {
      assert row[k] / divisor == c * row[k];
    }
    assert Divided(row, divisor) == AddScaled(Zeros(|row|), c, row);
    DotAddScaled(Zeros(|row|), c, row, y);
    DotZero(Zeros(|row|), y);
    assert c * Dot(row, y) == Dot(row, y) / divisor;
  }

  lemma ScaleEquivalent(m: Matrix, n: nat, i: nat, divisor: real)
    requires Rectangular(m, n) && i < n && divisor != 0.0
    ensures Rectangular(m[i := Divided(m[i], divisor)], n) && Equivalent(m, m[i := Divided(m[i], divisor)], n)
  {
    var m' := m[i := Divided(m[i], divisor)];
    forall y: Vector | |y| == n + 1
      ensures Solves(m, n, y) <==> Solves(m', n, y)
    {
      DotDivided(m[i], divisor, y);
      var d := Dot(m[i], y);
      assert d / divisor == 0.0 <==> d == 0.0;
      if Solves(m', n, y) {
        forall r | 0 <= r < n
          ensures Dot(m[r], y) == 0.0
        {
          assert Dot(m'[r], y) == 0.0;
        }
      }
    }
    SameSolutions(m, m', n);
  }

  /** Row `j` less the multiple of row `i` that clears its entry in column `i`. */
  function Subtracted(m: Matrix, n: nat, i: nat, j: nat): (r: Matrix)
    requires Rectangular(m, n) && i < n && j < n
    ensures Rectangular(r, n)
  {
    m[j := AddScaled(m[j], -m[j][i], m[i])]
  }

  lemma EliminateEquivalent(m: Matrix, n: nat, i: nat, j: nat)
    requires Rectangular(m, n) && i < n && j < n && i != j
    ensures Equivalent(m, Subtracted(m, n, i, j), n)
  {
    var m' := Subtracted(m, n, i, j);
    forall y: Vector | |y| == n + 1
      ensures Solves(m, n, y) <==> Solves(m', n, y)
    {
      DotAddScaled(m[j], -m[j][i], m[i], y);
      if Solves(m', n, y) {
        assert m'[i] == m[i];
        assert Dot(m'[i], y) == 0.0 && Dot(m'[j], y) == 0.0;
        forall r | 0 <= r < n
          ensures Dot(m[r], y) == 0.0
        {
          assert Dot(m'[r], y) == 0.0;
        }
      }
    }
    SameSolutions(m, m', n);
  }

  // ----- elimination -----

  function Unit(r: nat, c: nat): real {
    if r == c then 1.0 else 0.0
  }

  /** The first `k` columns are those of the identity. */
  ghost predicate Reduced(m: Matrix, n: nat, k: nat)
    requires Rectangular(m, n) && k <= n
  {
    forall r, c :: 0 <= r < n && 0 <= c < k ==> m[r][c] == Unit(r, c)
  }

  /** The only solution of the homogeneous system is zero. */
  ghost predicate Regular(m: Matrix, n: nat)
    requires Rectangular(m, n)
  {
    forall d: Vector :: |d| == n && Solves(m, n, d + [0.0]) ==> d == Zeros(n)
  }

  /** The dependence among the columns that a missing pivot in column `i` would leave. */
  ghost function NullVector(m: Matrix, n: nat, i: nat): Vector
    requires Rectangular(m, n) && i < n
  {
    seq(n, c requires 0 <= c < n => if c < i then -m[c][i] else if c == i then 1.0 else 0.0)
  }

  lemma NullVectorSolves(m: Matrix, n: nat, i: nat)
    requires Rectangular(m, n) && i < n && Reduced(m, n, i)
    requires forall r :: i <= r < n ==> m[r][i] == 0.0
    ensures Solves(m, n, NullVector(m, n, i) + [0.0])
  {
    var y := NullVector(m, n, i) + [0.0];
    forall r | 0 <= r < n
      ensures Dot(m[r], y) == 0.0
    {
      var p := Products(m[r], y);
      assert p[i] == m[r][i];
      forall k | 0 <= k < |p| && k != i && k != r
        ensures p[k] == 0.0
      {
        assert k < i ==> m[r][k] == Unit(r, k);
      }
      if r < i {
        assert m[r][r] == Unit(r, r);
        assert p[r] == -m[r][i];
        SumTwo(p, r, i);
      } else {
        assert r == i || p[r] == 0.0;
        SumSingle(p, i);
      }
    }
  }

  lemma PivotExists(m: Matrix, n: nat, i: nat)
    requires Rectangular(m, n) && i < n && Reduced(m, n, i) && Regular(m, n)
    ensures exists r :: i <= r < n && m[r][i] != 0.0
  {
    assert NullVector(m, n, i)[i] == 1.0 && Zeros(n)[i] == 0.0;
    if forall r :: i <= r < n ==> m[r][i] == 0.0 {
      NullVectorSolves(m, n, i);
    }
  }

  lemma EquivalentRegular(m: Matrix, m': Matrix, n: nat)
    requires Rectangular(m, n) && Rectangular(m', n) && Equivalent(m, m', n) && Regular(m, n)
    ensures Regular(m', n)
  {
    forall d: Vector | |d| == n && Solves(m', n, d + [0.0])
      ensures d == Zeros(n)
    {
      EquivalentSolves(m, m', n, d + [0.0]);
    }
  }

  /** The first row with the largest entry of column `i` among the rows from `i` up to `j`. */
  function Largest(m: Matrix, n: nat, i: nat, j: nat): (p: nat)
    requires Rectangular(m, n) && i < j <= n
    ensures i <= p < j
  {
    if j == i + 1 then i else
    var p := Largest(m, n, i, j - 1);
    if Abs(m[j - 1][i]) > Abs(m[p][i]) then j - 1 else p
  }

  lemma {:induction false} LargestIsFirst(m: Matrix, n: nat, i: nat, j: nat)
    requires Rectangular(m, n) && i < j <= n
    ensures forall r :: i <= r < j ==> Abs(m[r][i]) <= Abs(m[Largest(m, n, i, j)][i])
    ensures forall r :: i <= r < Largest(m, n, i, j) ==> Abs(m[r][i]) < Abs(m[Largest(m, n, i, j)][i])
    decreases j
  {
    if j > i + 1 {
      LargestIsFirst(m, n, i, j - 1);
    }
  }

  method PivotRow(matrix: array<Vector>, i: nat) returns (pivot: nat)
    requires i < matrix.Length && Rectangular(matrix[..], matrix.Length)
    ensures i <= pivot < matrix.Length
    ensures forall r :: i <= r < matrix.Length ==> Abs(matrix[r][i]) <= Abs(matrix[pivot][i])
    ensures forall r :: i <= r < pivot ==> Abs(matrix[r][i]) < Abs(matrix[pivot][i])
    ensures pivot == Largest(matrix[..], matrix.Length, i, matrix.Length)
  {
    assert forall r :: 0 <= r < matrix.Length ==> |matrix[..][r]| == |matrix[r]|;
    pivot := i;
    for j := i + 1 to matrix.Length
      invariant pivot == Largest(matrix[..], matrix.Length, i, j)
    {
      if Abs(matrix[j][i]) > Abs(matrix[pivot][i]) {
        pivot := j;
      }
    }
    LargestIsFirst(matrix[..], matrix.Length, i, matrix.Length);
  }

  /** The matrix after column `i` has been cleared in its first `j` rows. */
  ghost function Cleared(m: Matrix, n: nat, i: nat, j: nat): (r: Matrix)
    requires Rectangular(m, n) && i < n && j <= n
    ensures Rectangular(r, n)
  {
    if j == 0 then m
    else if i == j - 1 then Cleared(m, n, i, j - 1)
    else Subtracted(Cleared(m, n, i, j - 1), n, i, j - 1)
  }

  lemma {:induction false} ClearedIsEquivalent(m: Matrix, n: nat, i: nat, j: nat)
    requires Rectangular(m, n) && i < n && j <= n
    ensures Equivalent(m, Cleared(m, n, i, j), n)
    decreases j
  {
    if j > 0 {
      ClearedIsEquivalent(m, n, i, j - 1);
      if i != j - 1 {
        EliminateEquivalent(Cleared(m, n, i, j - 1), n, i, j - 1);
      }
    }
  }

  /** The rows before `j` are clear in column `i`, where row `i` holds the pivot. */
  ghost predicate Clearing(m: Matrix, n: nat, i: nat, j: nat)
    requires Rectangular(m, n) && i < n && j <= n
  {
    && Reduced(m, n, i) && m[i][i] == 1.0
    && forall r :: 0 <= r < j ==> m[r][i] == Unit(r, i)
  }

  lemma SubtractedIsClear(m: Matrix, n: nat, i: nat, j: nat)
    requires Rectangular(m, n) && i < n && j < n && i != j && Clearing(m, n, i, j)
    ensures Clearing(Subtracted(m, n, i, j), n, i, j + 1)
  {
    var row := AddScaled(m[j], -m[j][i], m[i]);
    forall c | 0 <= c <= i
      ensures row[c] == Unit(j, c)
    {
      if c < i {
        assert m[i][c] == Unit(i, c) && m[j][c] == Unit(j, c);
      }
    }
  }

  lemma {:induction false} ClearedIsReduced(m: Matrix, n: nat, i: nat, j: nat)
    requires Rectangular(m, n) && i < n && j <= n && Reduced(m, n, i) && m[i][i] == 1.0
    ensures Clearing(Cleared(m, n, i, j), n, i, j)
    ensures j == n ==> Reduced(Cleared(m, n, i, j), n, i + 1)
  {
    if j > 0 {
      ClearedIsReduced(m, n, i, j - 1);
      if i != j - 1 {
        SubtractedIsClear(Cleared(m, n, i, j - 1), n, i, j - 1);
      }
    }
  }

  // ----- the elimination as a function of the equations -----

  function Exchanged(m: Matrix, n: nat, i: nat): (r: Matrix)
    requires Rectangular(m, n) && i < n
    ensures Rectangular(r, n)
  {
    var p := Largest(m, n, i, n);
    m[i := m[p]][p := m[i]]
  }

  /** The pivot of column `i`: its largest entry from the diagonal on. */
  function Pivot(m: Matrix, n: nat, i: nat): real
    requires Rectangular(m, n) && i < n
  {
    m[Largest(m, n, i, n)][i]
  }

  /** The row with the pivot moves up and is divided by the pivot, then the column is cleared. */
  ghost function ColumnDone(m: Matrix, n: nat, i: nat): (r: Matrix)
    requires Rectangular(m, n) && i < n
    ensures Rectangular(r, n)
  {
    if Pivot(m, n, i) == 0.0 then m else
    var x := Exchanged(m, n, i);
    Cleared(x[i := Divided(x[i], Pivot(m, n, i))], n, i, n)
  }

  /** The equations after the first `i` columns. */
  ghost function Stage(m: Matrix, n: nat, i: nat): (r: Matrix)
    requires Rectangular(m, n) && i <= n
    ensures Rectangular(r, n)
  {
    if i == 0 then m else ColumnDone(Stage(m, n, i - 1), n, i - 1)
  }

  /** The pivot met in column `i`. */
  ghost function PivotAt(m: Matrix, n: nat, i: nat): real
    requires Rectangular(m, n) && i < n
  {
    Pivot(Stage(m, n, i), n, i)
  }

  const THRESHOLD: real := 0.000000000001

  /** The first `i` pivots are beyond the threshold. */
  ghost predicate PivotsPass(m: Matrix, n: nat, i: nat)
    requires Rectangular(m, n) && i <= n
  {
    forall k :: 0 <= k < i ==> Abs(PivotAt(m, n, k)) > THRESHOLD
  }

  /** Column `i` holds the first pivot within the threshold. */
  ghost predicate StopsAt(m: Matrix, n: nat, i: nat)
    requires Rectangular(m, n)
  {
    i < n && PivotsPass(m, n, i) && Abs(PivotAt(m, n, i)) <= THRESHOLD
  }

  ghost predicate StopsWith(m: Matrix, n: nat, i: nat, pivot: real)
    requires Rectangular(m, n)
  {
    StopsAt(m, n, i) && pivot == PivotAt(m, n, i)
  }

  lemma ExchangedKeeps(m: Matrix, n: nat, i: nat)
    requires Rectangular(m, n) && i < n
    ensures Equivalent(m, Exchanged(m, n, i), n)
    ensures Exchanged(m, n, i)[i][i] == Pivot(m, n, i)
    ensures Reduced(m, n, i) ==> Reduced(Exchanged(m, n, i), n, i)
  {
    var p := Largest(m, n, i, n);
    SwapEquivalent(m, n, i, p);
    if Reduced(m, n, i) {
      assert forall c :: 0 <= c < i ==> m[i][c] == Unit(i, c) && m[p][c] == Unit(p, c);
    }
  }

  /** A column with a nonzero pivot is reduced without changing the solutions. */
  lemma ColumnDoneKeeps(m: Matrix, n: nat, i: nat)
    requires Rectangular(m, n) && i < n && Reduced(m, n, i) && Pivot(m, n, i) != 0.0
    ensures Equivalent(m, ColumnDone(m, n, i), n) && Reduced(ColumnDone(m, n, i), n, i + 1)
  {
    var x := Exchanged(m, n, i);
    ExchangedKeeps(m, n, i);
    ScaleEquivalent(x, n, i, x[i][i]);
    DividedStaysReduced(x, n, i);
    var y := x[i := Divided(x[i], x[i][i])];
    ClearedIsEquivalent(y, n, i, n);
    ClearedIsReduced(y, n, i, n);
  }

  lemma {:induction false} StageKeeps(m: Matrix, n: nat, i: nat)
    requires Rectangular(m, n) && i <= n && PivotsPass(m, n, i)
    ensures Equivalent(m, Stage(m, n, i), n) && Reduced(Stage(m, n, i), n, i)
    decreases i
  {
    if i > 0 {
      StageKeeps(m, n, i - 1);
      assert Abs(PivotAt(m, n, i - 1)) > THRESHOLD;
      ColumnDoneKeeps(Stage(m, n, i - 1), n, i - 1);
    }
  }

  /** In a system with one solution no pivot is zero, and it is the largest entry left in its column. */
  lemma PivotIsLargest(m: Matrix, n: nat, i: nat)
    requires Rectangular(m, n) && i < n && PivotsPass(m, n, i)
    ensures forall r :: i <= r < n ==> Abs(Stage(m, n, i)[r][i]) <= Abs(PivotAt(m, n, i))
    ensures Regular(m, n) ==> PivotAt(m, n, i) != 0.0
  {
    StageKeeps(m, n, i);
    LargestIsFirst(Stage(m, n, i), n, i, n);
    if Regular(m, n) {
      EquivalentRegular(m, Stage(m, n, i), n);
      PivotExists(Stage(m, n, i), n, i);
    }
  }

  lemma DividedStaysReduced(m: Matrix, n: nat, i: nat)
    requires Rectangular(m, n) && i < n && Reduced(m, n, i) && m[i][i] != 0.0
    ensures var m' := m[i := Divided(m[i], m[i][i])];
            Rectangular(m', n) && Reduced(m', n, i) && m'[i][i] == 1.0
  {
    var row := Divided(m[i], m[i][i]);
    forall c | 0 <= c < i
      ensures row[c] == Unit(i, c)
    {
      assert m[i][c] == Unit(i, c) == 0.0;
    }
  }

  // ----- the elimination in place -----

  /** Swaps the pivot row of column `i` into place. */
  method SwapInPivot(matrix: array<Vector>, i: nat)
    requires i < matrix.Length && Rectangular(matrix[..], matrix.Length)
    modifies matrix
    ensures matrix[..] == old(Exchanged(matrix[..], matrix.Length, i))
  {
    var pivot := PivotRow(matrix, i);
    ghost var before := matrix[..];
    matrix[i], matrix[pivot] := matrix[pivot], matrix[i];
    assert matrix[..] == before[i := before[pivot]][pivot := before[i]];
  }

  /** Divides row `i` by its pivot. */
  method NormalisePivot(matrix: array<Vector>, i: nat)
    requires i < matrix.Length && Rectangular(matrix[..], matrix.Length) && matrix[i][i] != 0.0
    modifies matrix
    ensures matrix[..] == old(matrix[..][i := Divided(matrix[i], matrix[i][i])])
  {
    var divisor := matrix[i][i];
    matrix[i] := Divided(matrix[i], divisor);
  }

  /** Subtracts multiples of row `i` from every other row, which clears column `i` outside it. */
  method ClearColumn(matrix: array<Vector>, i: nat)
    requires i < matrix.Length && Rectangular(matrix[..], matrix.Length)
    modifies matrix
    ensures matrix[..] == old(Cleared(matrix[..], matrix.Length, i, matrix.Length))
    ensures Equivalent(old(matrix[..]), matrix[..], matrix.Length)
    ensures old(Reduced(matrix[..], matrix.Length, i) && matrix[i][i] == 1.0) ==>
              Reduced(matrix[..], matrix.Length, i + 1)
  {
    var n := matrix.Length;
    ghost var start := matrix[..];
    for j := 0 to n
      invariant matrix[..] == Cleared(start, n, i, j)
    {
      if i == j {
        continue;
      }
      ghost var before := matrix[..];
      assert before[j] == matrix[j] && before[i] == matrix[i];
      var factor := matrix[j][i];
      matrix[j] := AddScaled(matrix[j], -factor, matrix[i]);
      assert matrix[..] == Subtracted(before, n, i, j);
    }
    ClearedIsEquivalent(start, n, i, n);
    if Reduced(start, n, i) && start[i][i] == 1.0 {
      ClearedIsReduced(start, n, i, n);
    }
  }

  datatype Elimination = Finished | PivotTooSmall(pivot: real)

  /** Turns the coefficient columns into the identity without changing the solution set, and stops exactly at
      the first pivot within the threshold. Where it stops, the entries left in that column are no larger. */
  method GaussJordan(matrix: array<Vector>) returns (e: Elimination)
    requires Rectangular(matrix[..], matrix.Length)
    modifies matrix
    ensures e == Finished <==> old(PivotsPass(matrix[..], matrix.Length, matrix.Length))
    ensures e == Finished ==>
              && matrix[..] == old(Stage(matrix[..], matrix.Length, matrix.Length))
              && Equivalent(old(matrix[..]), matrix[..], matrix.Length)
              && Reduced(matrix[..], matrix.Length, matrix.Length)
    ensures e.PivotTooSmall? ==>
              exists i: nat :: old(StopsWith(matrix[..], matrix.Length, i, e.pivot))
                && matrix[..] == old(Exchanged(Stage(matrix[..], matrix.Length, i), matrix.Length, i))
  {
    var n := matrix.Length;
    ghost var start := matrix[..];
    for i := 0 to n
      invariant matrix[..] == Stage(start, n, i) && PivotsPass(start, n, i)
    {
      SwapInPivot(matrix, i);
      ExchangedKeeps(Stage(start, n, i), n, i);
      if Abs(matrix[i][i]) <= THRESHOLD {
        assert StopsWith(start, n, i, matrix[i][i]);
        return PivotTooSmall(matrix[i][i]);
      }
      NormalisePivot(matrix, i);
      ClearColumn(matrix, i);
    }
    StageKeeps(start, n, n);
    return Finished;
  }

  /** Once the coefficients are the identity, the last column is the one solution. */
  lemma IdentitySolution(m: Matrix, n: nat, x: Vector)
    requires Rectangular(m, n) && Reduced(m, n, n) && |x| == n
    ensures Solves(m, n, x + [-1.0]) <==> forall r :: 0 <= r < n ==> x[r] == m[r][n]
  {
    var y := x + [-1.0];
    forall r | 0 <= r < n
      ensures Dot(m[r], y) == x[r] - m[r][n]
    {
      var p := Products(m[r], y);
      assert m[r][r] == Unit(r, r);
      forall k | 0 <= k < |p| && k != r && k != n
        ensures p[k] == 0.0
      {
        assert m[r][k] == Unit(r, k);
      }
      SumTwo(p, r, n);
    }
  }

  // ----- the normal equations -----

  function Gram(design: seq<Vector>, i: nat, j: nat): real
    requires forall row :: row in design ==> i < |row| && j < |row|
  {
    if design == [] then 0.0 else
      var k := |design| - 1;
      assert design[k] in design;
      Gram(design[..k], i, j) + design[k][i] * design[k][j]
  }

  function Moment(design: seq<Vector>, outcomes: Vector, i: nat): real
    requires |design| == |outcomes| && forall row :: row in design ==> i < |row|
  {
    if design == [] then 0.0 else
      var k := |design| - 1;
      assert design[k] in design;
      Moment(design[..k], outcomes[..k], i) + design[k][i] * outcomes[k]
  }

  ghost predicate Widths(design: seq<Vector>, outcomes: Vector, n: nat) {
    |design| == |outcomes| && forall row :: row in design ==> |row| == n
  }

  /** One row of the matrix that is built before the elimination. */
  function NormalRow(design: seq<Vector>, outcomes: Vector, ridge: real, n: nat, i: nat): Vector
    requires |design| == |outcomes| && (forall row :: row in design ==> |row| == n) && i < n
  {
    seq(n + 1, j requires 0 <= j < n + 1 =>
      if j < n then Gram(design, i, j) + (if i == j && i > 0 then ridge else 0.0) else Moment(design, outcomes, i))
  }

  function NormalMatrix(design: seq<Vector>, outcomes: Vector, ridge: real, n: nat): Matrix
    requires |design| == |outcomes| && (forall row :: row in design ==> |row| == n)
  {
    seq(n, i requires 0 <= i < n => NormalRow(design, outcomes, ridge, n, i))
  }

  /** The weights without the intercept. */
  function Penalised(w: Vector): Vector {
    seq(|w|, k requires 0 <= k < |w| => if k == 0 then 0.0 else w[k])
  }

  /** What a sample adds to the equations at `w`, with last entry `t`. */
  function Residual(row: Vector, outcome: real, w: Vector, t: real): real
    requires |row| == |w|
  {
    Dot(row, w) + outcome * t
  }

  /** The gradient of half the squared error, for last entry -1; its linear part for 0. */
  function Score(design: seq<Vector>, outcomes: Vector, w: Vector, t: real): (s: Vector)
    requires |design| == |outcomes| && forall row :: row in design ==> |row| == |w|
    ensures |s| == |w|
  {
    if design == [] then Zeros(|w|) else
      var k := |design| - 1;
      assert design[k] in design;
      AddScaled(Score(design[..k], outcomes[..k], w, t), Residual(design[k], outcomes[k], w, t), design[k])
  }

  lemma NormalRowEmpty(ridge: real, n: nat, i: nat, w: Vector, t: real)
    requires i < n == |w|
    ensures Dot(NormalRow([], [], ridge, n, i), w + [t]) == ridge * Penalised(w)[i]
  {
    var row := NormalRow([], [], ridge, n, i);
    var p := Products(row, w + [t]);
    forall k | 0 <= k < n + 1
      ensures row[k] == if k == i && i > 0 then ridge else 0.0
    {
      assert k < n ==> Gram([], i, k) == 0.0;
      assert Moment([], [], i) == 0.0;
    }
    SumSingle(p, i);
  }

  lemma NormalRowExtend(design: seq<Vector>, outcomes: Vector, ridge: real, n: nat, i: nat)
    requires Widths(design, outcomes, n) && design != [] && i < n
    ensures var k := |design| - 1;
            design[k] in design &&
            Widths(design[..k], outcomes[..k], n) &&
            NormalRow(design, outcomes, ridge, n, i) ==
              AddScaled(NormalRow(design[..k], outcomes[..k], ridge, n, i), design[k][i], design[k] + [outcomes[k]])
  {
    var k := |design| - 1;
    assert design[k] in design;
    assert forall row :: row in design[..k] ==> row in design;
    var left := NormalRow(design, outcomes, ridge, n, i);
    var init := NormalRow(design[..k], outcomes[..k], ridge, n, i);
    var right := AddScaled(init, design[k][i], design[k] + [outcomes[k]]);
    forall j | 0 <= j < n + 1
      ensures left[j] == right[j]
    {
      if j < n {
        assert Gram(design, i, j) == Gram(design[..k], i, j) + design[k][i] * design[k][j];
      } else {
        assert Moment(design, outcomes, i) == Moment(design[..k], outcomes[..k], i) + design[k][i] * outcomes[k];
      }
    }
    assert left == right;
  }

  /** An equation of the normal matrix says that the gradient plus the penalty vanishes there. */
  lemma {:induction false} NormalRowMeaning(design: seq<Vector>, outcomes: Vector, ridge: real, n: nat, i: nat, w: Vector, t: real)
    requires Widths(design, outcomes, n) && i < n == |w|
    ensures Dot(NormalRow(design, outcomes, ridge, n, i), w + [t]) ==
            Score(design, outcomes, w, t)[i] + ridge * Penalised(w)[i]
    decreases |design|
  {
    if design == [] {
      NormalRowEmpty(ridge, n, i, w, t);
    } else {
      var k := |design| - 1;
      LastSampleInRow(design, outcomes, ridge, n, i, w, t);
      LastSampleInScore(design, outcomes, w, t, i);
      NormalRowMeaning(design[..k], outcomes[..k], ridge, n, i, w, t);
    }
  }

  lemma LastSampleInRow(design: seq<Vector>, outcomes: Vector, ridge: real, n: nat, i: nat, w: Vector, t: real)
    requires Widths(design, outcomes, n) && i < n == |w| && design != []
    ensures var k := |design| - 1;
      |design[k]| == n && Widths(design[..k], outcomes[..k], n)
      && Dot(NormalRow(design, outcomes, ridge, n, i), w + [t]) ==
         Dot(NormalRow(design[..k], outcomes[..k], ridge, n, i), w + [t])
           + Times(Residual(design[k], outcomes[k], w, t), design[k][i])
  {
    var k := |design| - 1;
    NormalRowExtend(design, outcomes, ridge, n, i);
    DotAddScaled(NormalRow(design[..k], outcomes[..k], ridge, n, i), design[k][i], design[k] + [outcomes[k]], w + [t]);
    DotAppend(design[k], w, outcomes[k], t);
  }

  lemma LastSampleInScore(design: seq<Vector>, outcomes: Vector, w: Vector, t: real, i: nat)
    requires Widths(design, outcomes, |w|) && i < |w| && design != []
    ensures var k := |design| - 1;
      |design[k]| == |w| && Widths(design[..k], outcomes[..k], |w|)
      && Score(design, outcomes, w, t)[i] ==
         Score(design[..k], outcomes[..k], w, t)[i] + Times(Residual(design[k], outcomes[k], w, t), design[k][i])
  {
    ScoreOfLast(design, outcomes, w, t);
  }

  // ----- the ridge objective -----

  /** Sum of the squared residuals at `w`. */
  function SquaredError(design: seq<Vector>, outcomes: Vector, w: Vector): real
    requires |design| == |outcomes| && forall row :: row in design ==> |row| == |w|
  {
    if design == [] then 0.0 else
      var k := |design| - 1;
      assert design[k] in design;
      var e := Dot(design[k], w) - outcomes[k];
      SquaredError(design[..k], outcomes[..k], w) + Square(e)
  }

  /** Squared error plus the ridge on the weights other than the intercept. */
  function Objective(design: seq<Vector>, outcomes: Vector, ridge: real, w: Vector): real
    requires |design| == |outcomes| && forall row :: row in design ==> |row| == |w|
  {
    SquaredError(design, outcomes, w) + Times(ridge, Dot(Penalised(w), w))
  }

  /** The quadratic part of the objective along a direction. */
  function Curvature(design: seq<Vector>, d: Vector): real
    requires forall row :: row in design ==> |row| == |d|
  {
    if design == [] then 0.0 else
      var k := |design| - 1;
      assert design[k] in design;
      Curvature(design[..k], d) + Square(Dot(design[k], d))
  }

  lemma {:induction false} ErrorExpands(design: seq<Vector>, outcomes: Vector, w: Vector, d: Vector)
    requires Widths(design, outcomes, |w|) && |d| == |w|
    ensures SquaredError(design, outcomes, AddScaled(w, 1.0, d)) ==
            SquaredError(design, outcomes, w) + 2.0 * Dot(Score(design, outcomes, w, -1.0), d) + Curvature(design, d)
    decreases |design|
  {
    if design == [] {
      DotZero(Zeros(|w|), d);
    } else {
      var k := |design| - 1;
      LastSampleInError(design, outcomes, w);
      LastSampleInError(design, outcomes, AddScaled(w, 1.0, d));
      LastSampleInSlope(design, outcomes, w, -1.0, d);
      ResidualAt(design[k], outcomes[k], w);
      LastSampleInCurvature(design, d);
      ErrorExpands(design[..k], outcomes[..k], w, d);
      DotAddScaledRight(design[k], w, 1.0, d);
      SquareOfSum(Dot(design[k], w) - outcomes[k], Dot(design[k], d));
    }
  }

  lemma SquareOfSum(e: real, x: real)
    ensures Square(e + x) == Square(e) + 2.0 * Times(e, x) + Square(x)
  {
    SquareIsProduct(e + x);
    SquareIsProduct(e);
    SquareIsProduct(x);
  }

  lemma LastSampleInError(design: seq<Vector>, outcomes: Vector, w: Vector)
    requires Widths(design, outcomes, |w|) && design != []
    ensures var k := |design| - 1;
      |design[k]| == |w| && Widths(design[..k], outcomes[..k], |w|)
      && SquaredError(design, outcomes, w) ==
         SquaredError(design[..k], outcomes[..k], w) + Square(Dot(design[k], w) - outcomes[k])
  {
    var k := |design| - 1;
    assert design[k] in design;
    assert forall row :: row in design[..k] ==> row in design;
  }

  lemma DotScaledTimes(u: Vector, c: real, v: Vector, w: Vector)
    requires |u| == |v| == |w|
    ensures Dot(AddScaled(u, c, v), w) == Dot(u, w) + Times(c, Dot(v, w))
  {
    DotAddScaled(u, c, v, w);
  }

  lemma ScoreOfLast(design: seq<Vector>, outcomes: Vector, w: Vector, t: real)
    requires Widths(design, outcomes, |w|) && design != []
    ensures var k := |design| - 1;
      |design[k]| == |w| && Widths(design[..k], outcomes[..k], |w|)
      && Score(design, outcomes, w, t)
         == AddScaled(Score(design[..k], outcomes[..k], w, t), Residual(design[k], outcomes[k], w, t), design[k])
  {
    var k := |design| - 1;
    assert design[k] in design;
    assert forall row :: row in design[..k] ==> row in design;
  }

  lemma LastSampleInSlope(design: seq<Vector>, outcomes: Vector, w: Vector, t: real, d: Vector)
    requires Widths(design, outcomes, |w|) && |d| == |w| && design != []
    ensures var k := |design| - 1;
      |design[k]| == |w| && Widths(design[..k], outcomes[..k], |w|)
      && Dot(Score(design, outcomes, w, t), d) ==
         Dot(Score(design[..k], outcomes[..k], w, t), d)
           + Times(Residual(design[k], outcomes[k], w, t), Dot(design[k], d))
  {
    var k := |design| - 1;
    ScoreOfLast(design, outcomes, w, t);
    var score, e := Score(design[..k], outcomes[..k], w, t), Residual(design[k], outcomes[k], w, t);
    DotScaledTimes(score, e, design[k], d);
  }

  lemma ResidualAt(row: Vector, outcome: real, w: Vector)
    requires |row| == |w|
    ensures Residual(row, outcome, w, -1.0) == Dot(row, w) - outcome
    ensures Residual(row, outcome, w, 0.0) == Dot(row, w)
  {
  }

  lemma LastSampleInCurvature(design: seq<Vector>, d: Vector)
    requires (forall row :: row in design ==> |row| == |d|) && design != []
    ensures var k := |design| - 1;
      design[k] in design && (forall row :: row in design[..k] ==> |row| == |d|)
      && Curvature(design, d) == Curvature(design[..k], d) + Square(Dot(design[k], d))
  {
    assert forall row :: row in design[..|design| - 1] ==> row in design;
  }

  lemma PenaltyExpands(w: Vector, d: Vector)
    requires |w| == |d|
    ensures Dot(Penalised(AddScaled(w, 1.0, d)), AddScaled(w, 1.0, d)) ==
            Dot(Penalised(w), w) + 2.0 * Dot(Penalised(w), d) + Dot(Penalised(d), d)
  {
    var v := AddScaled(w, 1.0, d);
    assert Penalised(v) == AddScaled(Penalised(w), 1.0, Penalised(d));
    DotAddScaled(Penalised(w), 1.0, Penalised(d), v);
    DotAddScaledRight(Penalised(w), w, 1.0, d);
    DotAddScaledRight(Penalised(d), w, 1.0, d);
    var left, right := Products(Penalised(d), w), Products(Penalised(w), d);
    forall k | 0 <= k < |w|
      ensures left[k] == right[k]
    {
      assert left[k] == Penalised(d)[k] * w[k] && right[k] == Penalised(w)[k] * d[k];
    }
    assert left == right;
  }

  lemma ProductZero(a: real, b: real)
    requires a > 0.0 && b >= 0.0
    ensures a * b >= 0.0 && (a * b == 0.0 ==> b == 0.0)
  {
    if b > 0.0 {
      assert a * b > 0.0;
    }
  }

  /** The gradient of the objective (or its linear part) is zero. */
  ghost predicate Stationary(design: seq<Vector>, outcomes: Vector, ridge: real, w: Vector, t: real)
    requires Widths(design, outcomes, |w|)
  {
    forall i :: 0 <= i < |w| ==> Score(design, outcomes, w, t)[i] + ridge * Penalised(w)[i] == 0.0
  }

  lemma EquationHolds(m: Matrix, n: nat, y: Vector, i: nat)
    requires Rectangular(m, n) && |y| == n + 1 && Solves(m, n, y) && i < n
    ensures Dot(m[i], y) == 0.0
  {
  }

  lemma NormalMatrixRow(design: seq<Vector>, outcomes: Vector, ridge: real, n: nat, i: nat)
    requires Widths(design, outcomes, n) && i < n
    ensures Rectangular(NormalMatrix(design, outcomes, ridge, n), n)
    ensures NormalMatrix(design, outcomes, ridge, n)[i] == NormalRow(design, outcomes, ridge, n, i)
  {
  }

  lemma SolutionIsStationary(design: seq<Vector>, outcomes: Vector, ridge: real, w: Vector, t: real)
    requires Widths(design, outcomes, |w|)
    requires Solves(NormalMatrix(design, outcomes, ridge, |w|), |w|, w + [t])
    ensures Stationary(design, outcomes, ridge, w, t)
  {
    forall i | 0 <= i < |w|
      ensures Score(design, outcomes, w, t)[i] + ridge * Penalised(w)[i] == 0.0
    {
      EquationHolds(NormalMatrix(design, outcomes, ridge, |w|), |w|, w + [t], i);
      NormalMatrixRow(design, outcomes, ridge, |w|, i);
      NormalRowMeaning(design, outcomes, ridge, |w|, i, w, t);
    }
  }

  /** Where the normal equations hold, the objective has no slope in any direction. */
  lemma NoSlope(design: seq<Vector>, outcomes: Vector, ridge: real, w: Vector, t: real, d: Vector)
    requires Widths(design, outcomes, |w|) && |d| == |w|
    requires Stationary(design, outcomes, ridge, w, t)
    ensures Dot(Score(design, outcomes, w, t), d) + Times(ridge, Dot(Penalised(w), d)) == 0.0
  {
    CombinationVanishes(Score(design, outcomes, w, t), ridge, Penalised(w), d);
  }

  lemma CombinationVanishes(s: Vector, c: real, p: Vector, d: Vector)
    requires |s| == |p| == |d| && forall i :: 0 <= i < |s| ==> s[i] + c * p[i] == 0.0
    ensures Dot(s, d) + c * Dot(p, d) == 0.0
  {
    DotZero(AddScaled(s, c, p), d);
    DotAddScaled(s, c, p, d);
  }

  lemma {:induction false} CurvatureNonNegative(design: seq<Vector>, d: Vector)
    requires forall row :: row in design ==> |row| == |d|
    ensures Curvature(design, d) >= 0.0
    ensures forall row :: row in design && Dot(row, d) != 0.0 ==> Curvature(design, d) > 0.0
    decreases |design|
  {
    if design != [] {
      var k := |design| - 1;
      assert design[k] in design;
      assert forall row :: row in design[..k] ==> row in design;
      CurvatureNonNegative(design[..k], d);
      assert Curvature(design, d) == Curvature(design[..k], d) + Square(Dot(design[k], d));
      assert forall row :: row in design ==> row in design[..k] || row == design[k];
    }
  }

  lemma PenaltyNonNegative(d: Vector)
    ensures Dot(Penalised(d), d) >= 0.0
    ensures Dot(Penalised(d), d) == 0.0 ==> forall k :: 1 <= k < |d| ==> d[k] == 0.0
  {
    var p := Products(Penalised(d), d);
    forall k | 0 <= k < |p|
      ensures p[k] >= 0.0 && (k > 0 && p[k] == 0.0 ==> d[k] == 0.0)
    {
    }
    SumNonNegative(p);
  }

  /** Every sample starts with the constant feature. */
  ghost predicate Intercepts(design: seq<Vector>) {
    design != [] && forall row :: row in design ==> |row| > 0 && row[0] == 1.0
  }

  lemma SumOfTwoZero(c: real, ridge: real, q: real)
    requires c >= 0.0 && ridge > 0.0 && q >= 0.0 && c + ridge * q <= 0.0
    ensures c == 0.0 && q == 0.0
  {
    ProductZero(ridge, q);
  }

  lemma NoBend(design: seq<Vector>, ridge: real, d: Vector)
    requires (forall row :: row in design ==> |row| == |d|) && ridge > 0.0
    requires Curvature(design, d) + Times(ridge, Dot(Penalised(d), d)) <= 0.0
    ensures Curvature(design, d) == 0.0 && Dot(Penalised(d), d) == 0.0
  {
    CurvatureNonNegative(design, d);
    PenaltyNonNegative(d);
    SumOfTwoZero(Curvature(design, d), ridge, Dot(Penalised(d), d));
  }

  /** A direction without curvature and without penalty is no direction at all. */
  lemma FlatDirectionIsZero(design: seq<Vector>, d: Vector)
    requires Intercepts(design) && (forall row :: row in design ==> |row| == |d|)
    requires Curvature(design, d) == 0.0 && Dot(Penalised(d), d) == 0.0
    ensures d == Zeros(|d|)
  {
    PenaltyNonNegative(d);
    FlatAgainstFirst(design, d);
    OnlyIntercept(design[0], d);
  }

  lemma FlatAgainstFirst(design: seq<Vector>, d: Vector)
    requires Intercepts(design) && (forall row :: row in design ==> |row| == |d|) && Curvature(design, d) == 0.0
    ensures |design[0]| == |d| && |d| > 0 && design[0][0] == 1.0 && Dot(design[0], d) == 0.0
  {
    CurvatureNonNegative(design, d);
    assert design[0] in design;
  }

  lemma OnlyIntercept(row: Vector, d: Vector)
    requires |row| == |d| && |row| > 0 && row[0] == 1.0 && Dot(row, d) == 0.0
    requires forall k :: 1 <= k < |d| ==> d[k] == 0.0
    ensures d == Zeros(|d|)
  {
    var p := Products(row, d);
    forall k | 0 <= k < |d| && k != 0
      ensures p[k] == 0.0
    {
    }
    SumSingle(p, 0);
    assert d[0] == 0.0;
  }

  lemma {:induction false} CurvatureIsScore(design: seq<Vector>, outcomes: Vector, d: Vector)
    requires Widths(design, outcomes, |d|)
    ensures Dot(Score(design, outcomes, d, 0.0), d) == Curvature(design, d)
    decreases |design|
  {
    if design == [] {
      DotZero(Zeros(|d|), d);
    } else {
      var k := |design| - 1;
      LastSampleInSlope(design, outcomes, d, 0.0, d);
      LastSampleInCurvature(design, d);
      CurvatureIsScore(design[..k], outcomes[..k], d);
      ResidualAt(design[k], outcomes[k], d);
    }
  }

  /** With a positive ridge the normal equations are regular, whatever the samples. */
  lemma NormalMatrixIsRegular(design: seq<Vector>, outcomes: Vector, ridge: real, n: nat)
    requires Widths(design, outcomes, n) && Intercepts(design) && ridge > 0.0
    ensures Rectangular(NormalMatrix(design, outcomes, ridge, n), n)
    ensures Regular(NormalMatrix(design, outcomes, ridge, n), n)
  {
    forall d: Vector | |d| == n && Solves(NormalMatrix(design, outcomes, ridge, n), n, d + [0.0])
      ensures d == Zeros(n)
    {
      SolutionIsStationary(design, outcomes, ridge, d, 0.0);
      NoSlope(design, outcomes, ridge, d, 0.0, d);
      CurvatureIsScore(design, outcomes, d);
      NoBend(design, ridge, d);
      FlatDirectionIsZero(design, d);
    }
  }

  lemma SlopesCancel(
    error: real, error': real, slope: real, curvature: real, ridge: real,
    penalty: real, penalty': real, cross: real, bend: real)
    requires error' == error + 2.0 * slope + curvature
    requires penalty' == penalty + 2.0 * cross + bend
    requires slope + Times(ridge, cross) == 0.0
    ensures error' + Times(ridge, penalty') == error + Times(ridge, penalty) + curvature + Times(ridge, bend)
  {
    assert ridge * penalty' == ridge * penalty + 2.0 * (ridge * cross) + ridge * bend;
  }

  /** Along a direction without slope the objective grows by curvature and penalty alone. */
  lemma ObjectiveExpands(design: seq<Vector>, outcomes: Vector, ridge: real, w: Vector, d: Vector)
    requires Widths(design, outcomes, |w|) && |d| == |w|
    requires Dot(Score(design, outcomes, w, -1.0), d) + Times(ridge, Dot(Penalised(w), d)) == 0.0
    ensures Objective(design, outcomes, ridge, AddScaled(w, 1.0, d)) ==
            Objective(design, outcomes, ridge, w) + Curvature(design, d) + Times(ridge, Dot(Penalised(d), d))
  {
    var v := AddScaled(w, 1.0, d);
    ErrorExpands(design, outcomes, w, d);
    PenaltyExpands(w, d);
    SlopesCancel(
      SquaredError(design, outcomes, w), SquaredError(design, outcomes, v),
      Dot(Score(design, outcomes, w, -1.0), d), Curvature(design, d), ridge,
      Dot(Penalised(w), w), Dot(Penalised(v), v), Dot(Penalised(w), d), Dot(Penalised(d), d));
  }

  /** A solution of the normal equations is the one minimiser of the ridge objective. */
  lemma SolutionMinimises(design: seq<Vector>, outcomes: Vector, ridge: real, w: Vector, v: Vector)
    requires Widths(design, outcomes, |w|) && |v| == |w| && Intercepts(design) && ridge > 0.0
    requires Solves(NormalMatrix(design, outcomes, ridge, |w|), |w|, w + [-1.0])
    ensures Objective(design, outcomes, ridge, w) <= Objective(design, outcomes, ridge, v)
    ensures Objective(design, outcomes, ridge, w) == Objective(design, outcomes, ridge, v) ==> v == w
  {
    var d := AddScaled(v, -1.0, w);
    assert AddScaled(w, 1.0, d) == v;
    SolutionIsStationary(design, outcomes, ridge, w, -1.0);
    NoSlope(design, outcomes, ridge, w, -1.0, d);
    ObjectiveExpands(design, outcomes, ridge, w, d);
    CurvatureNonNegative(design, d);
    PenaltyNonNegative(d);
    ProductZero(ridge, Dot(Penalised(d), d));
    if Objective(design, outcomes, ridge, w) == Objective(design, outcomes, ridge, v) {
      NoBend(design, ridge, d);
      FlatDirectionIsZero(design, d);
      forall k | 0 <= k < |w|
        ensures v[k] == w[k]
      {
        assert d[k] == 0.0;
      }
    }
  }

  // ----- fitting -----

  datatype Sample = Sample(development: bool, features: Vector, outcome: real)

  datatype FitError =
    | InvalidRoster | InvalidRidge | HoldoutProhibited | InvalidFeatures | MixedFeatures
    | SingularRegression(pivot: real)

  function DesignOf(rows: seq<Sample>): seq<Vector> {
    seq(|rows|, i requires 0 <= i < |rows| => [1.0] + rows[i].features)
  }

  function OutcomesOf(rows: seq<Sample>): Vector {
    seq(|rows|, i requires 0 <= i < |rows| => rows[i].outcome)
  }

  ghost predicate Fittable(rows: seq<Sample>) {
    && 1 <= |rows| <= 4096
    && forall i :: 0 <= i < |rows| ==>
         rows[i].development && 1 <= |rows[i].features| <= 8 && |rows[i].features| == |rows[0].features|
  }

  lemma DesignFacts(rows: seq<Sample>)
    requires Fittable(rows)
    ensures Widths(DesignOf(rows), OutcomesOf(rows), |rows[0].features| + 1) && Intercepts(DesignOf(rows))
  {
    forall row | row in DesignOf(rows)
      ensures |row| == |rows[0].features| + 1 && row[0] == 1.0
    {
      var i :| 0 <= i < |DesignOf(rows)| && DesignOf(rows)[i] == row;
    }
  }

  /** The number of coefficients: one for each feature, and the intercept. */
  function Width(rows: seq<Sample>): nat
    requires rows != []
  {
    |rows[0].features| + 1
  }

  /** What is wrong with one row, in the order of the checks. */
  function RowFault(rows: seq<Sample>, i: nat): Option<FitError>
    requires i < |rows|
  {
    if !rows[i].development then Some(HoldoutProhibited)
    else if !(1 <= |rows[i].features| <= 8) then Some(InvalidFeatures)
    else if |rows[i].features| != |rows[0].features| then Some(MixedFeatures)
    else None
  }

  /** The rows before `k` are sound and row `k` is not, for this reason. */
  ghost predicate FirstFault(rows: seq<Sample>, k: nat, fault: FitError) {
    && k < |rows| && RowFault(rows, k) == Some(fault)
    && forall i :: 0 <= i < k ==> RowFault(rows, i) == None
  }

  method CheckRows(rows: seq<Sample>) returns (refusal: Option<FitError>)
    requires 1 <= |rows| <= 4096
    ensures refusal == None <==> Fittable(rows)
    ensures refusal.Some? ==> exists k: nat :: FirstFault(rows, k, refusal.value)
  {
    for i := 0 to |rows|
      invariant forall k :: 0 <= k < i ==> RowFault(rows, k) == None
    {
      refusal := RowFault(rows, i);
      if refusal.Some? {
        assert FirstFault(rows, i, refusal.value);
        return;
      }
    }
    forall i | 0 <= i < |rows|
      ensures rows[i].development && 1 <= |rows[i].features| <= 8 && |rows[i].features| == |rows[0].features|
    {
      assert RowFault(rows, i) == None;
    }
    return None;
  }

  /** The equations that a fit solves. */
  ghost function EquationsOf(rows: seq<Sample>, ridge: real): (m: Matrix)
    requires Fittable(rows)
    ensures Rectangular(m, Width(rows))
  {
    DesignFacts(rows);
    NormalMatrix(DesignOf(rows), OutcomesOf(rows), ridge, Width(rows))
  }

  /** Every pivot of the elimination of these equations is beyond the threshold. */
  ghost predicate Eliminable(rows: seq<Sample>, ridge: real)
    requires Fittable(rows)
  {
    PivotsPass(EquationsOf(rows, ridge), Width(rows), Width(rows))
  }

  /** What each refusal says about the input; a singular one names the first pivot within the threshold, which is
      never zero. */
  ghost predicate Justified(rows: seq<Sample>, ridge: real, error: FitError) {
    match error
    case InvalidRoster => !(1 <= |rows| <= 4096)
    case InvalidRidge => 1 <= |rows| <= 4096 && ridge <= 0.0
    case SingularRegression(pivot) =>
      && Fittable(rows) && ridge > 0.0 && pivot != 0.0
      && exists i: nat :: StopsWith(EquationsOf(rows, ridge), Width(rows), i, pivot)
    case fault =>
      1 <= |rows| <= 4096 && ridge > 0.0 && exists k: nat :: FirstFault(rows, k, fault)
  }

  // ----- the loss over the samples themselves -----

  /** The weighted sum of the first `k` features; the weight of the intercept comes before theirs. */
  ghost function Slopes(features: Vector, w: Vector, k: nat): real
    requires k <= |features| && k < |w|
  {
    if k == 0 then 0.0 else Slopes(features, w, k - 1) + w[k] * features[k - 1]
  }

  /** How far the prediction for a sample is off its own outcome. */
  ghost function Miss(s: Sample, w: Vector): real
    requires |w| == |s.features| + 1
  {
    w[0] + Slopes(s.features, w, |s.features|) - s.outcome
  }

  ghost predicate Fits(rows: seq<Sample>, w: Vector) {
    forall i :: 0 <= i < |rows| ==> |w| == |rows[i].features| + 1
  }

  /** The sum of the squared misses of the first `k` samples. */
  ghost function Misses(rows: seq<Sample>, w: Vector, k: nat): real
    requires Fits(rows, w) && k <= |rows|
  {
    if k == 0 then 0.0 else Misses(rows, w, k - 1) + Miss(rows[k - 1], w) * Miss(rows[k - 1], w)
  }

  /** The sum of the squares of the first `k` weights, but not of the intercept. */
  ghost function Penalty(w: Vector, k: nat): real
    requires k <= |w|
  {
    if k <= 1 then 0.0 else Penalty(w, k - 1) + w[k - 1] * w[k - 1]
  }

  ghost function Loss(rows: seq<Sample>, ridge: real, w: Vector): real
    requires Fits(rows, w)
  {
    Misses(rows, w, |rows|) + ridge * Penalty(w, |w|)
  }

  lemma {:induction false} SlopesAreProduct(features: Vector, w: Vector, k: nat)
    requires |w| == |features| + 1 && k <= |features|
    ensures Dot(([1.0] + features)[..k + 1], w[..k + 1]) == w[0] + Slopes(features, w, k)
  {
    var row := [1.0] + features;
    DotNext(row, w, k);
    if k == 0 {
      assert Dot(row[..0], w[..0]) == 0.0;
    } else {
      SlopesAreProduct(features, w, k - 1);
    }
  }

  lemma MissIsResidual(s: Sample, w: Vector)
    requires |w| == |s.features| + 1
    ensures Miss(s, w) == Dot([1.0] + s.features, w) - s.outcome
  {
    var row := [1.0] + s.features;
    SlopesAreProduct(s.features, w, |s.features|);
    assert row[..|w|] == row && w[..|w|] == w;
  }

  lemma {:induction false} PenaltyIsProduct(w: Vector, k: nat)
    requires k <= |w|
    ensures Dot(Penalised(w)[..k], w[..k]) == Penalty(w, k)
  {
    if k > 0 {
      DotNext(Penalised(w), w, k - 1);
      PenaltyIsProduct(w, k - 1);
    }
  }

  /** The squared error over the first `k` rows of the design. */
  ghost function ErrorUpTo(design: seq<Vector>, outcomes: Vector, w: Vector, k: nat): real
    requires Widths(design, outcomes, |w|) && k <= |design|
  {
    SquaredError(design[..k], outcomes[..k], w)
  }

  lemma ErrorNext(design: seq<Vector>, outcomes: Vector, w: Vector, k: nat, miss: real, squared: real)
    requires Widths(design, outcomes, |w|) && k < |design| && design[k] in design
    requires miss == Dot(design[k], w) - outcomes[k] && squared == Square(miss)
    ensures ErrorUpTo(design, outcomes, w, k + 1) == ErrorUpTo(design, outcomes, w, k) + squared
  {
    assert design[..k + 1][..k] == design[..k] && outcomes[..k + 1][..k] == outcomes[..k];
  }

  lemma MissesNext(rows: seq<Sample>, w: Vector, k: nat, miss: real, squared: real)
    requires Fits(rows, w) && k < |rows|
    requires miss == Miss(rows[k], w) && squared == Square(miss)
    ensures Misses(rows, w, k + 1) == Misses(rows, w, k) + squared
  {
    SquareIsProduct(miss);
  }

  lemma {:induction false} MissesAreError(rows: seq<Sample>, w: Vector, k: nat)
    requires Fits(rows, w) && k <= |rows|
    ensures Widths(DesignOf(rows), OutcomesOf(rows), |w|)
    ensures ErrorUpTo(DesignOf(rows), OutcomesOf(rows), w, k) == Misses(rows, w, k)
  {
    if k > 0 {
      var miss := Miss(rows[k - 1], w);
      var squared := Square(miss);
      MissesAreError(rows, w, k - 1);
      MissIsResidual(rows[k - 1], w);
      ErrorNext(DesignOf(rows), OutcomesOf(rows), w, k - 1, miss, squared);
      MissesNext(rows, w, k - 1, miss, squared);
    }
  }

  lemma WholeError(design: seq<Vector>, outcomes: Vector, w: Vector)
    requires Widths(design, outcomes, |w|)
    ensures ErrorUpTo(design, outcomes, w, |design|) == SquaredError(design, outcomes, w)
  {
    assert design[..|design|] == design && outcomes[..|outcomes|] == outcomes;
  }

  lemma WholePenalty(w: Vector)
    ensures Dot(Penalised(w), w) == Penalty(w, |w|)
  {
    PenaltyIsProduct(w, |w|);
    assert Penalised(w)[..|w|] == Penalised(w) && w[..|w|] == w;
  }

  lemma LossSplits(rows: seq<Sample>, ridge: real, w: Vector, penalty: real)
    requires Fits(rows, w) && penalty == Penalty(w, |w|)
    ensures Loss(rows, ridge, w) == Misses(rows, w, |rows|) + Times(ridge, penalty)
  {
  }

  lemma LossIsObjective(rows: seq<Sample>, ridge: real, w: Vector)
    requires Fits(rows, w)
    ensures Widths(DesignOf(rows), OutcomesOf(rows), |w|)
    ensures Loss(rows, ridge, w) == Objective(DesignOf(rows), OutcomesOf(rows), ridge, w)
  {
    MissesAreError(rows, w, |rows|);
    WholeError(DesignOf(rows), OutcomesOf(rows), w);
    WholePenalty(w);
    LossSplits(rows, ridge, w, Penalty(w, |w|));
  }

  /** No other weights lose as little over the samples. */
  ghost predicate IsBestFit(rows: seq<Sample>, ridge: real, w: Vector) {
    && Fits(rows, w)
    && (forall v: Vector :: |v| == |w| ==> Loss(rows, ridge, w) <= Loss(rows, ridge, v))
    && (forall v: Vector :: |v| == |w| && v != w ==> Loss(rows, ridge, w) != Loss(rows, ridge, v))
  }

  /** The equations have this solution and no other. */
  ghost predicate OnlySolution(m: Matrix, w: Vector)
    requires Rectangular(m, |w|)
  {
    forall x: Vector :: |x| == |w| ==> (Solves(m, |w|, x + [-1.0]) <==> x == w)
  }

  lemma SolutionIsBestFit(rows: seq<Sample>, ridge: real, w: Vector)
    requires Fittable(rows) && |w| == Width(rows) && ridge > 0.0 && OnlySolution(EquationsOf(rows, ridge), w)
    ensures IsBestFit(rows, ridge, w)
  {
    DesignFacts(rows);
    LossIsObjective(rows, ridge, w);
    forall v: Vector | |v| == |w|
      ensures Loss(rows, ridge, w) <= Loss(rows, ridge, v)
      ensures v != w ==> Loss(rows, ridge, w) != Loss(rows, ridge, v)
    {
      LossIsObjective(rows, ridge, v);
      SolutionMinimises(DesignOf(rows), OutcomesOf(rows), ridge, w, v);
    }
  }

  // ----- the equations over the samples themselves -----

  /** The factor of weight `i` in the prediction for a sample. */
  ghost function Factor(s: Sample, i: nat): real
    requires i <= |s.features|
  {
    if i == 0 then 1.0 else s.features[i - 1]
  }

  ghost function Crossed(rows: seq<Sample>, i: nat, j: nat, k: nat): real
    requires k <= |rows| && forall r :: 0 <= r < |rows| ==> i <= |rows[r].features| && j <= |rows[r].features|
  {
    if k == 0 then 0.0 else Crossed(rows, i, j, k - 1) + Factor(rows[k - 1], i) * Factor(rows[k - 1], j)
  }

  ghost function CrossedOutcome(rows: seq<Sample>, i: nat, k: nat): real
    requires k <= |rows| && forall r :: 0 <= r < |rows| ==> i <= |rows[r].features|
  {
    if k == 0 then 0.0 else CrossedOutcome(rows, i, k - 1) + Factor(rows[k - 1], i) * rows[k - 1].outcome
  }

  /** The sum over the first `k` rows of the design. */
  ghost function GramUpTo(design: seq<Vector>, i: nat, j: nat, k: nat): real
    requires k <= |design| && forall row :: row in design ==> i < |row| && j < |row|
  {
    Gram(design[..k], i, j)
  }

  lemma GramNext(design: seq<Vector>, i: nat, j: nat, k: nat, entry: real)
    requires k < |design| && (forall row :: row in design ==> i < |row| && j < |row|)
    requires design[k] in design && entry == Times(design[k][i], design[k][j])
    ensures GramUpTo(design, i, j, k + 1) == GramUpTo(design, i, j, k) + entry
  {
    assert design[..k + 1][..k] == design[..k];
  }

  lemma CrossedNext(rows: seq<Sample>, i: nat, j: nat, k: nat, entry: real)
    requires k < |rows| && forall r :: 0 <= r < |rows| ==> i <= |rows[r].features| && j <= |rows[r].features|
    requires entry == Times(Factor(rows[k], i), Factor(rows[k], j))
    ensures Crossed(rows, i, j, k + 1) == Crossed(rows, i, j, k) + entry
  {
  }

  ghost function MomentUpTo(design: seq<Vector>, outcomes: Vector, i: nat, k: nat): real
    requires k <= |design| == |outcomes| && forall row :: row in design ==> i < |row|
  {
    Moment(design[..k], outcomes[..k], i)
  }

  lemma MomentNext(design: seq<Vector>, outcomes: Vector, i: nat, k: nat, entry: real)
    requires k < |design| == |outcomes| && forall row :: row in design ==> i < |row|
    requires design[k] in design && entry == Times(design[k][i], outcomes[k])
    ensures MomentUpTo(design, outcomes, i, k + 1) == MomentUpTo(design, outcomes, i, k) + entry
  {
    assert design[..k + 1][..k] == design[..k] && outcomes[..k + 1][..k] == outcomes[..k];
  }

  lemma CrossedOutcomeNext(rows: seq<Sample>, i: nat, k: nat, entry: real)
    requires k < |rows| && forall r :: 0 <= r < |rows| ==> i <= |rows[r].features|
    requires entry == Times(Factor(rows[k], i), rows[k].outcome)
    ensures CrossedOutcome(rows, i, k + 1) == CrossedOutcome(rows, i, k) + entry
  {
  }

  lemma WideEnough(rows: seq<Sample>, i: nat)
    requires forall r :: 0 <= r < |rows| ==> i <= |rows[r].features|
    ensures forall row :: row in DesignOf(rows) ==> i < |row|
    ensures forall r :: 0 <= r < |rows| ==> DesignOf(rows)[r][i] == Factor(rows[r], i)
  {
  }

  lemma {:induction false} GramIsCrossed(rows: seq<Sample>, i: nat, j: nat, k: nat)
    requires k <= |rows| && forall r :: 0 <= r < |rows| ==> i <= |rows[r].features| && j <= |rows[r].features|
    ensures forall row :: row in DesignOf(rows) ==> i < |row| && j < |row|
    ensures GramUpTo(DesignOf(rows), i, j, k) == Crossed(rows, i, j, k)
  {
    WideEnough(rows, i);
    WideEnough(rows, j);
    if k > 0 {
      var entry := Times(Factor(rows[k - 1], i), Factor(rows[k - 1], j));
      GramIsCrossed(rows, i, j, k - 1);
      GramNext(DesignOf(rows), i, j, k - 1, entry);
      CrossedNext(rows, i, j, k - 1, entry);
    }
  }

  lemma {:induction false} MomentIsCrossed(rows: seq<Sample>, i: nat, k: nat)
    requires k <= |rows| && forall r :: 0 <= r < |rows| ==> i <= |rows[r].features|
    ensures forall row :: row in DesignOf(rows) ==> i < |row|
    ensures MomentUpTo(DesignOf(rows), OutcomesOf(rows), i, k) == CrossedOutcome(rows, i, k)
  {
    WideEnough(rows, i);
    if k > 0 {
      var entry := Times(Factor(rows[k - 1], i), rows[k - 1].outcome);
      MomentIsCrossed(rows, i, k - 1);
      MomentNext(DesignOf(rows), OutcomesOf(rows), i, k - 1, entry);
      CrossedOutcomeNext(rows, i, k - 1, entry);
    }
  }

  /** Every entry of the equations is the sum over the samples that the normal equations have there. */
  lemma EquationsMeaning(rows: seq<Sample>, ridge: real, i: nat, j: nat)
    requires Fittable(rows) && i < Width(rows) && j <= Width(rows)
    ensures EquationsOf(rows, ridge)[i][j] ==
            if j == Width(rows) then CrossedOutcome(rows, i, |rows|)
            else Crossed(rows, i, j, |rows|) + if i == j && i > 0 then ridge else 0.0
  {
    DesignFacts(rows);
    assert DesignOf(rows)[..|rows|] == DesignOf(rows) && OutcomesOf(rows)[..|rows|] == OutcomesOf(rows);
    if j == Width(rows) {
      MomentIsCrossed(rows, i, |rows|);
    } else {
      GramIsCrossed(rows, i, j, |rows|);
    }
  }

  function LastColumn(m: Matrix, n: nat): Vector
    requires Rectangular(m, n)
  {
    seq(n, r requires 0 <= r < n => m[r][n])
  }

  /** Eliminates a regular system in place and reads the last column, or stops at the first small pivot. */
  method SolveSystem(equations: Matrix, n: nat) returns (e: Elimination, w: Vector)
    requires Rectangular(equations, n) && Regular(equations, n)
    ensures e == Finished <==> PivotsPass(equations, n, n)
    ensures e.PivotTooSmall? ==> e.pivot != 0.0 && exists i: nat :: StopsWith(equations, n, i, e.pivot)
    ensures e == Finished ==>
              |w| == n && forall x: Vector :: |x| == n ==> (Solves(equations, n, x + [-1.0]) <==> x == w)
  {
    var matrix := new Vector[n](i requires 0 <= i < n => equations[i]);
    assert matrix[..] == equations;
    e := GaussJordan(matrix);
    if e.PivotTooSmall? {
      w := [];
      ghost var i: nat :| StopsWith(equations, n, i, e.pivot);
      PivotIsLargest(equations, n, i);
      return;
    }
    w := LastColumn(matrix[..], n);
    SolvedSystem(equations, matrix[..], n, w);
  }

  /** Fits the coefficients, intercept first. A fit succeeds exactly when the input is sound and every pivot of
      its equations is beyond the threshold; then the coefficients are the one solution of the normal equations
      and lose less over the samples than any others. */
  method FitRegression(rows: seq<Sample>, ridge: real) returns (r: Result<Vector, FitError>)
    ensures r.Ok? <==> Fittable(rows) && ridge > 0.0 && Eliminable(rows, ridge)
    ensures r.Err? ==> Justified(rows, ridge, r.error)
    ensures r.Ok? ==> |r.value| == Width(rows) && OnlySolution(EquationsOf(rows, ridge), r.value)
    ensures r.Ok? ==> IsBestFit(rows, ridge, r.value)
  {
    if !(1 <= |rows| <= 4096) {
      return Err(InvalidRoster);
    }
    if ridge <= 0.0 {
      return Err(InvalidRidge);
    }
    var refusal := CheckRows(rows);
    if refusal.Some? {
      return Err(refusal.value);
    }
    var design, outcomes := DesignOf(rows), OutcomesOf(rows);
    var n := Width(rows);
    DesignFacts(rows);
    var equations := NormalMatrix(design, outcomes, ridge, n);
    NormalMatrixIsRegular(design, outcomes, ridge, n);
    var e, w := SolveSystem(equations, n);
    if e.PivotTooSmall? {
      return Err(SingularRegression(e.pivot));
    }
    SolutionIsBestFit(rows, ridge, w);
    return Ok(w);
  }

  lemma SolvedSystem(equations: Matrix, solved: Matrix, n: nat, w: Vector)
    requires Rectangular(equations, n) && Rectangular(solved, n) && Equivalent(equations, solved, n)
    requires Reduced(solved, n, n) && |w| == n && forall r :: 0 <= r < n ==> w[r] == solved[r][n]
    ensures forall x: Vector :: |x| == n ==> (Solves(equations, n, x + [-1.0]) <==> x == w)
  {
    forall x: Vector | |x| == n
      ensures Solves(equations, n, x + [-1.0]) <==> x == w
    {
      IdentitySolution(solved, n, x);
      EquivalentSolves(equations, solved, n, x + [-1.0]);
    }
  }

  // ----- a system with one solution can be refused -----

  /** A single sample without a signal: its second pivot is the ridge itself. */
  lemma SilentSampleEquations(y: real, ridge: real)
    ensures var rows := [Sample(true, [0.0], y)];
      Fittable(rows) && EquationsOf(rows, ridge) == [[1.0, 0.0, y], [0.0, ridge, 0.0]]
  {
    var rows := [Sample(true, [0.0], y)];
    var design, outcomes := DesignOf(rows), OutcomesOf(rows);
    assert design[0] == [1.0] + [0.0] == [1.0, 0.0];
    assert design == [[1.0, 0.0]] && outcomes == [y];
    assert design[..0] == [] && outcomes[..0] == [];
    DesignFacts(rows);
    forall i, j | 0 <= i < 2 && 0 <= j < 2
      ensures Gram(design, i, j) == design[0][i] * design[0][j]
    {
      assert Gram(design[..0], i, j) == 0.0;
    }
    forall i | 0 <= i < 2
      ensures Moment(design, outcomes, i) == design[0][i] * y
    {
      assert Moment(design[..0], outcomes[..0], i) == 0.0;
    }
    assert NormalRow(design, outcomes, ridge, 2, 0) == [1.0, 0.0, y];
    assert NormalRow(design, outcomes, ridge, 2, 1) == [0.0, ridge, 0.0];
  }

  lemma SilentSamplePivots(y: real, ridge: real)
    ensures var m := [[1.0, 0.0, y], [0.0, ridge, 0.0]];
      Rectangular(m, 2) && PivotAt(m, 2, 0) == 1.0 && PivotAt(m, 2, 1) == ridge
  {
    var m: Matrix := [[1.0, 0.0, y], [0.0, ridge, 0.0]];
    assert Largest(m, 2, 0, 2) == 0;
    assert Exchanged(m, 2, 0) == m;
    assert Divided(m[0], 1.0) == m[0];
    assert m[0 := m[0]] == m;
    assert AddScaled(m[1], -0.0, m[0]) == m[1];
    assert Subtracted(m, 2, 0, 1) == m;
    assert Cleared(m, 2, 0, 2) == Cleared(m, 2, 0, 1) == Cleared(m, 2, 0, 0) == m;
    assert Stage(m, 2, 0) == m;
    assert Stage(m, 2, 1) == ColumnDone(m, 2, 0) == m;
    assert Largest(m, 2, 1, 2) == 1;
  }

  /** Such a sample can be fitted exactly when the ridge is beyond the threshold, although its normal equations have
      one solution for every positive ridge. */
  lemma SilentSampleIsRefused(y: real, ridge: real)
    requires ridge > 0.0
    ensures var rows := [Sample(true, [0.0], y)];
      && Fittable(rows) && Regular(EquationsOf(rows, ridge), 2)
      && (Eliminable(rows, ridge) <==> ridge > 0.000000000001)
    ensures !Eliminable([Sample(true, [0.0], y)], 0.0000000000001)
  {
    var rows := [Sample(true, [0.0], y)];
    DesignFacts(rows);
    NormalMatrixIsRegular(DesignOf(rows), OutcomesOf(rows), ridge, 2);
    SilentSampleEquations(y, ridge);
    SilentSamplePivots(y, ridge);
    SilentSampleEquations(y, 0.0000000000001);
    SilentSamplePivots(y, 0.0000000000001);
  }
}
