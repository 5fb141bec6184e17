/** Finite sums and scalar products over the reals. */
module Vectors {

  type Vector = seq<real>

  function Sum(p: Vector): real {
    if p == [] then 0.0 else p[0] + Sum(p[1..])
  }

  function Products(u: Vector, v: Vector): Vector
    requires |u| == |v|
  {
    seq(|u|, i requires 0 <= i < |u| => u[i] * v[i])
  }

  function Dot(u: Vector, v: Vector): real
    requires |u| == |v|
  {
    Sum(Products(u, v))
  }

  /** `u + c * v`. */
  function AddScaled(u: Vector, c: real, v: Vector): Vector
    requires |u| == |v|
  {
    seq(|u|, i requires 0 <= i < |u| => u[i] + c * v[i])
  }

  function Zeros(n: nat): Vector {
    seq(n, i => 0.0)
  }

  lemma {:induction false} SumAddScaled(p: Vector, c: real, q: Vector)
    requires |p| == |q|
    ensures Sum(AddScaled(p, c, q)) == Sum(p) + c * Sum(q)
    decreases |p|
  {
    if p != [] {
      SumAddScaled(p[1..], c, q[1..]);
      AddScaledTail(p, c, q);
      assert c * (q[0] + Sum(q[1..])) == c * q[0] + c * Sum(q[1..]);
    }
  }

  lemma AddScaledTail(p: Vector, c: real, q: Vector)
    requires |p| == |q| && p != []
    ensures AddScaled(p, c, q)[1..] == AddScaled(p[1..], c, q[1..])
  {
    var rest, rest' := AddScaled(p, c, q)[1..], AddScaled(p[1..], c, q[1..]);
    assert forall k :: 0 <= k < |rest| ==> p[1..][k] == p[k + 1] && q[1..][k] == q[k + 1];
    assert forall k :: 0 <= k < |rest| ==> rest[k] == rest'[k];
  }

  lemma {:induction false} SumZeros(p: Vector)
    requires forall k :: 0 <= k < |p| ==> p[k] == 0.0
    ensures Sum(p) == 0.0
    decreases |p|
  {
    if p != [] {
      SumZeros(p[1..]);
    }
  }

  lemma {:induction false} SumSingle(p: Vector, a: nat)
    requires a < |p| && forall k :: 0 <= k < |p| && k != a ==> p[k] == 0.0
    ensures Sum(p) == p[a]
    decreases |p|
  {
    if a == 0 {
      SumZeros(p[1..]);
    } else {
      SumSingle(p[1..], a - 1);
    }
  }

  lemma {:induction false} SumTwo(p: Vector, a: nat, b: nat)
    requires a < b < |p| && forall k :: 0 <= k < |p| && k != a && k != b ==> p[k] == 0.0
    ensures Sum(p) == p[a] + p[b]
    decreases |p|
  {
    if a == 0 {
      SumSingle(p[1..], b - 1);
    } else {
      SumTwo(p[1..], a - 1, b - 1);
    }
  }

  lemma {:induction false} SumLast(p: Vector, x: real)
    ensures Sum(p + [x]) == Sum(p) + x
    decreases |p|
  {
    if p == [] {
      assert (p + [x])[1..] == [];
    } else {
      assert (p + [x])[1..] == p[1..] + [x];
      SumLast(p[1..], x);
    }
  }

  lemma Expand(u: real, c: real, v: real, w: real)
    ensures (u + c * v) * w == u * w + c * (v * w)
  {
  }

  lemma ProductOfSum(u: Vector, c: real, v: Vector, w: Vector, k: nat)
    requires |u| == |v| == |w| && k < |u|
    ensures Products(AddScaled(u, c, v), w)[k] == AddScaled(Products(u, w), c, Products(v, w))[k]
  {
    Expand(u[k], c, v[k], w[k]);
  }

  lemma ProductsAddScaled(u: Vector, c: real, v: Vector, w: Vector)
    requires |u| == |v| == |w|
    ensures Products(AddScaled(u, c, v), w) == AddScaled(Products(u, w), c, Products(v, w))
  {
    var left, right := Products(AddScaled(u, c, v), w), AddScaled(Products(u, w), c, Products(v, w));
    forall k | 0 <= k < |u|
      ensures left[k] == right[k]
    {
      ProductOfSum(u, c, v, w, k);
    }
    assert left == right;
  }

  lemma DotAddScaled(u: Vector, c: real, v: Vector, w: Vector)
    requires |u| == |v| == |w|
    ensures Dot(AddScaled(u, c, v), w) == Dot(u, w) + c * Dot(v, w)
  {
    ProductsAddScaled(u, c, v, w);
    SumAddScaled(Products(u, w), c, Products(v, w));
  }

  lemma DotSymmetric(u: Vector, v: Vector)
    requires |u| == |v|
    ensures Dot(u, v) == Dot(v, u)
  {
    assert Products(u, v) == Products(v, u);
  }

  /** The same with the linear combination on the right. */
  lemma DotAddScaledRight(w: Vector, u: Vector, c: real, v: Vector)
    requires |u| == |v| == |w|
    ensures Dot(w, AddScaled(u, c, v)) == Dot(w, u) + c * Dot(w, v)
  {
    DotSymmetric(w, AddScaled(u, c, v));
    DotAddScaled(u, c, v, w);
    DotSymmetric(u, w);
    DotSymmetric(v, w);
  }

  lemma DotZero(u: Vector, v: Vector)
    requires |u| == |v| && forall k :: 0 <= k < |u| ==> u[k] == 0.0
    ensures Dot(u, v) == 0.0
  {
    SumZeros(Products(u, v));
  }

  lemma DotAppend(u: Vector, v: Vector, x: real, y: real)
    requires |u| == |v|
    ensures Dot(u + [x], v + [y]) == Dot(u, v) + x * y
  {
    var left, right := Products(u + [x], v + [y]), Products(u, v) + [x * y];
    assert forall k :: 0 <= k < |u| ==> (u + [x])[k] == u[k] && (v + [y])[k] == v[k];
    assert forall k :: 0 <= k < |left| ==> left[k] == right[k];
    assert left == right;
    SumLast(Products(u, v), x * y);
  }

  lemma {:induction false} SumNonNegative(p: Vector)
    requires forall k :: 0 <= k < |p| ==> p[k] >= 0.0
    ensures Sum(p) >= 0.0
    ensures Sum(p) == 0.0 ==> forall k :: 0 <= k < |p| ==> p[k] == 0.0
    decreases |p|
  {
    if p != [] {
      SumNonNegative(p[1..]);
      if Sum(p) == 0.0 {
        forall k | 0 <= k < |p|
          ensures p[k] == 0.0
        {
          if k > 0 {
            assert p[k] == p[1..][k - 1];
          }
        }
      }
    }
  }

  function Times(a: real, b: real): real {
    a * b
  }

  lemma TimesPositive(a: real, b: real)
    requires a > 0.0 && b > 0.0
    ensures Times(a, b) > 0.0
  {
  }

  lemma TimesNegated(a: real, b: real)
    ensures Times(-a, -b) == Times(a, b)
  {
  }

  lemma TimesSelf(x: real)
    ensures Times(x, x) >= 0.0
    ensures x != 0.0 ==> Times(x, x) > 0.0
  {
    if x > 0.0 {
      TimesPositive(x, x);
    } else if x < 0.0 {
      TimesPositive(-x, -x);
      TimesNegated(x, x);
    } else {
      assert Times(0.0, x) == 0.0;
    }
  }

  /** A scalar product grows by the product of the next entries. */
  lemma DotNext(u: Vector, v: Vector, k: nat)
    requires |u| == |v| && k < |u|
    ensures Dot(u[..k + 1], v[..k + 1]) == Dot(u[..k], v[..k]) + u[k] * v[k]
  {
    var longer, shorter := Products(u[..k + 1], v[..k + 1]), Products(u[..k], v[..k]);
    forall i | 0 <= i < k + 1
      ensures longer[i] == (shorter + [u[k] * v[k]])[i]
    {
    }
    assert longer == shorter + [u[k] * v[k]];
    SumLast(Products(u[..k], v[..k]), u[k] * v[k]);
  }

  function Square(x: real): (s: real)
    ensures s >= 0.0
    ensures x != 0.0 ==> s > 0.0
  {
    TimesSelf(x);
    Times(x, x)
  }

  lemma SquareIsProduct(x: real)
    ensures Square(x) == x * x
  {
  }
}
