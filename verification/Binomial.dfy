/** Exact binomial tail sums over the integers: the recurrence that links them to Pascal's triangle,
    their total, their reflection and their monotonicity. */
module Binomial {

  function Pow(b: int, e: nat): int {
    if e == 0 then 1 else b * Pow(b, e - 1)
  }

  /** The binomial coefficient, zero above the diagonal. */
  function Choose(n: nat, k: nat): nat {
    if k == 0 then 1 else if n == 0 then 0 else Choose(n - 1, k - 1) + Choose(n - 1, k)
  }

  function Term(n: nat, k: nat, a: int, b: int): int {
    if k <= n then Choose(n, k) * Pow(a, k) * Pow(b, n - k) else 0
  }

  /** Sum of the terms for `0 .. count - 1` successes among `n` trials, with weights `a` for a success
      and `b` for a failure. */
  function Tail(count: nat, n: nat, a: int, b: int): int {
    if count == 0 then 0 else Tail(count - 1, n, a, b) + Term(n, count - 1, a, b)
  }

  lemma {:induction false} ChooseAboveDiagonal(n: nat, k: nat)
    requires k > n
    ensures Choose(n, k) == 0
  {
    if n > 0 {
      ChooseAboveDiagonal(n - 1, k - 1);
      ChooseAboveDiagonal(n - 1, k);
    }
  }

  lemma {:induction false} PowPositive(b: int, e: nat)
    ensures b >= 0 ==> Pow(b, e) >= 0
    ensures b > 0 ==> Pow(b, e) > 0
  {
    if e > 0 {
      PowPositive(b, e - 1);
    }
  }

  lemma TermNonNegative(n: nat, k: nat, a: int, b: int)
    requires a >= 0 && b >= 0
    ensures Term(n, k, a, b) >= 0
  {
    if k <= n {
      PowPositive(a, k);
      PowPositive(b, n - k);
      assert Choose(n, k) * Pow(a, k) >= 0;
    }
  }

  /** Pascal's rule for whole terms. */
  lemma TermRecurrence(n: nat, k: nat, a: int, b: int)
    ensures Term(n + 1, k, a, b) == b * Term(n, k, a, b) + (if k == 0 then 0 else a * Term(n, k - 1, a, b))
  {
    if k == 0 {
      assert Term(n + 1, 0, a, b) == Pow(b, n + 1);
      assert Term(n, 0, a, b) == Pow(b, n);
    } else if k <= n {
      var c, d, p, q := Choose(n, k - 1), Choose(n, k), Pow(a, k - 1), Pow(b, n - k);
      assert Choose(n + 1, k) == c + d;
      assert Pow(a, k) == a * p && Pow(b, n + 1 - k) == b * q;
      assert Term(n, k - 1, a, b) == c * p * (b * q);
      assert Term(n, k, a, b) == d * (a * p) * q;
      Distribute(c, d, a, b, p, q);
    } else if k == n + 1 {
      ChooseAboveDiagonal(n, n + 1);
      assert Choose(n + 1, n + 1) == Choose(n, n);
      var c, p := Choose(n, n), Pow(a, n);
      assert Term(n + 1, n + 1, a, b) == c * (a * p) * 1;
      assert Term(n, n, a, b) == c * p * 1;
      assert c * (a * p) == a * (c * p);
    }
  }

  lemma Distribute(c: int, d: int, a: int, b: int, p: int, q: int)
    ensures (c + d) * (a * p) * (b * q) == b * (d * (a * p) * q) + a * (c * p * (b * q))
  {
    var x, y := a * p, b * q;
    assert (c + d) * x * y == c * x * y + d * x * y;
    assert d * x * y == b * (d * x * q);
    assert c * x * y == a * (c * p * y);
  }

  lemma Spread(x: int, t: int, u: int)
    ensures x * (t + u) == x * t + x * u
  {
  }

  function TailBefore(count: nat, n: nat, a: int, b: int): int {
    if count == 0 then 0 else Tail(count - 1, n, a, b)
  }

  /** One more trial: it fails and the count stays, or it succeeds and the count was one less. */
  lemma {:induction false} TailRecurrence(count: nat, n: nat, a: int, b: int)
    ensures Tail(count, n + 1, a, b) == b * Tail(count, n, a, b) + a * TailBefore(count, n, a, b)
  {
    if count == 1 {
      TermRecurrence(n, 0, a, b);
      assert Tail(1, n + 1, a, b) == Tail(0, n + 1, a, b) + Term(n + 1, 0, a, b);
      assert Tail(1, n, a, b) == Tail(0, n, a, b) + Term(n, 0, a, b);
    } else if count > 1 {
      TailRecurrence(count - 1, n, a, b);
      TermRecurrence(n, count - 1, a, b);
      Spread(b, Tail(count - 1, n, a, b), Term(n, count - 1, a, b));
      Spread(a, Tail(count - 2, n, a, b), Term(n, count - 2, a, b));
    }
  }

  lemma {:induction false} TailGrows(count: nat, count': nat, n: nat, a: int, b: int)
    requires a >= 0 && b >= 0 && count <= count'
    ensures 0 <= Tail(count, n, a, b) <= Tail(count', n, a, b)
    decreases count'
  {
    if count < count' {
      TailGrows(count, count' - 1, n, a, b);
      TermNonNegative(n, count' - 1, a, b);
    } else if count > 0 {
      TailGrows(count - 1, count - 1, n, a, b);
      TermNonNegative(n, count - 1, a, b);
    }
  }

  /** The binomial theorem: all the terms add up to the full power. */
  lemma {:induction false} TailIsWhole(count: nat, n: nat, a: int, b: int)
    requires count > n
    ensures Tail(count, n, a, b) == Pow(a + b, n)
    decreases n, count
  {
    if n == 0 {
      if count > 1 {
        TailIsWhole(count - 1, 0, a, b);
      } else {
        assert Tail(1, 0, a, b) == Tail(0, 0, a, b) + Term(0, 0, a, b);
      }
    } else {
      TailRecurrence(count, n - 1, a, b);
      TailIsWhole(count, n - 1, a, b);
      TailIsWhole(count - 1, n - 1, a, b);
      var p := Pow(a + b, n - 1);
      assert b * p + a * p == (a + b) * p;
    }
  }

  lemma ReflectStep(t: int, t': int, u: int, u': int, p: int, a: int, b: int)
    requires t + u == p && t' + u' == p
    ensures (b * t + a * t') + (a * u' + b * u) == (a + b) * p
  {
    Spread(b, t, u);
    Spread(a, t', u');
    assert b * p + a * p == (a + b) * p;
  }

  /** Counting failures instead of successes swaps the weights and takes the other end of the sum. */
  lemma {:induction false} TailReflects(count: nat, n: nat, a: int, b: int)
    requires count <= n + 1
    ensures Tail(count, n, a, b) + Tail(n + 1 - count, n, b, a) == Pow(a + b, n)
    decreases n
  {
    if count == 0 {
      TailIsWhole(n + 1, n, b, a);
    } else if count == n + 1 {
      TailIsWhole(n + 1, n, a, b);
    } else {
      TailRecurrence(count, n - 1, a, b);
      TailRecurrence(n + 1 - count, n - 1, b, a);
      TailReflects(count, n - 1, a, b);
      TailReflects(count - 1, n - 1, a, b);
      ReflectStep(Tail(count, n - 1, a, b), Tail(count - 1, n - 1, a, b),
                  Tail(n - count, n - 1, b, a), Tail(n + 1 - count, n - 1, b, a), Pow(a + b, n - 1), a, b);
    }
  }

  /** Shifting weight from failure to success makes few successes less likely. */
  lemma {:induction false} TailAntitone(count: nat, n: nat, a: int, b: int)
    requires a >= 0 && b >= 1
    ensures Tail(count, n, a + 1, b - 1) <= Tail(count, n, a, b)
    decreases n, count
  {
    if n == 0 {
      if count > 0 {
        TailAntitone(count - 1, 0, a, b);
        assert Term(0, count - 1, a + 1, b - 1) == Term(0, count - 1, a, b);
      }
    } else if count > 0 {
      TailRecurrence(count, n - 1, a, b);
      TailRecurrence(count, n - 1, a + 1, b - 1);
      TailAntitone(count, n - 1, a, b);
      TailAntitone(count - 1, n - 1, a, b);
      TailGrows(count - 1, count, n - 1, a + 1, b - 1);
      MixedStep(Tail(count, n - 1, a, b), Tail(count - 1, n - 1, a, b),
                Tail(count, n - 1, a + 1, b - 1), Tail(count - 1, n - 1, a + 1, b - 1), a, b);
    }
  }

  lemma MixedStep(t: int, u: int, t': int, u': int, a: int, b: int)
    requires a >= 0 && b >= 1 && t' <= t && u' <= u && u' <= t'
    ensures (b - 1) * t' + (a + 1) * u' <= b * t + a * u
  {
    assert (b - 1) * t' + (a + 1) * u' == b * t' + a * u' - (t' - u');
    assert b * t' <= b * t;
    assert a * u' <= a * u;
  }

  /** The tail falls along the whole range of weights with a fixed total. */
  lemma {:induction false} TailAntitoneFar(count: nat, n: nat, total: int, a: int, a': int)
    requires 0 <= a <= a' <= total
    ensures Tail(count, n, a', total - a') <= Tail(count, n, a, total - a)
    decreases a' - a
  {
    if a < a' {
      TailAntitone(count, n, a, total - a);
      TailAntitoneFar(count, n, total, a + 1, a');
    }
  }

  lemma {:induction false} PowZero(e: nat)
    requires e > 0
    ensures Pow(0, e) == 0
  {
  }

  /** With certain success, anything short of `n` successes is impossible. */
  lemma {:induction false} TailAtCertainty(count: nat, n: nat, a: int)
    requires count <= n
    ensures Tail(count, n, a, 0) == 0
  {
    if count > 0 {
      TailAtCertainty(count - 1, n, a);
      PowZero(n - (count - 1));
    }
  }

  /** Fewer trials leave relatively more weight in the lower tail. */
  lemma TailFallsWithTrials(count: nat, n: nat, a: int, b: int)
    requires a >= 0 && b >= 0
    ensures Tail(count, n + 1, a, b) <= (a + b) * Tail(count, n, a, b)
  {
    TailRecurrence(count, n, a, b);
    if count > 0 {
      TailGrows(count - 1, count, n, a, b);
      var t, u := Tail(count, n, a, b), Tail(count - 1, n, a, b);
      assert a * u <= a * t;
      assert (a + b) * t == a * t + b * t;
    }
  }
}
