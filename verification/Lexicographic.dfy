/** The order Python gives to sequences of identifiers, used to pick representatives. */
module Lexicographic {
  import opened DependencyGraphs

  predicate LexLeq(a: seq<Id>, b: seq<Id>) {
    if a == [] then true
    else if b == [] then false
    else a[0] < b[0] || (a[0] == b[0] && LexLeq(a[1..], b[1..]))
  }

  /** The sequences differ at `k` for the first time. */
  ghost predicate DifferAt(a: seq<Id>, b: seq<Id>, k: nat) {
    k < |a| && k < |b| && a[..k] == b[..k] && a[k] != b[k]
  }

  /** A prefix comes first; otherwise the first difference decides. */
  lemma {:induction false} LexMeaning(a: seq<Id>, b: seq<Id>)
    ensures LexLeq(a, b) <==> a <= b || exists k: nat :: DifferAt(a, b, k) && a[k] < b[k]
  {
    if a != [] && b != [] && a[0] == b[0] {
      LexMeaning(a[1..], b[1..]);
      forall k: nat | DifferAt(a[1..], b[1..], k)
        ensures DifferAt(a, b, k + 1)
      {
        assert a[..k + 1] == [a[0]] + a[1..][..k] && b[..k + 1] == [b[0]] + b[1..][..k];
      }
      forall k: nat | DifferAt(a, b, k)
        ensures k > 0 && DifferAt(a[1..], b[1..], k - 1)
      {
        assert a[..k][1..] == a[1..][..k - 1] && b[..k][1..] == b[1..][..k - 1];
      }
    } else if a != [] && b != [] {
      assert DifferAt(a, b, 0);
    }
  }

  lemma {:induction false} LexTotal(a: seq<Id>, b: seq<Id>)
    ensures LexLeq(a, b) || LexLeq(b, a)
  {
    if a != [] && b != [] {
      LexTotal(a[1..], b[1..]);
    }
  }

  lemma {:induction false} LexAntisymmetric(a: seq<Id>, b: seq<Id>)
    requires LexLeq(a, b) && LexLeq(b, a)
    ensures a == b
  {
    if a != [] && b != [] {
      LexAntisymmetric(a[1..], b[1..]);
      assert a == [a[0]] + a[1..];
      assert b == [b[0]] + b[1..];
    }
  }

  lemma {:induction false} LexTransitive(a: seq<Id>, b: seq<Id>, c: seq<Id>)
    requires LexLeq(a, b) && LexLeq(b, c)
    ensures LexLeq(a, c)
  {
    if a != [] && b != [] && c != [] && a[0] == b[0] && b[0] == c[0] {
      LexTransitive(a[1..], b[1..], c[1..]);
    }
  }

  ghost predicate IsLexMin(s: set<seq<Id>>, m: seq<Id>) {
    m in s && forall o :: o in s ==> LexLeq(m, o)
  }

  lemma {:induction false} LexMinExists(s: set<seq<Id>>) returns (m: seq<Id>)
    requires s != {}
    ensures IsLexMin(s, m)
    decreases |s|
  {
    var x :| x in s;
    if s == {x} {
      m := x;
      LexTotal(x, x);
    } else {
      var rest := LexMinExists(s - {x});
      LexTotal(x, rest);
      LexTotal(x, x);
      m := if LexLeq(x, rest) then x else rest;
      forall o | o in s
        ensures LexLeq(m, o)
      {
        if o != x {
          assert o in s - {x};
          if LexLeq(x, rest) {
            LexTransitive(x, rest, o);
          }
        }
      }
    }
  }

  lemma LexMinUnique(s: set<seq<Id>>, a: seq<Id>, b: seq<Id>)
    requires IsLexMin(s, a) && IsLexMin(s, b)
    ensures a == b
  {
    LexAntisymmetric(a, b);
  }

  lemma LexMinWitness(s: set<seq<Id>>)
    requires s != {}
    ensures exists m :: m in s && forall o :: o in s ==> LexLeq(m, o)
    ensures forall a, b :: IsLexMin(s, a) && IsLexMin(s, b) ==> a == b
  {
    var m := LexMinExists(s);
    forall a, b | IsLexMin(s, a) && IsLexMin(s, b)
      ensures a == b
    {
      LexMinUnique(s, a, b);
    }
  }

  /** The least sequence of a nonempty set. */
  function LexMin(s: set<seq<Id>>): (m: seq<Id>)
    requires s != {}
    ensures IsLexMin(s, m)
  {
    LexMinWitness(s);
    assert forall a, b :: (a in s && (forall o :: o in s ==> LexLeq(a, o)) &&
                           b in s && (forall o :: o in s ==> LexLeq(b, o))) ==> IsLexMin(s, a) && IsLexMin(s, b);
    var m :| m in s && forall o :: o in s ==> LexLeq(m, o);
    m
  }
}
