/** Steps that stay inside a footprint, over a store of resources, and when two commute. */
module Footprints {
  import opened Wrappers
  import opened Traces

  type Store<K(==), V> = map<K, V>

  ghost predicate Agree<K(!new), V>(s: Store<K, V>, s': Store<K, V>, part: iset<K>) {
    forall r :: r in part ==> (r in s <==> r in s') && (r in s && r in s' ==> s[r] == s'[r])
  }

  /** A step changes nothing outside `writes`, and both its success and what it leaves inside
      `touches` are decided by what it finds there. */
  ghost predicate StaysWithin<K(!new), V(!new)>(f: Step<Store<K, V>>, touches: iset<K>, writes: iset<K>) {
    && writes <= touches
    && (forall s: Store<K, V> :: f(s).Some? ==> Agree(s, f(s).value, iset r: K | r !in writes))
    && (forall s: Store<K, V>, s': Store<K, V> :: Agree(s, s', touches) ==>
          && (f(s).Some? <==> f(s').Some?)
          && (f(s).Some? && f(s').Some? ==> Agree(f(s).value, f(s').value, touches)))
  }

  lemma OutsideUntouched<K(!new), V(!new)>(f: Step<Store<K, V>>, touches: iset<K>, writes: iset<K>,
                                  other: iset<K>, s: Store<K, V>)
    requires StaysWithin(f, touches, writes) && writes !! other && f(s).Some?
    ensures Agree(s, f(s).value, other)
  {
    assert forall r :: r in other ==> r in iset r: K | r !in writes;
  }

  lemma SameFailures<K(!new), V(!new)>(f: Step<Store<K, V>>, ft: iset<K>, fw: iset<K>,
                              h: Step<Store<K, V>>, ht: iset<K>, hw: iset<K>, s: Store<K, V>)
    requires StaysWithin(f, ft, fw) && StaysWithin(h, ht, hw)
    requires fw !! ht && hw !! ft
    ensures Then(f(s), h).Some? <==> f(s).Some? && h(s).Some?
    ensures Then(f(s), h).Some? ==> Agree(Then(f(s), h).value, h(s).value, ht)
    ensures Then(f(s), h).Some? ==> Agree(Then(f(s), h).value, f(s).value, ft)
  {
    if f(s).Some? {
      OutsideUntouched(f, ft, fw, ht, s);
      if h(f(s).value).Some? {
        OutsideUntouched(h, ht, hw, ft, f(s).value);
      }
    }
  }

  lemma OutsideBoth<K(!new), V(!new)>(f: Step<Store<K, V>>, ft: iset<K>, fw: iset<K>,
                             h: Step<Store<K, V>>, ht: iset<K>, hw: iset<K>, s: Store<K, V>, r: K)
    requires StaysWithin(f, ft, fw) && StaysWithin(h, ht, hw)
    requires Then(f(s), h).Some? && r !in fw && r !in hw
    ensures var u := Then(f(s), h).value; (r in s <==> r in u) && (r in s ==> s[r] == u[r])
  {
    OutsideUntouched(f, ft, fw, iset{r}, s);
    OutsideUntouched(h, ht, hw, iset{r}, f(s).value);
    assert r in iset{r};
  }

  lemma SameAt<K(!new), V(!new)>(f: Step<Store<K, V>>, ft: iset<K>, fw: iset<K>,
                                 h: Step<Store<K, V>>, ht: iset<K>, hw: iset<K>, s: Store<K, V>, r: K)
    requires StaysWithin(f, ft, fw) && StaysWithin(h, ht, hw) && fw !! ht && hw !! ft
    requires Then(f(s), h).Some? && Then(h(s), f).Some?
    ensures var a, b := Then(f(s), h).value, Then(h(s), f).value;
      (r in a <==> r in b) && (r in a && r in b ==> a[r] == b[r])
  {
    SameFailures(f, ft, fw, h, ht, hw, s);
    SameFailures(h, ht, hw, f, ft, fw, s);
    if r in fw {
      assert r in ft;
    } else if r in hw {
      assert r in ht;
    } else {
      OutsideBoth(f, ft, fw, h, ht, hw, s, r);
      OutsideBoth(h, ht, hw, f, ft, fw, s, r);
    }
  }

  lemma SameOutcome<K(!new), V(!new)>(f: Step<Store<K, V>>, ft: iset<K>, fw: iset<K>,
                                      h: Step<Store<K, V>>, ht: iset<K>, hw: iset<K>, s: Store<K, V>)
    requires StaysWithin(f, ft, fw) && StaysWithin(h, ht, hw) && fw !! ht && hw !! ft
    ensures Then(f(s), h) == Then(h(s), f)
  {
    SameFailures(f, ft, fw, h, ht, hw, s);
    SameFailures(h, ht, hw, f, ft, fw, s);
    if f(s).Some? && h(s).Some? {
      var a, b := Then(f(s), h).value, Then(h(s), f).value;
      forall r: K
        ensures (r in a <==> r in b) && (r in a && r in b ==> a[r] == b[r])
      {
        SameAt(f, ft, fw, h, ht, hw, s, r);
      }
      assert a.Keys == b.Keys;
      assert a == b;
    }
  }

  /** Two steps commute as partial functions when neither writes what the other touches. */
  lemma DisjointFootprintsCommute<K(!new), V(!new)>(f: Step<Store<K, V>>, ft: iset<K>, fw: iset<K>,
                                                    h: Step<Store<K, V>>, ht: iset<K>, hw: iset<K>)
    requires StaysWithin(f, ft, fw) && StaysWithin(h, ht, hw)
    requires fw !! ht && hw !! ft
    ensures Commute(f, h)
  {
    forall s: Store<K, V>
      ensures Then(f(s), h) == Then(h(s), f)
    {
      SameOutcome(f, ft, fw, h, ht, hw, s);
    }
  }
}
