/** When two paths overlap: a test on the characters, and what it says about directories. */
module Paths {
  predicate StartsWith(s: string, prefix: string) {
    |prefix| <= |s| && s[..|prefix|] == prefix
  }

  /** Equal paths, or one a directory above the other. */
  predicate Overlap(left: string, right: string) {
    left == right || StartsWith(left, right + "/") || StartsWith(right, left + "/")
  }

  /** The components of a path, split at every slash. */
  ghost function Parts(path: string): (parts: seq<string>)
    ensures |parts| >= 1
  {
    if path == [] then [[]] else
    var rest := Parts(path[1..]);
    if path[0] == '/' then [[]] + rest else [[path[0]] + rest[0]] + rest[1..]
  }

  /** One path is the other, or lies under it. */
  ghost predicate Related(p: string, q: string) {
    Parts(p) <= Parts(q) || Parts(q) <= Parts(p)
  }

  /** What is written behind a slash adds its own components. */
  lemma {:induction false} PartsBehindSlash(p: string, q: string)
    ensures Parts(p + "/" + q) == Parts(p) + Parts(q)
  {
    if p == [] {
      assert p + "/" + q == "/" + q;
      assert ("/" + q)[1..] == q;
    } else {
      assert p + "/" + q == [p[0]] + (p[1..] + "/" + q);
      assert (p + "/" + q)[1..] == p[1..] + "/" + q;
      PartsBehindSlash(p[1..], q);
    }
  }

  /** A path whose components begin with those of `p` is `p` or continues it behind a slash. */
  lemma {:induction false} PartsDecide(p: string, s: string)
    requires Parts(p) <= Parts(s)
    ensures s == p || StartsWith(s, p + "/")
    decreases |p|
  {
    assert Parts(p)[0] == Parts(s)[0];
    if s != [] && p != [] {
      var p', s' := Parts(p[1..]), Parts(s[1..]);
      if p[0] == '/' {
        assert s[0] == '/';
        assert p' == Parts(p)[1..] && s' == Parts(s)[1..];
      } else {
        assert s[0] == p[0] && p'[0] == Parts(p)[0][1..] && s'[0] == Parts(s)[0][1..];
        assert p' == [p'[0]] + Parts(p)[1..] && s' == [s'[0]] + Parts(s)[1..];
      }
      assert p' <= s';
      PartsDecide(p[1..], s[1..]);
      assert p == [p[0]] + p[1..] && s == [s[0]] + s[1..];
      assert p + "/" == [p[0]] + (p[1..] + "/");
    }
  }

  lemma UnderHasParts(p: string, s: string)
    requires StartsWith(s, p + "/")
    ensures Parts(p) <= Parts(s)
  {
    var q := s[|p| + 1..];
    assert s == p + "/" + q;
    PartsBehindSlash(p, q);
  }

  /** The test on characters holds exactly when the components of one path begin with those of the other. */
  lemma OverlapMeansRelated(left: string, right: string)
    ensures Overlap(left, right) <==> Related(left, right)
  {
    if Overlap(left, right) {
      if StartsWith(left, right + "/") {
        UnderHasParts(right, left);
      } else if StartsWith(right, left + "/") {
        UnderHasParts(left, right);
      }
    }
    if Parts(left) <= Parts(right) {
      PartsDecide(left, right);
    } else if Parts(right) <= Parts(left) {
      PartsDecide(right, left);
    }
  }

  /** Some path of one set is, or lies under, a path of the other. */
  ghost predicate Meet(left: set<string>, right: set<string>) {
    exists a, b :: a in left && b in right && Related(a, b)
  }

  predicate PathsOverlap(left: set<string>, right: set<string>): (overlap: bool)
    ensures overlap <==> Meet(left, right)
  {
    OverlapsMeet(left, right);
    exists a, b | a in left && b in right :: Overlap(a, b)
  }

  lemma OverlapsMeet(left: set<string>, right: set<string>)
    ensures (exists a, b | a in left && b in right :: Overlap(a, b)) <==> Meet(left, right)
  {
    forall a, b | a in left && b in right
      ensures Overlap(a, b) <==> Related(a, b)
    {
      OverlapMeansRelated(a, b);
    }
  }

  /** Everything that the paths reach: the paths, what is under them, what is above. */
  ghost function Region(paths: set<string>): iset<string> {
    iset q: string | Near(paths, q)
  }

  ghost predicate Near(paths: set<string>, q: string) {
    exists p :: p in paths && Related(p, q)
  }

  lemma MeetSymmetric(left: set<string>, right: set<string>)
    ensures Meet(left, right) <==> Meet(right, left)
  {
  }

  /** Where the paths do not meet, neither set is in the region of the other. */
  lemma ApartFromRegion(left: set<string>, right: set<string>)
    requires !Meet(left, right)
    ensures (iset p | p in left) !! Region(right)
  {
  }
}
