/** Identifiers: an ASCII letter or digit, then letters, digits and `. _ : -`, up to a given length. */
module Identifiers {
  predicate Alphanumeric(c: char) {
    'a' <= c <= 'z' || 'A' <= c <= 'Z' || '0' <= c <= '9'
  }

  predicate IdentifierTail(s: string) {
    s == [] || (
      && (Alphanumeric(s[0]) || s[0] == '.' || s[0] == '_' || s[0] == ':' || s[0] == '-')
      && IdentifierTail(s[1..]))
  }

  predicate IsIdentifierUpTo(s: string, limit: nat) {
    1 <= |s| <= limit && Alphanumeric(s[0]) && IdentifierTail(s[1..])
  }

  ghost predicate IdentifierChar(c: char) {
    'a' <= c <= 'z' || 'A' <= c <= 'Z' || '0' <= c <= '9' || c in {'.', '_', ':', '-'}
  }

  lemma {:induction false} TailMeaning(s: string)
    ensures IdentifierTail(s) <==> forall k :: 0 <= k < |s| ==> IdentifierChar(s[k])
  {
    if s != [] {
      TailMeaning(s[1..]);
      assert forall k :: 0 < k < |s| ==> s[k] == s[1..][k - 1];
      assert forall k :: 0 <= k < |s| - 1 ==> s[1..][k] == s[k + 1];
    }
  }

  lemma IdentifierMeaning(s: string, limit: nat)
    ensures IsIdentifierUpTo(s, limit) <==>
      && 1 <= |s| <= limit && s[0] !in {'.', '_', ':', '-'}
      && forall k :: 0 <= k < |s| ==> IdentifierChar(s[k])
  {
    if s != [] {
      TailMeaning(s[1..]);
      assert forall k :: 0 < k < |s| ==> s[k] == s[1..][k - 1];
      assert forall k :: 0 <= k < |s| - 1 ==> s[1..][k] == s[k + 1];
    }
  }
}
