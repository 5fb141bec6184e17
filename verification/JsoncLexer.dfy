/** The lexer of JSONC: strings with escapes, both kinds of comments, commas, white space and marks, and what its
    tokens say about the characters. */
module JsoncLexer {
  import opened Wrappers

  /** What Python's `str.isspace` accepts. */
  predicate IsSpace(c: char) {
    || '\t' <= c <= '\r' || '\U{1C}' <= c <= ' ' || c == '\U{85}' || c == '\U{A0}' || c == '\U{1680}'
    || '\U{2000}' <= c <= '\U{200A}' || c == '\U{2028}' || c == '\U{2029}' || c == '\U{202F}'
    || c == '\U{205F}' || c == '\U{3000}'
  }

  predicate IsBreak(c: char) {
    c == '\r' || c == '\n'
  }

  datatype Kind = Text | Comment | Comma | Space | Mark

  /** A token covers `start .. end`; `c` is its first character. */
  datatype Token = Token(kind: Kind, start: nat, end: nat, c: char)

  datatype JsoncError = UnterminatedString | UnterminatedComment

  // ----- the lexer -----

  /** The closing quote of a string whose contents start at `i`. */
  function StringClose(text: string, i: nat): (r: Option<nat>)
    ensures r.Some? ==> i <= r.value < |text| && text[r.value] == '"'
    decreases |text| - i
  {
    if i >= |text| then None
    else if text[i] == '"' then Some(i)
    else StringClose(text, if text[i] == '\\' then i + 2 else i + 1)
  }

  /** The first line break at or after `i`, or the end of the text. */
  function LineEnd(text: string, i: nat): (r: nat)
    requires i <= |text|
    ensures i <= r <= |text|
    decreases |text| - i
  {
    if i == |text| || IsBreak(text[i]) then i else LineEnd(text, i + 1)
  }

  /** The first end-of-comment mark at or after `i`. */
  function CommentClose(text: string, i: nat): (r: Option<nat>)
    ensures r.Some? ==> i <= r.value && r.value + 2 <= |text|
    decreases |text| - i
  {
    if i + 2 > |text| then None
    else if text[i] == '*' && text[i + 1] == '/' then Some(i)
    else CommentClose(text, i + 1)
  }

  predicate FollowedBy(text: string, i: nat, c: char) {
    i + 1 < |text| && text[i + 1] == c
  }

  function TokenAt(text: string, i: nat): (r: Result<Token, JsoncError>)
    requires i < |text|
    ensures r.Ok? ==> r.value.start == i < r.value.end <= |text| && r.value.c == text[i]
  {
    var c := text[i];
    if c == '"' then
      (match StringClose(text, i + 1)
       case None => Err(UnterminatedString)
       case Some(k) => Ok(Token(Text, i, k + 1, c)))
    else if c == '/' && FollowedBy(text, i, '/') then
      Ok(Token(Comment, i, LineEnd(text, i + 1), c))
    else if c == '/' && FollowedBy(text, i, '*') then
      (match CommentClose(text, i + 2)
       case None => Err(UnterminatedComment)
       case Some(k) => Ok(Token(Comment, i, k + 2, c)))
    else if c == ',' then Ok(Token(Comma, i, i + 1, c))
    else if IsSpace(c) then Ok(Token(Space, i, i + 1, c))
    else Ok(Token(Mark, i, i + 1, c))
  }

  /** The tokens of the text from `i` on. */
  function Lex(text: string, i: nat): Result<seq<Token>, JsoncError>
    requires i <= |text|
    decreases |text| - i
  {
    if i == |text| then Ok([]) else
      match TokenAt(text, i)
      case Err(e) => Err(e)
      case Ok(t) =>
        match Lex(text, t.end)
        case Err(e) => Err(e)
        case Ok(rest) => Ok([t] + rest)
  }

  // ----- where a string ends -----

  /** The number of backslashes directly before `k`, down to `i`. */
  ghost function Slashes(text: string, i: nat, k: nat): nat
    requires i <= k <= |text|
  {
    if k > i && text[k - 1] == '\\' then 1 + Slashes(text, i, k - 1) else 0
  }

  /** A quote that no backslash escapes: the backslashes before it pair up. */
  ghost predicate Closing(text: string, i: nat, k: nat) {
    i <= k < |text| && text[k] == '"' && Slashes(text, i, k) % 2 == 0
  }

  /** An escaped character keeps the pairing of the backslashes behind it. */
  lemma {:induction false} EscapeKeepsParity(text: string, i: nat, k: nat)
    requires i + 2 <= k <= |text| && text[i] == '\\'
    ensures Slashes(text, i, k) % 2 == Slashes(text, i + 2, k) % 2
    decreases k
  {
    if k > i + 2 && text[k - 1] == '\\' {
      EscapeKeepsParity(text, i, k - 1);
    } else if k == i + 2 {
      assert Slashes(text, i, i + 1) == 1;
    }
  }

  lemma {:induction false} PlainKeepsSlashes(text: string, i: nat, k: nat)
    requires i + 1 <= k <= |text| && text[i] != '\\'
    ensures Slashes(text, i, k) == Slashes(text, i + 1, k)
    decreases k
  {
    if k > i + 1 && text[k - 1] == '\\' {
      PlainKeepsSlashes(text, i, k - 1);
    }
  }

  lemma ClosingSteps(text: string, i: nat, k: nat)
    requires i < |text| && text[i] != '"'
    ensures Closing(text, i, k) <==> Closing(text, if text[i] == '\\' then i + 2 else i + 1, k)
  {
    if text[i] == '\\' {
      if i + 2 <= k < |text| {
        EscapeKeepsParity(text, i, k);
      } else if k == i + 1 < |text| {
        assert Slashes(text, i, i + 1) == 1 + Slashes(text, i, i);
      }
    } else if i + 1 <= k < |text| {
      PlainKeepsSlashes(text, i, k);
    }
  }

  /** The string ends at the first quote that is not escaped, and nowhere if there is none. */
  lemma {:induction false} StringCloseMeaning(text: string, i: nat)
    ensures StringClose(text, i).None? ==> forall k :: !Closing(text, i, k)
    ensures StringClose(text, i).Some? ==>
              var k := StringClose(text, i).value;
              Closing(text, i, k) && forall j: nat :: j < k ==> !Closing(text, i, j)
    decreases |text| - i
  {
    if i < |text| && text[i] != '"' {
      StringCloseMeaning(text, if text[i] == '\\' then i + 2 else i + 1);
      forall k: nat
        ensures Closing(text, i, k) <==> Closing(text, if text[i] == '\\' then i + 2 else i + 1, k)
      {
        ClosingSteps(text, i, k);
      }
    }
  }

  // ----- what a token says about the characters -----

  /** The characters `a` and `b` stand at `i`. */
  ghost predicate PairAt(text: string, i: nat, a: char, b: char) {
    i + 1 < |text| && text[i] == a && text[i + 1] == b
  }

  ghost predicate BreakAt(text: string, i: nat) {
    i < |text| && (text[i] == '\r' || text[i] == '\n')
  }

  lemma {:induction false} LineEndMeaning(text: string, i: nat)
    requires i <= |text|
    ensures LineEnd(text, i) == |text| || BreakAt(text, LineEnd(text, i))
    ensures forall j: nat :: i <= j < LineEnd(text, i) ==> !BreakAt(text, j)
    decreases |text| - i
  {
    if i < |text| && !IsBreak(text[i]) {
      LineEndMeaning(text, i + 1);
    }
  }

  lemma {:induction false} CommentCloseMeaning(text: string, i: nat)
    ensures CommentClose(text, i).None? ==> forall k: nat :: i <= k ==> !PairAt(text, k, '*', '/')
    ensures CommentClose(text, i).Some? ==>
              var k := CommentClose(text, i).value;
              PairAt(text, k, '*', '/') && forall j: nat :: i <= j < k ==> !PairAt(text, j, '*', '/')
    decreases |text| - i
  {
    if i + 2 <= |text| && !(text[i] == '*' && text[i + 1] == '/') {
      CommentCloseMeaning(text, i + 1);
    }
  }

  /** The white space of Unicode, one by one. */
  ghost const WHITE_SPACE: set<char> := {
    '\t', '\n', '\U{0B}', '\U{0C}', '\r', '\U{1C}', '\U{1D}', '\U{1E}', '\U{1F}', ' ', '\U{85}', '\U{A0}',
    '\U{1680}', '\U{2000}', '\U{2001}', '\U{2002}', '\U{2003}', '\U{2004}', '\U{2005}', '\U{2006}', '\U{2007}',
    '\U{2008}', '\U{2009}', '\U{200A}', '\U{2028}', '\U{2029}', '\U{202F}', '\U{205F}', '\U{3000}'}

  ghost predicate IsWhite(c: char) {
    c in WHITE_SPACE
  }

  lemma SpaceMeaning(c: char)
    ensures IsSpace(c) <==> IsWhite(c)
  {
  }

  /** The string that opens at `start` can close at `k`. */
  ghost predicate ClosesAt(text: string, start: nat, k: nat) {
    Closing(text, start + 1, k)
  }

  /** A string from its opening quote to the first quote that is not escaped. */
  ghost predicate IsString(text: string, start: nat, end: nat) {
    && start + 2 <= end <= |text| && text[start] == '"' && ClosesAt(text, start, end - 1)
    && forall j: nat :: j < end - 1 ==> !ClosesAt(text, start, j)
  }

  /** From two slashes to the end of the line. */
  ghost predicate IsLineComment(text: string, start: nat, end: nat) {
    && PairAt(text, start, '/', '/') && start + 2 <= end <= |text|
    && (end == |text| || BreakAt(text, end))
    && forall j: nat :: start < j < end ==> !BreakAt(text, j)
  }

  /** From a slash and a star to the first star and slash behind them. */
  ghost predicate IsBlockComment(text: string, start: nat, end: nat) {
    && PairAt(text, start, '/', '*') && start + 4 <= end <= |text| && PairAt(text, end - 2, '*', '/')
    && forall j: nat :: start + 2 <= j < end - 2 ==> !PairAt(text, j, '*', '/')
  }

  ghost predicate OpensComment(text: string, i: nat) {
    PairAt(text, i, '/', '/') || PairAt(text, i, '/', '*')
  }

  /** What the characters of a token are. */
  ghost predicate TokenReads(text: string, t: Token) {
    && t.start < t.end <= |text| && t.c == text[t.start]
    && match t.kind
       case Text => IsString(text, t.start, t.end)
       case Comment => IsLineComment(text, t.start, t.end) || IsBlockComment(text, t.start, t.end)
       case Comma => t.c == ',' && t.end == t.start + 1
       case Space => IsWhite(t.c) && t.end == t.start + 1
       case Mark =>
         && t.c != '"' && t.c != ',' && !IsWhite(t.c) && !OpensComment(text, t.start) && t.end == t.start + 1
  }

  /** No token starts here: a string or a block comment that never ends. */
  ghost predicate NeverEnds(text: string, i: nat, e: JsoncError) {
    match e
    case UnterminatedString => i < |text| && text[i] == '"' && forall k: nat :: !ClosesAt(text, i, k)
    case UnterminatedComment => PairAt(text, i, '/', '*') && forall k: nat :: i + 2 <= k ==> !PairAt(text, k, '*', '/')
  }

  lemma TokenIsRead(text: string, i: nat)
    requires i < |text|
    ensures match TokenAt(text, i)
            case Ok(t) => t.start == i && TokenReads(text, t)
            case Err(e) => NeverEnds(text, i, e)
  {
    assert !IsSpace('"') && !IsSpace(',') && !IsSpace('/');
    SpaceMeaning(text[i]);
    if text[i] == '"' {
      StringCloseMeaning(text, i + 1);
    } else if PairAt(text, i, '/', '/') {
      LineEndMeaning(text, i + 1);
      assert !BreakAt(text, i + 1);
    } else if PairAt(text, i, '/', '*') {
      CommentCloseMeaning(text, i + 2);
    }
  }

  lemma SameEnd(text: string, t: Token, u: Token)
    requires TokenReads(text, t) && TokenReads(text, u) && t.start == u.start && t.kind == u.kind
    ensures t.end == u.end
  {
  }

  /** At most one token can be read at each place, and none where a string or comment never ends. */
  lemma TokenUnique(text: string, t: Token, u: Token)
    requires TokenReads(text, t) && TokenReads(text, u) && t.start == u.start
    ensures t == u
  {
    assert !IsSpace('"') && !IsSpace(',') && !IsSpace('/');
    SpaceMeaning(t.c);
    assert t.kind == u.kind;
    SameEnd(text, t, u);
  }

  lemma TokenMeaning(text: string, i: nat, t: Token)
    requires i < |text|
    ensures TokenAt(text, i) == Ok(t) <==> t.start == i && TokenReads(text, t)
  {
    TokenIsRead(text, i);
    if t.start == i && TokenReads(text, t) {
      match TokenAt(text, i) {
        case Ok(u) => TokenUnique(text, t, u);
        case Err(e) =>
          NothingReads(text, t, e);
      }
    }
  }

  lemma NothingReads(text: string, t: Token, e: JsoncError)
    requires NeverEnds(text, t.start, e)
    ensures !TokenReads(text, t)
  {
    assert !IsSpace('"') && !IsSpace('/');
  }

  // ----- what the lexer says about the text -----

  /** These tokens, one behind the other without gaps, are the text from `i` on. */
  ghost predicate Reads(text: string, i: nat, ts: seq<Token>)
    decreases |ts|
  {
    if ts == [] then i == |text| else
    ts[0].start == i && TokenReads(text, ts[0]) && Reads(text, ts[0].end, ts[1..])
  }

  /** These tokens come first, and then something never ends. */
  ghost predicate BreaksOff(text: string, i: nat, ts: seq<Token>, e: JsoncError)
    decreases |ts|
  {
    if ts == [] then NeverEnds(text, i, e) else
    ts[0].start == i && TokenReads(text, ts[0]) && BreaksOff(text, ts[0].end, ts[1..], e)
  }

  /** Lexing succeeds with exactly the tokens that the text reads as. */
  lemma {:induction false} LexMeaning(text: string, i: nat, ts: seq<Token>)
    requires i <= |text|
    ensures Lex(text, i) == Ok(ts) <==> Reads(text, i, ts)
    decreases |text| - i
  {
    if i < |text| {
      if ts != [] {
        TokenMeaning(text, i, ts[0]);
        if TokenAt(text, i) == Ok(ts[0]) {
          LexMeaning(text, ts[0].end, ts[1..]);
          assert ts == [ts[0]] + ts[1..];
        }
      }
      if Lex(text, i) == Ok(ts) {
        assert ([TokenAt(text, i).value] + Lex(text, TokenAt(text, i).value.end).value)[1..]
            == Lex(text, TokenAt(text, i).value.end).value;
      }
    }
  }

  lemma {:induction false} LexErrorMeaning(text: string, i: nat) returns (ts: seq<Token>)
    requires i <= |text| && Lex(text, i).Err?
    ensures BreaksOff(text, i, ts, Lex(text, i).error)
    decreases |text| - i
  {
    TokenIsRead(text, i);
    match TokenAt(text, i)
    case Err(e) => ts := [];
    case Ok(t) =>
      var rest := LexErrorMeaning(text, t.end);
      ts := [t] + rest;
  }
}
