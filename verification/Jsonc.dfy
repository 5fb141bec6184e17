/** The side-effect-free JSONC cleaner: comments and trailing commas become blanks, every offset
    stays. The reference is the lexer; the cleaner is one pass over a character array. */
module Jsonc {
  import opened Wrappers
  import opened JsoncLexer

  // ----- significant tokens and trailing commas -----

  predicate Significant(t: Token) {
    t.kind == Text || t.kind == Comma || t.kind == Mark
  }

  function SignificantOf(ts: seq<Token>): seq<Token> {
    if ts == [] then []
    else if Significant(ts[0]) then [ts[0]] + SignificantOf(ts[1..])
    else SignificantOf(ts[1..])
  }

  /** After these a comma can never be a trailing one. */
  predicate Opens(t: Token) {
    t.kind == Comma || (t.kind == Mark && (t.c == '{' || t.c == '[' || t.c == ':'))
  }

  predicate Closes(t: Token) {
    t.kind == Mark && (t.c == '}' || t.c == ']')
  }

  /** A comma after a value and directly before a closing bracket. */
  predicate Trailing(sig: seq<Token>, k: nat) {
    0 < k && k + 1 < |sig| && sig[k].kind == Comma && !Opens(sig[k - 1]) && Closes(sig[k + 1])
  }

  /** The offsets of the trailing commas, in order. */
  function TrailingStarts(sig: seq<Token>): seq<nat> {
    var n := |sig|;
    if n < 2 then [] else
      TrailingStarts(sig[..n - 1]) + if Trailing(sig, n - 2) then [sig[n - 2].start] else []
  }

  // ----- blanking -----

  predicate InComment(ts: seq<Token>, j: nat) {
    exists t | t in ts :: t.kind == Comment && t.start <= j < t.end
  }

  /** The text with the comments among `ts` and the offsets in `commas` blanked; line breaks stay. */
  function Blank(text: string, ts: seq<Token>, commas: seq<nat>): string {
    seq(|text|, j requires 0 <= j < |text| =>
      if j in commas || (InComment(ts, j) && !IsBreak(text[j])) then ' ' else text[j])
  }

  datatype Cleaned = Cleaned(text: string, trailing: seq<nat>)

  /** What cleaning means. */
  function CleanSpec(text: string): Result<Cleaned, JsoncError> {
    match Lex(text, 0)
    case Err(e) => Err(e)
    case Ok(ts) =>
      var commas := TrailingStarts(SignificantOf(ts));
      Ok(Cleaned(Blank(text, ts, commas), commas))
  }

  // ----- the cleaner -----

  lemma {:induction false} SignificantAppend(ts: seq<Token>, t: Token)
    ensures SignificantOf(ts + [t]) == if Significant(t) then SignificantOf(ts) + [t] else SignificantOf(ts)
    decreases |ts|
  {
    if ts == [] {
      assert ts + [t] == [t];
    } else {
      assert (ts + [t])[1..] == ts[1..] + [t];
      SignificantAppend(ts[1..], t);
    }
  }

  /** The lexing of the whole text, given the tokens before `i`. */
  function Resume(done: seq<Token>, rest: Result<seq<Token>, JsoncError>): Result<seq<Token>, JsoncError> {
    match rest
    case Err(e) => Err(e)
    case Ok(ts) => Ok(done + ts)
  }

  lemma ResumeStep(text: string, i: nat, done: seq<Token>)
    requires i < |text|
    ensures match TokenAt(text, i)
            case Err(e) => Lex(text, i) == Err(e)
            case Ok(t) => Resume(done, Lex(text, i)) == Resume(done + [t], Lex(text, t.end))
  {
    match TokenAt(text, i) {
      case Err(_) =>
      case Ok(t) =>
        match Lex(text, t.end) {
          case Err(_) =>
          case Ok(rest) => assert done + ([t] + rest) == done + [t] + rest;
        }
    }
  }

  /** What the pass remembers about the significant tokens so far: the last significant character
      and a comma whose next significant character is not yet known. */
  predicate Remembers(sig: seq<Token>, pending: Option<nat>, previous: Option<char>) {
    var n := |sig|;
    && previous == (if n == 0 then None else Some(sig[n - 1].c))
    && pending == (if n >= 2 && sig[n - 1].kind == Comma && !Opens(sig[n - 2]) then Some(sig[n - 1].start) else None)
  }

  predicate Typed(t: Token) {
    && (t.kind == Text <==> t.c == '"')
    && (t.kind == Comma <==> t.c == ',')
    && (t.kind == Comment ==> t.c == '/')
    && (t.kind == Space ==> IsSpace(t.c))
    && (t.kind == Mark ==> !IsSpace(t.c))
  }

  lemma TokensAreTyped(text: string, i: nat)
    requires i < |text| && TokenAt(text, i).Ok?
    ensures Typed(TokenAt(text, i).value)
  {
    assert !IsSpace('"') && !IsSpace(',') && !IsSpace('/');
  }

  /** The tokens before offset `i` have been read. */
  ghost predicate ReadUpTo(text: string, i: nat, done: seq<Token>) {
    && i <= |text|
    && Lex(text, 0) == Resume(done, Lex(text, i))
    && forall t :: t in done ==> Typed(t) && t.start < t.end <= i
  }

  /** What is known about the commas among the significant tokens so far. */
  ghost predicate Knows(sig: seq<Token>, trailing: seq<nat>, pending: Option<nat>, previous: Option<char>) {
    Remembers(sig, pending, previous) && trailing == TrailingStarts(sig)
  }

  /** The state of the pass at offset `i`. */
  ghost predicate Passed(text: string, i: nat, done: seq<Token>, out: string, trailing: seq<nat>,
                         pending: Option<nat>, previous: Option<char>)
  {
    && ReadUpTo(text, i, done)
    && Knows(SignificantOf(done), trailing, pending, previous)
    && out == Blank(text, done, trailing)
  }

  lemma ReadNext(text: string, i: nat, done: seq<Token>)
    requires ReadUpTo(text, i, done) && i < |text| && TokenAt(text, i).Ok?
    ensures ReadUpTo(text, TokenAt(text, i).value.end, done + [TokenAt(text, i).value])
    ensures Typed(TokenAt(text, i).value)
  {
    TokensAreTyped(text, i);
    ResumeStep(text, i, done);
  }

  lemma {:induction false} SignificantAreTokens(ts: seq<Token>)
    ensures forall t :: t in SignificantOf(ts) ==> t in ts && Significant(t)
  {
    if ts != [] {
      SignificantAreTokens(ts[1..]);
    }
  }

  lemma {:induction false} TrailingAreStarts(sig: seq<Token>)
    ensures forall s :: s in TrailingStarts(sig) ==> exists t :: t in sig && t.kind == Comma && t.start == s
    decreases |sig|
  {
    var n := |sig|;
    if n >= 2 {
      TrailingAreStarts(sig[..n - 1]);
      forall s | s in TrailingStarts(sig)
        ensures exists t :: t in sig && t.kind == Comma && t.start == s
      {
        if s in TrailingStarts(sig[..n - 1]) {
          var t :| t in sig[..n - 1] && t.kind == Comma && t.start == s;
          assert t in sig;
        } else {
          assert sig[n - 2] in sig;
        }
      }
    }
  }

  lemma TrailingAppend(sig: seq<Token>, t: Token)
    ensures TrailingStarts(sig + [t]) ==
            if |sig| > 0 && Trailing(sig + [t], |sig| - 1) then TrailingStarts(sig) + [sig[|sig| - 1].start]
            else TrailingStarts(sig)
  {
    assert (sig + [t])[..|sig|] == sig;
  }

  /** The next significant token settles a pending comma. */
  lemma KnowsNext(sig: seq<Token>, trailing: seq<nat>, pending: Option<nat>, previous: Option<char>, t: Token)
    requires Knows(sig, trailing, pending, previous) && Typed(t) && Significant(t)
    requires forall u :: u in sig ==> Typed(u) && Significant(u)
    ensures t.kind != Comma && !(pending.Some? && Closes(t)) ==> Knows(sig + [t], trailing, None, Some(t.c))
    ensures t.kind != Comma && pending.Some? && Closes(t) ==>
              Knows(sig + [t], trailing + [pending.value], None, Some(t.c))
    ensures t.kind == Comma ==>
              Knows(sig + [t], trailing,
                    if previous.None? || previous.value in "{[,:" then None else Some(t.start), Some(','))
  {
    TrailingAppend(sig, t);
    assert |sig| > 0 ==> sig[|sig| - 1] in sig;
  }

  lemma BlankIgnores(text: string, ts: seq<Token>, t: Token, commas: seq<nat>)
    requires t.kind != Comment
    ensures Blank(text, ts + [t], commas) == Blank(text, ts, commas)
  {
    forall j | 0 <= j < |text|
      ensures InComment(ts + [t], j) <==> InComment(ts, j)
    {
      if InComment(ts, j) {
        var u :| u in ts && u.kind == Comment && u.start <= j < u.end;
        assert u in ts + [t];
      }
    }
  }

  lemma BlankComment(text: string, ts: seq<Token>, t: Token, commas: seq<nat>, out: string)
    requires t.kind == Comment && t.end <= |text| && |out| == |text|
    requires forall j :: 0 <= j < |text| ==>
               out[j] == if t.start <= j < t.end && !IsBreak(text[j]) then ' ' else Blank(text, ts, commas)[j]
    ensures out == Blank(text, ts + [t], commas)
  {
    forall j | 0 <= j < |text|
      ensures InComment(ts + [t], j) <==> InComment(ts, j) || t.start <= j < t.end
    {
      assert t in ts + [t];
      if InComment(ts, j) {
        var u :| u in ts && u.kind == Comment && u.start <= j < u.end;
        assert u in ts + [t];
      }
    }
  }

  lemma BlankOneMore(text: string, ts: seq<Token>, commas: seq<nat>, p: nat)
    requires p < |text|
    ensures Blank(text, ts, commas + [p]) == Blank(text, ts, commas)[p := ' ']
  {
  }

  /** The pass over a blank. */
  lemma PassSpace(text: string, i: nat, done: seq<Token>, out: string, trailing: seq<nat>,
                  pending: Option<nat>, previous: Option<char>, t: Token)
    requires Passed(text, i, done, out, trailing, pending, previous)
    requires i < |text| && TokenAt(text, i) == Ok(t) && t.kind == Space
    ensures Passed(text, t.end, done + [t], out, trailing, pending, previous)
  {
    ReadNext(text, i, done);
    SignificantAppend(done, t);
    BlankIgnores(text, done, t, trailing);
  }

  /** The pass over a significant token that blanks nothing. */
  lemma PassPlain(text: string, i: nat, done: seq<Token>, out: string, trailing: seq<nat>,
                  pending: Option<nat>, previous: Option<char>, t: Token)
    requires Passed(text, i, done, out, trailing, pending, previous)
    requires i < |text| && TokenAt(text, i) == Ok(t) && Significant(t) && !(pending.Some? && Closes(t))
    ensures Passed(text, t.end, done + [t], out, trailing,
                   if t.kind != Comma || previous.None? || previous.value in "{[,:" then None else Some(i), Some(t.c))
  {
    ReadNext(text, i, done);
    SignificantAppend(done, t);
    SignificantAreTokens(done);
    KnowsNext(SignificantOf(done), trailing, pending, previous, t);
    BlankIgnores(text, done, t, trailing);
  }

  /** The pass over a closing bracket that reveals a trailing comma. */
  lemma PassTrailing(text: string, i: nat, done: seq<Token>, out: string, trailing: seq<nat>,
                     pending: Option<nat>, previous: Option<char>, t: Token)
    requires Passed(text, i, done, out, trailing, pending, previous)
    requires i < |text| && TokenAt(text, i) == Ok(t)
    requires pending.Some? && Closes(t)
    ensures pending.value < i
    ensures Passed(text, t.end, done + [t], out[pending.value := ' '], trailing + [pending.value], None, Some(t.c))
  {
    var sig := SignificantOf(done);
    ReadNext(text, i, done);
    SignificantAppend(done, t);
    SignificantAreTokens(done);
    assert sig[|sig| - 1] in sig;
    KnowsNext(sig, trailing, pending, previous, t);
    BlankIgnores(text, done, t, trailing + [pending.value]);
    BlankOneMore(text, done, trailing, pending.value);
  }

  lemma PassComment(text: string, i: nat, done: seq<Token>, out: string, trailing: seq<nat>,
                    pending: Option<nat>, previous: Option<char>, t: Token, out': string)
    requires Passed(text, i, done, out, trailing, pending, previous)
    requires i < |text| && TokenAt(text, i) == Ok(t) && t.kind == Comment && |out'| == |text|
    requires forall j :: 0 <= j < |text| ==>
               out'[j] == if t.start <= j < t.end && !IsBreak(text[j]) then ' ' else out[j]
    ensures Passed(text, t.end, done + [t], out', trailing, pending, previous)
  {
    ReadNext(text, i, done);
    SignificantAppend(done, t);
    BlankComment(text, done, t, trailing, out');
  }

  /** Follows a string from its opening quote; the offset of the closing one, or the end. */
  method SkipString(text: string, start: nat) returns (i: nat)
    requires start < |text|
    ensures StringClose(text, start + 1) == if i < |text| then Some(i) else None
    ensures i < |text| && text[start] == '"' ==> IsString(text, start, i + 1)
    ensures i >= |text| ==> forall k: nat :: !ClosesAt(text, start, k)
  {
    StringCloseMeaning(text, start + 1);
    i := start + 1;
    while i < |text| && text[i] != '"'
      invariant StringClose(text, start + 1) == StringClose(text, i)
      decreases |text| - i
    {
      i := i + if text[i] == '\\' then 2 else 1;
    }
  }

  method BlankLineComment(text: string, out: array<char>, start: nat) returns (i: nat)
    requires out.Length == |text| && start < |text| && !IsBreak(text[start])
    modifies out
    ensures i == LineEnd(text, start + 1)
    ensures forall j :: 0 <= j < |text| ==>
              out[j] == if start <= j < i && !IsBreak(text[j]) then ' ' else old(out[j])
  {
    i := start;
    while i < |text| && !IsBreak(text[i])
      invariant start <= i <= |text| && LineEnd(text, start) == LineEnd(text, i)
      invariant forall j :: 0 <= j < |text| ==>
        out[j] == if start <= j < i && !IsBreak(text[j]) then ' ' else old(out[j])
    {
      out[i] := ' ';
      i := i + 1;
    }
  }

  method BlankBlockComment(text: string, out: array<char>, start: nat, end: nat)
    requires out.Length == |text| && start <= end <= |text|
    modifies out
    ensures forall j :: 0 <= j < |text| ==>
              out[j] == if start <= j < end && !IsBreak(text[j]) then ' ' else old(out[j])
  {
    for k := start to end
      invariant forall j :: 0 <= j < |text| ==>
        out[j] == if start <= j < k && !IsBreak(text[j]) then ' ' else old(out[j])
    {
      if !IsBreak(text[k]) {
        out[k] := ' ';
      }
    }
  }

  /** The state of the pass that is not in the array. */
  datatype Memory = Memory(i: nat, trailing: seq<nat>, pending: Option<nat>, previous: Option<char>)

  /** A closing bracket right behind a comma: the comma goes. */
  method DropComma(text: string, out: array<char>, m: Memory, ghost done: seq<Token>, ghost t: Token)
    returns (next: Memory)
    requires out.Length == |text| && m.i < |text| && m.pending.Some?
    requires Passed(text, m.i, done, out[..], m.trailing, m.pending, m.previous)
    requires TokenAt(text, m.i) == Ok(t) && Closes(t) && t.end == m.i + 1
    modifies out
    ensures next.i == t.end
    ensures Passed(text, t.end, done + [t], out[..], next.trailing, next.pending, next.previous)
  {
    PassTrailing(text, m.i, done, out[..], m.trailing, m.pending, m.previous, t);
    ghost var after := out[..][m.pending.value := ' '];
    out[m.pending.value] := ' ';
    assert out[..] == after;
    next := Memory(m.i + 1, m.trailing + [m.pending.value], None, Some(text[m.i]));
  }

  /** One token of the pass. */
  method CleanToken(text: string, out: array<char>, m: Memory, ghost done: seq<Token>)
    returns (r: Result<Memory, JsoncError>)
    requires out.Length == |text| && m.i < |text|
    requires Passed(text, m.i, done, out[..], m.trailing, m.pending, m.previous)
    modifies out
    ensures r.Err? <==> TokenAt(text, m.i).Err?
    ensures r.Err? ==> r.error == TokenAt(text, m.i).error
    ensures r.Ok? ==>
              && r.value.i == TokenAt(text, m.i).value.end
              && Passed(text, r.value.i, done + [TokenAt(text, m.i).value], out[..],
                        r.value.trailing, r.value.pending, r.value.previous)
  {
    var i, c := m.i, text[m.i];
    ghost var before := out[..];
    ghost var token := TokenAt(text, i);
    if c == '"' {
      var close := SkipString(text, i);
      if close >= |text| {
        return Err(UnterminatedString);
      }
      PassPlain(text, i, done, before, m.trailing, m.pending, m.previous, token.value);
      return Ok(m.(i := close + 1, pending := None, previous := Some(c)));
    } else if c == '/' && FollowedBy(text, i, '/') {
      var end := BlankLineComment(text, out, i);
      PassComment(text, i, done, before, m.trailing, m.pending, m.previous, token.value, out[..]);
      return Ok(m.(i := end));
    } else if c == '/' && FollowedBy(text, i, '*') {
      var close := CommentClose(text, i + 2);
      if close == None {
        return Err(UnterminatedComment);
      }
      BlankBlockComment(text, out, i, close.value + 2);
      PassComment(text, i, done, before, m.trailing, m.pending, m.previous, token.value, out[..]);
      return Ok(m.(i := close.value + 2));
    } else if c == ',' {
      PassPlain(text, i, done, before, m.trailing, m.pending, m.previous, token.value);
      var pending := if m.previous.None? || m.previous.value in "{[,:" then None else Some(i);
      return Ok(m.(i := i + 1, pending := pending, previous := Some(',')));
    } else if !IsSpace(c) {
      if c in "}]" && m.pending.Some? {
        var next := DropComma(text, out, m, done, token.value);
        return Ok(next);
      }
      PassPlain(text, i, done, before, m.trailing, m.pending, m.previous, token.value);
      return Ok(m.(i := i + 1, pending := None, previous := Some(c)));
    } else {
      PassSpace(text, i, done, before, m.trailing, m.pending, m.previous, token.value);
      return Ok(m.(i := i + 1));
    }
  }

  lemma ResumeNothing(text: string)
    ensures Resume([], Lex(text, 0)) == Lex(text, 0)
  {
    if Lex(text, 0).Ok? {
      assert [] + Lex(text, 0).value == Lex(text, 0).value;
    }
  }

  /** One pass that blanks comments and trailing commas; it computes exactly what the lexer says. It succeeds exactly
      when the text reads as tokens, and then it is cleaned by those. */
  method Clean(text: string) returns (r: Result<Cleaned, JsoncError>)
    ensures r == CleanSpec(text)
    ensures r.Ok? <==> exists ts :: Reads(text, 0, ts)
    ensures r.Ok? ==> forall ts :: Reads(text, 0, ts) ==> Cleans(text, ts, r.value)
    ensures r.Err? ==> exists ts :: BreaksOff(text, 0, ts, r.error)
  {
    r := Pass(text);
    if r.Ok? {
      LexMeaning(text, 0, Lex(text, 0).value);
    } else {
      var ts := LexErrorMeaning(text, 0);
    }
    forall ts | Reads(text, 0, ts)
      ensures r.Ok? && Cleans(text, ts, r.value)
    {
      LexMeaning(text, 0, ts);
      CleanedIsClean(text, ts);
    }
  }

  method Pass(text: string) returns (r: Result<Cleaned, JsoncError>)
    ensures r == CleanSpec(text)
  {
    var out := new char[|text|](j requires 0 <= j < |text| => text[j]);
    var m := Memory(0, [], None, None);
    ghost var done: seq<Token> := [];
    assert out[..] == Blank(text, [], []);
    ResumeNothing(text);
    while m.i < |text|
      invariant Passed(text, m.i, done, out[..], m.trailing, m.pending, m.previous)
      decreases |text| - m.i
    {
      ResumeStep(text, m.i, done);
      ghost var token := TokenAt(text, m.i);
      var next := CleanToken(text, out, m, done);
      if next.Err? {
        return Err(next.error);
      }
      m := next.value;
      done := done + [token.value];
    }
    assert Lex(text, |text|) == Ok([]);
    assert done + [] == done;
    return Ok(Cleaned(out[..], m.trailing));
  }

  // ----- what cleaning keeps -----

  /** Tokens follow each other without gaps. */
  lemma {:induction false} LexIsContiguous(text: string, i: nat)
    requires i <= |text| && Lex(text, i).Ok?
    ensures forall t :: t in Lex(text, i).value ==> i <= t.start < t.end <= |text| && Typed(t) && t.c == text[t.start]
    ensures forall a, b :: 0 <= a < b < |Lex(text, i).value| ==> Lex(text, i).value[a].end <= Lex(text, i).value[b].start
    decreases |text| - i
  {
    if i < |text| {
      var t := TokenAt(text, i).value;
      TokensAreTyped(text, i);
      LexIsContiguous(text, t.end);
      var rest := Lex(text, t.end).value;
      assert Lex(text, i).value == [t] + rest;
      assert forall b :: 0 <= b < |rest| ==> rest[b] in rest;
    }
  }

  /** `out` shows the tokens of `text` except comments and the commas at the given offsets. */
  ghost predicate Shows(text: string, out: string, t: Token, commas: seq<nat>)
    requires |out| == |text| && t.start < t.end <= |text|
  {
    if t.kind == Comment then forall j :: t.start <= j < t.end ==> IsSpace(out[j])
    else if t.kind == Comma && t.start in commas then t.end == t.start + 1 && out[t.start] == ' '
    else forall j :: t.start <= j < t.end ==> out[j] == text[j]
  }

  ghost predicate CommaOffsets(ts: seq<Token>, commas: seq<nat>) {
    forall s :: s in commas ==> exists t :: t in ts && t.kind == Comma && t.start == s && t.end == s + 1
  }

  lemma {:induction false} CommasAreShort(text: string, i: nat)
    requires i <= |text| && Lex(text, i).Ok?
    ensures forall t :: t in Lex(text, i).value && t.kind == Comma ==> t.end == t.start + 1
    decreases |text| - i
  {
    if i < |text| {
      CommasAreShort(text, TokenAt(text, i).value.end);
    }
  }

  lemma SameToken(ts: seq<Token>, t: Token, u: Token, j: nat)
    requires forall a, b :: 0 <= a < b < |ts| ==> ts[a].end <= ts[b].start
    requires t in ts && u in ts && t.start <= j < t.end && u.start <= j < u.end
    ensures t == u
  {
    var a :| 0 <= a < |ts| && ts[a] == t;
    var b :| 0 <= b < |ts| && ts[b] == u;
  }

  lemma InsideToken(ts: seq<Token>, commas: seq<nat>, t: Token, j: nat)
    requires forall a, b :: 0 <= a < b < |ts| ==> ts[a].end <= ts[b].start
    requires CommaOffsets(ts, commas) && t in ts && t.start <= j < t.end
    ensures InComment(ts, j) <==> t.kind == Comment
    ensures j in commas ==> t.kind == Comma && t.start == j
  {
    if InComment(ts, j) {
      var u :| u in ts && u.kind == Comment && u.start <= j < u.end;
      SameToken(ts, t, u, j);
    }
    if j in commas {
      var u :| u in ts && u.kind == Comma && u.start == j && u.end == j + 1;
      SameToken(ts, t, u, j);
    }
  }

  lemma BlankAt(text: string, ts: seq<Token>, commas: seq<nat>, t: Token, j: nat)
    requires forall a, b :: 0 <= a < b < |ts| ==> ts[a].end <= ts[b].start
    requires CommaOffsets(ts, commas) && t in ts && t.start <= j < t.end <= |text|
    ensures t.kind == Comment ==> IsSpace(Blank(text, ts, commas)[j])
    ensures t.kind != Comment && !(t.kind == Comma && t.start in commas) ==> Blank(text, ts, commas)[j] == text[j]
  {
    InsideToken(ts, commas, t, j);
    assert IsSpace(' ') && IsSpace('\r') && IsSpace('\n');
  }

  lemma BlankShows(text: string, ts: seq<Token>, commas: seq<nat>, t: Token)
    requires Lex(text, 0) == Ok(ts) && t in ts && CommaOffsets(ts, commas)
    ensures t.start < t.end <= |text| && Shows(text, Blank(text, ts, commas), t, commas)
  {
    LexIsContiguous(text, 0);
    CommasAreShort(text, 0);
    forall j | t.start <= j < t.end
      ensures t.kind == Comment ==> IsSpace(Blank(text, ts, commas)[j])
      ensures t.kind != Comment && !(t.kind == Comma && t.start in commas) ==> Blank(text, ts, commas)[j] == text[j]
    {
      BlankAt(text, ts, commas, t, j);
    }
  }

  /** Strings and line breaks keep every character; everything else is kept or blanked. */
  lemma BlankTouchesOnlyCommentsAndCommas(text: string, ts: seq<Token>, commas: seq<nat>)
    requires Lex(text, 0) == Ok(ts) && CommaOffsets(ts, commas)
    ensures |Blank(text, ts, commas)| == |text|
    ensures forall j :: 0 <= j < |text| ==> Blank(text, ts, commas)[j] == text[j] || Blank(text, ts, commas)[j] == ' '
    ensures forall j :: 0 <= j < |text| && IsBreak(text[j]) ==> Blank(text, ts, commas)[j] == text[j]
    ensures forall t, j :: t in ts && t.kind == Text && t.start <= j < t.end ==>
              j < |text| && Blank(text, ts, commas)[j] == text[j]
  {
    LexIsContiguous(text, 0);
    forall t, j | t in ts && t.kind == Text && t.start <= j < t.end
      ensures j < |text| && Blank(text, ts, commas)[j] == text[j]
    {
      BlankShows(text, ts, commas, t);
    }
    forall s | s in commas
      ensures s < |text| && text[s] == ','
    {
      var t :| t in ts && t.kind == Comma && t.start == s && t.end == s + 1;
      assert t.c == text[t.start];
    }
  }

  // ----- cleaning preserves the significant tokens -----

  /** The significant tokens without the commas at the given offsets. */
  function Kept(sig: seq<Token>, commas: seq<nat>): seq<Token> {
    if sig == [] then []
    else if sig[0].kind == Comma && sig[0].start in commas then Kept(sig[1..], commas)
    else [sig[0]] + Kept(sig[1..], commas)
  }

  lemma {:induction false} StringCloseSame(text: string, out: string, i: nat, k: nat)
    requires |out| == |text| && StringClose(text, i) == Some(k)
    requires forall j :: i <= j <= k ==> out[j] == text[j]
    ensures StringClose(out, i) == Some(k)
    decreases |text| - i
  {
    if text[i] != '"' {
      StringCloseSame(text, out, if text[i] == '\\' then i + 2 else i + 1, k);
    }
  }

  /** A shown token is read again as it was. */
  lemma ShownTokenAgain(text: string, out: string, i: nat)
    requires |out| == |text| && i < |text| && TokenAt(text, i).Ok?
    requires TokenAt(text, i).value.kind != Comment
    requires forall j :: 0 <= j < |text| ==> out[j] == text[j] || out[j] == ' '
    requires forall j :: i <= j < TokenAt(text, i).value.end ==> out[j] == text[j]
    ensures TokenAt(out, i) == TokenAt(text, i)
  {
    if text[i] == '"' {
      StringCloseSame(text, out, i + 1, StringClose(text, i + 1).value);
    }
  }

  lemma SpaceStep(out: string, i: nat)
    requires i < |out| && IsSpace(out[i]) && Lex(out, i + 1).Ok?
    ensures Lex(out, i) == Ok([Token(Space, i, i + 1, out[i])] + Lex(out, i + 1).value)
    ensures SignificantOf(Lex(out, i).value) == SignificantOf(Lex(out, i + 1).value)
  {
    assert !IsSpace('"') && !IsSpace(',') && !IsSpace('/');
    var t, rest := Token(Space, i, i + 1, out[i]), Lex(out, i + 1).value;
    assert TokenAt(out, i) == Ok(t);
    assert ([t] + rest)[1..] == rest;
  }

  /** A stretch of blanks adds nothing significant. */
  lemma {:induction false} LexOverBlanks(out: string, i: nat, end: nat)
    requires i <= end <= |out| && Lex(out, end).Ok?
    requires forall j :: i <= j < end ==> IsSpace(out[j])
    ensures Lex(out, i).Ok?
    ensures SignificantOf(Lex(out, i).value) == SignificantOf(Lex(out, end).value)
    decreases end - i
  {
    if i < end {
      LexOverBlanks(out, i + 1, end);
      SpaceStep(out, i);
    }
  }

  ghost predicate NoComments(ts: seq<Token>) {
    forall t :: t in ts ==> t.kind != Comment
  }

  lemma NoCommentsAfter(t: Token, ts: seq<Token>)
    requires t.kind != Comment && NoComments(ts)
    ensures NoComments([t] + ts)
  {
  }

  /** A stretch of blanks adds no comment. */
  lemma {:induction false} NoCommentsOverBlanks(out: string, i: nat, end: nat)
    requires i <= end <= |out| && Lex(out, end).Ok? && NoComments(Lex(out, end).value)
    requires forall j :: i <= j < end ==> IsSpace(out[j])
    ensures Lex(out, i).Ok? && NoComments(Lex(out, i).value)
    decreases end - i
  {
    if i < end {
      NoCommentsOverBlanks(out, i + 1, end);
      SpaceStep(out, i);
      NoCommentsAfter(Token(Space, i, i + 1, out[i]), Lex(out, i + 1).value);
    }
  }

  lemma LexStep(text: string, i: nat)
    requires i < |text| && Lex(text, i).Ok?
    ensures TokenAt(text, i).Ok? && Lex(text, TokenAt(text, i).value.end).Ok?
    ensures var t, rest := TokenAt(text, i).value, Lex(text, TokenAt(text, i).value.end).value;
            && Lex(text, i).value == [t] + rest
            && SignificantOf(Lex(text, i).value) == (if Significant(t) then [t] + SignificantOf(rest) else SignificantOf(rest))
            && t in Lex(text, i).value && forall u :: u in rest ==> u in Lex(text, i).value
  {
    var t, rest := TokenAt(text, i).value, Lex(text, TokenAt(text, i).value.end).value;
    assert ([t] + rest)[1..] == rest;
  }

  /** A shown token comes first again, and the rest follows. */
  lemma ShownStep(text: string, out: string, i: nat)
    requires |out| == |text| && i < |text| && TokenAt(text, i).Ok?
    requires TokenAt(text, i).value.kind != Comment
    requires forall j :: 0 <= j < |text| ==> out[j] == text[j] || out[j] == ' '
    requires forall j :: i <= j < TokenAt(text, i).value.end ==> out[j] == text[j]
    requires Lex(out, TokenAt(text, i).value.end).Ok?
    ensures Lex(out, i).Ok?
    ensures var t, rest := TokenAt(text, i).value, Lex(out, TokenAt(text, i).value.end).value;
      && Lex(out, i).value == [t] + rest
      && SignificantOf(Lex(out, i).value) == (if Significant(t) then [t] + SignificantOf(rest) else SignificantOf(rest))
  {
    ShownTokenAgain(text, out, i);
    LexStep(out, i);
  }

  lemma BlankedIsSpace(text: string, out: string, t: Token, commas: seq<nat>)
    requires |out| == |text| && t.start < t.end <= |text| && Shows(text, out, t, commas)
    requires t.kind == Comment || (t.kind == Comma && t.start in commas)
    ensures forall j :: t.start <= j < t.end ==> IsSpace(out[j])
  {
    assert IsSpace(' ');
  }

  lemma {:induction false} LexOfBlanked(text: string, out: string, i: nat, ts: seq<Token>, commas: seq<nat>)
    requires |out| == |text| && i <= |text| && Lex(text, i) == Ok(ts)
    requires forall j :: 0 <= j < |text| ==> out[j] == text[j] || out[j] == ' '
    requires forall t :: t in ts ==> t.start < t.end <= |text| && Shows(text, out, t, commas)
    ensures Lex(out, i).Ok?
    ensures SignificantOf(Lex(out, i).value) == Kept(SignificantOf(ts), commas)
    ensures NoComments(Lex(out, i).value)
    decreases |text| - i
  {
    if i < |text| {
      LexStep(text, i);
      var t := TokenAt(text, i).value;
      LexOfBlanked(text, out, t.end, Lex(text, t.end).value, commas);
      TokensAreTyped(text, i);
      assert t in ts && t.start == i;
      if t.kind == Comment || (t.kind == Comma && t.start in commas) {
        BlankedIsSpace(text, out, t, commas);
        LexOverBlanks(out, i, t.end);
        NoCommentsOverBlanks(out, i, t.end);
      } else {
        ShownStep(text, out, i);
        NoCommentsAfter(t, Lex(out, t.end).value);
      }
    }
  }

  // ----- nothing trails twice -----

  ghost predicate Rising(sig: seq<Token>) {
    forall a, b :: 0 <= a < b < |sig| ==> sig[a].start < sig[b].start
  }

  lemma {:induction false} TrailingExact(sig: seq<Token>, k: nat)
    requires Rising(sig) && k < |sig|
    ensures sig[k].start in TrailingStarts(sig) <==> Trailing(sig, k)
    decreases |sig|
  {
    var n := |sig|;
    if n >= 2 {
      var init := sig[..n - 1];
      TrailingAreStarts(init);
      assert forall t :: t in init ==> t.start < sig[n - 1].start;
      if k < n - 1 {
        TrailingExact(init, k);
        assert k + 1 < n - 1 ==> (Trailing(init, k) <==> Trailing(sig, k));
      }
    }
  }

  /** The offsets of the trailing commas come in increasing order. */
  lemma {:induction false} TrailingRises(sig: seq<Token>)
    requires Rising(sig)
    ensures forall a, b :: 0 <= a < b < |TrailingStarts(sig)| ==> TrailingStarts(sig)[a] < TrailingStarts(sig)[b]
    decreases |sig|
  {
    var n := |sig|;
    if n >= 2 {
      var init := sig[..n - 1];
      TrailingRises(init);
      forall s | s in TrailingStarts(init) && Trailing(sig, n - 2)
        ensures s < sig[n - 2].start
      {
        TrailingAreStarts(init);
        var t :| t in init && t.start == s;
        TrailingExact(init, n - 2);
      }
      assert forall a :: 0 <= a < |TrailingStarts(init)| ==> TrailingStarts(init)[a] in TrailingStarts(init);
    }
  }

  function KeptFrom(sig: seq<Token>, k: nat): seq<Token>
    requires k <= |sig|
    decreases |sig| - k
  {
    if k == |sig| then []
    else if Trailing(sig, k) then KeptFrom(sig, k + 1)
    else [sig[k]] + KeptFrom(sig, k + 1)
  }

  lemma {:induction false} KeptByPosition(sig: seq<Token>, k: nat)
    requires Rising(sig) && k <= |sig|
    ensures Kept(sig[k..], TrailingStarts(sig)) == KeptFrom(sig, k)
    decreases |sig| - k
  {
    if k < |sig| {
      KeptByPosition(sig, k + 1);
      TrailingExact(sig, k);
      assert sig[k..][1..] == sig[k + 1..];
    }
  }

  function NextKept(sig: seq<Token>, k: nat): nat
    requires k < |sig|
  {
    if Trailing(sig, k + 1) then k + 2 else k + 1
  }

  lemma KeptTail(sig: seq<Token>, k: nat)
    requires k < |sig| && !Trailing(sig, k)
    ensures NextKept(sig, k) <= |sig|
    ensures NextKept(sig, k) < |sig| ==> !Trailing(sig, NextKept(sig, k))
    ensures KeptFrom(sig, k) == [sig[k]] + KeptFrom(sig, NextKept(sig, k))
  {
  }

  /** Between two commas that stay, nothing new starts to trail. */
  lemma {:induction false} NothingTrailsAgain(sig: seq<Token>, k: nat, m: nat)
    requires k < |sig| && !Trailing(sig, k) && m >= 1
    ensures !Trailing(KeptFrom(sig, k), m)
    decreases |sig| - k
  {
    KeptTail(sig, k);
    var k' := NextKept(sig, k);
    if k' < |sig| {
      KeptTail(sig, k');
      var rest := KeptFrom(sig, k');
      if m >= 2 {
        NothingTrailsAgain(sig, k', m - 1);
        assert Trailing([sig[k]] + rest, m) <==> Trailing(rest, m - 1);
      } else {
        var k'' := NextKept(sig, k');
        if k'' < |sig| {
          KeptTail(sig, k'');
        }
      }
    }
  }

  lemma {:induction false} NoneTrailing(sig: seq<Token>)
    requires forall m: nat :: !Trailing(sig, m)
    ensures TrailingStarts(sig) == []
    decreases |sig|
  {
    if |sig| >= 2 {
      var init := sig[..|sig| - 1];
      forall m: nat
        ensures !Trailing(init, m)
      {
        assert !Trailing(sig, m);
      }
      NoneTrailing(init);
    }
  }

  lemma {:induction false} SignificantRises(ts: seq<Token>)
    requires forall t :: t in ts ==> t.start < t.end
    requires forall a, b :: 0 <= a < b < |ts| ==> ts[a].end <= ts[b].start
    ensures Rising(SignificantOf(ts))
    decreases |ts|
  {
    if ts != [] {
      SignificantRises(ts[1..]);
      SignificantAreTokens(ts[1..]);
      var sig := SignificantOf(ts[1..]);
      forall b | 0 <= b < |sig|
        ensures ts[0].start < sig[b].start
      {
        assert sig[b] in ts[1..];
        var m :| 0 <= m < |ts[1..]| && ts[1..][m] == sig[b];
        assert ts[m + 1] == sig[b] && ts[0] in ts;
      }
    }
  }

  lemma TrailingAreCommas(text: string, ts: seq<Token>)
    requires Lex(text, 0) == Ok(ts)
    ensures CommaOffsets(ts, TrailingStarts(SignificantOf(ts)))
  {
    SignificantAreTokens(ts);
    TrailingAreStarts(SignificantOf(ts));
    CommasAreShort(text, 0);
  }

  /** Cleaning keeps the significant tokens, at their offsets, except exactly the trailing commas;
      the result has no comment left. */
  lemma CleaningKeepsTokens(text: string, ts: seq<Token>)
    requires Lex(text, 0) == Ok(ts)
    ensures var c := CleanSpec(text).value;
            && Lex(c.text, 0).Ok?
            && SignificantOf(Lex(c.text, 0).value) == Kept(SignificantOf(ts), c.trailing)
            && (forall t :: t in Lex(c.text, 0).value ==> t.kind != Comment)
  {
    var c := CleanSpec(text).value;
    TrailingAreCommas(text, ts);
    BlankTouchesOnlyCommentsAndCommas(text, ts, c.trailing);
    forall t | t in ts
      ensures t.start < t.end <= |text| && Shows(text, c.text, t, c.trailing)
    {
      BlankShows(text, ts, c.trailing, t);
    }
    LexOfBlanked(text, c.text, 0, Lex(text, 0).value, c.trailing);
  }

  /** Cleaning a cleaned text changes nothing and finds no further trailing comma. */
  lemma CleaningIsIdempotent(text: string)
    requires CleanSpec(text).Ok?
    ensures CleanSpec(CleanSpec(text).value.text) == Ok(Cleaned(CleanSpec(text).value.text, []))
  {
    var ts := Lex(text, 0).value;
    var c := CleanSpec(text).value;
    CleaningKeepsTokens(text, ts);
    var sig := SignificantOf(ts);
    LexIsContiguous(text, 0);
    SignificantRises(ts);
    KeptByPosition(sig, 0);
    assert sig[0..] == sig;
    var sig' := SignificantOf(Lex(c.text, 0).value);
    forall m: nat
      ensures !Trailing(sig', m)
    {
      if m >= 1 && sig != [] {
        NothingTrailsAgain(sig, 0, m);
      }
    }
    NoneTrailing(sig');
    NothingToBlank(c.text, Lex(c.text, 0).value);
  }

  lemma NothingToBlank(text: string, ts: seq<Token>)
    requires forall t :: t in ts ==> t.kind != Comment
    ensures Blank(text, ts, []) == text
  {
    forall j | 0 <= j < |text|
      ensures !InComment(ts, j)
    {
    }
  }

  /** Lengths and offsets stay, strings and line breaks stay, and the reported trailing commas are
      exactly those of the text, in increasing order. */
  lemma CleaningKeepsOffsets(text: string, ts: seq<Token>)
    requires Lex(text, 0) == Ok(ts)
    ensures var c := CleanSpec(text).value;
            && |c.text| == |text|
            && (forall j :: 0 <= j < |text| ==> c.text[j] == text[j] || c.text[j] == ' ')
            && (forall j :: 0 <= j < |text| && IsBreak(text[j]) ==> c.text[j] == text[j])
            && (forall t, j :: t in ts && t.kind == Text && t.start <= j < t.end ==> j < |text| && c.text[j] == text[j])
            && (forall a, b :: 0 <= a < b < |c.trailing| ==> c.trailing[a] < c.trailing[b])
            && (forall k :: 0 <= k < |SignificantOf(ts)| ==>
                  (SignificantOf(ts)[k].start in c.trailing <==> Trailing(SignificantOf(ts), k)))
  {
    var sig := SignificantOf(ts);
    TrailingAreCommas(text, ts);
    BlankTouchesOnlyCommentsAndCommas(text, ts, TrailingStarts(sig));
    LexIsContiguous(text, 0);
    SignificantRises(ts);
    TrailingRises(sig);
    forall k | 0 <= k < |sig|
      ensures sig[k].start in TrailingStarts(sig) <==> Trailing(sig, k)
    {
      TrailingExact(sig, k);
    }
  }

  // ----- what cleaning means for the tokens of the text -----

  /** Neither a comment nor white space. */
  ghost predicate Solid(t: Token) {
    t.kind != Comment && t.kind != Space
  }

  ghost function LastSolid(ts: seq<Token>): (t: Option<Token>)
    ensures t.Some? ==> Solid(t.value)
  {
    if ts == [] then None
    else if Solid(ts[|ts| - 1]) then Some(ts[|ts| - 1])
    else LastSolid(ts[..|ts| - 1])
  }

  ghost function FirstSolid(ts: seq<Token>): (t: Option<Token>)
    ensures t.Some? ==> Solid(t.value)
  {
    if ts == [] then None else if Solid(ts[0]) then Some(ts[0]) else FirstSolid(ts[1..])
  }

  /** A comma behind a value and directly before a closing bracket, but for comments and white space. */
  ghost predicate IsTrailing(ts: seq<Token>, b: nat) {
    && b < |ts| && ts[b].kind == Comma
    && (match LastSolid(ts[..b])
        case None => false
        case Some(t) => t.kind == Text || (t.kind == Mark && t.c != '{' && t.c != '[' && t.c != ':'))
    && (match FirstSolid(ts[b + 1..])
        case None => false
        case Some(t) => t.kind == Mark && (t.c == '}' || t.c == ']'))
  }

  ghost predicate TrailingAt(ts: seq<Token>, s: nat) {
    exists b: nat :: IsTrailing(ts, b) && ts[b].start == s
  }

  /** A character of a comment, but not a line break. */
  ghost predicate Commented(text: string, ts: seq<Token>, j: nat) {
    && j < |text| && text[j] != '\r' && text[j] != '\n'
    && exists t :: t in ts && t.kind == Comment && t.start <= j < t.end
  }

  /** Comments and trailing commas are blanks, everything else is as it was, and the trailing commas are listed in
      order. */
  ghost predicate Cleans(text: string, ts: seq<Token>, c: Cleaned) {
    && |c.text| == |text|
    && (forall j: nat :: j < |text| ==>
          c.text[j] == if TrailingAt(ts, j) || Commented(text, ts, j) then ' ' else text[j])
    && (forall s :: s in c.trailing <==> TrailingAt(ts, s))
    && (forall a, b :: 0 <= a < b < |c.trailing| ==> c.trailing[a] < c.trailing[b])
  }

  lemma {:induction false} SignificantJoin(a: seq<Token>, b: seq<Token>)
    ensures SignificantOf(a + b) == SignificantOf(a) + SignificantOf(b)
  {
    if a == [] {
      assert a + b == b;
    } else {
      SignificantJoin(a[1..], b);
      assert (a + b)[1..] == a[1..] + b;
    }
  }

  lemma {:induction false} LastIsSolid(ts: seq<Token>)
    ensures LastSolid(ts) ==
            if SignificantOf(ts) == [] then None else Some(SignificantOf(ts)[|SignificantOf(ts)| - 1])
    decreases |ts|
  {
    if ts != [] {
      var n := |ts| - 1;
      LastIsSolid(ts[..n]);
      SignificantAppend(ts[..n], ts[n]);
      assert ts == ts[..n] + [ts[n]];
    }
  }

  lemma {:induction false} FirstIsSolid(ts: seq<Token>)
    ensures FirstSolid(ts) == if SignificantOf(ts) == [] then None else Some(SignificantOf(ts)[0])
  {
    if ts != [] {
      FirstIsSolid(ts[1..]);
    }
  }

  /** A significant token stands among the significant ones behind those before it. */
  lemma PlaceOf(ts: seq<Token>, b: nat)
    requires b < |ts| && Significant(ts[b])
    ensures SignificantOf(ts) == SignificantOf(ts[..b]) + [ts[b]] + SignificantOf(ts[b + 1..])
  {
    assert ts == (ts[..b] + [ts[b]]) + ts[b + 1..];
    SignificantJoin(ts[..b] + [ts[b]], ts[b + 1..]);
    SignificantAppend(ts[..b], ts[b]);
  }

  lemma TrailingByPlace(ts: seq<Token>, b: nat)
    requires b < |ts| && Significant(ts[b])
    ensures IsTrailing(ts, b) <==> Trailing(SignificantOf(ts), |SignificantOf(ts[..b])|)
  {
    PlaceOf(ts, b);
    LastIsSolid(ts[..b]);
    FirstIsSolid(ts[b + 1..]);
    var before, behind, sig := SignificantOf(ts[..b]), SignificantOf(ts[b + 1..]), SignificantOf(ts);
    assert sig[|before|] == ts[b];
    assert before != [] ==> sig[|before| - 1] == before[|before| - 1];
    assert behind != [] ==> sig[|before| + 1] == behind[0];
  }

  /** Every significant token has a place among all tokens. */
  lemma {:induction false} PlaceFound(ts: seq<Token>, k: nat) returns (b: nat)
    requires k < |SignificantOf(ts)|
    ensures b < |ts| && Significant(ts[b]) && |SignificantOf(ts[..b])| == k && ts[b] == SignificantOf(ts)[k]
    decreases |ts|
  {
    var n := |ts| - 1;
    assert ts == ts[..n] + [ts[n]];
    SignificantAppend(ts[..n], ts[n]);
    if k < |SignificantOf(ts[..n])| {
      b := PlaceFound(ts[..n], k);
      assert ts[..n][..b] == ts[..b];
    } else {
      b := n;
    }
  }

  lemma TrailingMeaning(text: string, ts: seq<Token>, s: nat)
    requires Lex(text, 0) == Ok(ts)
    ensures s in TrailingStarts(SignificantOf(ts)) <==> TrailingAt(ts, s)
  {
    var sig := SignificantOf(ts);
    LexIsContiguous(text, 0);
    SignificantRises(ts);
    TrailingAreStarts(sig);
    if s in TrailingStarts(sig) {
      var k :| 0 <= k < |sig| && sig[k].start == s;
      TrailingExact(sig, k);
      var b := PlaceFound(ts, k);
      TrailingByPlace(ts, b);
    }
    if TrailingAt(ts, s) {
      var b: nat :| IsTrailing(ts, b) && ts[b].start == s;
      PlaceOf(ts, b);
      TrailingByPlace(ts, b);
      TrailingExact(sig, |SignificantOf(ts[..b])|);
    }
  }

  lemma CleanedIsClean(text: string, ts: seq<Token>)
    requires Lex(text, 0) == Ok(ts)
    ensures Cleans(text, ts, CleanSpec(text).value)
  {
    var c := CleanSpec(text).value;
    CleaningKeepsOffsets(text, ts);
    forall s: nat
      ensures s in c.trailing <==> TrailingAt(ts, s)
    {
      TrailingMeaning(text, ts, s);
    }
    forall j: nat | j < |text|
      ensures c.text[j] == if TrailingAt(ts, j) || Commented(text, ts, j) then ' ' else text[j]
    {
      TrailingMeaning(text, ts, j);
      assert InComment(ts, j) && !IsBreak(text[j]) <==> Commented(text, ts, j);
    }
  }
}
