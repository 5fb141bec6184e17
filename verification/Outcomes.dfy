/** What a binomial tail sum means: the total weight of the outcomes of independent trials, listed one by one. */
module Outcomes {
  import opened DependencyGraphs
  import opened Binomial

  /** One outcome of several trials: which of them succeeded. */
  type Word = seq<bool>

  ghost function Led(first: bool, words: seq<Word>): (led: seq<Word>)
    ensures |led| == |words|
  {
    seq(|words|, i requires 0 <= i < |words| => [first] + words[i])
  }

  /** All outcomes of `n` trials. */
  ghost function Words(n: nat): seq<Word> {
    if n == 0 then [[]] else Led(true, Words(n - 1)) + Led(false, Words(n - 1))
  }

  ghost function Successes(word: Word): nat {
    if word == [] then 0 else Successes(word[1..]) + if word[0] then 1 else 0
  }

  /** The product of the weights of the trials, `a` for a success and `b` for a failure. */
  ghost function Weight(word: Word, a: int, b: int): int {
    if word == [] then 1 else (if word[0] then a else b) * Weight(word[1..], a, b)
  }

  /** The total weight of the words with fewer than `count` successes. */
  ghost function Below(words: seq<Word>, count: int, a: int, b: int): int {
    if words == [] then 0 else
    Below(words[1..], count, a, b) + if Successes(words[0]) < count then Weight(words[0], a, b) else 0
  }

  /** The total weight of all the words. */
  ghost function Whole(words: seq<Word>, a: int, b: int): int {
    if words == [] then 0 else Whole(words[1..], a, b) + Weight(words[0], a, b)
  }

  lemma LedHolds(first: bool, words: seq<Word>, word: Word)
    ensures word in Led(first, words) <==> word != [] && word[0] == first && word[1..] in words
  {
    if word in Led(first, words) {
      var i :| 0 <= i < |words| && Led(first, words)[i] == word;
      assert word[1..] == words[i];
    }
    if word != [] && word[0] == first && word[1..] in words {
      var i :| 0 <= i < |words| && words[i] == word[1..];
      assert Led(first, words)[i] == [first] + words[i] == word;
    }
  }

  lemma LedDistinct(first: bool, words: seq<Word>)
    requires Distinct(words)
    ensures Distinct(Led(first, words))
  {
    var led := Led(first, words);
    forall i, j | 0 <= i < j < |led|
      ensures led[i] != led[j]
    {
      assert led[i][1..] == words[i] && led[j][1..] == words[j];
    }
  }

  lemma {:induction false} WordIsListed(n: nat, word: Word)
    ensures word in Words(n) <==> |word| == n
  {
    if n > 0 {
      LedHolds(true, Words(n - 1), word);
      LedHolds(false, Words(n - 1), word);
      if word != [] {
        WordIsListed(n - 1, word[1..]);
      }
    }
  }

  lemma {:induction false} WordsDistinct(n: nat)
    ensures Distinct(Words(n))
  {
    if n > 0 {
      var won, lost := Led(true, Words(n - 1)), Led(false, Words(n - 1));
      forall word: Word
        ensures !(word in won && word in lost)
      {
        LedHolds(true, Words(n - 1), word);
        LedHolds(false, Words(n - 1), word);
      }
      WordsDistinct(n - 1);
      LedDistinct(true, Words(n - 1));
      LedDistinct(false, Words(n - 1));
      ApartDistinct(won, lost);
    }
  }

  /** Every outcome of `n` trials is listed exactly once. */
  lemma WordsExact(n: nat)
    ensures forall word: Word :: word in Words(n) <==> |word| == n
    ensures Distinct(Words(n))
  {
    forall word: Word
      ensures word in Words(n) <==> |word| == n
    {
      WordIsListed(n, word);
    }
    WordsDistinct(n);
  }

  lemma ApartDistinct(a: seq<Word>, b: seq<Word>)
    requires Distinct(a) && Distinct(b) && forall word :: !(word in a && word in b)
    ensures Distinct(a + b)
  {
    forall i, j | 0 <= i < j < |a + b|
      ensures (a + b)[i] != (a + b)[j]
    {
      assert i < |a| ==> (a + b)[i] in a;
      assert j >= |a| ==> (a + b)[j] in b;
    }
  }

  lemma {:induction false} BelowAppend(u: seq<Word>, v: seq<Word>, count: int, a: int, b: int)
    ensures Below(u + v, count, a, b) == Below(u, count, a, b) + Below(v, count, a, b)
    ensures Whole(u + v, a, b) == Whole(u, a, b) + Whole(v, a, b)
  {
    if u == [] {
      assert u + v == v;
    } else {
      BelowAppend(u[1..], v, count, a, b);
      assert (u + v)[1..] == u[1..] + v;
    }
  }

  /** One more trial before all the others multiplies their weights; a success leaves room for one less. */
  lemma {:induction false} BelowLed(first: bool, words: seq<Word>, count: int, a: int, b: int)
    ensures Below(Led(first, words), count, a, b) ==
            (if first then a else b) * Below(words, if first then count - 1 else count, a, b)
  {
    if words != [] {
      var led, x, less := Led(first, words), if first then a else b, if first then count - 1 else count;
      BelowLed(first, words[1..], count, a, b);
      assert led[1..] == Led(first, words[1..]);
      assert led[0][1..] == words[0];
      assert Successes(led[0]) == Successes(words[0]) + if first then 1 else 0;
      Spread(x, Below(words[1..], less, a, b), if Successes(words[0]) < less then Weight(words[0], a, b) else 0);
    }
  }

  lemma {:induction false} NoneBelowZero(words: seq<Word>, a: int, b: int)
    ensures Below(words, 0, a, b) == 0
  {
    if words != [] {
      NoneBelowZero(words[1..], a, b);
    }
  }

  /** One more trial: it fails, or it succeeds and leaves room for one less. */
  ghost function OneMore(fails: int, succeeds: int, a: int, b: int): int {
    b * fails + a * succeeds
  }

  lemma BelowSplits(n: nat, count: nat, a: int, b: int)
    requires n > 0 && count > 0
    ensures Below(Words(n), count, a, b) ==
            OneMore(Below(Words(n - 1), count, a, b), Below(Words(n - 1), count - 1, a, b), a, b)
  {
    BelowLed(true, Words(n - 1), count, a, b);
    BelowLed(false, Words(n - 1), count, a, b);
    BelowAppend(Led(true, Words(n - 1)), Led(false, Words(n - 1)), count, a, b);
  }

  lemma TailSplits(n: nat, count: nat, a: int, b: int)
    requires n > 0 && count > 0
    ensures Tail(count, n, a, b) == OneMore(Tail(count, n - 1, a, b), Tail(count - 1, n - 1, a, b), a, b)
  {
    TailRecurrence(count, n - 1, a, b);
  }

  /** How far the tail sum is off the weight of the outcomes with fewer than `count` successes. */
  ghost function Gap(count: nat, n: nat, a: int, b: int): int {
    Tail(count, n, a, b) - Below(Words(n), count, a, b)
  }

  lemma GapAtOnce(count: nat, n: nat, a: int, b: int)
    requires count == 0 || n == 0
    ensures Gap(count, n, a, b) == 0
  {
    if count == 0 {
      NoneBelowZero(Words(n), a, b);
    } else {
      TailIsWhole(count, 0, a, b);
      assert Words(0)[1..] == [];
      assert Below(Words(0), count, a, b) == Below(Words(0)[1..], count, a, b) + 1;
    }
  }

  lemma GapSplits(count: nat, n: nat, a: int, b: int)
    requires n > 0 && count > 0 && Gap(count, n - 1, a, b) == 0 && Gap(count - 1, n - 1, a, b) == 0
    ensures Gap(count, n, a, b) == 0
  {
    TailSplits(n, count, a, b);
    BelowSplits(n, count, a, b);
  }

  lemma {:induction false} NoGap(count: nat, n: nat, a: int, b: int)
    ensures Gap(count, n, a, b) == 0
    decreases n
  {
    if count == 0 || n == 0 {
      GapAtOnce(count, n, a, b);
    } else {
      NoGap(count, n - 1, a, b);
      NoGap(count - 1, n - 1, a, b);
      GapSplits(count, n, a, b);
    }
  }

  /** The tail sum is the weight of the outcomes with fewer than `count` successes. */
  lemma TailIsWeight(count: nat, n: nat, a: int, b: int)
    ensures Tail(count, n, a, b) == Below(Words(n), count, a, b)
  {
    NoGap(count, n, a, b);
  }

  lemma {:induction false} FewSuccesses(word: Word)
    ensures Successes(word) <= |word|
  {
    if word != [] {
      FewSuccesses(word[1..]);
    }
  }

  lemma {:induction false} AllBelow(words: seq<Word>, count: int, a: int, b: int)
    requires forall word :: word in words ==> Successes(word) < count
    ensures Below(words, count, a, b) == Whole(words, a, b)
  {
    if words != [] {
      assert words[0] in words;
      AllBelow(words[1..], count, a, b);
    }
  }

  /** All the outcomes together weigh the full power. */
  lemma WholeIsPower(n: nat, a: int, b: int)
    ensures Whole(Words(n), a, b) == Pow(a + b, n)
  {
    WordsExact(n);
    forall word | word in Words(n)
      ensures Successes(word) < n + 1
    {
      FewSuccesses(word);
    }
    AllBelow(Words(n), n + 1, a, b);
    TailIsWeight(n + 1, n, a, b);
    TailIsWhole(n + 1, n, a, b);
  }

  /** The total weight of the words with at least `from` successes. */
  ghost function Above(words: seq<Word>, from: int, a: int, b: int): int {
    if words == [] then 0 else
    Above(words[1..], from, a, b) + if Successes(words[0]) >= from then Weight(words[0], a, b) else 0
  }

  lemma {:induction false} BelowOrAbove(words: seq<Word>, count: int, a: int, b: int)
    ensures Below(words, count, a, b) + Above(words, count, a, b) == Whole(words, a, b)
  {
    if words != [] {
      BelowOrAbove(words[1..], count, a, b);
    }
  }
}
