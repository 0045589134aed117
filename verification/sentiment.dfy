/**
 * The lexicon sentiment scorer of the week-11 exercise: lower-case the text,
 * split it on whitespace, add up fixed word weights, and call the text
 * positive exactly when the sum is above zero.
 */
module Sentiment {
  import opened Seqs
  import opened Text

  /** The fixed word weights; every other word weighs 0. */
  const Lexicon: map<string, int> :=
    map["good" := 1, "great" := 2, "excellent" := 3, "bad" := -2, "poor" := -3, "terrible" := -5]

  /**
   * `lexicon.get(word, 0)`: between the lexicon's extremes -5 and 3, and zero
   * exactly for a word outside the lexicon.
   */
  function Weight(word: string): (r: int)
    ensures -5 <= r <= 3
    ensures r == 0 <==> word !in Lexicon
  {
    if word in Lexicon then Lexicon[word] else 0
  }

  /** The sum of the weights of `words`: each word moves it by at most 5 down or 3 up. */
  function Total(words: seq<string>): (r: int)
    ensures -5 * |words| <= r <= 3 * |words|
  {
    if words == [] then 0 else Weight(words[0]) + Total(words[1..])
  }

  /**
   * The score of a text: the total weight of its lower-cased,
   * whitespace-separated words; a text has at most one word per character.
   */
  function Score(text: string): (r: int)
    ensures -5 * |text| <= r <= 3 * |text|
  {
    Total(Words(Lower(text)))
  }

  /** `rule_based_sentiment`: "positive" exactly when the score is above zero, else "negative". */
  function RuleBasedSentiment(text: string): (r: string)
    ensures r == "positive" || r == "negative"
    ensures r == "positive" <==> Score(text) > 0
  {
    if Score(text) > 0 then "positive" else "negative"
  }

  lemma {:induction false} TotalAppend(a: seq<string>, b: seq<string>)
    ensures Total(a + b) == Total(a) + Total(b)
  {
    if a == [] {
      assert a + b == b;
    } else {
      TotalAppend(a[1..], b);
      assert (a + b)[1..] == a[1..] + b;
    }
  }

  /** Taking out the word at `i` takes out its weight. */
  lemma TotalRemove(b: seq<string>, i: nat)
    requires i < |b|
    ensures Total(b) == Weight(b[i]) + Total(b[..i] + b[i + 1..])
  {
    var tail := [b[i]] + b[i + 1..];
    assert b == b[..i] + tail;
    assert tail[1..] == b[i + 1..];
    TotalAppend(b[..i], tail);
    TotalAppend(b[..i], b[i + 1..]);
  }

  lemma MultisetRemove(b: seq<string>, i: nat)
    requires i < |b|
    ensures multiset(b[..i] + b[i + 1..]) == multiset(b) - multiset{b[i]}
  {
    assert b == b[..i] + [b[i]] + b[i + 1..];
  }

  /** The total weight depends only on which words occur how often, not on their order. */
  lemma {:induction false} TotalPermutation(a: seq<string>, b: seq<string>)
    requires multiset(a) == multiset(b)
    ensures Total(a) == Total(b)
    decreases |a|
  {
    if a != [] {
      var x := a[0];
      assert x in multiset(b);
      var i :| 0 <= i < |b| && b[i] == x;
      assert a == [x] + a[1..];
      assert multiset(a[1..]) == multiset(a) - multiset{x};
      MultisetRemove(b, i);
      TotalRemove(b, i);
      TotalPermutation(a[1..], b[..i] + b[i + 1..]);
    }
  }

  /** Reordering the words of a text does not change its score. */
  lemma ReorderedWordsSameScore(text1: string, text2: string)
    requires multiset(Words(Lower(text1))) == multiset(Words(Lower(text2)))
    ensures Score(text1) == Score(text2)
    ensures RuleBasedSentiment(text1) == RuleBasedSentiment(text2)
  {
    TotalPermutation(Words(Lower(text1)), Words(Lower(text2)));
  }

  /** Empty or all-whitespace text scores 0 and is "negative". */
  lemma BlankIsNegative(text: string)
    requires forall c :: c in text ==> IsSpace(c)
    ensures Score(text) == 0
    ensures RuleBasedSentiment(text) == "negative"
  {
    LowerKeepsSpace(text);
    WordsOfBlank(Lower(text));
  }

  /** Scoring ignores case: a text and its upper-cased form get the same score and verdict. */
  lemma CaseInsensitive(text: string)
    ensures Score(Upper(text)) == Score(text)
    ensures RuleBasedSentiment(Upper(text)) == RuleBasedSentiment(text)
  {
    LowerOfUpper(text);
  }

  /** A token with any character other than a lower-case letter, such as "good!", weighs 0. */
  lemma NonLetterTokenWeighsZero(word: string, i: nat)
    requires i < |word| && !('a' <= word[i] <= 'z')
    ensures Weight(word) == 0
  {
  }

  /** "good!" is not the lexicon's "good": the text "good!" is negative. */
  lemma PunctuationBlocksMatch()
    ensures RuleBasedSentiment("good!") == "negative"
  {
    var w := "good!";
    assert Lower(w) == w by {
      forall i | 0 <= i < |w| ensures Lower(w)[i] == w[i] {
      }
    }
    SingleWord(w);
    NonLetterTokenWeighsZero(w, 4);
  }
}
