/**
 * The letter histogram of a word (`histOfLetters`): the result of
 * `groupingBy(identity, counting())` over the word's characters.
 */
module Histograms {
  import opened Tables

  /** A map from character to its number of occurrences; absent means 0. */
  type Histogram = map<char, nat>

  function Count(h: Histogram, c: char): (n: nat)
  {
    if c in h then h[c] else 0
  }

  /** One step of the counting collector: add 1 to the entry of `c`, creating it if absent. */
  function Bump(h: Histogram, c: char): (h': Histogram)
  {
    h[c := Count(h, c) + 1]
  }

  /**
   * The histogram of `w`, accumulated character by character from left to
   * right. Its keys are exactly the characters of `w` and each count is the
   * character's multiplicity, so every entry is at least 1.
   */
  function Hist(w: string): (h: Histogram)
    ensures forall c :: c in h <==> c in w
    ensures forall c :: Count(h, c) == multiset(w)[c]
  {
    if |w| == 0 then map[]
    else
      var init := w[..|w| - 1];
      assert w == init + [w[|w| - 1]];
      Bump(Hist(init), w[|w| - 1])
  }

  lemma HistCountsPositive(w: string)
    ensures forall c :: c in Hist(w) ==> Hist(w)[c] >= 1
  {
    forall c | c in Hist(w) ensures Hist(w)[c] >= 1 {
      assert Count(Hist(w), c) == multiset(w)[c];
    }
  }

  /** Sum of the counts of the first `k` letters A.. */
  function CountsOver(h: Histogram, k: nat): (n: nat)
    requires k <= 26
  {
    if k == 0 then 0 else CountsOver(h, k - 1) + Count(h, Letter(k - 1))
  }

  lemma {:induction false} CountsOverEmpty(k: nat)
    requires k <= 26
    ensures CountsOver(map[], k) == 0
  {
    if k > 0 {
      CountsOverEmpty(k - 1);
    }
  }

  /** Bumping a letter raises the letter sum by one exactly when the letter is in range. */
  lemma {:induction false} CountsOverBump(h: Histogram, c: char, k: nat)
    requires k <= 26 && IsLetter(c)
    ensures CountsOver(Bump(h, c), k) == CountsOver(h, k) + (if Index(c) < k then 1 else 0)
  {
    if k > 0 {
      CountsOverBump(h, c, k - 1);
    }
  }

  /** For an A..Z word the histogram's counts add up to the word's length. */
  lemma {:induction false} HistCountsSumToLength(w: string)
    requires AllLetters(w)
    ensures CountsOver(Hist(w), 26) == |w|
  {
    if |w| > 0 {
      var init := w[..|w| - 1];
      assert IsLetter(w[|w| - 1]);
      assert Hist(w) == Bump(Hist(init), w[|w| - 1]);
      HistCountsSumToLength(init);
      CountsOverBump(Hist(init), w[|w| - 1], 26);
    } else {
      CountsOverEmpty(26);
    }
  }

  /** Anagrams (words with the same multiset of characters) have the same histogram. */
  lemma AnagramHist(w1: string, w2: string)
    requires multiset(w1) == multiset(w2)
    ensures Hist(w1) == Hist(w2)
  {
    var h1, h2 := Hist(w1), Hist(w2);
    forall c ensures c in h1 <==> c in h2 {
      assert c in w1 <==> c in multiset(w1);
      assert c in w2 <==> c in multiset(w2);
    }
    forall c | c in h1 ensures h1[c] == h2[c] {
      assert Count(h1, c) == Count(h2, c);
    }
  }
}
