/**
 * The scoring lambdas of the run: blank accounting (`blank`, `nBlanks`,
 * `checkBlanks`), the base score (`letterScore`, `score2`), the placement
 * bonus (`first3`, `last3`, `toBeMaxed`, `bonusForDoubleLetter`) and the
 * final score (`score3`).
 *
 * The source sums a per-entry value over the entries of the word's
 * histogram. Here the sum runs over the 26 letters A..Z in table order;
 * a letter absent from the histogram has count 0 and contributes 0 to every
 * such sum, and the words reaching these functions hold only A..Z, so both
 * sums agree.
 */
module Scoring {
  import opened Tables
  import opened Histograms
  import opened TableTotals

  /** `blank`: how many tiles of letter `c` a count of `n` needs from blanks. */
  function Blank(c: char, n: nat): (b: nat)
    requires IsLetter(c)
    ensures Min(n, AvailableOf(c)) + b == n
    ensures b == 0 <==> n <= AvailableOf(c)
  {
    Max(0, n - AvailableOf(c))
  }

  /** `letterScore`: the points of `n` tiles of `c`, at most the available ones scoring. */
  function LetterScore(c: char, n: nat): (s: int)
    requires IsLetter(c)
    ensures 0 <= s <= ScoreOf(c) * AvailableOf(c)
    ensures n == 0 ==> s == 0
  {
    ScoreOf(c) * Min(n, AvailableOf(c))
  }

  /** Blanks needed by the first `k` letters of `h`. */
  function BlanksOver(h: Histogram, k: nat): (b: nat)
    requires k <= 26
    ensures b <= CountsOver(h, k)
  {
    if k == 0 then 0 else BlanksOver(h, k - 1) + Blank(Letter(k - 1), Count(h, Letter(k - 1)))
  }

  /** Tiles of the first `k` letters of `h` that real (non-blank) tiles cover. */
  function CappedOver(h: Histogram, k: nat): (n: nat)
    requires k <= 26
  {
    if k == 0 then 0 else CappedOver(h, k - 1) + Min(Count(h, Letter(k - 1)), AvailableOf(Letter(k - 1)))
  }

  /** Base score of the first `k` letters of `h`; never above what the tiles of those letters are worth. */
  function ScoreOver(h: Histogram, k: nat): (s: int)
    requires k <= 26
    ensures 0 <= s <= TableProductOver(k)
  {
    if k == 0 then 0
    else
      var c := Letter(k - 1);
      ScoreOver(h, k - 1) + LetterScore(c, Count(h, c))
  }

  /** `nBlanks`: blanks needed to write the word; never more than its length. */
  function NBlanks(w: string): (n: nat)
    requires AllLetters(w)
    ensures n <= |w|
  {
    HistCountsSumToLength(w);
    BlanksOver(Hist(w), 26)
  }

  /** `checkBlanks`: the word can be written with at most 2 blanks. */
  predicate CheckBlanks(w: string)
    requires AllLetters(w)
  {
    NBlanks(w) <= 2
  }

  /** `score2`: the base score of the word, blanks scoring nothing. */
  function Score2(w: string): (s: int)
    requires AllLetters(w)
    ensures 0 <= s <= MaxBaseScore
  {
    MaxBaseScoreIsTableProduct();
    ScoreOver(Hist(w), 26)
  }

  /** Tiles of the word that real tiles cover: `min(count, available)` summed over its letters. */
  function CappedLetters(w: string): (n: nat)
    requires AllLetters(w)
  {
    CappedOver(Hist(w), 26)
  }

  lemma {:induction false} CappedPlusBlanksOver(h: Histogram, k: nat)
    requires k <= 26
    ensures CappedOver(h, k) + BlanksOver(h, k) == CountsOver(h, k)
  {
    if k > 0 {
      CappedPlusBlanksOver(h, k - 1);
      var c := Letter(k - 1);
      assert Min(Count(h, c), AvailableOf(c)) + Blank(c, Count(h, c)) == Count(h, c);
    }
  }

  /** Every tile of an A..Z word is either a real tile or a blank. */
  lemma CappedPlusBlanks(w: string)
    requires AllLetters(w)
    ensures CappedLetters(w) + NBlanks(w) == |w|
  {
    CappedPlusBlanksOver(Hist(w), 26);
    HistCountsSumToLength(w);
  }

  /** No blank is needed among the first `k` letters iff none of them is used more often than it has tiles. */
  lemma {:induction false} BlanksOverZero(h: Histogram, k: nat)
    requires k <= 26
    ensures BlanksOver(h, k) == 0 <==>
      forall j :: 0 <= j < k ==> Count(h, Letter(j)) <= AvailableOf(Letter(j))
  {
    if k > 0 {
      BlanksOverZero(h, k - 1);
    }
  }

  /** A word needs no blank iff no letter occurs in it more often than it has tiles. */
  lemma NoBlanksNeeded(w: string)
    requires AllLetters(w)
    ensures NBlanks(w) == 0 <==> forall i :: 0 <= i < |w| ==> multiset(w)[w[i]] <= AvailableOf(w[i])
  {
    var h := Hist(w);
    BlanksOverZero(h, 26);
    if forall i :: 0 <= i < |w| ==> multiset(w)[w[i]] <= AvailableOf(w[i]) {
      forall j | 0 <= j < 26 ensures Count(h, Letter(j)) <= AvailableOf(Letter(j)) {
        var c := Letter(j);
        if c in w {
          var i :| 0 <= i < |w| && w[i] == c;
          assert multiset(w)[w[i]] <= AvailableOf(w[i]);
        }
      }
    }
    if NBlanks(w) == 0 {
      forall i | 0 <= i < |w| ensures multiset(w)[w[i]] <= AvailableOf(w[i]) {
        LetterIndex(w[i]);
        assert Count(h, Letter(Index(w[i]))) <= AvailableOf(Letter(Index(w[i])));
      }
    }
  }

  /** `checkBlanks` keeps every word of at most 2 letters, whatever its letters. */
  lemma ShortWordsPlayable(w: string)
    requires AllLetters(w) && |w| <= 2
    ensures CheckBlanks(w)
  {
  }

  /**
   * The sums over the histogram's entries and over the 26 letters agree:
   * every key of an A..Z word's histogram is a letter, so the letter sum
   * visits every entry, and a letter that is not a key adds 0 blanks and
   * 0 points.
   */
  lemma LetterSumsCoverEntries(w: string)
    requires AllLetters(w)
    ensures forall c :: c in Hist(w) ==> IsLetter(c)
    ensures forall c :: IsLetter(c) && c !in Hist(w) ==>
      Blank(c, Count(Hist(w), c)) == 0 && LetterScore(c, Count(Hist(w), c)) == 0
  {
  }

  /** Base score, blank count and playability depend only on the letters, not on their order. */
  lemma AnagramBaseScore(w1: string, w2: string)
    requires AllLetters(w1) && AllLetters(w2)
    requires multiset(w1) == multiset(w2)
    ensures Score2(w1) == Score2(w2)
    ensures NBlanks(w1) == NBlanks(w2)
    ensures CheckBlanks(w1) <==> CheckBlanks(w2)
  {
    AnagramHist(w1, w2);
  }

  /** `first3`: the first (at most) 3 characters. */
  function FirstThree(w: string): (f: string)
    ensures |f| == Min(3, |w|)
    ensures forall i :: 0 <= i < |f| ==> f[i] == w[i]
  {
    w[..Min(3, |w|)]
  }

  /** `last3`: despite its name, the characters from index max(0, length - 4) to the end. */
  function LastFour(w: string): (l: string)
    ensures |l| == Min(4, |w|)
    ensures forall i :: 0 <= i < |l| ==> l[i] == w[|w| - |l| + i]
  {
    w[Max(0, |w| - 4)..]
  }

  /** `toBeMaxed`: both windows one after the other; they overlap on words shorter than 7. */
  function ToBeMaxed(w: string): (t: string)
    ensures |t| == Min(3, |w|) + Min(4, |w|)
  {
    FirstThree(w) + LastFour(w)
  }

  /** Where each character of `toBeMaxed` comes from in the word. */
  lemma ToBeMaxedLayout(w: string)
    ensures forall j :: 0 <= j < Min(3, |w|) ==> ToBeMaxed(w)[j] == w[j]
    ensures forall j :: Min(3, |w|) <= j < |ToBeMaxed(w)| ==>
      ToBeMaxed(w)[j] == w[Max(0, |w| - 4) + j - Min(3, |w|)]
  {
    var f, l := FirstThree(w), LastFour(w);
    var t := ToBeMaxed(w);
    assert t == f + l;
    forall j | 0 <= j < |f| ensures t[j] == w[j] {
      assert t[j] == f[j];
    }
    assert |w| - |l| == Max(0, |w| - 4);
    forall j | Min(3, |w|) <= j < |ToBeMaxed(w)|
      ensures ToBeMaxed(w)[j] == w[Max(0, |w| - 4) + j - Min(3, |w|)]
    {
      assert t[j] == l[j - |f|];
    }
  }

  /** Position `i` of a word of length `n` lies in one of the two windows. */
  predicate InWindow(n: int, i: int)
  {
    i < 3 || i >= Max(0, n - 4)
  }

  /** The largest letter score in a non-empty A..Z string. */
  function MaxLetterScore(s: string): (m: int)
    requires |s| > 0 && AllLetters(s)
    ensures forall i :: 0 <= i < |s| ==> ScoreOf(s[i]) <= m
    ensures exists i :: 0 <= i < |s| && m == ScoreOf(s[i])
  {
    if |s| == 1 then ScoreOf(s[0])
    else
      var rest := MaxLetterScore(s[1..]);
      assert forall i :: 1 <= i < |s| ==> s[i] == s[1..][i - 1];
      Max(ScoreOf(s[0]), rest)
  }

  /** Character `c` stands at a window position of `w`. */
  predicate AtWindow(w: string, c: char)
  {
    exists i :: 0 <= i < |w| && InWindow(|w|, i) && w[i] == c
  }

  /** Each character of `toBeMaxed` comes from a window position of the word. */
  lemma WindowSource(w: string, j: int)
    requires 0 <= j < |ToBeMaxed(w)|
    ensures AtWindow(w, ToBeMaxed(w)[j])
  {
    ToBeMaxedLayout(w);
    var f, l := Min(3, |w|), Max(0, |w| - 4);
    var k := if j < f then j else l + j - f;
    assert 0 <= k < |w| && InWindow(|w|, k) && ToBeMaxed(w)[j] == w[k];
  }

  /** The characters of `toBeMaxed` are exactly the characters at window positions. */
  lemma WindowsCover(w: string)
    ensures forall i :: 0 <= i < |w| && InWindow(|w|, i) ==> w[i] in ToBeMaxed(w)
    ensures forall j :: 0 <= j < |ToBeMaxed(w)| ==> AtWindow(w, ToBeMaxed(w)[j])
  {
    var t := ToBeMaxed(w);
    var f, l := Min(3, |w|), Max(0, |w| - 4);
    ToBeMaxedLayout(w);
    forall i | 0 <= i < |w| && InWindow(|w|, i) ensures w[i] in t {
      if i < f {
        assert t[i] == w[i];
      } else {
        assert t[f + i - l] == w[i];
      }
    }
    forall j | 0 <= j < |t| ensures AtWindow(w, t[j]) {
      WindowSource(w, j);
    }
  }

  /**
   * `bonusForDoubleLetter`: the best letter score among the window positions,
   * 0 for the empty word (`orElse(0)`).
   */
  function Bonus(w: string): (b: int)
    requires AllLetters(w)
    ensures |w| == 0 ==> b == 0
    ensures forall i :: 0 <= i < |w| && InWindow(|w|, i) ==> ScoreOf(w[i]) <= b
    ensures |w| > 0 ==> exists i :: 0 <= i < |w| && InWindow(|w|, i) && b == ScoreOf(w[i])
    ensures |w| > 0 ==> ScoreOf(w[0]) <= b <= 10
  {
    var t := ToBeMaxed(w);
    WindowsCover(w);
    assert forall j :: 0 <= j < |t| ==> AtWindow(w, t[j]);
    if |t| == 0 then 0 else MaxLetterScore(t)
  }

  /** `score3`: twice the base score plus the bonus, and 50 more for a 7-letter word. */
  function Score3(w: string): (r: int)
    requires AllLetters(w)
    ensures r >= 0
    ensures |w| == 7 ==> r >= 50
    ensures r <= 2 * (MaxBaseScore + 10) + 50
  {
    var sum := Score2(w) + Bonus(w);
    assert 0 <= sum <= MaxBaseScore + 10;
    2 * sum + (if |w| == 7 then 50 else 0)
  }

  lemma DoubledIsEven(x: int)
    ensures (2 * x) % 2 == 0
  {
  }

  /** The final score is even, apart from the 50 points of a 7-letter word. */
  lemma Score3Parity(w: string)
    requires AllLetters(w)
    ensures |w| != 7 ==> Score3(w) % 2 == 0
    ensures |w| == 7 ==> (Score3(w) - 50) % 2 == 0
  {
    var half := Score2(w) + Bonus(w);
    DoubledIsEven(half);
    if |w| == 7 {
      assert Score3(w) - 50 == 2 * half;
    } else {
      assert Score3(w) == 2 * half;
    }
  }

  /** On a word of at most 7 letters the two windows together cover every position. */
  lemma ShortWordWindowsCoverAll(w: string, i: int)
    requires |w| <= 7 && 0 <= i < |w|
    ensures InWindow(|w|, i)
  {
  }

  /** Every letter of an anagram of a word of at most 7 letters is bounded by the word's bonus. */
  lemma AnagramBonusBound(w1: string, w2: string)
    requires AllLetters(w1) && AllLetters(w2)
    requires multiset(w1) == multiset(w2) && |w1| <= 7
    ensures forall j :: 0 <= j < |w2| ==> ScoreOf(w2[j]) <= Bonus(w1)
  {
    forall j | 0 <= j < |w2| ensures ScoreOf(w2[j]) <= Bonus(w1) {
      assert w2[j] in multiset(w1);
      var i :| 0 <= i < |w1| && w1[i] == w2[j];
      ShortWordWindowsCoverAll(w1, i);
    }
  }

  /** Anagrams of at most 7 letters get the same bonus. */
  lemma AnagramBonus(w1: string, w2: string)
    requires AllLetters(w1) && AllLetters(w2)
    requires multiset(w1) == multiset(w2) && |w1| <= 7
    ensures Bonus(w1) == Bonus(w2)
  {
    assert |w1| == |multiset(w1)| == |multiset(w2)| == |w2|;
    AnagramBonusBound(w1, w2);
    AnagramBonusBound(w2, w1);
    if |w1| > 0 {
      var i :| 0 <= i < |w1| && InWindow(|w1|, i) && Bonus(w1) == ScoreOf(w1[i]);
      var j :| 0 <= j < |w2| && InWindow(|w2|, j) && Bonus(w2) == ScoreOf(w2[j]);
    }
  }

  /** Anagrams of at most 7 letters get the same final score. */
  lemma AnagramScore3(w1: string, w2: string)
    requires AllLetters(w1) && AllLetters(w2)
    requires multiset(w1) == multiset(w2) && |w1| <= 7
    ensures Score3(w1) == Score3(w2)
  {
    AnagramBaseScore(w1, w2);
    AnagramBonus(w1, w2);
    assert |w1| == |multiset(w1)| == |multiset(w2)| == |w2|;
  }

  /** Two anagrams of 8 letters: Q first, or Q in the middle position no window reaches. */
  lemma QAnagrams(a: string, b: string)
    requires a == "QAAAAAAA" && b == "AAAQAAAA"
    ensures multiset(a) == multiset(b)
  {
    assert b == a[0 := a[3]][3 := a[0]];
  }

  lemma QFirstBonus(a: string)
    requires a == "QAAAAAAA"
    ensures AllLetters(a) && Bonus(a) == 10
  {
    assert InWindow(|a|, 0) && ScoreOf(a[0]) == 10;
  }

  lemma QMiddleBonus(b: string)
    requires b == "AAAQAAAA"
    ensures AllLetters(b) && Bonus(b) == 1
  {
    forall i | 0 <= i < |b| && InWindow(|b|, i) ensures b[i] == 'A' { }
  }

  /**
   * From 8 letters on, the middle letters are outside both windows, so two
   * anagrams can score differently.
   */
  lemma LongAnagramsMayScoreDifferently(a: string, b: string)
    requires a == "QAAAAAAA" && b == "AAAQAAAA"
    ensures AllLetters(a) && AllLetters(b) && multiset(a) == multiset(b)
    ensures Score3(a) == Score3(b) + 18
  {
    QAnagrams(a, b);
    QFirstBonus(a);
    QMiddleBonus(b);
    AnagramBaseScore(a, b);
  }

  /** When letter `c` is the only one short of tiles, it alone decides the blank count. */
  lemma {:induction false} BlanksOverOnly(h: Histogram, c: char, k: nat)
    requires k <= 26 && IsLetter(c)
    requires forall d :: IsLetter(d) && d != c ==> Count(h, d) <= AvailableOf(d)
    ensures BlanksOver(h, k) == if Index(c) < k then Blank(c, Count(h, c)) else 0
  {
    if k > 0 {
      BlanksOverOnly(h, c, k - 1);
      if Letter(k - 1) == c {
        LetterIndex(c);
      }
    }
  }

  lemma {:induction false} UniformMultiset(w: string, c: char)
    requires forall i :: 0 <= i < |w| ==> w[i] == c
    ensures multiset(w)[c] == |w|
  {
    if |w| > 0 {
      assert w == [w[0]] + w[1..];
      UniformMultiset(w[1..], c);
    }
  }

  /**
   * A word made of one repeated letter needs a blank for every copy beyond
   * the available tiles: "ZZZ" needs 2 and is kept, "ZZZZ" needs 3 and is
   * dropped, and "DD" already needs 1 because D has a single tile.
   */
  lemma RepeatedLetterBlanks(w: string, c: char)
    requires IsLetter(c) && forall i :: 0 <= i < |w| ==> w[i] == c
    ensures AllLetters(w) && NBlanks(w) == Blank(c, |w|)
    ensures CheckBlanks(w) <==> |w| <= AvailableOf(c) + 2
  {
    var h := Hist(w);
    UniformMultiset(w, c);
    assert Count(h, c) == |w|;
    forall d | IsLetter(d) && d != c ensures Count(h, d) <= AvailableOf(d) {
      assert d !in w;
    }
    BlanksOverOnly(h, c, 26);
  }
}
