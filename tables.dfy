/**
 * The two constant letter tables of the scorer, indexed by `letter - 'A'`,
 * and the small integer helpers the scoring lambdas use.
 */
module Tables {

  /** Points scored by one tile of each letter A..Z. */
  const LetterScores: seq<int> :=
    [1, 3, 3, 2, 1, 4, 2, 4, 1, 8, 5, 1, 3, 1, 1, 3, 10, 1, 1, 1, 1, 4, 4, 8, 4, 10]

  /**
   * Tiles available for each letter A..Z. Not the standard English
   * distribution: D has 1 tile here.
   */
  const AvailableLetters: seq<int> :=
    [9, 2, 2, 1, 12, 2, 3, 2, 9, 1, 1, 4, 2, 6, 8, 2, 1, 6, 4, 6, 4, 2, 2, 1, 2, 1]

  /** Largest base score a word can reach: sum of score * available over A..Z. */
  const MaxBaseScore: int := 181

  function Min(a: int, b: int): int { if a <= b then a else b }

  function Max(a: int, b: int): int { if a >= b then a else b }

  predicate IsLetter(c: char) { 'A' <= c <= 'Z' }

  /** Every character of `w` is an upper-case ASCII letter. */
  predicate AllLetters(w: string) { forall i :: 0 <= i < |w| ==> IsLetter(w[i]) }

  /** The table index `letter - 'A'`; only letters A..Z may be used. */
  function Index(c: char): (i: int)
    requires IsLetter(c)
    ensures 0 <= i < 26
  {
    c as int - 'A' as int
  }

  /** The letter at table index `k`. */
  function Letter(k: int): (c: char)
    requires 0 <= k < 26
    ensures IsLetter(c) && Index(c) == k
  {
    ('A' as int + k) as char
  }

  lemma LetterIndex(c: char)
    requires IsLetter(c)
    ensures Letter(Index(c)) == c
  {
  }

  /** `letterScores[letter - 'A']` */
  function ScoreOf(c: char): (s: int)
    requires IsLetter(c)
    ensures 1 <= s <= 10
  {
    LetterScores[Index(c)]
  }

  /** `scrabbleAvailableLetters[letter - 'A']` */
  function AvailableOf(c: char): (a: int)
    requires IsLetter(c)
    ensures 1 <= a <= 12
  {
    AvailableLetters[Index(c)]
  }
}

/** The table total that bounds every base score. */
module TableTotals {
  import opened Tables

  /** Sum of score * available over the first `k` letters of the tables. */
  function TableProductOver(k: nat): int
    requires k <= 26
  {
    if k == 0 then 0
    else TableProductOver(k - 1) + LetterScores[k - 1] * AvailableLetters[k - 1]
  }

  lemma FirstQuarter()
    ensures TableProductOver(7) == 49
  {
    assert TableProductOver(1) == 9;
    assert TableProductOver(2) == 15;
    assert TableProductOver(3) == 21;
    assert TableProductOver(4) == 23;
    assert TableProductOver(5) == 35;
    assert TableProductOver(6) == 43;
  }

  lemma FirstHalf()
    ensures TableProductOver(13) == 89
  {
    FirstQuarter();
    assert TableProductOver(8) == 57;
    assert TableProductOver(9) == 66;
    assert TableProductOver(10) == 74;
    assert TableProductOver(11) == 79;
    assert TableProductOver(12) == 83;
  }

  lemma ThreeQuarters()
    ensures TableProductOver(20) == 135
  {
    FirstHalf();
    assert TableProductOver(14) == 95;
    assert TableProductOver(15) == 103;
    assert TableProductOver(16) == 109;
    assert TableProductOver(17) == 119;
    assert TableProductOver(18) == 125;
    assert TableProductOver(19) == 129;
  }

  lemma MaxBaseScoreIsTableProduct()
    ensures TableProductOver(26) == MaxBaseScore
  {
    ThreeQuarters();
    assert TableProductOver(21) == 139;
    assert TableProductOver(22) == 147;
    assert TableProductOver(23) == 155;
    assert TableProductOver(24) == 163;
    assert TableProductOver(25) == 171;
  }
}
