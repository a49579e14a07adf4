/**
 * The output normaliser: `sortedUniqueWords` (a `TreeSet` copied back into a
 * list), `String.join("-", ...)`, the `"%d--%s"` line format and
 * `prepareForValidation`.
 */
module Presentation {
  import opened Tables
  import opened Scoring
  import opened Grouping

  datatype Option<T> = None | Some(value: T)

  // ----- the order of `String.compareTo` -----

  /** `a.compareTo(b) < 0`: the first differing character decides, and a proper prefix comes first. */
  predicate LexLess(a: string, b: string)
  {
    |b| > 0 && (|a| == 0 || a[0] < b[0] || (a[0] == b[0] && LexLess(a[1..], b[1..])))
  }

  lemma {:induction false} LexIrreflexive(a: string)
    ensures !LexLess(a, a)
  {
    if |a| > 0 {
      LexIrreflexive(a[1..]);
    }
  }

  lemma {:induction false} LexAsymmetric(a: string, b: string)
    requires LexLess(a, b)
    ensures !LexLess(b, a)
  {
    if |a| > 0 && a[0] == b[0] {
      LexAsymmetric(a[1..], b[1..]);
    }
  }

  lemma {:induction false} LexTransitive(a: string, b: string, c: string)
    requires LexLess(a, b) && LexLess(b, c)
    ensures LexLess(a, c)
  {
    if |a| > 0 && a[0] == b[0] && b[0] == c[0] {
      LexTransitive(a[1..], b[1..], c[1..]);
    }
  }

  lemma {:induction false} LexTotal(a: string, b: string)
    requires a != b
    ensures LexLess(a, b) || LexLess(b, a)
  {
    if |a| > 0 && |b| > 0 && a[0] == b[0] {
      assert a == [a[0]] + a[1..] && b == [b[0]] + b[1..];
      LexTotal(a[1..], b[1..]);
    }
  }

  /**
   * What `String.compareTo` returns a negative number for: at the first
   * index where the strings differ the first one has the smaller character,
   * or the first string is a proper prefix of the second.
   */
  predicate CompareToNegative(a: string, b: string)
  {
    (exists k :: 0 <= k < |a| && k < |b| && a[..k] == b[..k] && a[k] < b[k])
    || (|a| < |b| && a == b[..|a|])
  }

  /** Strings with different first characters: `compareTo` is decided there. */
  lemma CompareToHead(a: string, b: string)
    requires |a| > 0 && |b| > 0 && a[0] != b[0]
    ensures CompareToNegative(a, b) <==> a[0] < b[0]
  {
    forall k | 0 < k <= |a| && k <= |b| ensures a[..k] != b[..k] {
      assert a[..k][0] != b[..k][0];
    }
    assert a[..0] == b[..0];
  }

  /** Strings with the same first character compare as their tails do. */
  lemma CompareToTail(a: string, b: string)
    requires |a| > 0 && |b| > 0 && a[0] == b[0]
    ensures CompareToNegative(a, b) <==> CompareToNegative(a[1..], b[1..])
  {
    if CompareToNegative(a, b) {
      CompareToDropHead(a, b);
    }
    if CompareToNegative(a[1..], b[1..]) {
      CompareToAddHead(a, b);
    }
  }

  lemma CompareToDropHead(a: string, b: string)
    requires |a| > 0 && |b| > 0 && a[0] == b[0]
    requires CompareToNegative(a, b)
    ensures CompareToNegative(a[1..], b[1..])
  {
    var a', b' := a[1..], b[1..];
    if exists k :: 0 <= k < |a| && k < |b| && a[..k] == b[..k] && a[k] < b[k] {
      var k :| 0 <= k < |a| && k < |b| && a[..k] == b[..k] && a[k] < b[k];
      assert k > 0;
      assert a'[..k - 1] == a[..k][1..] && b'[..k - 1] == b[..k][1..];
      assert a'[k - 1] < b'[k - 1];
    } else {
      assert a' == b'[..|a'|];
    }
  }

  lemma CompareToAddHead(a: string, b: string)
    requires |a| > 0 && |b| > 0 && a[0] == b[0]
    requires CompareToNegative(a[1..], b[1..])
    ensures CompareToNegative(a, b)
  {
    var a', b' := a[1..], b[1..];
    if exists k :: 0 <= k < |a'| && k < |b'| && a'[..k] == b'[..k] && a'[k] < b'[k] {
      var k :| 0 <= k < |a'| && k < |b'| && a'[..k] == b'[..k] && a'[k] < b'[k];
      assert a[..k + 1] == [a[0]] + a'[..k] && b[..k + 1] == [b[0]] + b'[..k];
      assert a[k + 1] < b[k + 1];
    } else {
      assert a == [a[0]] + a' && b[..|a|] == [b[0]] + b'[..|a'|];
    }
  }

  /** The recursive order `LexLess` is the order `compareTo` defines. */
  lemma {:induction false} LexLessIsCompareTo(a: string, b: string)
    ensures LexLess(a, b) <==> CompareToNegative(a, b)
  {
    if |a| > 0 && |b| > 0 {
      if a[0] == b[0] {
        LexLessIsCompareTo(a[1..], b[1..]);
        CompareToTail(a, b);
      } else {
        CompareToHead(a, b);
      }
    } else if |b| > 0 {
      assert a == b[..0];
    }
  }

  // ----- `sortedUniqueWords` -----

  function Elems(s: seq<string>): set<string>
  {
    set x | x in s
  }

  /** Strictly ascending in the order of `compareTo`, hence free of duplicates. */
  predicate StrictlySorted(s: seq<string>)
  {
    forall i, j :: 0 <= i < j < |s| ==> LexLess(s[i], s[j])
  }

  /** `TreeSet.add`: put `w` in its place, or leave the set alone when it is already there. */
  function InsertSorted(s: seq<string>, w: string): (r: seq<string>)
    requires StrictlySorted(s)
    ensures StrictlySorted(r)
    ensures Elems(r) == Elems(s) + {w}
  {
    if |s| == 0 then [w]
    else if w == s[0] then s
    else if LexLess(w, s[0]) then
      SortedFront(s, w);
      [w] + s
    else
      LexTotal(w, s[0]);
      var rest := InsertSorted(s[1..], w);
      SortedCons(s, w, rest);
      [s[0]] + rest
  }

  /** A word below the first of a sorted sequence may go in front of it. */
  lemma SortedFront(s: seq<string>, w: string)
    requires StrictlySorted(s) && |s| > 0 && LexLess(w, s[0])
    ensures StrictlySorted([w] + s)
    ensures Elems([w] + s) == Elems(s) + {w}
  {
    assert forall j :: 0 <= j < |s| ==> LexLess(w, s[j]) by {
      forall j | 0 <= j < |s| ensures LexLess(w, s[j]) {
        if j > 0 { LexTransitive(w, s[0], s[j]); }
      }
    }
    var r := [w] + s;
    forall i, j | 0 <= i < j < |r| ensures LexLess(r[i], r[j]) {
      assert r[j] == s[j - 1];
      if i > 0 { assert r[i] == s[i - 1]; }
    }
  }

  lemma ElemsCons(x: string, s: seq<string>)
    ensures Elems([x] + s) == {x} + Elems(s)
  {
    assert forall y :: y in [x] + s <==> y == x || y in s;
  }

  /** A sorted sequence with a first element below every element of `rest` stays sorted. */
  lemma SortedConsRest(x: string, rest: seq<string>)
    requires StrictlySorted(rest) && forall y :: y in rest ==> LexLess(x, y)
    ensures StrictlySorted([x] + rest)
  {
    var r := [x] + rest;
    forall i, j | 0 <= i < j < |r| ensures LexLess(r[i], r[j]) {
      assert r[j] == rest[j - 1];
      if i > 0 { assert r[i] == rest[i - 1]; }
    }
  }

  /** The first of a sorted sequence stays first when `w`, above it, is added to the rest. */
  lemma SortedCons(s: seq<string>, w: string, rest: seq<string>)
    requires StrictlySorted(s) && |s| > 0 && LexLess(s[0], w)
    requires StrictlySorted(rest) && Elems(rest) == Elems(s[1..]) + {w}
    ensures StrictlySorted([s[0]] + rest)
    ensures Elems([s[0]] + rest) == Elems(s) + {w}
  {
    ElemsCons(s[0], s[1..]);
    assert s == [s[0]] + s[1..];
    forall y | y in rest ensures LexLess(s[0], y) {
      assert y in Elems(rest);
      if y != w {
        var i :| 0 <= i < |s[1..]| && s[1..][i] == y;
        assert s[i + 1] == y;
      }
    }
    SortedConsRest(s[0], rest);
    ElemsCons(s[0], rest);
  }

  /** `new ArrayList<>(new TreeSet<>(words))`: the distinct words in ascending order. */
  function SortedUniqueWords(ws: seq<string>): (r: seq<string>)
    ensures StrictlySorted(r)
    ensures Elems(r) == Elems(ws)
  {
    if |ws| == 0 then []
    else
      var init := ws[..|ws| - 1];
      assert ws == init + [ws[|ws| - 1]];
      assert Elems(ws) == Elems(init) + {ws[|ws| - 1]};
      InsertSorted(SortedUniqueWords(init), ws[|ws| - 1])
  }

  lemma ElemsEmpty(s: seq<string>)
    ensures Elems(s) == {} <==> |s| == 0
  {
    if |s| > 0 {
      assert s[0] in Elems(s);
    }
  }

  /** A strictly sorted sequence is determined by its elements. */
  lemma {:induction false} StrictlySortedUnique(a: seq<string>, b: seq<string>)
    requires StrictlySorted(a) && StrictlySorted(b) && Elems(a) == Elems(b)
    ensures a == b
  {
    ElemsEmpty(a);
    ElemsEmpty(b);
    if |a| > 0 && |b| > 0 {
      assert a[0] in Elems(b) && b[0] in Elems(a);
      if a[0] != b[0] {
        var i :| 0 <= i < |b| && b[i] == a[0];
        var j :| 0 <= j < |a| && a[j] == b[0];
        LexAsymmetric(a[0], b[0]);
        assert false;
      }
      assert a == [a[0]] + a[1..] && b == [b[0]] + b[1..];
      forall x | x in a[1..] ensures x != a[0] {
        LexIrreflexive(a[0]);
      }
      forall x | x in b[1..] ensures x != b[0] {
        LexIrreflexive(b[0]);
      }
      assert Elems(a[1..]) == Elems(a) - {a[0]};
      assert Elems(b[1..]) == Elems(b) - {b[0]};
      StrictlySortedUnique(a[1..], b[1..]);
    }
  }

  /**
   * The presented word list depends only on which words a bucket holds, not
   * on their order or repetitions.
   */
  lemma SortedUniqueWordsCanonical(ws1: seq<string>, ws2: seq<string>)
    requires Elems(ws1) == Elems(ws2)
    ensures SortedUniqueWords(ws1) == SortedUniqueWords(ws2)
  {
    StrictlySortedUnique(SortedUniqueWords(ws1), SortedUniqueWords(ws2));
  }

  // ----- `String.join("-", ...)` and its inverse -----

  predicate DashFree(w: string)
  {
    '-' !in w
  }

  /** `String.join("-", ws)`: starts with the first word, and puts one dash between consecutive words. */
  function Join(ws: seq<string>): (r: string)
    ensures |ws| > 0 ==> |ws[0]| <= |r| && r[..|ws[0]|] == ws[0]
  {
    if |ws| == 0 then ""
    else if |ws| == 1 then ws[0]
    else ws[0] + "-" + Join(ws[1..])
  }

  /** Joining dash-free words puts exactly one dash between each pair of neighbours. */
  lemma {:induction false} JoinDashCount(ws: seq<string>)
    requires forall w :: w in ws ==> DashFree(w)
    ensures multiset(Join(ws))['-'] == Max(0, |ws| - 1)
  {
    if |ws| == 1 {
      assert ws[0] in ws;
    } else if |ws| > 1 {
      var rest := Join(ws[1..]);
      assert ws[0] in ws && forall w :: w in ws[1..] ==> w in ws;
      JoinDashCount(ws[1..]);
      assert multiset(ws[0] + "-" + rest) == multiset(ws[0]) + multiset{'-'} + multiset(rest);
    }
  }

  /** The fields of `s` between its dashes, empty fields included. */
  function Split(s: string): (r: seq<string>)
    ensures |r| >= 1
  {
    if |s| == 0 then [""]
    else
      var rest := Split(s[1..]);
      if s[0] == '-' then [""] + rest else [[s[0]] + rest[0]] + rest[1..]
  }

  lemma {:induction false} SplitDashFree(a: string, b: string)
    requires DashFree(a)
    ensures Split(a) == [a]
    ensures Split(a + "-" + b) == [a] + Split(b)
  {
    if |a| == 0 {
      assert a + "-" + b == ['-'] + b;
      assert (['-'] + b)[1..] == b;
    } else {
      SplitDashFree(a[1..], b);
      assert (a + "-" + b)[1..] == a[1..] + "-" + b;
      assert a == [a[0]] + a[1..];
    }
  }

  /** Splitting a join of dash-free words gives the words back. */
  lemma {:induction false} SplitJoin(ws: seq<string>)
    requires |ws| > 0 && forall w :: w in ws ==> DashFree(w)
    ensures Split(Join(ws)) == ws
  {
    assert ws[0] in ws;
    SplitDashFree(ws[0], "");
    if |ws| > 1 {
      assert forall w :: w in ws[1..] ==> w in ws;
      SplitJoin(ws[1..]);
      SplitDashFree(ws[0], Join(ws[1..]));
      assert ws == [ws[0]] + ws[1..];
    }
  }

  // ----- `%d` -----

  predicate IsDigit(c: char) { '0' <= c <= '9' }

  function DigitChar(d: int): (c: char)
    requires 0 <= d < 10
    ensures IsDigit(c)
  {
    ('0' as int + d) as char
  }

  /** The decimal digits of `n`, most significant first, without leading zeros. */
  function Digits(n: nat): (s: string)
    ensures |s| >= 1 && forall i :: 0 <= i < |s| ==> IsDigit(s[i])
    ensures |s| > 1 ==> s[0] != '0'
  {
    if n < 10 then [DigitChar(n)] else Digits(n / 10) + [DigitChar(n % 10)]
  }

  /** `%d`: a minus sign for negative numbers, then the digits; reading the digits back gives the magnitude. */
  function Decimal(n: int): (s: string)
    ensures |s| >= 1
    ensures n < 0 <==> s[0] == '-'
    ensures n >= 0 ==> forall i :: 0 <= i < |s| ==> IsDigit(s[i])
    ensures n < 0 ==> forall i :: 1 <= i < |s| ==> IsDigit(s[i])
  {
    if n < 0 then "-" + Digits(-n) else Digits(n)
  }

  /** Reading the digits of `%d` back gives the magnitude of the number. */
  lemma DecimalRoundTrip(n: int)
    ensures n >= 0 ==> ParseDigits(Decimal(n)) == n
    ensures n < 0 ==> ParseDigits(Decimal(n)[1..]) == -n
  {
    if n < 0 {
      DigitsRoundTrip(-n);
      assert Decimal(n)[1..] == Digits(-n);
    } else {
      DigitsRoundTrip(n);
    }
  }

  function ParseDigits(s: string): (n: nat)
    requires forall i :: 0 <= i < |s| ==> IsDigit(s[i])
  {
    if |s| == 0 then 0
    else
      assert IsDigit(s[|s| - 1]);
      ParseDigits(s[..|s| - 1]) * 10 + (s[|s| - 1] as int - '0' as int)
  }

  lemma {:induction false} DigitsRoundTrip(n: nat)
    ensures ParseDigits(Digits(n)) == n
  {
    if n >= 10 {
      DigitsRoundTrip(n / 10);
      var s := Digits(n);
      assert s[..|s| - 1] == Digits(n / 10);
    }
  }

  // ----- `prepareForValidation` -----

  /** `line` is the score, two dashes, and some ascending, duplicate-free arrangement of the words, dash-joined. */
  ghost predicate ShowsEntry(line: string, e: Entry)
  {
    exists ws :: StrictlySorted(ws) && Elems(ws) == Elems(e.words) && line == Decimal(e.score) + "--" + Join(ws)
  }

  /** The line for one entry: `"<score>--<words>"` with the sorted distinct words joined by `-`. */
  function FormatLine(e: Entry): string
  {
    var ws := SortedUniqueWords(e.words);
    Decimal(e.score) + "--" + Join(ws)
  }

  /** A formatted line shows the score and the entry's words, ascending and without repeats. */
  lemma FormatLineShape(e: Entry)
    ensures ShowsEntry(FormatLine(e), e)
  {
    var ws := SortedUniqueWords(e.words);
    assert StrictlySorted(ws) && Elems(ws) == Elems(e.words);
  }

  /** Reads a line back into its score and its word list. */
  function ParseLine(line: string): (r: Option<Entry>)
  {
    var f := Split(line);
    if |f| >= 3 && f[1] == "" && forall i :: 0 <= i < |f[0]| ==> IsDigit(f[0][i]) then
      Some(Entry(ParseDigits(f[0]), f[2..]))
    else None
  }

  /** The fields of a line: the digits, the empty field between the two dashes, then the words. */
  lemma LineFields(d: string, ws: seq<string>)
    requires DashFree(d) && |ws| > 0 && forall w :: w in ws ==> DashFree(w)
    ensures Split(d + "--" + Join(ws)) == [d, ""] + ws
  {
    var j := Join(ws);
    var t := "" + "-" + j;
    SplitJoin(ws);
    SplitDashFree("", j);
    SplitDashFree(d, t);
    DoubleDash(d, j);
    assert [d] + ([""] + ws) == [d, ""] + ws;
  }

  lemma DoubleDash(d: string, j: string)
    ensures d + "--" + j == d + "-" + ("" + "-" + j)
  {
    assert "" + "-" + j == ['-'] + j;
    assert "--" == ['-', '-'];
  }

  /** A line made of digits, two dashes and joined dash-free words reads back to its number and words. */
  lemma ParseFields(d: string, ws: seq<string>)
    requires |d| >= 1 && forall i :: 0 <= i < |d| ==> IsDigit(d[i])
    requires |ws| > 0 && forall w :: w in ws ==> DashFree(w)
    ensures ParseLine(d + "--" + Join(ws)) == Some(Entry(ParseDigits(d), ws))
  {
    assert DashFree(d) by {
      forall i | 0 <= i < |d| ensures d[i] != '-' { }
    }
    LineFields(d, ws);
    var f := [d, ""] + ws;
    assert f[0] == d && f[1] == "" && f[2..] == ws;
  }

  /** The sorted distinct words of a non-empty list of dash-free words: non-empty and dash-free. */
  lemma SortedWordsDashFree(words: seq<string>)
    requires |words| > 0 && forall w :: w in words ==> DashFree(w)
    ensures |SortedUniqueWords(words)| > 0
    ensures forall w :: w in SortedUniqueWords(words) ==> DashFree(w)
  {
    var ws := SortedUniqueWords(words);
    assert words[0] in Elems(ws);
    forall w | w in ws ensures DashFree(w) {
      assert w in Elems(words);
    }
  }

  /**
   * A line holds all that the entry it came from says: its score and the
   * set of its words, sorted and without repetitions.
   */
  lemma FormatLineRoundTrip(e: Entry)
    requires e.score >= 0 && |e.words| > 0
    requires forall w :: w in e.words ==> DashFree(w)
    ensures ParseLine(FormatLine(e)) == Some(Entry(e.score, SortedUniqueWords(e.words)))
  {
    SortedWordsDashFree(e.words);
    ParseFields(Digits(e.score), SortedUniqueWords(e.words));
    DigitsRoundTrip(e.score);
  }

  /** Every bucket of the score table prints as a line that reads back to its score and its distinct words. */
  lemma BucketLineRoundTrip(q: seq<string>, k: int)
    requires AllAlphabetic(q) && k in ScoresOf(q, FinalScore)
    ensures ParseLine(FormatLine(Entry(k, Bucket(q, k, FinalScore))))
         == Some(Entry(k, SortedUniqueWords(Bucket(q, k, FinalScore))))
  {
    var b := Bucket(q, k, FinalScore);
    ScoresOfMembership(q, k, FinalScore);
    var u :| u in q && FinalScore(u) == k;
    BucketMembership(q, k, FinalScore, u);
    assert Score3(u) >= 0;
    FinalScoreBucket(q, k);
    forall w | w in b ensures DashFree(w) {
      assert AllLetters(w);
    }
    FormatLineRoundTrip(Entry(k, b));
  }

  /**
   * Two workers that each group one half of the input and are merged in
   * either order print the same line for every score as the sequential run.
   */
  lemma MergeOrderInvisible(w1: seq<string>, w2: seq<string>, dict: set<string>, k: int, score: string -> int)
    ensures FormatLine(Entry(k, Bucket(Qualifying(w1 + w2, dict), k, score)))
         == FormatLine(Entry(k, Bucket(Qualifying(w2, dict), k, score) + Bucket(Qualifying(w1, dict), k, score)))
  {
    var q1, q2 := Qualifying(w1, dict), Qualifying(w2, dict);
    QualifyingConcat(w1, w2, dict);
    BucketConcat(q1, q2, k, score);
    var b1, b2 := Bucket(q1, k, score), Bucket(q2, k, score);
    assert Elems(b1 + b2) == Elems(b2 + b1);
    SortedUniqueWordsCanonical(b1 + b2, b2 + b1);
  }

  /** `prepareForValidation`: one formatted line per entry, in the same order. */
  method PrepareForValidation(bestWords: seq<Entry>) returns (result: seq<string>)
    ensures |result| == |bestWords|
    ensures forall i {:trigger result[i]} :: 0 <= i < |bestWords| ==> result[i] == FormatLine(bestWords[i])
  {
    result := [];
    for i := 0 to |bestWords|
      invariant |result| == i
      invariant forall j {:trigger result[j]} :: 0 <= j < i ==> result[j] == FormatLine(bestWords[j])
    {
      result := result + [FormatLine(bestWords[i])];
    }
  }
}
