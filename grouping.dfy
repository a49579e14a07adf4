/**
 * The filter-and-group pipeline of `run()` in sequential mode: the word
 * stream (`shakespeareWordStream`), the filters on dictionary membership and
 * blanks, `groupingBy(score)` into a `TreeMap` ordered by descending score,
 * and the first three entries of that map.
 *
 * As in `buildHistoOnScore`, the score function is a parameter; `run()`
 * passes the final score. The `TreeMap` is represented by the sequence of
 * its entries in iteration order; `View` gives the map it stands for.
 */
module Grouping {
  import opened Tables
  import opened Scoring
  import opened Words

  /** One entry of the score table: a score and the words that reached it. */
  datatype Entry = Entry(score: int, words: seq<string>)

  /** Every word of `q` is made of the letters A..Z. */
  predicate AllAlphabetic(q: seq<string>)
  {
    forall u :: u in q ==> AllLetters(u)
  }

  /** An upper-cased word survives the stream: alphabetical, in the dictionary and playable. */
  predicate Qualifies(u: string, dict: set<string>)
    ensures Qualifies(u, dict) ==> AllLetters(u) && u in dict && NBlanks(u) <= 2
  {
    IsAlphabetical(u) && u in dict && CheckBlanks(u)
  }

  /** The upper-cased words of `words` that survive the filters, in input order, duplicates kept. */
  function Qualifying(words: seq<string>, dict: set<string>): (q: seq<string>)
    ensures forall u :: u in q ==> Qualifies(u, dict)
    ensures AllAlphabetic(q)
    ensures |q| <= |words|
  {
    if |words| == 0 then []
    else
      var q0 := Qualifying(words[..|words| - 1], dict);
      var u := UpperCase(words[|words| - 1]);
      if Qualifies(u, dict) then q0 + [u] else q0
  }

  /**
   * `score3` as the score function `run()` hands to the grouping. Only A..Z
   * words reach it (see `Qualifying`); the 0 for other strings is never used.
   */
  function FinalScore(u: string): (r: int)
    ensures AllLetters(u) ==> r == Score3(u)
    ensures 0 <= r <= 2 * (MaxBaseScore + 10) + 50
  {
    if AllLetters(u) then Score3(u) else 0
  }

  /** The words of `q` whose score is `k`, in the order of `q`. */
  function Bucket(q: seq<string>, k: int, score: string -> int): (b: seq<string>)
  {
    if |q| == 0 then []
    else
      var b0 := Bucket(q[..|q| - 1], k, score);
      if score(q[|q| - 1]) == k then b0 + [q[|q| - 1]] else b0
  }

  /** The scores reached by the words of `q`. */
  function ScoresOf(q: seq<string>, score: string -> int): (ks: set<int>)
  {
    if |q| == 0 then {} else ScoresOf(q[..|q| - 1], score) + {score(q[|q| - 1])}
  }

  /** What the grouping must produce: each reached score mapped to its bucket. */
  function GroupSpec(q: seq<string>, score: string -> int): (m: map<int, seq<string>>)
  {
    map k | k in ScoresOf(q, score) :: Bucket(q, k, score)
  }

  /** Entry scores strictly decrease: the iteration order of a `TreeMap` with `reverseOrder()`. */
  predicate Descending(g: seq<Entry>)
  {
    forall i, j :: 0 <= i < j < |g| ==> g[i].score > g[j].score
  }

  /** The map that an entry sequence stands for. */
  function View(g: seq<Entry>): (m: map<int, seq<string>>)
  {
    if |g| == 0 then map[] else View(g[1..])[g[0].score := g[0].words]
  }

  /** `computeIfAbsent(k, ArrayList::new).add(u)`: append `u` to the list of `k`, creating it if absent. */
  function AddWord(m: map<int, seq<string>>, k: int, u: string): map<int, seq<string>>
  {
    m[k := (if k in m then m[k] else []) + [u]]
  }

  /** Adding a word creates the key if needed, appends to its list, and leaves every other key alone. */
  lemma AddWordEffect(m: map<int, seq<string>>, k: int, u: string)
    ensures AddWord(m, k, u).Keys == m.Keys + {k}
    ensures k in m ==> AddWord(m, k, u)[k] == m[k] + [u]
    ensures k !in m ==> AddWord(m, k, u)[k] == [u]
    ensures forall j :: j in m && j != k ==> AddWord(m, k, u)[j] == m[j]
  {
  }

  // ----- lemmas about the specification -----

  lemma {:induction false} BucketMembership(q: seq<string>, k: int, score: string -> int, u: string)
    ensures u in Bucket(q, k, score) <==> u in q && score(u) == k
  {
    if |q| > 0 {
      var init := q[..|q| - 1];
      assert q == init + [q[|q| - 1]];
      BucketMembership(init, k, score, u);
    }
  }

  /** A word occurs in its bucket exactly as often as in the input: duplicates are kept. */
  lemma {:induction false} BucketMultiplicity(q: seq<string>, score: string -> int, u: string)
    ensures multiset(Bucket(q, score(u), score))[u] == multiset(q)[u]
  {
    if |q| > 0 {
      var init, x := q[..|q| - 1], q[|q| - 1];
      assert q == init + [x];
      BucketMultiplicity(init, score, u);
      if score(x) != score(u) {
        assert x != u;
      }
    }
  }

  lemma {:induction false} ScoresOfMembership(q: seq<string>, k: int, score: string -> int)
    ensures k in ScoresOf(q, score) <==> exists u :: u in q && score(u) == k
  {
    if |q| > 0 {
      var init := q[..|q| - 1];
      assert q == init + [q[|q| - 1]];
      ScoresOfMembership(init, k, score);
    }
  }

  /** Grouping distributes over concatenation: partial groupings merge by appending per score. */
  lemma {:induction false} BucketConcat(q1: seq<string>, q2: seq<string>, k: int, score: string -> int)
    ensures Bucket(q1 + q2, k, score) == Bucket(q1, k, score) + Bucket(q2, k, score)
  {
    if |q2| > 0 {
      var init := q2[..|q2| - 1];
      assert (q1 + q2)[..|q1 + q2| - 1] == q1 + init;
      BucketConcat(q1, init, k, score);
    } else {
      assert q1 + q2 == q1;
    }
  }

  /** The word stream splits like its input: what a worker sees of a chunk is that chunk's share. */
  lemma {:induction false} QualifyingConcat(w1: seq<string>, w2: seq<string>, dict: set<string>)
    ensures Qualifying(w1 + w2, dict) == Qualifying(w1, dict) + Qualifying(w2, dict)
  {
    if |w2| > 0 {
      var init := w2[..|w2| - 1];
      assert (w1 + w2)[..|w1 + w2| - 1] == w1 + init;
      QualifyingConcat(w1, init, dict);
    } else {
      assert w1 + w2 == w1;
    }
  }

  /** Some word of `words` upper-cases to `u`. */
  predicate FromInput(words: seq<string>, u: string)
  {
    exists i :: 0 <= i < |words| && UpperCase(words[i]) == u
  }

  lemma FromInputSnoc(words: seq<string>, u: string)
    requires |words| > 0
    ensures FromInput(words, u) <==> FromInput(words[..|words| - 1], u) || UpperCase(words[|words| - 1]) == u
  {
    var init := words[..|words| - 1];
    if FromInput(words, u) {
      var i :| 0 <= i < |words| && UpperCase(words[i]) == u;
      if i < |init| {
        assert UpperCase(init[i]) == u;
      }
    }
    if FromInput(init, u) {
      var i :| 0 <= i < |init| && UpperCase(init[i]) == u;
      assert UpperCase(words[i]) == u;
    }
  }

  /** A word is in the stream iff it is some input word upper-cased and it passes every filter. */
  lemma {:induction false} QualifyingMembership(words: seq<string>, dict: set<string>, u: string)
    ensures u in Qualifying(words, dict) <==>
      Qualifies(u, dict) && exists i :: 0 <= i < |words| && UpperCase(words[i]) == u
  {
    if |words| > 0 {
      QualifyingMembership(words[..|words| - 1], dict, u);
      FromInputSnoc(words, u);
    }
    assert FromInput(words, u) <==> exists i :: 0 <= i < |words| && UpperCase(words[i]) == u;
  }

  /** Every word in a bucket of the stream is an A..Z word whose final score is the bucket's key. */
  lemma FinalScoreBucket(q: seq<string>, k: int)
    requires AllAlphabetic(q)
    ensures forall u :: u in Bucket(q, k, FinalScore) ==> AllLetters(u) && Score3(u) == k
  {
    forall u | u in Bucket(q, k, FinalScore) ensures AllLetters(u) && Score3(u) == k {
      BucketMembership(q, k, FinalScore, u);
    }
  }

  lemma GroupSpecAt(q: seq<string>, k: int, score: string -> int)
    ensures k in GroupSpec(q, score) <==> k in ScoresOf(q, score)
    ensures k in GroupSpec(q, score) ==> GroupSpec(q, score)[k] == Bucket(q, k, score)
  {
  }

  /**
   * The grouping the pipeline must produce: every surviving word sits in the
   * bucket of its own score and in no other, every bucket is non-empty, and
   * no word outside the stream appears.
   */
  lemma GroupSpecPartition(q: seq<string>, score: string -> int)
    ensures forall k :: k in GroupSpec(q, score) ==> GroupSpec(q, score)[k] != []
    ensures forall k, u :: k in GroupSpec(q, score) && u in GroupSpec(q, score)[k] ==> u in q && score(u) == k
    ensures forall u :: u in q ==> score(u) in GroupSpec(q, score) && u in GroupSpec(q, score)[score(u)]
  {
    forall k | k in GroupSpec(q, score) ensures GroupSpec(q, score)[k] != [] {
      GroupSpecAt(q, k, score);
      ScoresOfMembership(q, k, score);
      var u :| u in q && score(u) == k;
      BucketMembership(q, k, score, u);
    }
    forall k, u | k in GroupSpec(q, score) && u in GroupSpec(q, score)[k] ensures u in q && score(u) == k {
      GroupSpecAt(q, k, score);
      BucketMembership(q, k, score, u);
    }
    forall u | u in q ensures score(u) in GroupSpec(q, score) && u in GroupSpec(q, score)[score(u)] {
      GroupSpecAt(q, score(u), score);
      ScoresOfMembership(q, score(u), score);
      BucketMembership(q, score(u), score, u);
    }
  }

  /** A score no word reaches has an empty bucket. */
  lemma {:induction false} BucketOutsideScores(q: seq<string>, k: int, score: string -> int)
    requires k !in ScoresOf(q, score)
    ensures Bucket(q, k, score) == []
  {
    if |q| > 0 {
      BucketOutsideScores(q[..|q| - 1], k, score);
    }
  }

  /** Adding one more surviving word to the stream adds it to the end of its bucket. */
  lemma GroupSpecStep(q: seq<string>, u: string, score: string -> int)
    ensures GroupSpec(q + [u], score) == AddWord(GroupSpec(q, score), score(u), u)
  {
    var q' := q + [u];
    assert q'[..|q'| - 1] == q;
    var m, m' := GroupSpec(q, score), GroupSpec(q', score);
    var a := AddWord(m, score(u), u);
    assert ScoresOf(q', score) == ScoresOf(q, score) + {score(u)};
    assert m'.Keys == a.Keys;
    forall k | k in m' ensures m'[k] == a[k] {
      if k !in ScoresOf(q, score) {
        BucketOutsideScores(q, k, score);
      }
    }
  }

  // ----- lemmas about entry sequences -----

  lemma {:induction false} ViewKeys(g: seq<Entry>, k: int)
    ensures k in View(g) <==> exists i :: 0 <= i < |g| && g[i].score == k
  {
    if |g| > 0 {
      ViewKeys(g[1..], k);
      if k in View(g[1..]) {
        var i :| 0 <= i < |g[1..]| && g[1..][i].score == k;
        assert g[i + 1].score == k;
      }
      if exists i :: 0 <= i < |g| && g[i].score == k {
        var i :| 0 <= i < |g| && g[i].score == k;
        if i > 0 {
          assert g[1..][i - 1].score == k;
        }
      }
    }
  }

  /** In a descending sequence each entry is what the map holds for its score. */
  lemma {:induction false} ViewAt(g: seq<Entry>, i: int)
    requires Descending(g) && 0 <= i < |g|
    ensures g[i].score in View(g) && View(g)[g[i].score] == g[i].words
  {
    if i > 0 {
      ViewAt(g[1..], i - 1);
    }
  }

  /** In a descending sequence there are as many keys as entries. */
  lemma {:induction false} ViewSize(g: seq<Entry>)
    requires Descending(g)
    ensures |View(g)| == |g|
  {
    if |g| > 0 {
      ViewSize(g[1..]);
      ViewKeys(g[1..], g[0].score);
    }
  }

  /** The entries before `a` and after it: the prefix's keys win. */
  lemma {:induction false} ViewConcat(a: seq<Entry>, b: seq<Entry>)
    ensures View(a + b) == View(b) + View(a)
  {
    if |a| == 0 {
      assert a + b == b;
    } else {
      assert (a + b)[1..] == a[1..] + b;
      ViewConcat(a[1..], b);
    }
  }

  /** Putting entry `e` between two runs of entries, when no entry before it has its score. */
  lemma ViewSplice(before: seq<Entry>, e: Entry, after: seq<Entry>)
    requires e.score !in View(before)
    ensures View(before + [e] + after) == (View(after) + View(before))[e.score := e.words]
  {
    assert before + [e] + after == before + ([e] + after);
    ViewConcat(before, [e] + after);
    ViewConcat([e], after);
  }

  /** Appending to the list of an existing key changes that key only. */
  lemma AppendToEntry(before: seq<Entry>, x: Entry, after: seq<Entry>, u: string)
    requires x.score !in View(before)
    ensures View(before + [Entry(x.score, x.words + [u])] + after) == AddWord(View(before + [x] + after), x.score, u)
  {
    ViewSplice(before, x, after);
    ViewSplice(before, Entry(x.score, x.words + [u]), after);
  }

  /** A new entry for an absent key holds just the one word. */
  lemma NewEntry(before: seq<Entry>, k: int, u: string, after: seq<Entry>)
    requires k !in View(before) && k !in View(after)
    ensures View(before + [Entry(k, [u])] + after) == AddWord(View(before + after), k, u)
  {
    ViewConcat(before, after);
    ViewSplice(before, Entry(k, [u]), after);
    assert [] + [u] == [u];
  }

  lemma DescendingSplice(before: seq<Entry>, e: Entry, after: seq<Entry>)
    requires Descending(before) && Descending(after)
    requires forall i :: 0 <= i < |before| ==> before[i].score > e.score
    requires forall i :: 0 <= i < |after| ==> e.score > after[i].score
    ensures Descending(before + [e] + after)
  {
    var r := before + [e] + after;
    forall i, j | 0 <= i < j < |r| ensures r[i].score > r[j].score {
      if j < |before| {
      } else if j == |before| {
      } else if i < |before| {
        assert before[i].score > e.score > after[j - |before| - 1].score;
      } else if i == |before| {
      } else {
        assert r[i] == after[i - |before| - 1] && r[j] == after[j - |before| - 1];
      }
    }
  }

  /** The first `n` entries of a descending sequence hold its `n` largest keys. */
  lemma TakeLargest(g: seq<Entry>, n: nat)
    requires Descending(g) && n > 0
    ensures var p := g[..Min(n, |g|)];
      && Descending(p)
      && |p| == Min(n, |View(g)|)
      && (forall i :: 0 <= i < |p| ==> p[i].score in View(g) && View(g)[p[i].score] == p[i].words)
      && (forall k :: k in View(g) ==> (exists i :: 0 <= i < |p| && p[i].score == k) || k < p[|p| - 1].score)
  {
    var p := g[..Min(n, |g|)];
    ViewSize(g);
    forall i | 0 <= i < |p| ensures p[i].score in View(g) && View(g)[p[i].score] == p[i].words {
      ViewAt(g, i);
    }
    forall k | k in View(g) ensures (exists i :: 0 <= i < |p| && p[i].score == k) || k < p[|p| - 1].score {
      ViewKeys(g, k);
      var i :| 0 <= i < |g| && g[i].score == k;
      if i < |p| {
        assert p[i].score == k;
      } else {
        assert k < g[|p| - 1].score;
      }
    }
  }

  /** The entry of `k` was found at position `j`: appending `u` to its list is the collector step. */
  lemma AppendAt(g: seq<Entry>, j: int, u: string)
    requires Descending(g) && 0 <= j < |g|
    ensures var r := g[..j] + [Entry(g[j].score, g[j].words + [u])] + g[j + 1..];
      Descending(r) && View(r) == AddWord(View(g), g[j].score, u)
  {
    var before, after := g[..j], g[j + 1..];
    var k := g[j].score;
    assert g == before + [g[j]] + after;
    assert forall i :: 0 <= i < |before| ==> before[i].score > k by {
      forall i | 0 <= i < |before| ensures before[i].score > k {
        assert before[i] == g[i];
      }
    }
    assert forall i :: 0 <= i < |after| ==> k > after[i].score by {
      forall i | 0 <= i < |after| ensures k > after[i].score {
        assert after[i] == g[j + 1 + i];
      }
    }
    ViewKeys(before, k);
    AppendToEntry(before, g[j], after, u);
    DescendingSplice(before, Entry(k, g[j].words + [u]), after);
  }

  /** A key no entry carries is absent from the map. */
  lemma {:induction false} KeyAbsent(g: seq<Entry>, k: int)
    requires forall i :: 0 <= i < |g| ==> g[i].score != k
    ensures k !in View(g)
  {
    if |g| > 0 {
      assert forall i :: 0 <= i < |g[1..]| ==> g[1..][i] == g[i + 1];
      KeyAbsent(g[1..], k);
    }
  }

  /** The keys after the insertion point of an absent key `k` are all below it. */
  lemma BelowInsertionPoint(g: seq<Entry>, j: int, k: int)
    requires Descending(g) && 0 <= j <= |g|
    requires j < |g| ==> g[j].score < k
    ensures forall i :: 0 <= i < |g[j..]| ==> k > g[j..][i].score
  {
    forall i | 0 <= i < |g[j..]| ensures k > g[j..][i].score {
      assert g[j..][i] == g[j + i];
      if i > 0 {
        assert g[j].score > g[j + i].score;
      }
    }
  }

  /** No entry has key `k` and position `j` is where it belongs: a new entry holding `u` goes there. */
  lemma InsertNewAt(g: seq<Entry>, j: int, k: int, u: string)
    requires Descending(g) && 0 <= j <= |g|
    requires forall i :: 0 <= i < j ==> g[i].score > k
    requires j < |g| ==> g[j].score < k
    ensures var r := g[..j] + [Entry(k, [u])] + g[j..];
      Descending(r) && View(r) == AddWord(View(g), k, u)
  {
    BelowInsertionPoint(g, j, k);
    InsertNewView(g, j, k, u);
    DescendingSlices(g, j);
    assert forall i :: 0 <= i < |g[..j]| ==> g[..j][i].score > k by {
      forall i | 0 <= i < |g[..j]| ensures g[..j][i].score > k {
        assert g[..j][i] == g[i];
      }
    }
    DescendingSplice(g[..j], Entry(k, [u]), g[j..]);
  }

  /** Both sides of a cut of a descending table are descending. */
  lemma DescendingSlices(g: seq<Entry>, j: int)
    requires Descending(g) && 0 <= j <= |g|
    ensures Descending(g[..j]) && Descending(g[j..])
  {
    forall a, b | 0 <= a < b < |g[..j]| ensures g[..j][a].score > g[..j][b].score {
      assert g[..j][a] == g[a] && g[..j][b] == g[b];
    }
    forall a, b | 0 <= a < b < |g[j..]| ensures g[j..][a].score > g[j..][b].score {
      assert g[j..][a] == g[j + a] && g[j..][b] == g[j + b];
    }
  }

  lemma InsertNewView(g: seq<Entry>, j: int, k: int, u: string)
    requires 0 <= j <= |g|
    requires forall i :: 0 <= i < j ==> g[i].score > k
    requires forall i :: 0 <= i < |g[j..]| ==> k > g[j..][i].score
    ensures View(g[..j] + [Entry(k, [u])] + g[j..]) == AddWord(View(g), k, u)
  {
    var before, after := g[..j], g[j..];
    KeyAbsent(before, k);
    KeyAbsent(after, k);
    NewEntry(before, k, u, after);
    assert before + after == g;
  }

  // ----- the operations -----

  /**
   * One accumulation step of the `TreeMap` collector: find the entry of `k`
   * by walking down the descending keys, and append `u` to it or insert a
   * new entry holding only `u`.
   */
  method Insert(g: seq<Entry>, k: int, u: string) returns (r: seq<Entry>)
    requires Descending(g)
    ensures Descending(r)
    ensures View(r) == AddWord(View(g), k, u)
  {
    var j := 0;
    while j < |g| && g[j].score > k
      invariant 0 <= j <= |g|
      invariant forall i :: 0 <= i < j ==> g[i].score > k
    {
      j := j + 1;
    }
    if j < |g| && g[j].score == k {
      r := g[..j] + [Entry(k, g[j].words + [u])] + g[j + 1..];
      AppendAt(g, j, u);
    } else {
      r := g[..j] + [Entry(k, [u])] + g[j..];
      InsertNewAt(g, j, k, u);
    }
  }

  /**
   * `buildHistoOnScore` in sequential mode: stream the words, upper-case
   * them, keep the survivors and group them by `score`.
   */
  method BuildHistoOnScore(words: seq<string>, dict: set<string>, score: string -> int) returns (groups: seq<Entry>)
    ensures Descending(groups)
    ensures View(groups) == GroupSpec(Qualifying(words, dict), score)
  {
    groups := [];
    for i := 0 to |words|
      invariant Descending(groups)
      invariant View(groups) == GroupSpec(Qualifying(words[..i], dict), score)
    {
      ghost var q := Qualifying(words[..i], dict);
      assert words[..i + 1][..i] == words[..i];
      var u := UpperCase(words[i]);
      if IsAlphabetical(u) && u in dict && CheckBlanks(u) {
        groups := Insert(groups, score(u), u);
        GroupSpecStep(q, u, score);
      }
    }
    assert words[..|words|] == words;
  }

  /** The first three entries of the grouping of `q` hold its three best scores and their buckets. */
  lemma TopEntries(g: seq<Entry>, q: seq<string>, score: string -> int)
    requires Descending(g) && View(g) == GroupSpec(q, score)
    ensures var p := g[..Min(3, |g|)];
      && |p| == Min(3, |ScoresOf(q, score)|)
      && Descending(p)
      && (forall i :: 0 <= i < |p| ==>
            p[i].score in ScoresOf(q, score) && p[i].words == Bucket(q, p[i].score, score))
      && (forall k :: k in ScoresOf(q, score) ==>
            (exists i :: 0 <= i < |p| && p[i].score == k) || k < p[|p| - 1].score)
  {
    TakeLargest(g, 3);
    assert View(g).Keys == ScoresOf(q, score);
  }

  /** Every word of the entry is an A..Z word whose final score is the entry's key. */
  predicate ScoredEntry(e: Entry)
  {
    forall u :: u in e.words ==> AllLetters(u) && Score3(u) == e.score
  }

  /** Entries holding buckets of the stream hold A..Z words whose final score is the entry's key. */
  lemma BucketsScoreAsKeyed(best: seq<Entry>, q: seq<string>)
    requires AllAlphabetic(q)
    requires forall i :: 0 <= i < |best| ==> best[i].words == Bucket(q, best[i].score, FinalScore)
    ensures forall i :: 0 <= i < |best| ==> ScoredEntry(best[i])
  {
    forall i | 0 <= i < |best| ensures ScoredEntry(best[i]) {
      FinalScoreBucket(q, best[i].score);
    }
  }

  /** Entries holding the buckets of reached final scores are non-empty, with non-negative scores. */
  lemma EntriesNonEmpty(best: seq<Entry>, q: seq<string>)
    requires AllAlphabetic(q)
    requires forall i :: 0 <= i < |best| ==>
      best[i].score in ScoresOf(q, FinalScore) && best[i].words == Bucket(q, best[i].score, FinalScore)
    ensures forall i :: 0 <= i < |best| ==> best[i].words != [] && best[i].score >= 0
  {
    forall i | 0 <= i < |best| ensures best[i].words != [] && best[i].score >= 0 {
      var k := best[i].score;
      ScoresOfMembership(q, k, FinalScore);
      var u :| u in q && FinalScore(u) == k;
      BucketMembership(q, k, FinalScore, u);
    }
  }

  /**
   * `run()`: the first three entries of the table grouped by final score,
   * highest scores first.
   */
  method Run(words: seq<string>, dict: set<string>) returns (best: seq<Entry>)
    ensures |best| == Min(3, |ScoresOf(Qualifying(words, dict), FinalScore)|)
    ensures Descending(best)
    ensures forall i :: 0 <= i < |best| ==>
      var q := Qualifying(words, dict);
      best[i].score in ScoresOf(q, FinalScore) && best[i].words == Bucket(q, best[i].score, FinalScore)
    ensures forall i :: 0 <= i < |best| ==> ScoredEntry(best[i])
    ensures forall i :: 0 <= i < |best| ==> best[i].words != [] && best[i].score >= 0
    ensures forall k :: k in ScoresOf(Qualifying(words, dict), FinalScore) ==>
      (exists i :: 0 <= i < |best| && best[i].score == k) || k < best[|best| - 1].score
  {
    var groups := BuildHistoOnScore(words, dict, FinalScore);
    best := groups[..Min(3, |groups|)];
    ghost var q := Qualifying(words, dict);
    TopEntries(groups, q, FinalScore);
    BucketsScoreAsKeyed(best, q);
    EntriesNonEmpty(best, q);
  }
}
