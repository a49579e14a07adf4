# Scrabble scoring and ranking, modelled in Dafny

This project models the scoring pipeline of the Renaissance `jdk-streams`
benchmark `JavaScrabble`. The pipeline takes a list of candidate words and a
set of dictionary words. It upper-cases every candidate and keeps a word when
it is made of A..Z only, is in the dictionary and can be laid with at most
two blank tiles. It scores each kept word, groups the words by score in a map
ordered from the highest score down, and returns the three best entries. An
output step then sorts and de-duplicates each entry's words and prints one
line `"<score>--<w1>-<w2>-..."` per entry.

Modules, one per stage of `run()`:

- `Tables` (tables.dfy): the letter score and tile availability tables.
  They are copied as they stand: D has a single tile, where the usual
  English set has four. `TableTotals` holds the largest possible base
  score, 181.
- `Histograms` (histograms.dfy): `histOfLetters` as a map from character to count.
- `Scoring` (scoring.dfy): `blank`, `nBlanks`, `checkBlanks`,
  `letterScore`, `score2`, the two windows `first3` and `last3`, the
  bonus and `score3`. The source sums each lambda over the histogram's
  entries. The model sums over the 26 letters instead. An absent letter
  contributes 0, so for an A..Z word the two sums are equal.
- `Words` (words.dfy): upper-casing and `isAlphabetical`.
- `Grouping` (grouping.dfy): the sequential word stream, the filters, the
  `TreeMap` built by `groupingBy`, and `run()`. `buildHistoOnScore` takes
  the score function as an argument, and so does the model. `Run` passes
  `FinalScore`, which is `score3` on the A..Z words that make up the stream.
  The map is represented by its entries in iteration order, which is
  descending score. `View` gives the map those entries stand for.
  `GroupSpec` states what the map must hold: each score reached maps to the
  words with that score, in input order.
- `Presentation` (presentation.dfy): `sortedUniqueWords`,
  `String.join`, the `%d` rendering and `prepareForValidation`. Inverse
  readers (`Split`, `ParseDigits`, `ParseLine`) show that a line keeps
  everything its entry says.

The window the source calls `last3` takes the last four characters: it
skips to index `max(0, length - 4)`. The two windows overlap on words shorter
than 7 letters. On words of up to 7 letters they cover every position, so
anagrams of that length get equal final scores (`AnagramScore3`). From 8
letters on, middle letters lie outside both windows, so anagrams can score
differently. For example, "QAAAAAAA" scores 18 more than "AAAQAAAA"
(`LongAnagramsMayScoreDifferently`). A claim that anagrams always share a
final score is therefore true of the code only up to 7 letters.

Every final score is at most 2 * (181 + 10) + 50 = 432 (`Scoring.Score3`).
The source computes scores in Java `int` and blank counts in `long`, and
these values stay far from both limits. So the unbounded integers of the
model agree with the source.

## Model

| member | source | states |
|---|---|---|
| Tables.Index | benchmarks/jdk-streams/src/main/java/org/renaissance/jdk/streams/JavaScrabble.java:134 | the table index `letter - 'A'` of an A..Z letter lies in 0..25 |
| Tables.Letter | benchmarks/jdk-streams/src/main/java/org/renaissance/jdk/streams/JavaScrabble.java:134 | the letter at an index 0..25 is an A..Z letter whose index is that number (inverse of `Index`) |
| Tables.ScoreOf | benchmarks/jdk-streams/src/main/java/org/renaissance/jdk/streams/JavaScrabble.java:41-43 | every entry of `letterScores` lies between 1 and 10 |
| Tables.AvailableOf | benchmarks/jdk-streams/src/main/java/org/renaissance/jdk/streams/JavaScrabble.java:45-47 | every entry of `scrabbleAvailableLetters` lies between 1 and 12 |
| TableTotals.MaxBaseScoreIsTableProduct | benchmarks/jdk-streams/src/main/java/org/renaissance/jdk/streams/JavaScrabble.java:41-47 | the sum of score times available tiles over A..Z is 181 |
| Histograms.Hist | benchmarks/jdk-streams/src/main/java/org/renaissance/jdk/streams/JavaScrabble.java:146-153 | the histogram's keys are exactly the characters of the word, and each count is that character's number of occurrences |
| Histograms.HistCountsPositive | benchmarks/jdk-streams/src/main/java/org/renaissance/jdk/streams/JavaScrabble.java:146-153 | every count in a histogram is at least 1 |
| Histograms.HistCountsSumToLength | benchmarks/jdk-streams/src/main/java/org/renaissance/jdk/streams/JavaScrabble.java:146-153 | for an A..Z word the counts add up to the word's length |
| Histograms.AnagramHist | benchmarks/jdk-streams/src/main/java/org/renaissance/jdk/streams/JavaScrabble.java:146-153 | two words with the same letters, in any order, have the same histogram |
| Scoring.Blank | benchmarks/jdk-streams/src/main/java/org/renaissance/jdk/streams/JavaScrabble.java:156-158 | per letter, `min(count, available) + blank = count`, and the blank count is 0 exactly when the count does not exceed the available tiles |
| Scoring.LetterScore | benchmarks/jdk-streams/src/main/java/org/renaissance/jdk/streams/JavaScrabble.java:137-143 | a letter's contribution is non-negative, at most score times available tiles, and 0 for an absent letter |
| Scoring.ScoreOver | benchmarks/jdk-streams/src/main/java/org/renaissance/jdk/streams/JavaScrabble.java:171-175 | a partial base-score sum is non-negative and bounded by the table total of the letters summed |
| Scoring.Score2 | benchmarks/jdk-streams/src/main/java/org/renaissance/jdk/streams/JavaScrabble.java:171-175 | the base score of an A..Z word lies between 0 and 181 |
| Scoring.CappedPlusBlanks | benchmarks/jdk-streams/src/main/java/org/renaissance/jdk/streams/JavaScrabble.java:156-165 | the tiles covered by real tiles plus `nBlanks` equal the word's length |
| Scoring.NBlanks | benchmarks/jdk-streams/src/main/java/org/renaissance/jdk/streams/JavaScrabble.java:161-165 | a word never needs more blanks than it has letters |
| Scoring.NoBlanksNeeded | benchmarks/jdk-streams/src/main/java/org/renaissance/jdk/streams/JavaScrabble.java:156-165 | `nBlanks` is 0 iff every letter of the word occurs at most as often as its available tiles |
| Scoring.ShortWordsPlayable | benchmarks/jdk-streams/src/main/java/org/renaissance/jdk/streams/JavaScrabble.java:168 | `checkBlanks` keeps every A..Z word of at most 2 letters |
| Scoring.LetterSumsCoverEntries | benchmarks/jdk-streams/src/main/java/org/renaissance/jdk/streams/JavaScrabble.java:146-175 | the histogram of an A..Z word has only A..Z keys, and a letter outside it adds 0 blanks and 0 points, so sums over the 26 letters equal sums over its entries |
| Scoring.RepeatedLetterBlanks | benchmarks/jdk-streams/src/main/java/org/renaissance/jdk/streams/JavaScrabble.java:156-168 | a word of one repeated letter needs a blank per copy beyond the available tiles, and `checkBlanks` keeps it iff its length is at most available + 2: "ZZZ" (2 blanks) is kept, "ZZZZ" (3 blanks) is dropped, "DD" needs 1 blank |
| Scoring.AnagramBaseScore | benchmarks/jdk-streams/src/main/java/org/renaissance/jdk/streams/JavaScrabble.java:161-175 | anagrams get the same base score, the same blank count and the same playability |
| Scoring.FirstThree | benchmarks/jdk-streams/src/main/java/org/renaissance/jdk/streams/JavaScrabble.java:179 | `first3` has `min(3, length)` characters, the word's own first ones |
| Scoring.LastFour | benchmarks/jdk-streams/src/main/java/org/renaissance/jdk/streams/JavaScrabble.java:180 | `last3` has `min(4, length)` characters, the word's own last ones |
| Scoring.ToBeMaxed | benchmarks/jdk-streams/src/main/java/org/renaissance/jdk/streams/JavaScrabble.java:183-185 | `toBeMaxed` has `min(3, length) + min(4, length)` characters |
| Scoring.ToBeMaxedLayout | benchmarks/jdk-streams/src/main/java/org/renaissance/jdk/streams/JavaScrabble.java:179-185 | `toBeMaxed` is the `first3` characters followed by the characters from `max(0, length - 4)` on |
| Scoring.WindowsCover | benchmarks/jdk-streams/src/main/java/org/renaissance/jdk/streams/JavaScrabble.java:179-185 | every character at a position `i < 3` or `i >= max(0, length - 4)` is in `toBeMaxed`, and every character of `toBeMaxed` comes from such a position |
| Scoring.MaxLetterScore | benchmarks/jdk-streams/src/main/java/org/renaissance/jdk/streams/JavaScrabble.java:188-192 | the maximum is at least the score of every character and equal to the score of one of them |
| Scoring.Bonus | benchmarks/jdk-streams/src/main/java/org/renaissance/jdk/streams/JavaScrabble.java:179-192 | the bonus is the largest letter score over the window positions; it is 0 for the empty word, and for a non-empty word it lies between the first letter's score and 10 |
| Scoring.Score3 | benchmarks/jdk-streams/src/main/java/org/renaissance/jdk/streams/JavaScrabble.java:195-198 | the final score is at least 0 and at most 432, and at least 50 for a 7-letter word |
| Scoring.Score3Parity | benchmarks/jdk-streams/src/main/java/org/renaissance/jdk/streams/JavaScrabble.java:195-198 | the final score is even, except that a 7-letter word's score minus 50 is even |
| Scoring.AnagramBonus | benchmarks/jdk-streams/src/main/java/org/renaissance/jdk/streams/JavaScrabble.java:179-192 | anagrams of at most 7 letters get the same bonus |
| Scoring.AnagramScore3 | benchmarks/jdk-streams/src/main/java/org/renaissance/jdk/streams/JavaScrabble.java:179-198 | anagrams of at most 7 letters get the same final score |
| Scoring.LongAnagramsMayScoreDifferently | benchmarks/jdk-streams/src/main/java/org/renaissance/jdk/streams/JavaScrabble.java:179-198 | the 8-letter anagrams "QAAAAAAA" and "AAAQAAAA" get final scores 18 apart |
| Words.UpperChar | benchmarks/jdk-streams/src/main/java/org/renaissance/jdk/streams/JavaScrabble.java:233 | only a..z change, each to its upper-case letter |
| Words.UpperCase | benchmarks/jdk-streams/src/main/java/org/renaissance/jdk/streams/JavaScrabble.java:233 | upper-casing keeps the length and maps each character on its own |
| Words.UpperCaseIdempotent | benchmarks/jdk-streams/src/main/java/org/renaissance/jdk/streams/JavaScrabble.java:233 | upper-casing twice is the same as once |
| Words.FindsNonLetter | benchmarks/jdk-streams/src/main/java/org/renaissance/jdk/streams/JavaScrabble.java:218-221 | the pattern finds a match iff some character lies outside A..Z |
| Words.IsAlphabetical | benchmarks/jdk-streams/src/main/java/org/renaissance/jdk/streams/JavaScrabble.java:220-222 | `isAlphabetical` holds iff every character lies in A..Z, so it holds for the empty word |
| Words.UpperCaseAlphabetical | benchmarks/jdk-streams/src/main/java/org/renaissance/jdk/streams/JavaScrabble.java:232-234 | a raw word passes the alphabet filter iff it consists of ASCII letters of either case |
| Grouping.Qualifies | benchmarks/jdk-streams/src/main/java/org/renaissance/jdk/streams/JavaScrabble.java:202-203 | a word that passes the filters is an A..Z word in the dictionary that needs at most 2 blanks |
| Grouping.FinalScore | benchmarks/jdk-streams/src/main/java/org/renaissance/jdk/streams/JavaScrabble.java:195-198 | on A..Z words it is `score3`, and it lies between 0 and 432 |
| Grouping.AddWordEffect | benchmarks/jdk-streams/src/main/java/org/renaissance/jdk/streams/JavaScrabble.java:204-208 | the collector step for key k creates k if absent, appends the word at the end of k's list, and leaves every other key as it was |
| Grouping.Qualifying | benchmarks/jdk-streams/src/main/java/org/renaissance/jdk/streams/JavaScrabble.java:200-203 | every word in the stream is alphabetical, in the dictionary and playable, so every word consists of A..Z letters only |
| Grouping.QualifyingMembership | benchmarks/jdk-streams/src/main/java/org/renaissance/jdk/streams/JavaScrabble.java:231-235 | a word is in the stream iff it is an upper-cased input word that passes all three filters |
| Grouping.QualifyingConcat | benchmarks/jdk-streams/src/main/java/org/renaissance/jdk/streams/JavaScrabble.java:224-235 | the stream of two concatenated inputs is the concatenation of their streams |
| Grouping.BucketMembership | benchmarks/jdk-streams/src/main/java/org/renaissance/jdk/streams/JavaScrabble.java:204-209 | a word is in the bucket of score k iff it is in the stream and its score is k |
| Grouping.BucketMultiplicity | benchmarks/jdk-streams/src/main/java/org/renaissance/jdk/streams/JavaScrabble.java:204-209 | a word appears in its bucket as many times as it appears in the stream, so duplicates are kept |
| Grouping.ScoresOfMembership | benchmarks/jdk-streams/src/main/java/org/renaissance/jdk/streams/JavaScrabble.java:204-209 | the keys of the grouping are exactly the scores of the words in the stream |
| Grouping.BucketOutsideScores | benchmarks/jdk-streams/src/main/java/org/renaissance/jdk/streams/JavaScrabble.java:204-209 | a score that no word reaches has no words |
| Grouping.GroupSpecPartition | benchmarks/jdk-streams/src/main/java/org/renaissance/jdk/streams/JavaScrabble.java:204-209 | every bucket is non-empty, holds only stream words with that score, and every stream word is in the bucket of its own score |
| Grouping.GroupSpecStep | benchmarks/jdk-streams/src/main/java/org/renaissance/jdk/streams/JavaScrabble.java:204-209 | one more stream word is appended at the end of its score's bucket, and the bucket is created if absent |
| Grouping.BucketConcat | benchmarks/jdk-streams/src/main/java/org/renaissance/jdk/streams/JavaScrabble.java:225-229 | grouping two halves and appending their buckets per score gives the grouping of the whole |
| Grouping.FinalScoreBucket | benchmarks/jdk-streams/src/main/java/org/renaissance/jdk/streams/JavaScrabble.java:195-209 | every word in a bucket of the final-score grouping is an A..Z word whose `score3` is the bucket's key |
| Grouping.ViewKeys | benchmarks/jdk-streams/src/main/java/org/renaissance/jdk/streams/JavaScrabble.java:207 | a key is in the map iff some entry carries it |
| Grouping.ViewAt | benchmarks/jdk-streams/src/main/java/org/renaissance/jdk/streams/JavaScrabble.java:207 | in a descending entry sequence each entry is what the map holds for its score |
| Grouping.ViewSize | benchmarks/jdk-streams/src/main/java/org/renaissance/jdk/streams/JavaScrabble.java:207 | a descending entry sequence has as many keys as entries |
| Grouping.AppendAt | benchmarks/jdk-streams/src/main/java/org/renaissance/jdk/streams/JavaScrabble.java:204-209 | appending to the entry found for an existing key keeps the keys descending and is the collector step for that key |
| Grouping.InsertNewAt | benchmarks/jdk-streams/src/main/java/org/renaissance/jdk/streams/JavaScrabble.java:204-209 | a new one-word entry at the place of an absent key keeps the keys descending and is the collector step for that key |
| Grouping.Insert | benchmarks/jdk-streams/src/main/java/org/renaissance/jdk/streams/JavaScrabble.java:204-209 | one collector step keeps the keys strictly descending and appends the word to its score's list, creating the list if absent |
| Grouping.BuildHistoOnScore | benchmarks/jdk-streams/src/main/java/org/renaissance/jdk/streams/JavaScrabble.java:200-210 | for any score function the result has strictly descending keys and is exactly the grouping of the stream by that score, in input order |
| Grouping.TakeLargest | benchmarks/jdk-streams/src/main/java/org/renaissance/jdk/streams/JavaScrabble.java:213-215 | the first n entries of a descending table hold its n largest keys, with their lists |
| Grouping.TopEntries | benchmarks/jdk-streams/src/main/java/org/renaissance/jdk/streams/JavaScrabble.java:213-215 | the first three entries of a grouping hold its three largest scores, each with its whole bucket, and every other score is below them |
| Grouping.BucketsScoreAsKeyed | benchmarks/jdk-streams/src/main/java/org/renaissance/jdk/streams/JavaScrabble.java:195-215 | entries holding final-score buckets hold only A..Z words whose `score3` is the entry's key |
| Grouping.EntriesNonEmpty | benchmarks/jdk-streams/src/main/java/org/renaissance/jdk/streams/JavaScrabble.java:213-215 | entries holding the buckets of reached final scores have at least one word and a score of at least 0 |
| Grouping.Run | benchmarks/jdk-streams/src/main/java/org/renaissance/jdk/streams/JavaScrabble.java:200-215 | the result has `min(3, number of distinct scores)` entries with descending scores. Each entry holds its score's bucket, which is non-empty, its score is at least 0, and its words have that `score3`. Every other score is below the last one returned |
| Presentation.LexTransitive | benchmarks/jdk-streams/src/main/java/org/renaissance/jdk/streams/JavaScrabble.java:248-250 | the string order of `compareTo` is transitive |
| Presentation.LexTotal | benchmarks/jdk-streams/src/main/java/org/renaissance/jdk/streams/JavaScrabble.java:248-250 | any two different strings are ordered one way or the other |
| Presentation.LexLessIsCompareTo | benchmarks/jdk-streams/src/main/java/org/renaissance/jdk/streams/JavaScrabble.java:249 | the recursive order is `compareTo < 0`: first difference smaller, or a proper prefix |
| Presentation.InsertSorted | benchmarks/jdk-streams/src/main/java/org/renaissance/jdk/streams/JavaScrabble.java:249 | adding to the tree set keeps the list strictly ascending and adds exactly that word to its elements |
| Presentation.SortedUniqueWords | benchmarks/jdk-streams/src/main/java/org/renaissance/jdk/streams/JavaScrabble.java:248-250 | the result is strictly ascending and has the same elements as the input |
| Presentation.StrictlySortedUnique | benchmarks/jdk-streams/src/main/java/org/renaissance/jdk/streams/JavaScrabble.java:248-250 | two strictly ascending lists with the same elements are equal |
| Presentation.SortedUniqueWordsCanonical | benchmarks/jdk-streams/src/main/java/org/renaissance/jdk/streams/JavaScrabble.java:248-250 | lists with the same elements, in any order and with any repetitions, give the same sorted list |
| Presentation.Join | benchmarks/jdk-streams/src/main/java/org/renaissance/jdk/streams/JavaScrabble.java:242 | a join starts with its first word |
| Presentation.JoinDashCount | benchmarks/jdk-streams/src/main/java/org/renaissance/jdk/streams/JavaScrabble.java:242 | joining n dash-free words puts exactly n - 1 dashes in the line |
| Presentation.SplitJoin | benchmarks/jdk-streams/src/main/java/org/renaissance/jdk/streams/JavaScrabble.java:242 | splitting a `-`-join of dash-free words at its dashes gives the words back |
| Presentation.Digits | benchmarks/jdk-streams/src/main/java/org/renaissance/jdk/streams/JavaScrabble.java:243 | the rendering of a natural number is a non-empty string of digits without leading zeros |
| Presentation.DigitsRoundTrip | benchmarks/jdk-streams/src/main/java/org/renaissance/jdk/streams/JavaScrabble.java:243 | reading the digits back gives the number |
| Presentation.Decimal | benchmarks/jdk-streams/src/main/java/org/renaissance/jdk/streams/JavaScrabble.java:243 | `%d` is non-empty, starts with `-` iff the number is negative, and is digits otherwise |
| Presentation.DecimalRoundTrip | benchmarks/jdk-streams/src/main/java/org/renaissance/jdk/streams/JavaScrabble.java:243 | reading the digits of `%d` back gives the number's magnitude |
| Presentation.FormatLineShape | benchmarks/jdk-streams/src/main/java/org/renaissance/jdk/streams/JavaScrabble.java:241-243 | a line is the score, `--`, and a strictly ascending, duplicate-free arrangement of exactly the entry's words, joined by `-` |
| Presentation.FormatLineRoundTrip | benchmarks/jdk-streams/src/main/java/org/renaissance/jdk/streams/JavaScrabble.java:241-243 | a line with a non-negative score reads back to the score and the sorted distinct words |
| Presentation.ParseFields | benchmarks/jdk-streams/src/main/java/org/renaissance/jdk/streams/JavaScrabble.java:241-243 | a line made of digits, `--` and joined dash-free words reads back to that number and those words |
| Presentation.BucketLineRoundTrip | benchmarks/jdk-streams/src/main/java/org/renaissance/jdk/streams/JavaScrabble.java:238-250 | the line of every bucket of the final-score grouping reads back to its score and its distinct words |
| Presentation.MergeOrderInvisible | benchmarks/jdk-streams/src/main/java/org/renaissance/jdk/streams/JavaScrabble.java:225-229 | for any score function, two half-groupings merged in either order print the same line for a score as the sequential run |
| Presentation.PrepareForValidation | benchmarks/jdk-streams/src/main/java/org/renaissance/jdk/streams/JavaScrabble.java:238-246 | one line per entry, in the same order, each formatted from its entry |

## Left out

- Reading the word lists (the constructor, `resourceAsWords`, `getResourceReader`) is file I/O. The candidate words and the dictionary are parameters of `Run` instead.
- `generateSyntheticWords` depends on `java.util.Random`, which is not part of this model. It only generates input, so it is left out.
- Grouping.FinalScore: gives 0 for a string with a character outside A..Z, where `score3` would index outside the tables and throw. The stream never carries such a string (`Qualifying`), so the value is never used.
- The static fields `allWords`, `scrabbleWords` and `runInParallel` are passed as parameters.
- The parallel branch of `shakespeareWordStream` is not modelled, because parallel execution itself is out of scope. The model states only what the final merge relies on: `BucketConcat`, `QualifyingConcat` and `MergeOrderInvisible`.
- Words.UpperCase: upper-cases ASCII a..z only. It leaves out the locale- and Unicode-dependent mappings of `String.toUpperCase`, such as "ß" to "SS" or dotless "ı" to "I", because they need the Unicode tables.
- Presentation.Decimal: renders `%d` with ASCII digits. Locale-specific digits are left out.
- Presentation.LexLess: compares Dafny characters, which are Unicode scalar values. `compareTo` compares UTF-16 code units. The two orders agree on all the words that reach the output, which are A..Z only.
- The per-entry sums over the histogram's `HashMap` are taken over the letters in alphabetical order. The order does not change a sum.
- The live `Map.Entry` objects that `run()` returns are modelled as values. Their aliasing with the `TreeMap` is not modelled.
- The `TreeMap`'s red-black tree is left out. `Insert` searches its entries in key order with a linear walk.
