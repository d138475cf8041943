# Knuth-Morris-Pratt string search, modelled and proved in Dafny

This project models the Knuth-Morris-Pratt (KMP) search of `src/KMP.java`:

- `buildLPS`: builds the failure function of a pattern, also called the
  longest-proper-prefix-suffix table.
- `search`: the linear scan that uses that table to report every offset at
  which the pattern occurs in a text. By convention, the empty pattern occurs
  at every offset `0..n`.

The symbols are of any type with equality; the original compares Java `char`s.

The files are:

- `borders.dfy` (module `Borders`): borders of a sequence. A border is a
  proper prefix that is also a suffix. The file defines the longest proper
  border by search from the longest candidate down, and proves the border
  facts the algorithm relies on:
  - a border of a border is a border;
  - the shorter of two borders is a border of the longer;
  - a border of `s + [x]` is a border of `s` extended by `x`;
  - the two steps of the failure-function recurrence.
- `matches.dfy` (module `Matches`): the reference the search is proved
  against.
  - `OccursAt` holds when the pattern occurs at an offset.
  - `Occurrences` is the naive scan over offsets `0..|text|`, which lists
    exactly the offsets where the pattern occurs, in strictly increasing
    order.
  - A strictly increasing list is determined by its elements.
- `kmp.dfy` (module `Kmp`): the two Java methods, in the source's imperative
  form.
  - `BuildLps` fills a fresh `array<int>` with the same three branches as
    the Java loop.
  - `Search` runs the same `while` loop over `i` and `j` and accumulates the
    occurrences in a sequence, which stands for the Java `ArrayList`.
  - Each loop keeps a state predicate: `Filling` for `BuildLps` and
    `Scanning` for `Search`.
  - Each branch of each loop has a step lemma showing that the branch
    preserves that predicate.
- `scenarios.dfy` (module `Scenarios`): the three demonstration runs of
  `src/Main.java` and an overlapping case, proved about `Occurrences`.
  `Search` is proved to return `Occurrences`, so these are also statements
  about `Search`. In the long run the occurrences are at `5k + 2`, because
  "c" sits at index 2 of "abcde".

What is proved about `Search`, for every text and pattern:

- its result equals the reference list `Occurrences(text, pat)`;
- soundness: the pattern occurs at every reported offset;
- completeness: every occurrence is reported;
- the result is strictly increasing;
- for the empty pattern, the result is exactly `[0, 1, ..., |text|]`;
- when the pattern is longer than the text, the result is empty.

What is proved about `BuildLps`: `lps[k]` is the length of the longest proper
border of `pat[..k + 1]`, so `lps[0] == 0` and `0 <= lps[k] <= k`.

## Model

In the table, #s is the length of s.

| member | source | states |
|---|---|---|
| `Kmp.BuildLps` | src/KMP.java:8-30 | for a non-empty pattern, returns a fresh array as long as the pattern whose entry k is the length of the longest proper border of pat[..k+1]; hence lps[0] == 0 and 0 <= lps[k] <= k |
| `Kmp.FillStart` | src/KMP.java:9-13 | with lps[0] == 0, the construction state holds at i == 1 with candidate length 0 |
| `Kmp.FillExtend` | src/KMP.java:15-18 | when pat[i] == pat[len], storing len + 1 at i is the longest proper border of pat[..i+1], and len + 1 is the next candidate with no longer one skipped |
| `Kmp.FillFallback` | src/KMP.java:20-22 | when pat[i] != pat[len] and len != 0, the fallback lps[len-1] is strictly shorter than len, is again a border of pat[..i], and skips no border that could extend by pat[i] |
| `Kmp.FillRestart` | src/KMP.java:23-26 | when pat[i] != pat[0] and len == 0, pat[..i+1] has no non-empty proper border, so storing 0 keeps the construction state |
| `Kmp.Search` | src/KMP.java:34-65 | the result equals the reference occurrence list; it is sound, complete and strictly increasing; for the empty pattern it is 0, 1, ..., #text (#text + 1 entries); it is empty when the pattern is longer than the text |
| `Kmp.ScanStart` | src/KMP.java:45-46 | i == j == 0 with nothing found is a valid scan state |
| `Kmp.ScanExtend` | src/KMP.java:48-50 | a matching symbol that does not complete the pattern extends the partial match by one, and the recorded occurrences stay valid |
| `Kmp.ScanComplete` | src/KMP.java:48-55 | a matching symbol that completes the pattern records offset i - j; the scan resumes with the longest proper border of the whole pattern as the partial match, so that overlapping occurrences are found |
| `Kmp.MatchCompleted` | src/KMP.java:48-51 | the partial match pat[..j] followed by text[i] == pat[j] with j + 1 == #pat is a full occurrence ending at i + 1 |
| `Kmp.ScanAfterMatch` | src/KMP.java:51-55 | after a full occurrence ending at e, resuming at the longest proper border of the pattern is a valid scan state with that occurrence appended |
| `Kmp.MatchRecorded` | src/KMP.java:51-54 | after a full occurrence ending at i, the occurrences before the resume offset are the earlier ones followed by i - #pat |
| `Kmp.ScanFallback` | src/KMP.java:56-58 | a mismatch with j != 0 falls back to lps[j-1], keeps a valid partial match and skips no occurrence |
| `Kmp.MismatchRecorded` | src/KMP.java:56-58 | after a mismatch at text[i], no occurrence starts between i - j and the fallback offset |
| `Kmp.ScanAdvance` | src/KMP.java:59-61 | a mismatch with j == 0 means no occurrence starts at i, and the scan moves to i + 1 |
| `Kmp.ScanDone` | src/KMP.java:47-64 | when i reaches #text, the offsets still open are too close to the end to hold an occurrence, so the recorded list is the whole reference list |
| `Kmp.ShiftKeepsMatch` | src/KMP.java:54 | falling back from a partial match of length j to the longest proper border b of pat[..j] leaves text[i-b..i] == pat[..b] |
| `Kmp.OccurrenceInsideMatch` | src/KMP.java:54 | an occurrence that starts inside a partial match of length j ending at i is a border of pat[..j] of length i - o |
| `Kmp.ShiftSkipsNoOccurrence` | src/KMP.java:54 | no occurrence starts strictly between i - j and i - b, where b is the longest proper border of pat[..j] |
| `Kmp.MatchSkipsNoOccurrence` | src/KMP.java:51-54 | a full match ending at i is an occurrence at i - #pat, and the shift after it skips no occurrence |
| `Kmp.MismatchSkipsNoOccurrence` | src/KMP.java:56-58 | after a mismatch at text[i], no occurrence starts in [i - j, i - b) |
| `Borders.LongestBorderUpTo` | src/KMP.java:7 | the result is a border no longer than k, and no border of length in (result, k] exists |
| `Borders.LongestProperBorder` | src/KMP.java:7 | the result is a proper border of s, and every proper border of s is at most that long |
| `Borders.BorderOfBorder` | src/KMP.java:20-22 | a border of the border pat[..len] is a border of the whole, which makes falling back to lps[len-1] sound |
| `Borders.ShorterBorderOfLonger` | src/KMP.java:20-22 | of two borders, the shorter is a border of the longer, so the fallback chain passes through every border |
| `Borders.BorderExtension` | src/KMP.java:15-18 | b >= 1 is a border of s + [x] exactly when b - 1 is a border of s and s[b-1] == x (both directions) |
| `Borders.LongestBorderOfExtension` | src/KMP.java:15-26 | if len is a border of s and no longer border extends by x, the longest proper border of s + [x] is len + 1 when s[len] == x, and 0 when len == 0 and s[0] != x |
| `Borders.FallbackKeepsCandidates` | src/KMP.java:20-22 | when border len does not extend by x, the longest proper border of s[..len] is a border of s, and no border between it and len extends by x |
| `Matches.OccurrencesBelowSpec` | src/KMP.java:32-33 | the naive scan below e lists offset o exactly when o < e and the pattern occurs at o (both directions), in strictly increasing order |
| `Matches.Occurrences` | src/KMP.java:32-33 | offset o is in the list exactly when the pattern occurs at o (both directions), and the list is strictly increasing |
| `Matches.OccurrencesBelowUnchanged` | src/KMP.java:56-61 | raising the scan bound over offsets with no occurrence leaves the list unchanged |
| `Matches.RecordOccurrence` | src/KMP.java:52 | raising the scan bound past one occurrence, then over offsets with none, appends exactly that occurrence |
| `Matches.EmptyPatternBelow` | src/KMP.java:38-41 | below e <= #text + 1, the empty pattern's list is 0, 1, ..., e - 1 |
| `Matches.EmptyPatternOccursEverywhere` | src/KMP.java:38-41 | the empty pattern occurs at exactly the #text + 1 offsets 0, 1, ..., #text |
| `Matches.StrictlyIncreasingUnique` | src/KMP.java:32-33 | two strictly increasing lists with the same elements are equal, so the ordered occurrence list is unique |
| `Scenarios.LongText` | src/KMP.java:89-91 | the long text is the unit repeated max(0, 2000) = 2000 times, so it is 2000 times as long as the unit |
| `Scenarios.Repeat` | src/KMP.java:89-91 | repeating a unit count times gives length #unit * count |
| `Scenarios.ShortScenario` | src/Main.java:6-9 | "ab" occurs in "abababab" at exactly 0, 2, 4 and 6 |
| `Scenarios.MediumScenario` | src/Main.java:11-14 | "abcaby" occurs in "abxabcabcaby" only at 6 |
| `Scenarios.OverlapScenario` | src/KMP.java:51-54 | overlapping occurrences are all reported: "aa" occurs in "aaaa" at 0, 1 and 2 |
| `Scenarios.OccursInRepeat` | src/Main.java:16-20 | "cdeab" occurs in "abcde" repeated count times exactly at the in-range offsets congruent to 2 modulo 5 |
| `Scenarios.RepeatedScenario` | src/Main.java:16-20 | in "abcde" repeated count >= 1 times, the occurrences of "cdeab" are exactly 5k + 2 for k < count - 1 |
| `Scenarios.LongScenario` | src/Main.java:16-20 | the 10000-symbol long text holds 1999 occurrences of "cdeab", the first at 2 and the last at 9992 |

## Left out

- `runTest` (src/KMP.java:68-86) is not modelled. It only prints results and
  measures elapsed time with `System.nanoTime` as a `double`, which is
  console I/O and a clock.
- `Main.main` (src/Main.java:5-21) is not modelled as a program. It is a
  console driver, and its three runs become the lemmas of `Scenarios`.
- `Kmp.BuildLps`: an empty pattern is excluded by its precondition. The Java
  method throws `ArrayIndexOutOfBoundsException` at `lps[0] = 0` when
  `m == 0`. `search` never calls it then, because it returns early for the
  empty pattern.
- `Kmp.Search`: indices and lengths are unbounded integers. Java's 32-bit
  `int` is not modelled. The only place where it could matter is the
  empty-pattern loop `i <= n`, which would never end if `n` were
  `Integer.MAX_VALUE`. That case is not captured.
- The linear running time of both loops is not stated. Only their termination
  measures `2 * (m - i) + len` and `2 * (n - i) + j` are proved.
- The result list is a sequence of integers, not a `List<Integer>` of boxed
  values. Nothing aliases it, so nothing is lost.
- Symbols are a generic type with equality, not UTF-16 `char`s. The code only
  compares them for equality.

