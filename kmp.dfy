// The Knuth-Morris-Pratt search of src/KMP.java: the failure-function
// construction (buildLPS) and the linear scan that uses it (search).
// Symbols are of any type with equality; the original works on Java chars.

module Kmp {
  import opened Borders
  import opened Matches

  /**
   * While the failure function is filled at index i, the candidate len is
   * such that no longer border of pat[..i] can be extended by pat[i].
   */
  ghost predicate NoLongerCandidate<T>(pat: seq<T>, i: nat, len: nat)
    requires i < |pat|
  {
    forall c :: len < c && IsBorder(pat[..i], c) ==> pat[c] != pat[i]
  }

  /**
   * The state of the failure-function construction: table[k] is the length
   * of the longest proper border of pat[..k + 1] for every k < i, len is a
   * border of pat[..i], and no longer border of pat[..i] extends by pat[i].
   */
  ghost predicate Filling<T>(pat: seq<T>, table: seq<int>, i: int, len: int)
  {
    1 <= i <= |pat| == |table| && 0 <= len < i &&
    IsBorder(pat[..i], len) &&
    (forall k :: 0 <= k < i ==> table[k] == LongestProperBorder(pat[..k + 1])) &&
    (i < |pat| ==> NoLongerCandidate(pat, i, len))
  }

  /** With table[0] == 0 the construction starts at i == 1 with candidate 0. */
  lemma FillStart<T>(pat: seq<T>, table: seq<int>)
    requires 1 <= |pat| == |table| && table[0] == 0
    ensures Filling(pat, table, 1, 0)
  {
    assert LongestProperBorder(pat[..1]) == 0;
  }

  /** The candidate len extends by pat[i]: lps[i] is len + 1, the next candidate. */
  lemma FillExtend<T>(pat: seq<T>, table: seq<int>, i: int, len: int)
    requires Filling(pat, table, i, len) && i < |pat|
    requires pat[i] == pat[len]
    ensures Filling(pat, table[i := len + 1], i + 1, len + 1)
  {
    assert pat[..i + 1] == pat[..i] + [pat[i]];
    LongestBorderOfExtension(pat[..i], pat[i], len);
  }

  /** No candidate is left: lps[i] is 0, and so is the next candidate. */
  lemma FillRestart<T>(pat: seq<T>, table: seq<int>, i: int, len: int)
    requires Filling(pat, table, i, len) && i < |pat|
    requires pat[i] != pat[len] && len == 0
    ensures Filling(pat, table[i := 0], i + 1, 0)
  {
    assert pat[..i + 1] == pat[..i] + [pat[i]];
    LongestBorderOfExtension(pat[..i], pat[i], 0);
  }

  /** The candidate len does not extend by pat[i]: the next one, lps[len - 1], is shorter. */
  lemma FillFallback<T>(pat: seq<T>, table: seq<int>, i: int, len: int)
    requires Filling(pat, table, i, len) && i < |pat|
    requires pat[i] != pat[len] && len != 0
    ensures 0 <= table[len - 1] < len
    ensures Filling(pat, table, i, table[len - 1])
  {
    assert pat[..i][..len] == pat[..len];
    FallbackKeepsCandidates(pat[..i], pat[i], len);
  }

  /**
   * Fills the failure function of a non-empty pattern: lps[k] is the length of
   * the longest proper border of pat[..k + 1]. The pattern must not be empty:
   * the original stores lps[0] into an array of length |pat|.
   */
  method BuildLps<T(==)>(pat: seq<T>) returns (lps: array<int>)
    requires |pat| >= 1
    ensures fresh(lps) && lps.Length == |pat|
    ensures lps[0] == 0
    ensures forall k :: 0 <= k < |pat| ==> 0 <= lps[k] <= k
    ensures forall k :: 0 <= k < |pat| ==> lps[k] == LongestProperBorder(pat[..k + 1])
  {
    var m := |pat|;
    lps := new int[m];
    var len := 0; // the current border candidate of pat[..i]
    lps[0] := 0;
    var i := 1;
    FillStart(pat, lps[..]);
    while i < m
      invariant Filling(pat, lps[..], i, len)
      decreases 2 * (m - i) + len
    {
      if pat[i] == pat[len] {
        ghost var table := lps[..];
        FillExtend(pat, table, i, len);
        len := len + 1;
        lps[i] := len;
        assert lps[..] == table[i := len];
        i := i + 1;
      } else if len != 0 {
        FillFallback(pat, lps[..], i, len);
        len := lps[len - 1];
      } else {
        ghost var table := lps[..];
        FillRestart(pat, table, i, len);
        lps[i] := 0;
        assert lps[..] == table[i := 0];
        i := i + 1;
      }
    }
  }

  /**
   * A partial match of length j ending at text offset i falls back to the
   * longest proper border b of pat[..j]: text[i - b..i] is again a partial match.
   */
  lemma ShiftKeepsMatch<T>(text: seq<T>, pat: seq<T>, i: nat, j: nat)
    requires 1 <= j <= |pat| && j <= i <= |text|
    requires text[i - j..i] == pat[..j]
    ensures text[i - LongestProperBorder(pat[..j])..i] == pat[..LongestProperBorder(pat[..j])]
  {
    var b := LongestProperBorder(pat[..j]);
    calc {
      text[i - b..i];
      text[i - j..i][j - b..];
      pat[..j][j - b..];
      pat[..j][..b];
      pat[..b];
    }
  }

  /**
   * Falling back from a partial match of length j ending at text offset i to
   * the longest proper border b of pat[..j] skips no occurrence: pat occurs at
   * no offset strictly between i - j and i - b.
   */
  lemma ShiftSkipsNoOccurrence<T>(text: seq<T>, pat: seq<T>, i: nat, j: nat)
    requires 1 <= j <= |pat| && j <= i <= |text|
    requires text[i - j..i] == pat[..j]
    ensures forall o :: i - j < o < i - LongestProperBorder(pat[..j]) ==> !OccursAt(text, pat, o)
  {
    forall o | i - j < o < i - LongestProperBorder(pat[..j])
      ensures OccursAt(text, pat, o) ==> IsBorder(pat[..j], i - o)
    {
      OccurrenceInsideMatch(text, pat, i, j, o);
    }
  }

  /** An occurrence that starts inside a partial match of length j ending at i is a border of pat[..j]. */
  lemma OccurrenceInsideMatch<T>(text: seq<T>, pat: seq<T>, i: nat, j: nat, o: int)
    requires 1 <= j <= |pat| && j <= i <= |text|
    requires text[i - j..i] == pat[..j]
    requires i - j < o < i
    ensures OccursAt(text, pat, o) ==> IsBorder(pat[..j], i - o)
  {
    var k := i - o;
    if OccursAt(text, pat, o) {
      calc {
        pat[..j][..k];
        pat[..k];
        text[o..o + |pat|][..k];
        text[o..i];
        text[i - j..i][j - k..];
        pat[..j][j - k..];
      }
    }
  }

  /** A complete match ending at text offset i is an occurrence, and none is skipped up to the fallback offset. */
  lemma MatchSkipsNoOccurrence<T>(text: seq<T>, pat: seq<T>, i: nat)
    requires 1 <= |pat| <= i <= |text|
    requires text[i - |pat|..i] == pat[..|pat|]
    ensures OccursAt(text, pat, i - |pat|)
    ensures forall o :: i - |pat| < o < i - LongestProperBorder(pat[..|pat|]) ==> !OccursAt(text, pat, o)
  {
    assert pat[..|pat|] == pat;
    ShiftSkipsNoOccurrence(text, pat, i, |pat|);
  }

  /** The offsets from i - j up to the fallback offset after a mismatch at text[i] hold no occurrence. */
  lemma MismatchSkipsNoOccurrence<T>(text: seq<T>, pat: seq<T>, i: nat, j: nat)
    requires 1 <= j < |pat| && j <= i < |text|
    requires text[i - j..i] == pat[..j] && text[i] != pat[j]
    ensures forall o :: i - j <= o < i - LongestProperBorder(pat[..j]) ==> !OccursAt(text, pat, o)
  {
    ShiftSkipsNoOccurrence(text, pat, i, j);
    if i - j + |pat| <= |text| {
      assert text[i - j..i - j + |pat|][j] == text[i];
    }
  }

  /**
   * After a complete match ending at text offset i, the occurrences before
   * the fallback offset are those before i - |pat|, followed by i - |pat|.
   */
  lemma MatchRecorded<T>(text: seq<T>, pat: seq<T>, i: nat, occ: seq<int>)
    requires 1 <= |pat| <= i <= |text|
    requires text[i - |pat|..i] == pat[..|pat|]
    requires occ == OccurrencesBelow(text, pat, i - |pat|)
    ensures OccurrencesBelow(text, pat, i - LongestProperBorder(pat[..|pat|])) == occ + [i - |pat|]
  {
    MatchSkipsNoOccurrence(text, pat, i);
    RecordOccurrence(text, pat, i - |pat|, i - LongestProperBorder(pat[..|pat|]), occ);
  }

  /**
   * After a mismatch at text[i] with a partial match of length j, the
   * occurrences before the fallback offset are those before i - j.
   */
  lemma MismatchRecorded<T>(text: seq<T>, pat: seq<T>, i: nat, j: nat)
    requires 1 <= j < |pat| && j <= i < |text|
    requires text[i - j..i] == pat[..j] && text[i] != pat[j]
    ensures OccurrencesBelow(text, pat, i - LongestProperBorder(pat[..j])) == OccurrencesBelow(text, pat, i - j)
  {
    MismatchSkipsNoOccurrence(text, pat, i, j);
    OccurrencesBelowUnchanged(text, pat, i - j, i - LongestProperBorder(pat[..j]));
  }

  /**
   * The state of the scan of text for a non-empty pat: text[i - j..i] is the
   * partial match pat[..j], and occ lists every occurrence that starts before
   * i - j, in increasing order.
   */
  ghost predicate Scanning<T>(text: seq<T>, pat: seq<T>, i: int, j: int, occ: seq<int>)
  {
    0 <= j < |pat| && j <= i <= |text| &&
    text[i - j..i] == pat[..j] &&
    occ == OccurrencesBelow(text, pat, i - j)
  }

  /** The scan starts with no partial match and nothing found. */
  lemma ScanStart<T>(text: seq<T>, pat: seq<T>)
    requires |pat| >= 1
    ensures Scanning(text, pat, 0, 0, [])
  {
    assert text[0..0] == pat[..0];
  }

  /** text[i] == pat[j] extends the partial match without completing it. */
  lemma ScanExtend<T>(text: seq<T>, pat: seq<T>, i: int, j: int, occ: seq<int>)
    requires Scanning(text, pat, i, j, occ) && i < |text|
    requires text[i] == pat[j] && j + 1 < |pat|
    ensures Scanning(text, pat, i + 1, j + 1, occ)
  {
    assert text[i - j..i + 1] == text[i - j..i] + [text[i]];
    assert pat[..j + 1] == pat[..j] + [pat[j]];
  }

  /**
   * text[i] == pat[j] completes an occurrence at offset i - j, which is
   * recorded; the scan goes on from the longest proper border of pat, so that
   * overlapping occurrences are found too.
   */
  lemma ScanComplete<T>(text: seq<T>, pat: seq<T>, i: int, j: int, occ: seq<int>)
    requires Scanning(text, pat, i, j, occ) && i < |text|
    requires text[i] == pat[j] && j + 1 == |pat|
    ensures Scanning(text, pat, i + 1, LongestProperBorder(pat[..|pat|]), occ + [i - j])
  {
    MatchCompleted(text, pat, i, j);
    ScanAfterMatch(text, pat, i + 1, occ);
  }

  /** After a complete match ending at text offset e, the scan goes on from the longest proper border of pat. */
  lemma ScanAfterMatch<T>(text: seq<T>, pat: seq<T>, e: nat, occ: seq<int>)
    requires 1 <= |pat| <= e <= |text|
    requires text[e - |pat|..e] == pat[..|pat|]
    requires occ == OccurrencesBelow(text, pat, e - |pat|)
    ensures Scanning(text, pat, e, LongestProperBorder(pat[..|pat|]), occ + [e - |pat|])
  {
    ShiftKeepsMatch(text, pat, e, |pat|);
    MatchRecorded(text, pat, e, occ);
  }

  /** The last symbol of pat extends the partial match pat[..j] to all of pat. */
  lemma MatchCompleted<T>(text: seq<T>, pat: seq<T>, i: int, j: int)
    requires 0 <= j <= i < |text| && j + 1 == |pat|
    requires text[i - j..i] == pat[..j] && text[i] == pat[j]
    ensures text[i + 1 - |pat|..i + 1] == pat[..|pat|]
  {
    assert text[i - j..i + 1] == text[i - j..i] + [text[i]];
    assert pat[..j + 1] == pat[..j] + [pat[j]];
  }

  /**
   * text[i] != pat[j] with a partial match of length j > 0: the scan retries
   * text[i] against the longest proper border of pat[..j], skipping no occurrence.
   */
  lemma ScanFallback<T>(text: seq<T>, pat: seq<T>, i: int, j: int, occ: seq<int>)
    requires Scanning(text, pat, i, j, occ) && i < |text|
    requires text[i] != pat[j] && j != 0
    ensures Scanning(text, pat, i, LongestProperBorder(pat[..j]), occ)
  {
    ShiftKeepsMatch(text, pat, i, j);
    MismatchRecorded(text, pat, i, j);
  }

  /** text[i] != pat[0] with no partial match: no occurrence starts at i, and the scan moves on. */
  lemma ScanAdvance<T>(text: seq<T>, pat: seq<T>, i: int, j: int, occ: seq<int>)
    requires Scanning(text, pat, i, j, occ) && i < |text|
    requires text[i] != pat[j] && j == 0
    ensures Scanning(text, pat, i + 1, 0, occ)
  {
    if i + |pat| <= |text| {
      assert text[i..i + |pat|][0] == text[i];
    }
    assert !OccursAt(text, pat, i);
    assert text[i + 1..i + 1] == pat[..0];
  }

  /** At the end of the text the partial match is too short to be an occurrence: occ lists them all. */
  lemma ScanDone<T>(text: seq<T>, pat: seq<T>, j: int, occ: seq<int>)
    requires Scanning(text, pat, |text|, j, occ)
    ensures occ == Occurrences(text, pat)
  {
    OccurrencesBelowUnchanged(text, pat, |text| - j, |text| + 1);
  }

  /**
   * Every offset at which pat occurs in text, in increasing order. The empty
   * pattern is reported at every offset 0, 1, ..., |text|.
   */
  method Search<T(==)>(text: seq<T>, pat: seq<T>) returns (occ: seq<int>)
    ensures occ == Occurrences(text, pat)
    ensures forall k :: 0 <= k < |occ| ==> OccursAt(text, pat, occ[k])
    ensures forall o :: OccursAt(text, pat, o) ==> o in occ
    ensures StrictlyIncreasing(occ)
    ensures |pat| == 0 ==> |occ| == |text| + 1 && forall k :: 0 <= k < |occ| ==> occ[k] == k
    ensures |pat| > |text| ==> occ == []
  {
    occ := [];
    var n := |text|;
    var m := |pat|;
    if m == 0 {
      // the empty pattern matches at every position
      for i := 0 to n + 1
        invariant occ == OccurrencesBelow(text, pat, i)
      {
        assert OccursAt(text, pat, i);
        occ := occ + [i];
      }
      EmptyPatternOccursEverywhere(text);
      return;
    }
    var lps := BuildLps(pat);

    var i := 0; // next text position to compare
    var j := 0; // length of the current partial match
    ScanStart(text, pat);
    while i < n
      invariant Scanning(text, pat, i, j, occ)
      invariant forall k :: 0 <= k < m ==> lps[k] == LongestProperBorder(pat[..k + 1])
      decreases 2 * (n - i) + j
    {
      if text[i] == pat[j] {
        if j + 1 == m {
          ScanComplete(text, pat, i, j, occ);
        } else {
          ScanExtend(text, pat, i, j, occ);
        }
        i := i + 1;
        j := j + 1;
        if j == m {
          occ := occ + [i - j];
          // resume from the longest proper border, so overlapping matches are found
          assert lps[m - 1] == LongestProperBorder(pat[..m]);
          j := lps[j - 1];
        }
      } else if j != 0 {
        ScanFallback(text, pat, i, j, occ);
        assert lps[j - 1] == LongestProperBorder(pat[..j]);
        j := lps[j - 1];
      } else {
        ScanAdvance(text, pat, i, j, occ);
        i := i + 1;
      }
    }
    ScanDone(text, pat, j, occ);
    if occ != [] {
      assert occ[0] in occ;
    }
  }
}
