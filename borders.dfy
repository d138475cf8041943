// Borders of a sequence and the failure function of Knuth, Morris and Pratt.
//
// A border of s is a proper prefix of s (shorter than s) that is also a
// suffix of s. The failure function of a pattern maps each index i to the
// length of the longest border of pat[..i + 1].

module Borders {

  /** b is the length of a proper border of s: s[..b] is both a prefix and a suffix of s. */
  predicate IsBorder<T(==)>(s: seq<T>, b: int)
  {
    0 <= b < |s| && s[..b] == s[|s| - b..]
  }

  /** The length of the longest proper border of s that is at most k long. */
  function LongestBorderUpTo<T(==)>(s: seq<T>, k: nat): (r: nat)
    requires k < |s|
    ensures r <= k && IsBorder(s, r)
    ensures forall b :: r < b <= k ==> !IsBorder(s, b)
  {
    if k == 0 || IsBorder(s, k) then k else LongestBorderUpTo(s, k - 1)
  }

  /** The length of the longest proper border of a non-empty s. */
  function LongestProperBorder<T(==)>(s: seq<T>): (r: nat)
    requires |s| >= 1
    ensures r < |s| && IsBorder(s, r)
    ensures forall b :: IsBorder(s, b) ==> b <= r
  {
    LongestBorderUpTo(s, |s| - 1)
  }

  /** A border of a border of s is a border of s. */
  lemma BorderOfBorder<T>(s: seq<T>, b: nat, c: nat)
    requires IsBorder(s, b) && IsBorder(s[..b], c)
    ensures IsBorder(s, c)
  {
    calc {
      s[..c];
      s[..b][..c];
      s[..b][b - c..];
      s[|s| - b..][b - c..];
      s[|s| - c..];
    }
  }

  /** Of two borders of s, the shorter is a border of the longer. */
  lemma ShorterBorderOfLonger<T>(s: seq<T>, b: nat, c: nat)
    requires IsBorder(s, b) && IsBorder(s, c) && c < b
    ensures IsBorder(s[..b], c)
  {
    calc {
      s[..b][..c];
      s[..c];
      s[|s| - c..];
      s[|s| - b..][b - c..];
      s[..b][b - c..];
    }
  }

  /** A non-empty border of s + [x] is a border of s extended by x. */
  lemma BorderExtension<T>(s: seq<T>, x: T, b: nat)
    requires 1 <= b <= |s|
    ensures IsBorder(s + [x], b) <==> IsBorder(s, b - 1) && s[b - 1] == x
  {
    var t := s + [x];
    assert t[..b] == s[..b - 1] + [s[b - 1]];
    assert t[|t| - b..] == s[|s| - (b - 1)..] + [x];
    if IsBorder(s, b - 1) && s[b - 1] == x {
      assert t[..b] == t[|t| - b..];
    }
    if IsBorder(t, b) {
      assert t[..b][..b - 1] == t[|t| - b..][..b - 1];
      assert t[..b][b - 1] == t[|t| - b..][b - 1];
    }
  }

  /**
   * The failure-function step. Let len be a border of s such that no longer
   * border c of s is followed by x (s[c] != x). If s[len] == x, the longest
   * proper border of s + [x] is len + 1; if len == 0 and s[0] != x, it is 0.
   */
  lemma LongestBorderOfExtension<T>(s: seq<T>, x: T, len: nat)
    requires IsBorder(s, len)
    requires forall c :: len < c && IsBorder(s, c) ==> s[c] != x
    ensures s[len] == x ==> LongestProperBorder(s + [x]) == len + 1
    ensures len == 0 && s[0] != x ==> LongestProperBorder(s + [x]) == 0
  {
    var r := LongestProperBorder(s + [x]);
    if r >= 1 {
      BorderExtension(s, x, r);
    }
    if s[len] == x {
      BorderExtension(s, x, len + 1);
    }
  }

  /**
   * The failure-function fallback. When the border len of s cannot be
   * extended by x, the next candidate is the longest proper border of
   * s[..len]: it is again a border of s, and no border of s between it and
   * len can be extended by x either.
   */
  lemma FallbackKeepsCandidates<T>(s: seq<T>, x: T, len: nat)
    requires IsBorder(s, len) && 0 < len
    requires forall c :: len < c && IsBorder(s, c) ==> s[c] != x
    requires s[len] != x
    ensures IsBorder(s, LongestProperBorder(s[..len]))
    ensures forall c :: LongestProperBorder(s[..len]) < c && IsBorder(s, c) ==> s[c] != x
  {
    var b := LongestProperBorder(s[..len]);
    BorderOfBorder(s, len, b);
    forall c | b < c < len && IsBorder(s, c)
      ensures IsBorder(s[..len], c)
    {
      ShorterBorderOfLonger(s, len, c);
    }
  }
}
