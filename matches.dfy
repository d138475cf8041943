// Occurrences of a pattern in a text, defined by brute force: the reference
// that the Knuth-Morris-Pratt search is proved against.

module Matches {

  /** pat occurs in text at offset o: text[o..o + |pat|] == pat. */
  predicate OccursAt<T(==)>(text: seq<T>, pat: seq<T>, o: int)
  {
    0 <= o && o + |pat| <= |text| && text[o..o + |pat|] == pat
  }

  predicate StrictlyIncreasing(r: seq<int>)
  {
    forall p, q :: 0 <= p < q < |r| ==> r[p] < r[q]
  }

  /** Every offset below e at which pat occurs in text, in increasing order (a naive scan). */
  function OccurrencesBelow<T(==)>(text: seq<T>, pat: seq<T>, e: nat): (r: seq<int>)
  {
    if e == 0 then []
    else
      var r0 := OccurrencesBelow(text, pat, e - 1);
      if OccursAt(text, pat, e - 1) then r0 + [e - 1] else r0
  }

  /** The naive scan below e lists exactly the offsets below e where pat occurs, in increasing order. */
  lemma {:induction false} OccurrencesBelowSpec<T>(text: seq<T>, pat: seq<T>, e: nat)
    ensures forall o :: o in OccurrencesBelow(text, pat, e) <==> o < e && OccursAt(text, pat, o)
    ensures StrictlyIncreasing(OccurrencesBelow(text, pat, e))
  {
    if e > 0 {
      var r0 := OccurrencesBelow(text, pat, e - 1);
      OccurrencesBelowSpec(text, pat, e - 1);
      assert forall k :: 0 <= k < |r0| ==> r0[k] in r0;
    }
  }

  /**
   * Every offset at which pat occurs in text, in increasing order. The empty
   * pattern occurs at every offset 0, 1, ..., |text|.
   */
  function Occurrences<T(==)>(text: seq<T>, pat: seq<T>): (r: seq<int>)
    ensures forall o :: o in r <==> OccursAt(text, pat, o)
    ensures StrictlyIncreasing(r)
  {
    OccurrencesBelowSpec(text, pat, |text| + 1);
    OccurrencesBelow(text, pat, |text| + 1)
  }

  /** Raising the bound of the naive scan over offsets where pat does not occur changes nothing. */
  lemma {:induction false} OccurrencesBelowUnchanged<T>(text: seq<T>, pat: seq<T>, e: nat, f: nat)
    requires e <= f
    requires forall o :: e <= o < f ==> !OccursAt(text, pat, o)
    ensures OccurrencesBelow(text, pat, f) == OccurrencesBelow(text, pat, e)
  {
    if e < f {
      OccurrencesBelowUnchanged(text, pat, e, f - 1);
    }
  }

  /**
   * Raising the bound of the naive scan past one occurrence at o, and over
   * offsets after it where pat does not occur, appends o.
   */
  lemma RecordOccurrence<T>(text: seq<T>, pat: seq<T>, o: nat, e: nat, occ: seq<int>)
    requires occ == OccurrencesBelow(text, pat, o)
    requires o < e && OccursAt(text, pat, o)
    requires forall o' :: o < o' < e ==> !OccursAt(text, pat, o')
    ensures OccurrencesBelow(text, pat, e) == occ + [o]
  {
    OccurrencesBelowUnchanged(text, pat, o + 1, e);
  }

  /** The naive scan for the empty pattern below e <= |text| + 1 yields 0, 1, ..., e - 1. */
  lemma {:induction false} EmptyPatternBelow<T>(text: seq<T>, e: nat)
    requires e <= |text| + 1
    ensures var r := OccurrencesBelow(text, [], e);
      |r| == e && forall k :: 0 <= k < e ==> r[k] == k
  {
    if e > 0 {
      EmptyPatternBelow(text, e - 1);
      assert OccursAt(text, [], e - 1);
    }
  }

  /** The empty pattern occurs at exactly the |text| + 1 offsets 0, 1, ..., |text|. */
  lemma EmptyPatternOccursEverywhere<T>(text: seq<T>)
    ensures var r := Occurrences(text, []);
      |r| == |text| + 1 && forall k :: 0 <= k < |r| ==> r[k] == k
  {
    EmptyPatternBelow(text, |text| + 1);
  }

  /** Dropping the last element of a strictly increasing sequence leaves exactly the smaller elements. */
  lemma DropLast(a: seq<int>)
    requires StrictlyIncreasing(a) && a != []
    ensures StrictlyIncreasing(a[..|a| - 1])
    ensures a == a[..|a| - 1] + [a[|a| - 1]]
    ensures forall z :: z in a ==> z <= a[|a| - 1]
    ensures forall z :: z in a[..|a| - 1] <==> z in a && z < a[|a| - 1]
  {
    var x := a[|a| - 1];
    forall z | z in a && z < x
      ensures z in a[..|a| - 1]
    {
      var k :| 0 <= k < |a| && a[k] == z;
      assert a[..|a| - 1][k] == z;
    }
  }

  /** A strictly increasing sequence is determined by the set of its elements. */
  lemma {:induction false} StrictlyIncreasingUnique(a: seq<int>, b: seq<int>)
    requires StrictlyIncreasing(a) && StrictlyIncreasing(b)
    requires forall x :: x in a <==> x in b
    ensures a == b
  {
    assert a != [] ==> a[0] in a && a[0] in b;
    assert b != [] ==> b[0] in b && b[0] in a;
    if a != [] && b != [] {
      // The last elements are both the maximum of the common set.
      var x, y := a[|a| - 1], b[|b| - 1];
      var a', b' := a[..|a| - 1], b[..|b| - 1];
      DropLast(a);
      DropLast(b);
      assert x in b && y in a;
      assert x == y;
      forall z
        ensures z in a' <==> z in b'
      {
        assert z in a <==> z in b;
      }
      StrictlyIncreasingUnique(a', b');
    }
  }
}
