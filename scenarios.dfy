// The three scenarios of src/Main.java, stated about the reference
// occurrence list that the search is proved to return.

module Scenarios {
  import opened Matches

  /** unit repeated count times, as Java's String.repeat. */
  function Repeat<T>(unit: seq<T>, count: nat): (r: seq<T>)
    ensures |r| == |unit| * count
  {
    if count == 0 then [] else Repeat(unit, count - 1) + unit
  }

  /** The long demonstration text: unit repeated max(0, 2000) = 2000 times. */
  function LongText<T>(unit: seq<T>): (r: seq<T>)
    ensures |r| == 2000 * |unit|
  {
    Repeat(unit, 2000)
  }

  /** Symbol x of a repetition of a five-symbol unit is symbol x mod 5 of the unit. */
  lemma {:induction false} RepeatFiveAt<T>(unit: seq<T>, count: nat)
    requires |unit| == 5
    ensures forall x :: 0 <= x < 5 * count ==> Repeat(unit, count)[x] == unit[x % 5]
  {
    if count > 0 {
      RepeatFiveAt(unit, count - 1);
    }
  }

  /** Short scenario: "ab" occurs in "abababab" at 0, 2, 4 and 6. */
  lemma ShortScenario()
    ensures Occurrences("abababab", "ab") == [0, 2, 4, 6]
  {
    var t, p := "abababab", "ab";
    forall o
      ensures OccursAt(t, p, o) <==> o in [0, 2, 4, 6]
    {
      if 0 <= o <= |t| - |p| {
        assert t[o..o + |p|] == [t[o], t[o + 1]];
      }
    }
    StrictlyIncreasingUnique(Occurrences(t, p), [0, 2, 4, 6]);
  }

  /** Medium scenario: "abcaby" occurs in "abxabcabcaby" only at 6, after a failed partial match at 3. */
  lemma MediumScenario()
    ensures Occurrences("abxabcabcaby", "abcaby") == [6]
  {
    var t, p := "abxabcabcaby", "abcaby";
    forall o
      ensures OccursAt(t, p, o) <==> o in [6]
    {
      if 0 <= o <= |t| - |p| {
        assert t[o..o + |p|] == [t[o], t[o + 1], t[o + 2], t[o + 3], t[o + 4], t[o + 5]];
      }
    }
    StrictlyIncreasingUnique(Occurrences(t, p), [6]);
  }

  /** Overlapping occurrences are all reported: "aa" occurs in "aaaa" at 0, 1 and 2. */
  lemma OverlapScenario()
    ensures Occurrences("aaaa", "aa") == [0, 1, 2]
  {
    var t, p := "aaaa", "aa";
    forall o
      ensures OccursAt(t, p, o) <==> o in [0, 1, 2]
    {
      if 0 <= o <= |t| - |p| {
        assert t[o..o + |p|] == [t[o], t[o + 1]];
      }
    }
    StrictlyIncreasingUnique(Occurrences(t, p), [0, 1, 2]);
  }

  /**
   * "cdeab" occurs in "abcde" repeated count times at offsets 5k + 2 for
   * every k < count - 1: wherever a "c" starts a complete rotation.
   */
  lemma RepeatedScenario(count: nat)
    requires count >= 1
    ensures Occurrences(Repeat("abcde", count), "cdeab") == seq(count - 1, k => 5 * k + 2)
  {
    var t, p := Repeat("abcde", count), "cdeab";
    var r := seq(count - 1, k => 5 * k + 2);
    forall o
      ensures OccursAt(t, p, o) <==> o in r
    {
      OccursInRepeat(count, o);
      if 0 <= o && o + 5 <= |t| && o % 5 == 2 {
        assert r[o / 5] == o;
      }
    }
    StrictlyIncreasingUnique(Occurrences(t, p), r);
  }

  /** "cdeab" occurs in a repetition of "abcde" exactly at the in-range offsets 2 mod 5. */
  lemma OccursInRepeat(count: nat, o: int)
    ensures OccursAt(Repeat("abcde", count), "cdeab", o) <==> 0 <= o && o + 5 <= 5 * count && o % 5 == 2
  {
    var t := Repeat("abcde", count);
    RepeatFiveAt("abcde", count);
    if 0 <= o && o + 5 <= |t| {
      assert t[o..o + 5] == [t[o], t[o + 1], t[o + 2], t[o + 3], t[o + 4]];
    }
  }

  /** Long scenario: 1999 occurrences in the 10000-symbol text, the first at 2 and the last at 9992. */
  lemma LongScenario()
    ensures var occ := Occurrences(LongText("abcde"), "cdeab");
      |LongText("abcde")| == 10000 && |occ| == 1999 && occ[0] == 2 && occ[1998] == 9992
  {
    RepeatedScenario(2000);
  }
}
