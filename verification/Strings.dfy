/** Searching in sequences. */
module Strings {

  /** `part` occurs somewhere in `s`. */
  predicate Contains<T(==)>(s: seq<T>, part: seq<T>) {
    part <= s || (s != [] && Contains(s[1..], part))
  }

  lemma {:induction false} ContainsMore<T>(before: seq<T>, part: seq<T>, after: seq<T>)
    ensures Contains(before + part + after, part)
  {
    if before == [] {
      assert before + part + after == part + after;
    } else {
      ContainsMore(before[1..], part, after);
      assert (before + part + after)[1..] == before[1..] + part + after;
    }
  }

  predicate OccursAt<T(==)>(s: seq<T>, part: seq<T>, i: nat) {
    i + |part| <= |s| && s[i..i + |part|] == part
  }

  lemma SliceLater<T>(s: seq<T>, i: nat, n: nat)
    requires i + n + 1 <= |s|
    ensures s[1..][i..i + n] == s[i + 1..i + 1 + n]
  {
  }

  /** `part` occurs in `s` if it occurs at some position. */
  lemma {:induction false} ContainsIff<T>(s: seq<T>, part: seq<T>)
    ensures Contains(s, part) <==> exists i: nat :: OccursAt(s, part, i)
  {
    if part <= s {
      assert OccursAt(s, part, 0);
    } else if s != [] {
      ContainsIff(s[1..], part);
      forall i: nat ensures OccursAt(s[1..], part, i) <==> OccursAt(s, part, i + 1) {
        if i + |part| + 1 <= |s| {
          SliceLater(s, i, |part|);
        }
      }
      if i: nat :| OccursAt(s[1..], part, i) {
        assert OccursAt(s, part, i + 1);
      }
      if i: nat :| OccursAt(s, part, i) {
        assert s[0..|part|] == s[..|part|] || |s| < |part|;
        assert 0 < i;
        assert OccursAt(s[1..], part, i - 1);
      }
    }
  }

  /** The first position from `start` on of an element of `del`, or the length. */
  function FindFirstOf<T(==)>(s: seq<T>, del: seq<T>, start: nat): (found: nat)
    requires start <= |s|
    ensures start <= found <= |s| && (found < |s| ==> s[found] in del)
    ensures forall k :: start <= k < found ==> s[k] !in del
    decreases |s| - start
  {
    if start == |s| || s[start] in del then start else FindFirstOf(s, del, start + 1)
  }
}
