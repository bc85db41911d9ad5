// The two JavaScript searches the game relies on: `Array.prototype.indexOf` /
// `findIndex` (first position of an element, -1 when absent) and
// `String.prototype.indexOf` with a string argument (first position where a
// substring starts, -1 when it occurs nowhere).

module Search {

  /** First index of `x` in `s`, or -1 when `x` does not occur. */
  function IndexOf<T(==)>(s: seq<T>, x: T): (r: int)
    ensures r == -1 <==> x !in s
    ensures r != -1 ==> 0 <= r < |s| && s[r] == x && x !in s[..r]
  {
    if |s| == 0 then -1
    else if s[0] == x then 0
    else
      var k := IndexOf(s[1..], x);
      assert s[1..][..if k == -1 then 0 else k] == s[1..if k == -1 then 1 else k + 1];
      if k == -1 then -1 else k + 1
  }

  /** `key` occurs in `s` starting at position `i`. */
  predicate OccursAt(s: string, key: string, i: nat)
  {
    i + |key| <= |s| && s[i..i + |key|] == key
  }

  function IndexOfFrom(s: string, key: string, from: nat): (r: int)
    requires from <= |s| + 1
    ensures r == -1 <==> forall i :: from <= i <= |s| ==> !OccursAt(s, key, i)
    ensures r != -1 ==> from <= r <= |s| && OccursAt(s, key, r)
    ensures r != -1 ==> forall i :: from <= i < r ==> !OccursAt(s, key, i)
    decreases |s| + 1 - from
  {
    if from > |s| then -1
    else if OccursAt(s, key, from) then from
    else IndexOfFrom(s, key, from + 1)
  }

  /** `s.indexOf(key)`: the first position where `key` occurs in `s`, or -1. */
  function IndexOfSub(s: string, key: string): (r: int)
    ensures r == -1 <==> forall i :: 0 <= i <= |s| ==> !OccursAt(s, key, i)
    ensures r != -1 ==> 0 <= r <= |s| && OccursAt(s, key, r)
    ensures r != -1 ==> forall i :: 0 <= i < r ==> !OccursAt(s, key, i)
  {
    IndexOfFrom(s, key, 0)
  }

  /** For a one-letter key, the substring search is the search for that letter. */
  lemma IndexOfLetter(s: string, c: char)
    ensures IndexOfSub(s, [c]) == IndexOf(s, c)
  {
    var r := IndexOfSub(s, [c]);
    var k := IndexOf(s, c);
    forall i | 0 <= i < |s|
      ensures OccursAt(s, [c], i) <==> s[i] == c
    {
      assert s[i..i + 1] == [s[i]];
    }
    if k == -1 {
      assert forall i :: 0 <= i <= |s| ==> !OccursAt(s, [c], i);
    } else {
      assert OccursAt(s, [c], k);
      assert forall i :: 0 <= i < k ==> s[..k][i] == s[i];
      assert r == k;
    }
  }
}
