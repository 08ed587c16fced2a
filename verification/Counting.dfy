/** Cardinalities: ranges, sequences of distinct values, and the pigeonhole principle. */
module Counting {
  /** The naturals below `n`. */
  ghost function Below(n: nat): (s: set<nat>)
    ensures |s| == n
    ensures forall x: nat :: x in s <==> x < n
  {
    if n == 0 then {} else Below(n - 1) + {n - 1}
  }

  ghost predicate Injective<T>(s: seq<T>)
  {
    forall i, j :: 0 <= i < j < |s| ==> s[i] != s[j]
  }

  /** Distinct values drawn from a set are no more than the set holds. */
  lemma {:induction false} Pigeonhole<T>(s: seq<T>, pool: set<T>)
    requires Injective(s)
    requires forall i :: 0 <= i < |s| ==> s[i] in pool
    ensures |s| <= |pool|
  {
    if s != [] {
      var n := |s| - 1;
      Pigeonhole(s[..n], pool - {s[n]});
      assert |pool| == |pool - {s[n]}| + 1;
    }
  }
}
