/** Lottery selection: every competitor owns an interval of the winning numbers as long as its
    tickets; and the generator the numbers are drawn from. */
module Lottery {

  /** All tickets together. */
  function Sum(w: seq<nat>): nat
  {
    if w == [] then 0 else Sum(w[..|w| - 1]) + w[|w| - 1]
  }

  /** Who holds winning number `n`: the first whose running total exceeds it. */
  function Winner(w: seq<nat>, n: nat): (i: nat)
    requires n < Sum(w)
    ensures i < |w| && w[i] > 0
    ensures Sum(w[..i]) <= n < Sum(w[..i + 1])
  {
    var k := |w| - 1;
    if n < Sum(w[..k]) then
      var i := Winner(w[..k], n);
      assert w[..k][..i] == w[..i] && w[..k][..i + 1] == w[..i + 1];
      i
    else
      assert w[..k + 1] == w;
      k
  }

  lemma {:induction false} SumMonotone(w: seq<nat>, i: nat, j: nat)
    requires i <= j <= |w|
    ensures Sum(w[..i]) <= Sum(w[..j])
    decreases j
  {
    if i < j {
      SumMonotone(w, i, j - 1);
      assert w[..j][..j - 1] == w[..j - 1];
    }
  }

  lemma {:induction false} SumBounded(w: seq<nat>, n: nat)
    requires forall i :: 0 <= i < |w| ==> w[i] <= n
    ensures Sum(w) <= |w| * n
  {
    if w != [] {
      SumBounded(w[..|w| - 1], n);
      assert |w| * n == (|w| - 1) * n + n;
    }
  }

  lemma WinnerIs(w: seq<nat>, n: nat, i: nat)
    requires i < |w| && Sum(w[..i]) <= n < Sum(w[..i + 1])
    ensures n < Sum(w) && Winner(w, n) == i
  {
    SumMonotone(w, i + 1, |w|);
    assert w[..|w|] == w;
    var k := Winner(w, n);
    if k < i {
      SumMonotone(w, k + 1, i);
    } else if k > i {
      SumMonotone(w, i + 1, k);
    }
  }

  /** The winning numbers of competitor `i`. */
  ghost function Numbers(w: seq<nat>, i: nat): set<nat>
  {
    set n | 0 <= n < Sum(w) && Winner(w, n) == i
  }

  /** Selection is exactly proportional: of all winning numbers, each competitor holds as many as it
      has tickets. */
  lemma ExactlyProportional(w: seq<nat>, i: nat)
    requires i < |w|
    ensures |Numbers(w, i)| == w[i]
  {
    var low, high := Sum(w[..i]), Sum(w[..i + 1]);
    assert w[..i + 1][..i] == w[..i];
    SumMonotone(w, i + 1, |w|);
    assert w[..|w|] == w;
    forall n: nat
      ensures n in Numbers(w, i) <==> low <= n < high
    {
      if low <= n < high {
        WinnerIs(w, n, i);
      }
    }
    IntervalSize(Numbers(w, i), low, high);
  }

  lemma {:induction false} IntervalSize(s: set<nat>, low: nat, high: nat)
    requires low <= high && forall n: nat :: n in s <==> low <= n < high
    ensures |s| == high - low
    decreases high
  {
    if low < high {
      IntervalSize(s - {high - 1}, low, high - 1);
    } else {
      assert s == {};
    }
  }

  /** Every winning number has a holder, so a draw never falls through. */
  lemma {:induction false} NoFallThrough(w: seq<nat>)
    ensures Sum(w) == 0 <==> forall i :: 0 <= i < |w| ==> w[i] == 0
  {
    if w != [] {
      NoFallThrough(w[..|w| - 1]);
      assert forall i :: 0 <= i < |w| - 1 ==> w[..|w| - 1][i] == w[i];
    }
  }

  // ---------------------------------------------------------------- the generator

  function Shift13(x: bv32): bv32 { x ^ (x << 13) }

  function Shift17(x: bv32): bv32 { Xor(x, High(x)) }

  function Xor(x: bv32, y: bv32): bv32 { x ^ y }

  function High(x: bv32): bv32 { x >> 17 }

  function Shift5(x: bv32): bv32 { x ^ (x << 5) }

  function NextState(x: bv32): bv32
  {
    Shift5(Shift17(Shift13(x)))
  }

  const SEED: bv32 := 2463534242

  /** No step loses information. */
  lemma Step13(x: bv32, y: bv32)
    requires Shift13(x) == Shift13(y)
    ensures x == y
  {
  }

  lemma Step17(x: bv32, y: bv32)
    requires Shift17(x) == Shift17(y)
    ensures x == y
  {
    hide Xor, High;
    HighBits(x);
    HighBits(y);
    CancelXor(x, High(x));
    CancelXor(y, High(y));
  }

  /** The top bits are untouched, and they are all that the shift brings in. */
  lemma HighBits(x: bv32)
    ensures High(Xor(x, High(x))) == High(x)
  {
  }

  lemma CancelXor(x: bv32, a: bv32)
    ensures Xor(Xor(x, a), a) == x
  {
  }

  lemma Step5(x: bv32, y: bv32)
    requires Shift5(x) == Shift5(y)
    ensures x == y
  {
  }

  /** Different states have different successors; in particular the state never becomes zero. */
  lemma GeneratorIsInjective(x: bv32, y: bv32)
    ensures NextState(x) == NextState(y) ==> x == y
    ensures x != 0 ==> NextState(x) != 0
  {
    hide Shift13, Shift17, Shift5;
    if NextState(x) == NextState(y) {
      Step5(Shift17(Shift13(x)), Shift17(Shift13(y)));
      Step17(Shift13(x), Shift13(y));
      Step13(x, y);
    }
    ZeroStays();
    if NextState(x) == 0 {
      Step5(Shift17(Shift13(x)), Shift17(Shift13(0)));
      Step17(Shift13(x), Shift13(0));
      Step13(x, 0);
    }
  }

  lemma ZeroStays()
    ensures NextState(0) == 0
  {
  }

  function Value(x: bv32): nat { x as nat }
}
