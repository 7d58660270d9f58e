/** Sums over a part of a sequence. */
module Sums {

  function Sum(s: seq<int>, a: nat, b: nat): int
    requires a <= b <= |s|
  {
    if a == b then 0 else Sum(s, a, b - 1) + s[b - 1]
  }

  lemma {:induction false} SumUpdate(s: seq<int>, d: nat, x: int, a: nat, b: nat)
    requires a <= b <= |s| && d < |s|
    ensures Sum(s[d := x], a, b) == Sum(s, a, b) + (if a <= d < b then x - s[d] else 0)
  {
    if a < b {
      SumUpdate(s, d, x, a, b - 1);
    }
  }

  lemma {:induction false} SumNonNegative(s: seq<int>, a: nat, b: nat)
    requires a <= b <= |s| && forall i :: 0 <= i < |s| ==> s[i] >= 0
    ensures Sum(s, a, b) >= 0
  {
    if a < b {
      SumNonNegative(s, a, b - 1);
    }
  }

  lemma {:induction false} SumAtLeast(s: seq<int>, d: nat, a: nat, b: nat)
    requires a <= d < b <= |s| && forall i :: 0 <= i < |s| ==> s[i] >= 0
    ensures Sum(s, a, b) >= s[d]
  {
    if d < b - 1 {
      SumAtLeast(s, d, a, b - 1);
    } else {
      SumNonNegative(s, a, b - 1);
    }
  }

  lemma {:induction false} SumZeros(s: seq<int>, a: nat, b: nat)
    requires a <= b <= |s| && forall i :: 0 <= i < |s| ==> s[i] == 0
    ensures Sum(s, a, b) == 0
  {
    if a < b {
      SumZeros(s, a, b - 1);
    }
  }

  lemma {:induction false} SumPrefix(s: seq<int>, t: seq<int>, a: nat, b: nat)
    requires a <= b <= |s|
    ensures Sum(s + t, a, b) == Sum(s, a, b)
  {
    if a < b {
      SumPrefix(s, t, a, b - 1);
    }
  }

  lemma {:induction false} SumConcat(s: seq<int>, t: seq<int>, b: nat)
    requires b <= |t|
    ensures Sum(s + t, 0, |s| + b) == Sum(s, 0, |s|) + Sum(t, 0, b)
  {
    if b == 0 {
      SumPrefix(s, t, 0, |s|);
    } else {
      SumConcat(s, t, b - 1);
    }
  }
}
