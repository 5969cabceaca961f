/**
 * Error evaluation (`calculate_error`): the fraction of positions where the
 * real value differs from the prediction rolled forward by one place
 * (`np.roll(pred_value, 1)`), so position i is compared with prediction
 * (i - 1) mod n.
 */
module ErrorMetric {

  /** The result of `np.mean`: NaN for an empty array, otherwise a fraction. */
  datatype Mean = NaN | Fraction(value: real)

  /** The circular predecessor (i - 1) mod n of a position: 0 wraps to n - 1. */
  function Prev(i: int, n: int): (p: int)
    requires 0 <= i < n
    ensures 0 <= p < n
    ensures p == if i == 0 then n - 1 else i - 1
  {
    (i - 1 + n) % n
  }

  /** `np.roll(s, 1)`: every element moves one place forward, the last one to the front. */
  function Roll<T>(s: seq<T>): (r: seq<T>)
    ensures |r| == |s|
    ensures forall i :: 0 <= i < |s| ==> r[i] == s[Prev(i, |s|)]
  {
    if s == [] then [] else [s[|s| - 1]] + s[..|s| - 1]
  }

  /** The positions where two equal-length sequences differ. */
  ghost function Differences<T>(a: seq<T>, b: seq<T>): set<int>
    requires |a| == |b|
  {
    set i | 0 <= i < |a| && a[i] != b[i]
  }

  /** The number of positions where `a` and `b` differ (`(a != b).sum()`). */
  function Mismatches<T(==)>(a: seq<T>, b: seq<T>): (k: nat)
    requires |a| == |b|
    ensures k == |Differences(a, b)|
    ensures k <= |a|
    ensures k == 0 <==> a == b
    ensures k == |a| <==> forall i :: 0 <= i < |a| ==> a[i] != b[i]
    decreases |a|
  {
    if a == [] then 0
    else
      var n := |a| - 1;
      var k := Mismatches(a[..n], b[..n]);
      assert Differences(a, b) ==
        Differences(a[..n], b[..n]) + (if a[n] != b[n] then {n} else {});
      assert a == b <==> a[..n] == b[..n] && a[n] == b[n] by {
        assert a == a[..n] + [a[n]] && b == b[..n] + [b[n]];
      }
      k + (if a[n] != b[n] then 1 else 0)
  }

  /** The positions i with actual[i] != pred[(i - 1) mod n]. */
  ghost function ShiftedMismatches<T>(pred: seq<T>, actual: seq<T>): set<int>
    requires |pred| == |actual|
  {
    set i | 0 <= i < |actual| && actual[i] != pred[Prev(i, |pred|)]
  }

  /** The sequence rotated left by one place (the first element moves to the end). */
  function RotateLeft<T>(s: seq<T>): seq<T> {
    if s == [] then [] else s[1..] + [s[0]]
  }

  /** A count of at most n, over n > 0, is a fraction in [0, 1] that is 0 or 1 only at the ends. */
  lemma FractionFacts(k: nat, n: nat)
    requires 0 < n && k <= n
    ensures 0.0 <= k as real / n as real <= 1.0
    ensures k as real / n as real == 0.0 <==> k == 0
    ensures k as real / n as real == 1.0 <==> k == n
  {
    var q := k as real / n as real;
    assert q * n as real == k as real;
  }

  /** Rolling forward and rotating left undo each other. */
  lemma RollRotateLeftInverse<T>(s: seq<T>)
    ensures RotateLeft(Roll(s)) == s
    ensures Roll(RotateLeft(s)) == s
  {
    if s != [] {
      var n := |s|;
      assert Roll(s)[1..] == s[..n - 1];
      assert s == s[..n - 1] + [s[n - 1]];
      assert RotateLeft(s)[..n - 1] == s[1..];
      assert s == [s[0]] + s[1..];
    }
  }

  /**
   * `calculate_error`: NaN for empty input, otherwise the number of positions
   * where `actual` differs from `Roll(pred)`, divided by the length.
   */
  function CalculateError<T(==)>(pred: seq<T>, actual: seq<T>): (e: Mean)
    requires |pred| == |actual|
    ensures e == NaN <==> actual == []
    ensures e.Fraction? ==> 0.0 <= e.value <= 1.0
  {
    if actual == [] then NaN
    else
      var k := Mismatches(actual, Roll(pred));
      FractionFacts(k, |actual|);
      Fraction(k as real / |actual| as real)
  }

  /** The error is the count of (i - 1) mod n mismatches over n. */
  lemma ErrorIsShiftedMismatchFraction<T>(pred: seq<T>, actual: seq<T>)
    requires |pred| == |actual| && actual != []
    ensures CalculateError(pred, actual) == Fraction(|ShiftedMismatches(pred, actual)| as real / |actual| as real)
  {
    assert Differences(actual, Roll(pred)) == ShiftedMismatches(pred, actual);
  }

  /** The error is zero exactly when the prediction is the actual sequence rotated left by one. */
  lemma ZeroErrorIffRotatedLeft<T>(pred: seq<T>, actual: seq<T>)
    requires |pred| == |actual| && actual != []
    ensures CalculateError(pred, actual) == Fraction(0.0) <==> pred == RotateLeft(actual)
  {
    var n := |actual|;
    FractionFacts(Mismatches(actual, Roll(pred)), n);
    if actual == Roll(pred) {
      assert pred == pred[..n - 1] + [pred[n - 1]];
    }
    if pred == RotateLeft(actual) {
      assert Roll(pred) == actual;
    }
  }

  /** The error is one exactly when every position mismatches its shifted prediction. */
  lemma FullErrorIffAllMismatch<T>(pred: seq<T>, actual: seq<T>)
    requires |pred| == |actual| && actual != []
    ensures CalculateError(pred, actual) == Fraction(1.0) <==>
              forall i :: 0 <= i < |actual| ==> actual[i] != pred[Prev(i, |pred|)]
  {
    FractionFacts(Mismatches(actual, Roll(pred)), |actual|);
  }

  /** A single element is compared with itself, so a length-1 prediction equal to the truth has zero error. */
  lemma SingletonSelfComparison<T>(x: T)
    ensures CalculateError([x], [x]) == Fraction(0.0)
  {
    ZeroErrorIffRotatedLeft([x], [x]);
  }
}
