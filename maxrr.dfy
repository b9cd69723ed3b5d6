/** Windowed maximum rate of pressure rise over a crank-angle trace (maxrr.py).

    The trace is a pair of equally long vectors: crank angles `cad` and
    pressures `p`.  For every interior index `i` with a full window of
    half-width `w` on both sides, the rate of rise is the centred difference
    (p[i+w] - p[i-w]) / (cad[i+w] - cad[i-w]), with a falling pressure
    clamped to a rate of 0.  The result is the largest such rate together
    with the crank angle of the first index that attains it.
 */
module MaxRateOfRise {

  /** The three ways the computation fails instead of returning a peak. */
  datatype Error =
    | LengthMismatch    // the angle and pressure vectors differ in length
    | IndexOutOfRange   // a negative half-width makes the scan read past the end of `p`
    | NoWindows         // no index has a full window, so the maximum of no rates is asked for

  datatype Result<T> = Ok(value: T) | Err(error: Error)

  /** The maximum rate of rise and the crank angle at which it first occurs. */
  datatype Peak = Peak(rate: real, angle: real)

  /** Number of indices `i` with `w <= i < n - w`. */
  function WindowCount(n: nat, w: nat): nat
  {
    if n > 2 * w then n - 2 * w else 0
  }

  /** Every division the scan performs has a nonzero denominator: when the
      vectors agree in length and the half-width is not negative, each window
      whose pressure does not fall has end points at different crank angles.
      A window with falling pressure is never divided, and a length mismatch
      or a negative half-width is rejected before any window is computed. */
  predicate RisingWindowsHaveSpan(cad: seq<real>, p: seq<real>, w: int)
  {
    |cad| == |p| && w >= 0 ==>
      forall lo :: 0 <= lo < |cad| - 2 * w && p[lo] <= p[lo + 2 * w] ==> cad[lo] != cad[lo + 2 * w]
  }

  ghost predicate StrictlyIncreasing(s: seq<real>)
  {
    forall i, j :: 0 <= i < j < |s| ==> s[i] < s[j]
  }

  /** The clamped centred difference of the window around index `i`: 0 for
      a falling pressure, otherwise the pressure rise over the angle span. */
  function WindowRate(cad: seq<real>, p: seq<real>, w: nat, i: int): (rate: real)
    requires |p| == |cad| && w <= i < |cad| - w
    requires p[i - w] <= p[i + w] ==> cad[i + w] != cad[i - w]
    ensures p[i + w] - p[i - w] < 0.0 ==> rate == 0.0
    ensures p[i + w] - p[i - w] >= 0.0 ==>
              rate * (cad[i + w] - cad[i - w]) == p[i + w] - p[i - w]
  {
    var dp := p[i + w] - p[i - w];
    if dp < 0.0 then 0.0 else dp / (cad[i + w] - cad[i - w])
  }

  /** The rate of every window, in index order: entry `k` belongs to index `w + k`. */
  function Rates(cad: seq<real>, p: seq<real>, w: nat): (rates: seq<real>)
    requires |p| == |cad| && RisingWindowsHaveSpan(cad, p, w)
    ensures |rates| == WindowCount(|cad|, w)
    ensures forall k :: 0 <= k < |rates| ==> rates[k] == WindowRate(cad, p, w, w + k)
  {
    seq(WindowCount(|cad|, w), k requires 0 <= k < WindowCount(|cad|, w) => WindowRate(cad, p, w, w + k))
  }

  /** Index of the first occurrence of the largest value. */
  function FirstMaxIndex(values: seq<real>): (k: nat)
    requires |values| > 0
    ensures k < |values|
    ensures forall j :: 0 <= j < |values| ==> values[j] <= values[k]
    ensures forall j :: 0 <= j < k ==> values[j] < values[k]
  {
    if |values| == 1 then 0
    else
      var m := FirstMaxIndex(values[..|values| - 1]);
      if values[|values| - 1] > values[m] then |values| - 1 else m
  }

  /** What the computation returns, as a function of its inputs. */
  function MaxRrSpec(cad: seq<real>, p: seq<real>, w: int): Result<Peak>
    requires RisingWindowsHaveSpan(cad, p, w)
  {
    if |cad| != |p| then Err(LengthMismatch)
    else if w < 0 then Err(IndexOutOfRange)
    else if |cad| <= 2 * w then Err(NoWindows)
    else
      var rates := Rates(cad, p, w);
      var k := FirstMaxIndex(rates);
      Ok(Peak(rates[k], cad[w + k]))
  }

  /** Inputs that are rejected before any window is computed meet the
      precondition whatever their angles. */
  lemma RejectedInputsAdmitted(cad: seq<real>, p: seq<real>, w: int)
    requires |cad| != |p| || w < 0
    ensures RisingWindowsHaveSpan(cad, p, w)
  {
  }

  /** The computation fails with a length error exactly when the vectors
      differ in length; with equal lengths, a negative half-width always
      reads out of range, and otherwise it fails exactly when no index has
      a full window. */
  lemma MaxRrFailures(cad: seq<real>, p: seq<real>, w: int)
    requires RisingWindowsHaveSpan(cad, p, w)
    ensures MaxRrSpec(cad, p, w) == Err(LengthMismatch) <==> |cad| != |p|
    ensures MaxRrSpec(cad, p, w) == Err(IndexOutOfRange) <==> |cad| == |p| && w < 0
    ensures MaxRrSpec(cad, p, w) == Err(NoWindows) <==> |cad| == |p| && 0 <= w && |cad| <= 2 * w
    ensures MaxRrSpec(cad, p, w).Ok? <==> |cad| == |p| && 0 <= w && |cad| > 2 * w
  {
  }

  /** The returned rate is at least every window's rate and is the rate of a
      window; the returned angle is the angle of the first such window, so it
      lies in `cad[w .. |cad| - w]`. */
  lemma MaxRrPeak(cad: seq<real>, p: seq<real>, w: nat)
    requires RisingWindowsHaveSpan(cad, p, w) && |cad| == |p| && |cad| > 2 * w
    ensures MaxRrSpec(cad, p, w).Ok?
    ensures forall k :: 0 <= k < WindowCount(|cad|, w) ==>
              Rates(cad, p, w)[k] <= MaxRrSpec(cad, p, w).value.rate
    ensures exists k :: 0 <= k < WindowCount(|cad|, w)
              && MaxRrSpec(cad, p, w).value.rate == Rates(cad, p, w)[k]
              && MaxRrSpec(cad, p, w).value.angle == cad[w + k]
              && forall j :: 0 <= j < k ==> Rates(cad, p, w)[j] < Rates(cad, p, w)[k]
    ensures MaxRrSpec(cad, p, w).value.angle in cad[w..|cad| - w]
  {
  }

  /** With a zero half-width every window of a non-empty trace divides a
      zero rise by a zero span, so the precondition excludes it. */
  lemma ZeroHalfWidthExcluded(cad: seq<real>, p: seq<real>)
    requires |cad| == |p| > 0
    ensures !RisingWindowsHaveSpan(cad, p, 0)
  {
    assert p[0] <= p[0 + 2 * 0];
  }

  /** A strictly increasing angle vector with a positive half-width gives
      every window a nonzero angle span. */
  lemma IncreasingAnglesHaveSpan(cad: seq<real>, p: seq<real>, w: nat)
    requires StrictlyIncreasing(cad) && w > 0
    ensures RisingWindowsHaveSpan(cad, p, w)
  {
  }

  /** Over strictly increasing angles every rate is nonnegative, and so is
      the maximum. */
  lemma MaxRrNonNegative(cad: seq<real>, p: seq<real>, w: nat)
    requires StrictlyIncreasing(cad) && w > 0 && |cad| == |p|
    ensures RisingWindowsHaveSpan(cad, p, w)
    ensures forall k :: 0 <= k < WindowCount(|cad|, w) ==> Rates(cad, p, w)[k] >= 0.0
    ensures MaxRrSpec(cad, p, w).Ok? ==> MaxRrSpec(cad, p, w).value.rate >= 0.0
  {
  }

  /** The window rates of the example below.  The two traces are parameters
      pinned by the preconditions so that each literal is written once. */
  lemma ExampleRates(cad: seq<real>, p: seq<real>)
    requires cad == [0.0, 10.0, 20.0, 30.0, 40.0, 50.0, 60.0, 70.0, 80.0, 90.0, 100.0]
    requires p == [1.0, 2.0, 4.0, 7.0, 11.0, 16.0, 22.0, 29.0, 37.0, 46.0, 56.0]
    ensures RisingWindowsHaveSpan(cad, p, 2)
    ensures Rates(cad, p, 2) == [0.25, 0.35, 0.45, 0.55, 0.65, 0.75, 0.85]
  {
    forall lo | 0 <= lo < |cad| - 4
      ensures cad[lo] != cad[lo + 4]
    {
      assert cad[lo] == 10.0 * lo as real && cad[lo + 4] == 10.0 * (lo + 4) as real;
    }
    var rates := Rates(cad, p, 2);
    assert rates[0] == 0.25 && rates[1] == 0.35 && rates[2] == 0.45 && rates[3] == 0.55;
    assert rates[4] == 0.65 && rates[5] == 0.75 && rates[6] == 0.85;
  }

  /** Angles 0, 10, ..., 100 with pressures 1, 2, 4, 7, 11, 16, 22, 29, 37,
      46, 56 and half-width 2: the window rates are 0.25, 0.35, ..., 0.85,
      so the maximum is 34/40 at 80 degrees. */
  lemma MaxRrExample()
    ensures RisingWindowsHaveSpan([0.0, 10.0, 20.0, 30.0, 40.0, 50.0, 60.0, 70.0, 80.0, 90.0, 100.0],
                                  [1.0, 2.0, 4.0, 7.0, 11.0, 16.0, 22.0, 29.0, 37.0, 46.0, 56.0], 2)
    ensures MaxRrSpec([0.0, 10.0, 20.0, 30.0, 40.0, 50.0, 60.0, 70.0, 80.0, 90.0, 100.0],
                      [1.0, 2.0, 4.0, 7.0, 11.0, 16.0, 22.0, 29.0, 37.0, 46.0, 56.0], 2)
            == Ok(Peak(0.85, 80.0))
  {
    var cad := [0.0, 10.0, 20.0, 30.0, 40.0, 50.0, 60.0, 70.0, 80.0, 90.0, 100.0];
    var p := [1.0, 2.0, 4.0, 7.0, 11.0, 16.0, 22.0, 29.0, 37.0, 46.0, 56.0];
    ExampleRates(cad, p);
    var rates := Rates(cad, p, 2);
    assert FirstMaxIndex(rates) == 6;
  }

  /** The rates of all windows, and the crank angle each belongs to,
      collected one window at a time. */
  method CollectRates(cad: seq<real>, p: seq<real>, w: nat) returns (rates: seq<real>, angles: seq<real>)
    requires |p| == |cad| && RisingWindowsHaveSpan(cad, p, w)
    ensures rates == Rates(cad, p, w)
    ensures |angles| == |rates|
    ensures forall k :: 0 <= k < |angles| ==> angles[k] == cad[w + k]
  {
    rates, angles := [], [];
    var index := w;
    while index < |cad| - w
      invariant w <= index
      invariant |rates| == |angles| == index - w <= WindowCount(|cad|, w)
      invariant forall k :: 0 <= k < |rates| ==> rates[k] == WindowRate(cad, p, w, w + k)
      invariant forall k :: 0 <= k < |angles| ==> angles[k] == cad[w + k]
    {
      var dp := p[index + w] - p[index - w];
      var dCad := cad[index + w] - cad[index - w];
      if dp < 0.0 {
        rates := rates + [0.0];
      } else {
        rates := rates + [dp / dCad];
      }
      angles := angles + [cad[index]];
      index := index + 1;
    }
  }

  /** Index of the first largest value, found by one left-to-right pass. */
  method FirstArgMax(values: seq<real>) returns (k: nat)
    requires |values| > 0
    ensures k == FirstMaxIndex(values)
  {
    k := 0;
    for i := 1 to |values|
      invariant k == FirstMaxIndex(values[..i])
    {
      assert values[..i + 1][..i] == values[..i];
      if values[i] > values[k] {
        k := i;
      }
    }
    assert values[..|values|] == values;
  }

  /** The maximum rate of rise of `p` over `cad` and the angle where it first occurs. */
  method MaxRr(cad: seq<real>, p: seq<real>, w: int) returns (r: Result<Peak>)
    requires RisingWindowsHaveSpan(cad, p, w)
    ensures r == MaxRrSpec(cad, p, w)
  {
    if |cad| != |p| {
      return Err(LengthMismatch);
    }
    if w < 0 {
      // the last index of the scan, |cad| - w - 1, reads p[|cad| - 2 * w - 1]
      return Err(IndexOutOfRange);
    }
    var rates, angles := CollectRates(cad, p, w);
    if |rates| == 0 {
      return Err(NoWindows);
    }
    var k := FirstArgMax(rates);
    r := Ok(Peak(rates[k], angles[k]));
  }
}
