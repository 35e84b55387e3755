/** The derivative engine `get_derivative`: the day-over-day rate of change of
    the decimal-hour sunset, in minutes per day, by finite differences. */
module FiniteDifference {
  import opened Base

  /** The rate of change at day i: a forward difference on the first day, a
      backward difference on the last, a central difference in between, each
      turned from hours into minutes. */
  function Slope(v: seq<real>, i: int): real
    requires 2 <= |v| && 0 <= i < |v|
  {
    if i == 0 then (v[1] - v[0]) * 60.0
    else if i == |v| - 1 then (v[i] - v[i - 1]) * 60.0
    else (v[i + 1] - v[i - 1]) / 2.0 * 60.0
  }

  /** The loop of `get_derivative`. An empty input gives an empty list; a
      one-element input raises at `v[i+1]`; otherwise the result is aligned with
      the input, index for index. */
  method Derivative(v: seq<real>) returns (r: Result<seq<real>>)
    ensures r.Err? <==> |v| == 1
    ensures r.Err? ==> r.error == IndexOutOfRange
    ensures |v| == 0 ==> r == Ok([])
    ensures r.Ok? ==> |r.value| == |v|
    ensures r.Ok? && 2 <= |v| ==> forall i :: 0 <= i < |v| ==> r.value[i] == Slope(v, i)
  {
    var derivatives: seq<real> := [];
    var i := 0;
    while i < |v|
      invariant 0 <= i <= |v|
      invariant |derivatives| == i
      invariant 0 < i ==> 2 <= |v|
      invariant forall k :: 0 <= k < i ==> derivatives[k] == Slope(v, k)
    {
      var deriv: real;
      if i == 0 {
        if |v| < i + 2 {
          return Err(IndexOutOfRange);
        }
        deriv := (v[i + 1] - v[i]) * 60.0;
      } else if i == |v| - 1 {
        deriv := (v[i] - v[i - 1]) * 60.0;
      } else {
        deriv := (v[i + 1] - v[i - 1]) / 2.0 * 60.0;
      }
      derivatives := derivatives + [deriv];
      i := i + 1;
    }
    return Ok(derivatives);
  }

  /** A first and a last day spanning only two samples both get the single
      forward difference. */
  lemma TwoSamplesShareOneSlope(v: seq<real>)
    requires |v| == 2
    ensures Slope(v, 0) == Slope(v, 1) == (v[1] - v[0]) * 60.0
  {
  }

  /** A constant sunset time has zero rate of change everywhere. */
  lemma ConstantHasZeroSlope(v: seq<real>)
    requires 2 <= |v|
    requires forall i :: 0 <= i < |v| ==> v[i] == v[0]
    ensures forall i :: 0 <= i < |v| ==> Slope(v, i) == 0.0
  {
  }

  /** Day-over-day later sunsets give a positive rate everywhere. */
  lemma IncreasingHasPositiveSlope(v: seq<real>)
    requires 2 <= |v|
    requires forall i :: 0 <= i < |v| - 1 ==> v[i] < v[i + 1]
    ensures forall i :: 0 <= i < |v| ==> Slope(v, i) > 0.0
  {
    forall i | 0 <= i < |v|
      ensures Slope(v, i) > 0.0
    {
      if 0 < i < |v| - 1 {
        assert v[i - 1] < v[i] < v[i + 1];
      }
    }
  }

  /** Day-over-day earlier sunsets give a negative rate everywhere. */
  lemma DecreasingHasNegativeSlope(v: seq<real>)
    requires 2 <= |v|
    requires forall i :: 0 <= i < |v| - 1 ==> v[i] > v[i + 1]
    ensures forall i :: 0 <= i < |v| ==> Slope(v, i) < 0.0
  {
    forall i | 0 <= i < |v|
      ensures Slope(v, i) < 0.0
    {
      if 0 < i < |v| - 1 {
        assert v[i - 1] > v[i] > v[i + 1];
      }
    }
  }

  /** The worked seven-day example: these sunset hours have the rates
      [6, 9, 6, -3, -9, -12, -12] minutes per day. */
  lemma SevenDayExample()
    ensures var v := [10.0, 10.1, 10.3, 10.3, 10.2, 10.0, 9.8];
      Slope(v, 0) == 6.0 && Slope(v, 1) == 9.0 && Slope(v, 2) == 6.0 && Slope(v, 3) == -3.0 &&
      Slope(v, 4) == -9.0 && Slope(v, 5) == -12.0 && Slope(v, 6) == -12.0
  {
  }
}
