/** `np.argmax` / `np.argmin` and the builtins `max` / `min` over a series of
    reals. The index returned is the first one holding the extreme value. */
module Extrema {
  import opened Base

  datatype Extreme = Largest | Smallest

  /** x is strictly better than y in the chosen direction. */
  predicate Beats(e: Extreme, x: real, y: real)
  {
    match e
    case Largest => x > y
    case Smallest => x < y
  }

  /** `max(s)` / `min(s)`: the extreme value, folded from the front. */
  function Peak(s: seq<real>, e: Extreme): real
    requires 0 < |s|
  {
    if |s| == 1 then s[0]
    else
      var p := Peak(s[1..], e);
      if Beats(e, s[0], p) then s[0] else p
  }

  /** The extreme value occurs in the series and nothing beats it. */
  lemma {:induction false} PeakIsExtreme(s: seq<real>, e: Extreme)
    requires 0 < |s|
    ensures exists j :: 0 <= j < |s| && s[j] == Peak(s, e)
    ensures forall j :: 0 <= j < |s| ==> !Beats(e, s[j], Peak(s, e))
  {
    if |s| == 1 {
      assert s[0] == Peak(s, e);
    } else {
      PeakIsExtreme(s[1..], e);
      var j :| 0 <= j < |s| - 1 && s[1..][j] == Peak(s[1..], e);
      assert s[j + 1] == Peak(s[1..], e);
      if Peak(s, e) == s[0] {
        assert s[0] == Peak(s, e);
      } else {
        assert s[j + 1] == Peak(s, e);
      }
      forall i | 1 <= i < |s|
        ensures !Beats(e, s[i], Peak(s, e))
      {
        assert s[i] == s[1..][i - 1];
      }
    }
  }

  /** The position numpy's scan settles on: a later element replaces the best so
      far only when it is strictly better. */
  function ExtremePos(s: seq<real>, e: Extreme): (k: nat)
    requires 0 < |s|
    ensures k < |s|
    ensures forall j :: 0 <= j < |s| ==> !Beats(e, s[j], s[k])
    ensures forall j :: 0 <= j < k ==> Beats(e, s[k], s[j])
  {
    if |s| == 1 then 0
    else
      var k := ExtremePos(s[..|s| - 1], e);
      if Beats(e, s[|s| - 1], s[k]) then |s| - 1 else k
  }

  /** `np.argmax(s)` (Largest) or `np.argmin(s)` (Smallest): the first index
      whose value is the maximum (minimum) of the series; numpy raises on an
      empty series. */
  function ArgExtreme(s: seq<real>, e: Extreme): (r: Option<nat>)
    ensures r.Some? <==> 0 < |s|
    ensures r.Some? ==> r.value < |s| && s[r.value] == Peak(s, e)
    ensures r.Some? ==> forall j :: 0 <= j < r.value ==> s[j] != Peak(s, e)
  {
    if |s| == 0 then None
    else
      var k := ExtremePos(s, e);
      PeakIsExtreme(s, e);
      var j :| 0 <= j < |s| && s[j] == Peak(s, e);
      assert !Beats(e, s[j], s[k]) && !Beats(e, s[k], s[j]);
      Some(k)
  }
}
