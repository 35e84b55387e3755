/** The turning-point detector: the summer and winter solstice days found in a
    derivative series, by a first sign change, or failing that by the slowing
    day closest to zero. One scan serves both seasons, with the signs flipped. */
module TurningPoints {
  import opened Base

  datatype Season = Summer | Winter

  /** How close to zero a slowing derivative must come to be a fallback candidate. */
  const NearZeroThreshold: real := 0.5

  /** x lies on the side of zero the derivative leaves at the season's turning
      point: positive before midsummer, negative before midwinter. */
  predicate Leaving(s: Season, x: real)
  {
    match s
    case Summer => x > 0.0
    case Winter => x < 0.0
  }

  /** The derivative moves from prev to cur toward the season's turning point. */
  predicate Slowing(s: Season, prev: real, cur: real)
  {
    match s
    case Summer => cur < prev
    case Winter => cur > prev
  }

  /** x is within the fallback threshold on the season's side. */
  predicate NearZero(s: Season, x: real)
  {
    match s
    case Summer => x < NearZeroThreshold
    case Winter => x > -NearZeroThreshold
  }

  /** Day i is a sign change for the season: summer `d[i-1] > 0 and d[i] <= 0`,
      winter `d[i-1] < 0 and d[i] >= 0`. */
  predicate Crossing(d: seq<real>, s: Season, i: int)
    requires 1 <= i < |d|
  {
    Leaving(s, d[i - 1]) && !Leaving(s, d[i])
  }

  /** Day i passes both filters of the fallback: it is slowing after a day on
      the leaving side, and its value is under the threshold. */
  predicate Candidate(d: seq<real>, s: Season, i: int)
    requires 1 <= i < |d|
  {
    Leaving(s, d[i - 1]) && Slowing(s, d[i - 1], d[i]) && NearZero(s, d[i])
  }

  predicate NoCrossing(d: seq<real>, s: Season)
  {
    forall j :: 1 <= j < |d| ==> !Crossing(d, s, j)
  }

  predicate NoCandidate(d: seq<real>, s: Season)
  {
    forall j :: 1 <= j < |d| ==> !Candidate(d, s, j)
  }

  /** Day i is the earliest sign change of the series. */
  predicate IsFirstCrossing(d: seq<real>, s: Season, i: int)
  {
    1 <= i < |d| && Crossing(d, s, i) && forall j :: 1 <= j < i ==> !Crossing(d, s, j)
  }

  predicate Increasing(xs: seq<nat>)
  {
    forall a, b :: 0 <= a < b < |xs| ==> xs[a] < xs[b]
  }

  /** The first sign change at or after day lo, if any. */
  function FirstCrossingFrom(d: seq<real>, s: Season, lo: nat): (r: Option<nat>)
    requires 1 <= lo
    ensures r.Some? ==> lo <= r.value < |d| && Crossing(d, s, r.value)
    ensures r.Some? ==> forall j :: lo <= j < r.value ==> !Crossing(d, s, j)
    ensures r.None? <==> forall j :: lo <= j < |d| ==> !Crossing(d, s, j)
    decreases |d| - lo
  {
    if |d| <= lo then None
    else if Crossing(d, s, lo) then Some(lo)
    else FirstCrossingFrom(d, s, lo + 1)
  }

  /** The primary rule, as a loop that stops at the first sign change. */
  method PrimaryScan(d: seq<real>, s: Season) returns (idx: Option<nat>)
    ensures idx == FirstCrossingFrom(d, s, 1)
    ensures idx.Some? ==> IsFirstCrossing(d, s, idx.value)
    ensures idx.None? <==> NoCrossing(d, s)
  {
    idx := None;
    var i := 1;
    while i < |d|
      invariant 1 <= i
      invariant forall j :: 1 <= j < i && j < |d| ==> !Crossing(d, s, j)
    {
      if Leaving(s, d[i - 1]) && !Leaving(s, d[i]) {
        idx := Some(i);
        break;
      }
      i := i + 1;
    }
    if idx.Some? {
      FirstCrossingIsUnique(d, s, idx.value);
    }
  }

  /** The reference scan returns the first sign change whenever there is one. */
  lemma FirstCrossingIsUnique(d: seq<real>, s: Season, i: int)
    requires IsFirstCrossing(d, s, i)
    ensures FirstCrossingFrom(d, s, 1) == Some(i)
  {
  }

  /** The comprehension of days 1 .. hi-1 that are slowing after a day on the
      leaving side, in increasing order. */
  function Slowdowns(d: seq<real>, s: Season, hi: nat): (r: seq<nat>)
    requires hi <= |d|
    ensures forall i :: i in r <==> 1 <= i < hi && Leaving(s, d[i - 1]) && Slowing(s, d[i - 1], d[i])
    ensures forall k :: 0 <= k < |r| ==> 1 <= r[k] < hi
    ensures Increasing(r)
  {
    if hi <= 1 then []
    else
      var i := hi - 1;
      Slowdowns(d, s, i) + (if Leaving(s, d[i - 1]) && Slowing(s, d[i - 1], d[i]) then [i] else [])
  }

  /** The comprehension keeping the days of cs whose value is under the threshold. */
  function NearZeroOnly(d: seq<real>, s: Season, cs: seq<nat>): (r: seq<nat>)
    requires forall k :: 0 <= k < |cs| ==> cs[k] < |d|
    ensures forall i :: i in r <==> i in cs && NearZero(s, d[i])
    ensures forall k :: 0 <= k < |r| ==> r[k] < |d|
    ensures Increasing(cs) ==> Increasing(r)
  {
    if |cs| == 0 then []
    else
      var rest := NearZeroOnly(d, s, cs[1..]);
      assert forall i :: i in cs[1..] ==> i in cs;
      assert Increasing(cs) ==> forall k :: 0 <= k < |rest| ==> cs[0] < rest[k] by {
        if Increasing(cs) {
          forall k | 0 <= k < |rest|
            ensures cs[0] < rest[k]
          {
            assert rest[k] in cs[1..];
            var p :| 0 <= p < |cs| - 1 && cs[1..][p] == rest[k];
            assert cs[p + 1] == rest[k];
          }
        }
      }
      (if NearZero(s, d[cs[0]]) then [cs[0]] else []) + rest
  }

  /** `min(cs, key=abs)`: the position in cs of the first day whose value is
      closest to zero. */
  function ClosestToZero(d: seq<real>, cs: seq<nat>): (k: nat)
    requires 0 < |cs|
    requires forall p :: 0 <= p < |cs| ==> cs[p] < |d|
    ensures k < |cs|
    ensures forall p :: 0 <= p < |cs| ==> Abs(d[cs[k]]) <= Abs(d[cs[p]])
    ensures forall p :: 0 <= p < k ==> Abs(d[cs[p]]) > Abs(d[cs[k]])
  {
    if |cs| == 1 then 0
    else
      var k := ClosestToZero(d, cs[..|cs| - 1]);
      if Abs(d[cs[|cs| - 1]]) < Abs(d[cs[k]]) then |cs| - 1 else k
  }

  /** The days the fallback chooses among are exactly the candidate days, in
      increasing order. */
  lemma CandidateList(d: seq<real>, s: Season)
    ensures var cs := NearZeroOnly(d, s, Slowdowns(d, s, |d|));
      Increasing(cs) &&
      (forall k :: 0 <= k < |cs| ==> 1 <= cs[k] < |d|) &&
      (forall j :: 1 <= j < |d| ==> (Candidate(d, s, j) <==> j in cs))
  {
    var slowing := Slowdowns(d, s, |d|);
    var cs := NearZeroOnly(d, s, slowing);
    forall k | 0 <= k < |cs|
      ensures 1 <= cs[k] < |d|
    {
      assert cs[k] in slowing;
    }
  }

  /** In an increasing list of days, the first closest-to-zero position is also
      the smallest closest-to-zero day. */
  lemma ClosestAmongIncreasing(d: seq<real>, cs: seq<nat>, j: nat)
    requires Increasing(cs) && 0 < |cs|
    requires forall p :: 0 <= p < |cs| ==> cs[p] < |d|
    requires j in cs
    ensures var i := cs[ClosestToZero(d, cs)];
      Abs(d[i]) <= Abs(d[j]) && (j < i ==> Abs(d[j]) > Abs(d[i]))
  {
    var k := ClosestToZero(d, cs);
    var p :| 0 <= p < |cs| && cs[p] == j;
    assert j < cs[k] ==> p < k;
  }

  /** The day of the candidate list closest to zero is a candidate, none is
      closer, every earlier candidate is farther; an empty list means there is
      no candidate at all. */
  lemma ClosestCandidate(d: seq<real>, s: Season)
    ensures var cs := NearZeroOnly(d, s, Slowdowns(d, s, |d|));
      (|cs| == 0 ==> NoCandidate(d, s)) &&
      (0 < |cs| ==>
        var i := cs[ClosestToZero(d, cs)];
        1 <= i < |d| && Candidate(d, s, i) &&
        (forall j :: 1 <= j < |d| && Candidate(d, s, j) ==> Abs(d[i]) <= Abs(d[j])) &&
        (forall j :: 1 <= j < i && Candidate(d, s, j) ==> Abs(d[j]) > Abs(d[i])))
  {
    var cs := NearZeroOnly(d, s, Slowdowns(d, s, |d|));
    CandidateList(d, s);
    if |cs| == 0 {
      forall j | 1 <= j < |d|
        ensures !Candidate(d, s, j)
      {
        assert j !in cs;
      }
    } else {
      var i := cs[ClosestToZero(d, cs)];
      assert Candidate(d, s, i) by {
        assert i in cs;
      }
      forall j | 1 <= j < |d| && Candidate(d, s, j)
        ensures Abs(d[i]) <= Abs(d[j])
        ensures j < i ==> Abs(d[j]) > Abs(d[i])
      {
        ClosestAmongIncreasing(d, cs, j);
      }
    }
  }

  /** The fallback rule, used when the series has no sign change. It finds
      nothing exactly when no day is a candidate; otherwise it picks a
      candidate whose value is closest to zero, the earliest such on ties. */
  function Fallback(d: seq<real>, s: Season): (r: Option<nat>)
    ensures r.None? <==> NoCandidate(d, s)
    ensures r.Some? ==> 1 <= r.value < |d| && Candidate(d, s, r.value)
    ensures r.Some? ==> forall j :: 1 <= j < |d| && Candidate(d, s, j) ==> Abs(d[r.value]) <= Abs(d[j])
    ensures r.Some? ==> forall j :: 1 <= j < r.value && Candidate(d, s, j) ==> Abs(d[j]) > Abs(d[r.value])
  {
    ClosestCandidate(d, s);
    var slowing := Slowdowns(d, s, |d|);
    if |slowing| == 0 then None
    else
      var candidates := NearZeroOnly(d, s, slowing);
      if |candidates| == 0 then None
      else Some(candidates[ClosestToZero(d, candidates)])
  }

  /** The detector for one season: the first sign change, or else the fallback. */
  function TurningPointOf(d: seq<real>, s: Season): (r: Option<nat>)
    ensures r.Some? ==> 1 <= r.value < |d|
  {
    match FirstCrossingFrom(d, s, 1)
    case Some(i) => Some(i)
    case None => Fallback(d, s)
  }

  /** main.py:177-208 for one season: the mutable index set by the primary scan
      and, when that found nothing, by the fallback. */
  method TurningPoint(d: seq<real>, s: Season) returns (idx: Option<nat>)
    ensures idx == TurningPointOf(d, s)
  {
    idx := PrimaryScan(d, s);
    if idx.None? {
      idx := Fallback(d, s);
    }
  }

  /** A sign change anywhere wins: the detector then reports the first one and
      the fallback is never consulted. */
  lemma PrimaryRuleWins(d: seq<real>, s: Season)
    requires !NoCrossing(d, s)
    ensures TurningPointOf(d, s).Some? && IsFirstCrossing(d, s, TurningPointOf(d, s).value)
  {
  }

  /** Without a sign change the detector reports the fallback's choice. */
  lemma FallbackOnlyWithoutCrossing(d: seq<real>, s: Season)
    requires NoCrossing(d, s)
    ensures TurningPointOf(d, s) == Fallback(d, s)
  {
  }

  /** A day chosen by the fallback, when no sign change exists, holds a value
      strictly between zero and the threshold: (0, 0.5) in summer, (-0.5, 0) in
      winter. */
  lemma FallbackBounds(d: seq<real>, s: Season)
    ensures NoCrossing(d, s) && Fallback(d, s).Some? ==>
      var x := d[Fallback(d, s).value];
      match s
      case Summer => 0.0 < x < NearZeroThreshold
      case Winter => -NearZeroThreshold < x < 0.0
  {
    if NoCrossing(d, s) && Fallback(d, s).Some? {
      assert !Crossing(d, s, Fallback(d, s).value);
    }
  }

  /** No turning point is reported exactly when the series has neither a sign
      change nor a fallback candidate. */
  lemma AbsentExactlyWithoutEvidence(d: seq<real>, s: Season)
    ensures TurningPointOf(d, s).None? <==> NoCrossing(d, s) && NoCandidate(d, s)
  {
  }

  /** The seven-day example's derivatives change sign first at day 3, for
      summer, and that is the summer turning point. */
  lemma SummerExample()
    ensures IsFirstCrossing([6.0, 9.0, 6.0, -3.0, -9.0, -12.0, -12.0], Summer, 3)
    ensures TurningPointOf([6.0, 9.0, 6.0, -3.0, -9.0, -12.0, -12.0], Summer) == Some(3)
  {
    FirstCrossingIsUnique([6.0, 9.0, 6.0, -3.0, -9.0, -12.0, -12.0], Summer, 3);
  }

  /** A series with a late sign change: the first day at or below zero after a
      positive day is reported, and the fallback is never consulted. */
  const LateCrossing: seq<real> := [5.0, 3.0, 1.0, 0.3, 0.2, -0.1, -2.0]

  lemma LateCrossingExample()
    ensures IsFirstCrossing(LateCrossing, Summer, 5)
    ensures TurningPointOf(LateCrossing, Summer) == Some(5)
  {
    var d := LateCrossing;
    forall j | 1 <= j < 5
      ensures !Crossing(d, Summer, j)
    {
      assert j == 1 || j == 2 || j == 3 || j == 4;
    }
    FirstCrossingIsUnique(d, Summer, 5);
  }

  /** A derivative series that approaches zero but never changes sign. */
  const ApproachOnly: seq<real> := [4.0, 2.0, 0.9, 0.4, 0.6, 1.0, 2.0]

  lemma ApproachOnlyHasNoCrossing()
    ensures FirstCrossingFrom(ApproachOnly, Summer, 1) == None
    ensures FirstCrossingFrom(ApproachOnly, Winter, 1) == None
  {
    var d := ApproachOnly;
    assert FirstCrossingFrom(d, Summer, 6) == None;
    assert FirstCrossingFrom(d, Summer, 4) == None;
    assert FirstCrossingFrom(d, Summer, 2) == None;
    assert FirstCrossingFrom(d, Winter, 6) == None;
    assert FirstCrossingFrom(d, Winter, 4) == None;
    assert FirstCrossingFrom(d, Winter, 2) == None;
  }

  lemma ApproachOnlySummerFallback()
    ensures Fallback(ApproachOnly, Summer) == Some(3)
  {
    var d := ApproachOnly;
    assert Candidate(d, Summer, 3);
    var i := Fallback(d, Summer).value;
    assert i == 1 || i == 2 || i == 3 || i == 4 || i == 5 || i == 6;
  }

  lemma ApproachOnlyWinterFallback()
    ensures Fallback(ApproachOnly, Winter) == None
  {
    var d := ApproachOnly;
    forall j | 1 <= j < |d|
      ensures !Candidate(d, Winter, j)
    {
      assert j == 1 || j == 2 || j == 3 || j == 4 || j == 5 || j == 6;
    }
  }

  /** A series that only approaches zero has no sign change; the summer
      fallback picks day 3 (value 0.4) and winter finds nothing. */
  lemma ApproachOnlyExample()
    ensures NoCrossing(ApproachOnly, Summer)
    ensures TurningPointOf(ApproachOnly, Summer) == Some(3)
    ensures TurningPointOf(ApproachOnly, Winter) == None
  {
    ApproachOnlyHasNoCrossing();
    ApproachOnlySummerFallback();
    ApproachOnlyWinterFallback();
  }
}
