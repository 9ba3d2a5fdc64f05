/** The generic keyframe track of the viewer (class KeyFrames): a sorted
    list of (time, value) pairs sampled at any time, clamping at both ends
    and interpolating in between with a pluggable function. */
module KeyFrameTracks {
  import opened Geometry

  /** Building a track from no pairs fails when the empty list of pairs is
      unpacked into times and values. */
  datatype TrackError = NotEnoughValuesToUnpack

  datatype Result<T> = Success(value: T) | Failure(error: TrackError)

  /** A track: parallel sequences of times and values, and the function that
      interpolates between two neighbouring values. */
  datatype KeyFrames<!V> = KeyFrames(times: seq<real>, values: seq<V>, interpolate: (V, V, real) -> V)
  {
    /** What construction guarantees: at least one keyframe, times and
        values index-paired, times sorted ascending. */
    predicate Valid()
    {
      |times| == |values| && 1 <= |times| && NonDecreasing(times)
    }
  }

  predicate NonDecreasing(s: seq<real>)
  {
    forall i, j :: 0 <= i <= j < |s| ==> s[i] <= s[j]
  }

  predicate StrictlyIncreasing(s: seq<real>)
  {
    forall i, j :: 0 <= i < j < |s| ==> s[i] < s[j]
  }

  predicate SortedByTime<V>(ps: seq<(real, V)>)
  {
    forall i, j :: 0 <= i <= j < |ps| ==> ps[i].0 <= ps[j].0
  }

  predicate DistinctTimes<V>(ps: seq<(real, V)>)
  {
    forall i, j :: 0 <= i < j < |ps| ==> ps[i].0 != ps[j].0
  }

  function TimesOf<V>(ps: seq<(real, V)>): (ts: seq<real>)
    ensures |ts| == |ps| && forall i :: 0 <= i < |ps| ==> ts[i] == ps[i].0
  {
    seq(|ps|, i requires 0 <= i < |ps| => ps[i].0)
  }

  function ValuesOf<V>(ps: seq<(real, V)>): (vs: seq<V>)
    ensures |vs| == |ps| && forall i :: 0 <= i < |ps| ==> vs[i] == ps[i].1
  {
    seq(|ps|, i requires 0 <= i < |ps| => ps[i].1)
  }

  /** The keyframes of a track as (time, value) pairs, in track order. */
  function Pairs<V>(k: KeyFrames<V>): seq<(real, V)>
    requires |k.times| == |k.values|
  {
    seq(|k.times|, i requires 0 <= i < |k.times| => (k.times[i], k.values[i]))
  }

  /** Inserts one pair into a list sorted by time, before every pair of
      equal or later time. */
  function InsertByTime<V>(p: (real, V), ps: seq<(real, V)>): (r: seq<(real, V)>)
    requires SortedByTime(ps)
    ensures |r| == |ps| + 1
    ensures multiset(r) == multiset(ps) + multiset{p}
    ensures r[0] == p || (|ps| > 0 && r[0] == ps[0])
    ensures SortedByTime(r)
  {
    if ps == [] || p.0 <= ps[0].0 then
      ConsSorted(p, ps);
      [p] + ps
    else
      SortedTail(ps);
      var r' := InsertByTime(p, ps[1..]);
      assert multiset(ps) == multiset{ps[0]} + multiset(ps[1..]) by {
        assert ps == [ps[0]] + ps[1..];
      }
      ConsSorted(ps[0], r');
      [ps[0]] + r'
  }

  /** The tail of a sorted list is sorted and starts no earlier than its
      head. */
  lemma SortedTail<V>(ps: seq<(real, V)>)
    requires SortedByTime(ps) && ps != []
    ensures SortedByTime(ps[1..])
    ensures |ps| > 1 ==> ps[0].0 <= ps[1].0
  {
  }

  /** A pair no later than the head of a sorted list can be put in front. */
  lemma ConsSorted<V>(x: (real, V), ps: seq<(real, V)>)
    requires SortedByTime(ps) && (ps != [] ==> x.0 <= ps[0].0)
    ensures SortedByTime([x] + ps)
  {
    var r := [x] + ps;
    forall i, j | 0 <= i <= j < |r| ensures r[i].0 <= r[j].0 {
      if 0 < i {
        assert r[i] == ps[i - 1] && r[j] == ps[j - 1];
      } else if 0 < j {
        assert r[j] == ps[j - 1] && ps[0].0 <= ps[j - 1].0;
      }
    }
  }

  /** The sort `sorted` performs on the keyframe pairs, by time; pairs of
      equal time keep their input order. */
  function SortByTime<V>(ps: seq<(real, V)>): (r: seq<(real, V)>)
    ensures |r| == |ps|
    ensures multiset(r) == multiset(ps)
    ensures SortedByTime(r)
  {
    if ps == [] then
      []
    else
      assert ps == [ps[0]] + ps[1..];
      InsertByTime(ps[0], SortByTime(ps[1..]))
  }

  /** Inserting a pair whose time is new into a list with strictly
      increasing times keeps the times strictly increasing. */
  lemma {:induction false} InsertKeepsStrict<V>(p: (real, V), ps: seq<(real, V)>)
    requires SortedByTime(ps) && StrictlyIncreasing(TimesOf(ps)) && p.0 !in TimesOf(ps)
    ensures StrictlyIncreasing(TimesOf(InsertByTime(p, ps)))
  {
    if ps != [] && ps[0].0 < p.0 {
      var tail := ps[1..];
      assert TimesOf(tail) == TimesOf(ps)[1..];
      InsertKeepsStrict(p, tail);
      var r' := InsertByTime(p, tail);
      assert ps[0].0 < r'[0].0;
      assert InsertByTime(p, ps) == [ps[0]] + r';
    }
  }

  /** Sorting pairs whose times are pairwise distinct yields strictly
      increasing times. */
  lemma {:induction false} SortKeepsStrict<V>(ps: seq<(real, V)>)
    requires DistinctTimes(ps)
    ensures StrictlyIncreasing(TimesOf(SortByTime(ps)))
  {
    if ps != [] {
      var tail := ps[1..];
      assert ps == [ps[0]] + tail;
      var rest := SortByTime(tail);
      SortKeepsStrict(tail);
      forall k | 0 <= k < |rest| ensures rest[k].0 != ps[0].0 {
        assert rest[k] in multiset(tail);
        var m :| 0 <= m < |tail| && tail[m] == rest[k];
        assert ps[m + 1] == rest[k];
      }
      InsertKeepsStrict(ps[0], rest);
    }
  }

  /** Models KeyFrames.__init__: sorts the pairs and splits them into
      index-paired times and values; empty input fails. */
  function FromPairs<V>(pairs: seq<(real, V)>, interpolate: (V, V, real) -> V): (r: Result<KeyFrames<V>>)
    ensures r.Failure? <==> pairs == []
    ensures r.Success? ==> r.value.Valid() && r.value.interpolate == interpolate
    ensures r.Success? ==> |r.value.times| == |pairs| && multiset(Pairs(r.value)) == multiset(pairs)
    ensures r.Success? && DistinctTimes(pairs) ==> StrictlyIncreasing(r.value.times)
  {
    if pairs == [] then
      Failure(NotEnoughValuesToUnpack)
    else
      var sorted := SortByTime(pairs);
      var k := KeyFrames(TimesOf(sorted), ValuesOf(sorted), interpolate);
      assert Pairs(k) == sorted;
      assert DistinctTimes(pairs) ==> StrictlyIncreasing(k.times) by {
        if DistinctTimes(pairs) {
          SortKeepsStrict(pairs);
        }
      }
      Success(k)
  }

  /** The index bisect_left returns: the number of leading elements smaller
      than x, which for a sorted sequence is the first index whose element
      is at least x. */
  function LowerBound(a: seq<real>, x: real): (i: nat)
    ensures i <= |a|
    ensures forall j :: 0 <= j < i ==> a[j] < x
    ensures i < |a| ==> x <= a[i]
    ensures NonDecreasing(a) ==> forall j :: i <= j < |a| ==> x <= a[j]
  {
    if a == [] || x <= a[0] then 0 else 1 + LowerBound(a[1..], x)
  }

  /** Models bisect_left(a, x) on a sorted sequence: the binary search with
      lo, hi and mid = (lo + hi) // 2. */
  method BisectLeft(a: seq<real>, x: real) returns (lo: nat)
    requires NonDecreasing(a)
    ensures lo <= |a|
    ensures forall j :: 0 <= j < lo ==> a[j] < x
    ensures forall j :: lo <= j < |a| ==> x <= a[j]
    ensures lo == LowerBound(a, x)
  {
    lo := 0;
    var hi := |a|;
    while lo < hi
      invariant 0 <= lo <= hi <= |a|
      invariant forall j :: 0 <= j < lo ==> a[j] < x
      invariant forall j :: hi <= j < |a| ==> x <= a[j]
      decreases hi - lo
    {
      var mid := (lo + hi) / 2;
      if a[mid] < x {
        lo := mid + 1;
      } else {
        hi := mid;
      }
    }
    LowerBoundUnique(a, x, lo);
  }

  /** Any index that splits a sequence into "smaller than x" and "at least
      x" is the one LowerBound computes. */
  lemma {:induction false} LowerBoundUnique(a: seq<real>, x: real, i: nat)
    requires i <= |a|
    requires forall j :: 0 <= j < i ==> a[j] < x
    requires forall j :: i <= j < |a| ==> x <= a[j]
    ensures i == LowerBound(a, x)
  {
    if a != [] && i > 0 {
      LowerBoundUnique(a[1..], x, i - 1);
    }
  }

  /** The interpolation fraction between keyframes i - 1 and i. */
  function Fraction(times: seq<real>, i: nat, t: real): real
    requires 1 <= i < |times| && times[i - 1] < times[i]
  {
    (t - times[i - 1]) / (times[i] - times[i - 1])
  }

  /** KeyFrames.value: clamp below the first and above the last time,
      otherwise interpolate between the two keyframes around t. */
  function Value<V>(k: KeyFrames<V>, t: real): V
    requires k.Valid()
  {
    var n := |k.times|;
    if t <= k.times[0] then
      k.values[0]
    else if t >= k.times[n - 1] then
      k.values[n - 1]
    else
      var i := LowerBound(k.times, t);
      k.interpolate(k.values[i - 1], k.values[i], Fraction(k.times, i, t))
  }

  /** The executable form of KeyFrames.value, searching with BisectLeft.
      It changes nothing, so the same time always gives the same value. */
  method Sample<V>(k: KeyFrames<V>, t: real) returns (v: V)
    requires k.Valid()
    ensures v == Value(k, t)
  {
    var n := |k.times|;
    if t <= k.times[0] {
      return k.values[0];
    }
    if t >= k.times[n - 1] {
      return k.values[n - 1];
    }
    var index := BisectLeft(k.times, t);
    var f := (t - k.times[index - 1]) / (k.times[index] - k.times[index - 1]);
    v := k.interpolate(k.values[index - 1], k.values[index], f);
  }

  /** At or before the first keyframe time the first value is returned. */
  lemma ValueClampsBelow<V>(k: KeyFrames<V>, t: real)
    requires k.Valid() && t <= k.times[0]
    ensures Value(k, t) == k.values[0]
  {
  }

  /** At or after the last keyframe time the last value is returned,
      unless t is also at or before the first time of a track with several
      keyframes: there the clamp below answers first. */
  lemma ValueClampsAbove<V>(k: KeyFrames<V>, t: real)
    requires k.Valid() && t >= k.times[|k.times| - 1]
    requires k.times[0] < t || |k.times| == 1
    ensures Value(k, t) == k.values[|k.values| - 1]
  {
  }

  /** Strictly inside the track, the search index lies in 1 .. n-1 and
      brackets t: times[i-1] < t <= times[i]; the fraction lies in (0, 1]
      and the value interpolates the two bracketing keyframe values. */
  lemma ValueInterpolatesInside<V>(k: KeyFrames<V>, t: real)
    requires k.Valid()
    requires k.times[0] < t < k.times[|k.times| - 1]
    ensures var i := LowerBound(k.times, t);
      && 1 <= i <= |k.times| - 1
      && k.times[i - 1] < t <= k.times[i]
      && 0.0 < Fraction(k.times, i, t) <= 1.0
      && Value(k, t) == k.interpolate(k.values[i - 1], k.values[i], Fraction(k.times, i, t))
  {
    var i := LowerBound(k.times, t);
    FractionRange(k.times[i - 1], k.times[i], t);
  }

  lemma FractionRange(a: real, b: real, t: real)
    requires a < t <= b
    ensures 0.0 < (t - a) / (b - a) <= 1.0
  {
    var f := (t - a) / (b - a);
    assert f * (b - a) == t - a;
  }

  /** A track with a single keyframe is constant. */
  lemma SingleKeyFrameIsConstant<V>(k: KeyFrames<V>, t: real)
    requires k.Valid() && |k.times| == 1
    ensures Value(k, t) == k.values[0]
  {
  }

  /** For a numeric track interpolated linearly, the sampled value never
      overshoots the two keyframe values around t. */
  lemma LerpTrackNoOvershoot(k: KeyFrames<real>, t: real)
    requires k.Valid() && k.interpolate == Lerp
    requires k.times[0] < t < k.times[|k.times| - 1]
    ensures var i := LowerBound(k.times, t);
      && (k.values[i - 1] <= k.values[i] ==> k.values[i - 1] <= Value(k, t) <= k.values[i])
      && (k.values[i] <= k.values[i - 1] ==> k.values[i] <= Value(k, t) <= k.values[i - 1])
  {
    var i := LowerBound(k.times, t);
    ValueInterpolatesInside(k, t);
    LerpBetween(k.values[i - 1], k.values[i], Fraction(k.times, i, t));
  }

  /** Between two consecutive keyframes a linearly interpolated numeric
      track moves monotonically from the earlier to the later value. */
  lemma LerpTrackMonotone(k: KeyFrames<real>, t1: real, t2: real)
    requires k.Valid() && k.interpolate == Lerp
    requires k.times[0] < t1 <= t2 < k.times[|k.times| - 1]
    requires LowerBound(k.times, t1) == LowerBound(k.times, t2)
    ensures var i := LowerBound(k.times, t1);
      && (k.values[i - 1] <= k.values[i] ==> Value(k, t1) <= Value(k, t2))
      && (k.values[i] <= k.values[i - 1] ==> Value(k, t2) <= Value(k, t1))
  {
    var i := LowerBound(k.times, t1);
    ValueInterpolatesInside(k, t1);
    ValueInterpolatesInside(k, t2);
    FractionMonotone(k.times[i - 1], k.times[i], t1, t2);
    LerpMonotone(k.values[i - 1], k.values[i], Fraction(k.times, i, t1), Fraction(k.times, i, t2));
  }

  lemma FractionMonotone(a: real, b: real, t1: real, t2: real)
    requires a < b && t1 <= t2
    ensures (t1 - a) / (b - a) <= (t2 - a) / (b - a)
  {
    var d := b - a;
    assert (t1 - a) / d == (t1 - a) * (1.0 / d);
    assert (t2 - a) / d == (t2 - a) * (1.0 / d);
    MulMonotone(t1 - a, t2 - a, 1.0 / d);
  }
}
