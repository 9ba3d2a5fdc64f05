/** The viewer's TransformKeyFrames: three keyframe tracks (translation,
    rotation, scale) sampled at one, possibly looped, time and composed as
    translate @ rotate @ scale. */
module TransformTracks {
  import opened Geometry
  import opened KeyFrameTracks

  datatype TransformKeyFrames = TransformKeyFrames(
    translation: KeyFrames<Vec3>,
    rotation: KeyFrames<Quat>,
    scaling: KeyFrames<real>)
  {
    predicate Valid()
    {
      translation.Valid() && rotation.Valid() && scaling.Valid()
    }
  }

  /** Models TransformKeyFrames.__init__: translation and scale keys are
      interpolated linearly, rotation keys by spherical interpolation; the
      constructor fails as soon as one of the three key lists is empty. */
  function New(translateKeys: seq<(real, Vec3)>, rotateKeys: seq<(real, Quat)>, scaleKeys: seq<(real, real)>)
    : (r: Result<TransformKeyFrames>)
    ensures r.Success? <==> translateKeys != [] && rotateKeys != [] && scaleKeys != []
    ensures r.Success? ==> r.value.Valid()
    ensures r.Success? ==>
      && r.value.translation.interpolate == LerpVec
      && r.value.rotation.interpolate == QuaternionSlerp
      && r.value.scaling.interpolate == Lerp
    ensures r.Success? ==>
      && multiset(Pairs(r.value.translation)) == multiset(translateKeys)
      && multiset(Pairs(r.value.rotation)) == multiset(rotateKeys)
      && multiset(Pairs(r.value.scaling)) == multiset(scaleKeys)
  {
    var t := FromPairs(translateKeys, LerpVec);
    var q := FromPairs(rotateKeys, QuaternionSlerp);
    var s := FromPairs(scaleKeys, Lerp);
    if t.Failure? then Failure(t.error)
    else if q.Failure? then Failure(q.error)
    else if s.Failure? then Failure(s.error)
    else Success(TransformKeyFrames(t.value, q.value, s.value))
  }

  /** Python's float remainder t % p = t - p * floor(t / p): the result has
      the sign of p. */
  function PyMod(t: real, p: real): real
    requires p != 0.0
  {
    t - p * ((t / p).Floor as real)
  }

  /** The time at which the tracks are sampled: wrapped by the loop period,
      or unchanged when the period is 0. */
  function WrapTime(t: real, period: real): real
  {
    if period != 0.0 then PyMod(t, period) else t
  }

  /** TransformKeyFrames.value(time, max): the composed transform at the
      wrapped time. */
  function Value(k: TransformKeyFrames, t: real, period: real): Mat4
    requires k.Valid()
  {
    var w := WrapTime(t, period);
    Mul(Mul(Translate(KeyFrameTracks.Value(k.translation, w)),
            QuatMatrix(KeyFrameTracks.Value(k.rotation, w))),
        Scale(KeyFrameTracks.Value(k.scaling, w)))
  }

  /** The executable form of TransformKeyFrames.value: samples the three
      tracks at the same wrapped time and composes them translation first,
      then rotation, then scale. */
  method Sample(k: TransformKeyFrames, t: real, period: real) returns (m: Mat4)
    requires k.Valid()
    ensures m == Value(k, t, period)
  {
    var time := WrapTime(t, period);
    var tr := KeyFrameTracks.Sample(k.translation, time);
    var rot := KeyFrameTracks.Sample(k.rotation, time);
    var sc := KeyFrameTracks.Sample(k.scaling, time);
    m := Mul(Mul(Translate(tr), QuatMatrix(rot)), Scale(sc));
  }

  lemma FloorShift(x: real)
    ensures (x + 1.0).Floor == x.Floor + 1
  {
  }

  lemma QuotientLowerBound(t: real, p: real, q: real, f: real)
    requires p > 0.0 && q * p == t && f <= q
    ensures f * p <= t
  {
    var below := q - f;
    assert below * p >= 0.0;
    assert below * p == q * p - f * p;
  }

  lemma QuotientUpperBound(t: real, p: real, q: real, f: real)
    requires p > 0.0 && q * p == t && q < f + 1.0
    ensures t < f * p + p
  {
    var above := f + 1.0 - q;
    assert above > 0.0;
    assert above * p > 0.0;
    assert above * p == f * p + p - q * p;
    assert f * p + p - q * p > 0.0;
    assert f * p + p - t > 0.0;
  }

  /** A positive loop period maps every time into [0, period). */
  lemma WrapTimeInPeriod(t: real, period: real)
    requires period > 0.0
    ensures 0.0 <= WrapTime(t, period) < period
  {
    var f := (t / period).Floor as real;
    QuotientLowerBound(t, period, t / period, f);
    QuotientUpperBound(t, period, t / period, f);
    assert WrapTime(t, period) == t - period * f;
  }

  /** Shifting the time by one period does not change the wrapped time. */
  lemma WrapTimePeriodic(t: real, period: real)
    requires period != 0.0
    ensures WrapTime(t + period, period) == WrapTime(t, period)
  {
    var q := t / period;
    assert (t + period) / period == t / period + period / period;
    assert period / period == 1.0;
    FloorShift(q);
  }

  /** Looping: with a non-zero period P, value(t + P, P) == value(t, P). */
  lemma ValuePeriodic(k: TransformKeyFrames, t: real, period: real)
    requires k.Valid() && period != 0.0
    ensures Value(k, t + period, period) == Value(k, t, period)
  {
    WrapTimePeriodic(t, period);
  }

  /** Without a loop period the animation plays once and then holds the
      last keyframe of each of the three tracks. */
  lemma ValueHoldsLastPose(k: TransformKeyFrames, t: real)
    requires k.Valid()
    requires t >= k.translation.times[|k.translation.times| - 1]
    requires t >= k.rotation.times[|k.rotation.times| - 1]
    requires t >= k.scaling.times[|k.scaling.times| - 1]
    requires k.translation.times[0] < t || |k.translation.times| == 1
    requires k.rotation.times[0] < t || |k.rotation.times| == 1
    requires k.scaling.times[0] < t || |k.scaling.times| == 1
    ensures Value(k, t, 0.0) ==
      Mul(Mul(Translate(k.translation.values[|k.translation.values| - 1]),
              QuatMatrix(k.rotation.values[|k.rotation.values| - 1])),
          Scale(k.scaling.values[|k.scaling.values| - 1]))
  {
    ValueClampsAbove(k.translation, t);
    ValueClampsAbove(k.rotation, t);
    ValueClampsAbove(k.scaling, t);
  }

  /** With a positive period, every whole multiple of the period restarts
      the animation at the first keyframe of each track, provided the
      tracks start at time 0 or later. */
  lemma ValueRestartsEachPeriod(k: TransformKeyFrames, n: int, period: real)
    requires k.Valid() && period > 0.0
    requires 0.0 <= k.translation.times[0] && 0.0 <= k.rotation.times[0] && 0.0 <= k.scaling.times[0]
    ensures Value(k, n as real * period, period) ==
      Mul(Mul(Translate(k.translation.values[0]), QuatMatrix(k.rotation.values[0])), Scale(k.scaling.values[0]))
  {
    var t := n as real * period;
    assert t / period == n as real;
    assert WrapTime(t, period) == 0.0;
  }
}
