/** The scale factor of a raster (`open_raster`, `guess_scale_factor`): the
    first metadata tag that parses as a float, or else a guess from the
    magnitude of a sample of the band. */
module ScaleResolver {
  import opened Wrappers
  import opened Floats

  /** The metadata keys tried, in this order (line 67). */
  const ScaleTagKeys: seq<string> := ["SCALE", "scale_factor", "Scale", "SCALE_FACTOR"]

  /** Python's `float(text)`: `None` where it raises. */
  type FloatParser = string -> Option<Float>

  /** The largest of two magnitudes, ignoring NaN as `np.nanmax` does. */
  function NanMax(a: Float, b: Float): (m: Float)
    requires !a.NegInf? && !b.NegInf?
    ensures m.NaN? <==> a.NaN? && b.NaN?
    ensures m.PosInf? <==> a.PosInf? || b.PosInf?
    ensures !m.NegInf?
    ensures m.Finite? ==> (m == a || m == b)
    ensures m.Finite? && a.Finite? ==> a.r <= m.r
    ensures m.Finite? && b.Finite? ==> b.r <= m.r
  {
    if a.NaN? then b
    else if b.NaN? then a
    else if a.PosInf? || b.PosInf? then PosInf
    else if a.r <= b.r then b else a
  }

  /** `np.nanmax(np.abs(arr))` on a non-empty sample. */
  function MaxAbs(xs: seq<Float>): (m: Float)
    ensures !m.NegInf?
    ensures m.Finite? ==> m.r >= 0.0
  {
    if xs == [] then NaN
    else
      var init := MaxAbs(xs[..|xs| - 1]);
      NanMax(init, Abs(xs[|xs| - 1]))
  }

  /** The magnitude `MaxAbs` finds: NaN only when every value is NaN, +Inf
      exactly when an infinity is present, otherwise the largest finite
      magnitude, which some value has. */
  lemma {:induction false} MaxAbsMeaning(xs: seq<Float>)
    ensures MaxAbs(xs).NaN? <==> forall i :: 0 <= i < |xs| ==> xs[i].NaN?
    ensures MaxAbs(xs).PosInf? <==> exists i :: 0 <= i < |xs| && IsInfinite(xs[i])
    ensures MaxAbs(xs).Finite? ==>
      (forall i :: 0 <= i < |xs| && xs[i].Finite? ==> Abs(xs[i]).r <= MaxAbs(xs).r)
      && exists i :: 0 <= i < |xs| && xs[i].Finite? && Abs(xs[i]) == MaxAbs(xs)
  {
    if xs != [] {
      var init := xs[..|xs| - 1];
      var last := xs[|xs| - 1];
      MaxAbsMeaning(init);
      assert forall i :: 0 <= i < |init| ==> init[i] == xs[i];
      if MaxAbs(xs).PosInf? && !Abs(last).PosInf? {
        var i :| 0 <= i < |init| && IsInfinite(init[i]);
        assert IsInfinite(xs[i]);
      }
      if MaxAbs(xs).Finite? {
        if MaxAbs(xs) == Abs(last) {
          assert xs[|xs| - 1].Finite? && Abs(xs[|xs| - 1]) == MaxAbs(xs);
        } else {
          var i :| 0 <= i < |init| && init[i].Finite? && Abs(init[i]) == MaxAbs(init);
          assert xs[i].Finite? && Abs(xs[i]) == MaxAbs(xs);
        }
      }
    }
  }

  /** `guess_scale_factor`: 1 for an empty or wholly non-finite sample, else
      0.1 exactly when the largest magnitude lies strictly between 80 and
      1000. */
  function GuessScaleFactor(sample: seq<Float>): (sf: Float)
    ensures sf == Finite(0.1) || sf == Finite(1.0)
  {
    if |sample| == 0 || forall i :: 0 <= i < |sample| ==> !IsFinite(sample[i]) then Finite(1.0)
    else
      var vmax := MaxAbs(sample);
      if vmax.Finite? && 80.0 < vmax.r < 1000.0 then Finite(0.1) else Finite(1.0)
  }

  /** The guess is 0.1 exactly when the sample holds no infinity, some
      finite magnitude above 80, and every finite magnitude below 1000. */
  lemma GuessScaleFactorMeaning(sample: seq<Float>)
    ensures GuessScaleFactor(sample) == Finite(0.1) <==>
      && (forall i :: 0 <= i < |sample| ==> !IsInfinite(sample[i]))
      && (exists i :: 0 <= i < |sample| && sample[i].Finite? && Abs(sample[i]).r > 80.0)
      && (forall i :: 0 <= i < |sample| && sample[i].Finite? ==> Abs(sample[i]).r < 1000.0)
  {
    MaxAbsMeaning(sample);
    var m := MaxAbs(sample);
    if exists i :: 0 <= i < |sample| && sample[i].Finite? && Abs(sample[i]).r > 80.0 {
      var i :| 0 <= i < |sample| && sample[i].Finite? && Abs(sample[i]).r > 80.0;
      assert IsFinite(sample[i]);
    }
  }

  /** The bounds are strict: a sample whose magnitudes stay at or below 80,
      or one that reaches 1000, is not rescaled. */
  lemma GuessScaleFactorBoundaries(sample: seq<Float>)
    ensures (|| (forall i :: 0 <= i < |sample| && sample[i].Finite? ==> Abs(sample[i]).r <= 80.0)
             || (exists i :: 0 <= i < |sample| && sample[i].Finite? && Abs(sample[i]).r >= 1000.0))
      ==> GuessScaleFactor(sample) == Finite(1.0)
  {
    GuessScaleFactorMeaning(sample);
  }

  /** `guess_scale_factor` of a sample that holds an infinity is 1. */
  lemma GuessScaleFactorInfinite(sample: seq<Float>, i: int)
    requires 0 <= i < |sample| && IsInfinite(sample[i])
    ensures GuessScaleFactor(sample) == Finite(1.0)
  {
    GuessScaleFactorMeaning(sample);
  }

  /** `keys[i]` is the first key whose tag is present and parses. */
  predicate FirstParsed(keys: seq<string>, tags: map<string, string>, parse: FloatParser, i: int) {
    && 0 <= i < |keys| && keys[i] in tags && parse(tags[keys[i]]).Some?
    && forall j :: 0 <= j < i ==> keys[j] !in tags || parse(tags[keys[j]]).None?
  }

  /** The value of the first tag among `keys` that parses as a float. */
  function FirstParsedTag(keys: seq<string>, tags: map<string, string>, parse: FloatParser): (r: Option<Float>)
    ensures r.None? <==> forall i :: 0 <= i < |keys| ==> keys[i] !in tags || parse(tags[keys[i]]).None?
    ensures r.Some? ==> exists i :: FirstParsed(keys, tags, parse, i) && r == parse(tags[keys[i]])
  {
    if keys == [] then None
    else if keys[0] in tags && parse(tags[keys[0]]).Some? then
      assert FirstParsed(keys, tags, parse, 0);
      parse(tags[keys[0]])
    else
      var r := FirstParsedTag(keys[1..], tags, parse);
      if r.Some? then
        var i :| FirstParsed(keys[1..], tags, parse, i) && r == parse(tags[keys[1..][i]]);
        assert FirstParsed(keys, tags, parse, i + 1);
        r
      else r
  }

  /** Only one key can be the first that parses. */
  lemma FirstParsedUnique(keys: seq<string>, tags: map<string, string>, parse: FloatParser, i: int, j: int)
    requires FirstParsed(keys, tags, parse, i) && FirstParsed(keys, tags, parse, j)
    ensures i == j
  {
  }

  /** The scale factor `open_raster` settles on for these tags and sample. */
  function ScaleFactor(tags: map<string, string>, parse: FloatParser, sample: seq<Float>): Float {
    match FirstParsedTag(ScaleTagKeys, tags, parse)
    case Some(v) => v
    case None => GuessScaleFactor(sample)
  }

  /** A parsed tag decides the factor whatever the sample holds. */
  lemma TagOverridesSample(tags: map<string, string>, parse: FloatParser, s1: seq<Float>, s2: seq<Float>, i: int)
    requires FirstParsed(ScaleTagKeys, tags, parse, i)
    ensures ScaleFactor(tags, parse, s1) == ScaleFactor(tags, parse, s2) == parse(tags[ScaleTagKeys[i]]).value
  {
    var r := FirstParsedTag(ScaleTagKeys, tags, parse);
    var j :| FirstParsed(ScaleTagKeys, tags, parse, j) && r == parse(tags[ScaleTagKeys[j]]);
    FirstParsedUnique(ScaleTagKeys, tags, parse, i, j);
  }

  /** Lines 66-76: try each tag key in order, keep the first value that
      parses (skipping those that raise), and fall back to the guess from
      the sample. The sample is the band read without its mask, so nodata
      values are part of it. */
  method OpenRasterScale(tags: map<string, string>, parse: FloatParser, sample: seq<Float>) returns (sf: Float)
    ensures sf == ScaleFactor(tags, parse, sample)
    ensures (forall i :: 0 <= i < |ScaleTagKeys| ==> ScaleTagKeys[i] !in tags || parse(tags[ScaleTagKeys[i]]).None?)
      ==> sf == GuessScaleFactor(sample)
  {
    var found: Option<Float> := None;
    var k := 0;
    while k < |ScaleTagKeys|
      invariant 0 <= k <= |ScaleTagKeys|
      invariant found == None
      invariant FirstParsedTag(ScaleTagKeys, tags, parse) == FirstParsedTag(ScaleTagKeys[k..], tags, parse)
    {
      var key := ScaleTagKeys[k];
      if key in tags {
        var v := parse(tags[key]);
        if v.Some? {
          assert FirstParsedTag(ScaleTagKeys[k..], tags, parse) == v;
          found := v;
          break;
        }
      }
      assert ScaleTagKeys[k..][1..] == ScaleTagKeys[k + 1..];
      k := k + 1;
    }
    if found.Some? {
      sf := found.value;
    } else {
      sf := GuessScaleFactor(sample);
    }
  }
}
