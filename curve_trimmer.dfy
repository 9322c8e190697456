/**
  Fracture detection and trimming of one stress-strain curve
  (`MechanicalDataProcessor.detect_fracture_point` and
  `trim_curve_to_fracture`).
*/
module CurveTrimmer {
  import opened Wrappers
  import opened SeqMath

  /** The `fracture_detection` section of the processing configuration. */
  datatype FractureConfig = FractureConfig(stopMaxStress: bool, dropThreshold: real, minPoints: nat)

  /** `np.argmax`: the first index that holds the greatest value. */
  function ArgMax(s: seq<real>): (r: nat)
    requires |s| > 0
    ensures r < |s|
    ensures forall j :: 0 <= j < |s| ==> s[j] <= s[r]
    ensures forall j :: 0 <= j < r ==> s[j] < s[r]
    decreases |s|
  {
    if |s| == 1 then 0
    else
      var m := ArgMax(s[..|s| - 1]);
      assert forall j :: 0 <= j < |s| - 1 ==> s[..|s| - 1][j] == s[j];
      if s[|s| - 1] > s[m] then |s| - 1 else m
  }

  /** `np.argmin(np.abs(s))`: the first index whose value is closest to zero. */
  function ArgMinAbs(s: seq<real>): (r: nat)
    requires |s| > 0
    ensures r < |s|
    ensures forall j :: 0 <= j < |s| ==> Abs(s[r]) <= Abs(s[j])
    ensures forall j :: 0 <= j < r ==> Abs(s[r]) < Abs(s[j])
    decreases |s|
  {
    if |s| == 1 then 0
    else
      var m := ArgMinAbs(s[..|s| - 1]);
      assert forall j :: 0 <= j < |s| - 1 ==> s[..|s| - 1][j] == s[j];
      if Abs(s[|s| - 1]) < Abs(s[m]) then |s| - 1 else m
  }

  /** Too few points for detection: fewer than `min_points + 10`. */
  predicate TooShort(stress: seq<real>, cfg: FractureConfig)
  {
    |stress| < cfg.minPoints + 10
  }

  /** The stress a point must fall below to count as the post-peak drop. */
  function DropLevel(stress: seq<real>, cfg: FractureConfig): real
    requires |stress| > 0
  {
    stress[ArgMax(stress)] * (1.0 - cfg.dropThreshold)
  }

  /** Index `i` lies in the scanned range and its stress has dropped below the level. */
  predicate IsDrop(stress: seq<real>, cfg: FractureConfig, i: int)
    requires !TooShort(stress, cfg)
  {
    ArgMax(stress) <= i < |stress| - cfg.minPoints && stress[i] < DropLevel(stress, cfg)
  }

  /** The first index in `[i, limit)` whose stress lies below `level`. */
  function FirstBelow(stress: seq<real>, level: real, i: nat, limit: nat): (r: Option<nat>)
    requires limit <= |stress|
    ensures r.Some? ==> i <= r.value < limit && stress[r.value] < level
    ensures r.Some? ==> forall j :: i <= j < r.value ==> stress[j] >= level
    ensures r.None? ==> forall j :: i <= j < limit ==> stress[j] >= level
    decreases limit - i
  {
    if i >= limit then None
    else if stress[i] < level then Some(i)
    else FirstBelow(stress, level, i + 1, limit)
  }

  /**
    The fracture index of a stress series: none for a too-short series, the
    peak under `stop_max_stress`, and otherwise the first index from the peak
    on, before the last `min_points` points, whose stress has dropped below
    `max_stress * (1 - drop_threshold)`.
  */
  function FractureIndex(stress: seq<real>, cfg: FractureConfig): (r: Option<nat>)
    ensures TooShort(stress, cfg) ==> r == None
    ensures !TooShort(stress, cfg) && cfg.stopMaxStress ==> r == Some(ArgMax(stress))
    ensures !TooShort(stress, cfg) && !cfg.stopMaxStress && r.Some? ==>
      IsDrop(stress, cfg, r.value) && forall j :: ArgMax(stress) <= j < r.value ==> !IsDrop(stress, cfg, j)
    ensures !TooShort(stress, cfg) && !cfg.stopMaxStress && r.None? ==>
      forall j :: 0 <= j < |stress| ==> !IsDrop(stress, cfg, j)
  {
    if TooShort(stress, cfg) then None
    else if cfg.stopMaxStress then Some(ArgMax(stress))
    else FirstBelow(stress, DropLevel(stress, cfg), ArgMax(stress), |stress| - cfg.minPoints)
  }

  /** `detect_fracture_point`: the forward scan from the peak, with early return. */
  method DetectFracturePoint(stress: seq<real>, cfg: FractureConfig) returns (r: Option<nat>)
    ensures r == FractureIndex(stress, cfg)
  {
    if |stress| < cfg.minPoints + 10 {
      return None;
    }
    var maxStressIdx := ArgMax(stress);
    if cfg.stopMaxStress {
      return Some(maxStressIdx);
    }
    var level := DropLevel(stress, cfg);
    var limit := |stress| - cfg.minPoints;
    assert FractureIndex(stress, cfg) == FirstBelow(stress, level, maxStressIdx, limit);
    var i := maxStressIdx;
    while i < limit
      invariant maxStressIdx <= i
      invariant FirstBelow(stress, level, i, limit) == FirstBelow(stress, level, maxStressIdx, limit)
    {
      if stress[i] < level {
        assert FirstBelow(stress, level, i, limit) == Some(i);
        return Some(i);
      }
      assert FirstBelow(stress, level, i, limit) == FirstBelow(stress, level, i + 1, limit);
      i := i + 1;
    }
    return None;
  }

  /** What `trim_curve_to_fracture` reports about a trim. */
  datatype TrimInfo = TrimInfo(
    originalPoints: nat,
    trimmedPoints: nat,
    zeroStrainIdx: nat,
    fractureIdx: Option<nat>,
    fractureDetected: bool,
    strainRange: (real, real),
    stressRange: (real, real),
    maxStress: real)

  datatype Trimmed = Trimmed(strain: seq<real>, stress: seq<real>, info: TrimInfo)

  /**
    The three ways `trim_curve_to_fracture` ends: `(None, None, None)` for an
    empty input, a `ValueError` raised by `min()` on an empty slice, or a
    trimmed curve.
  */
  datatype TrimOutcome = NoData | EmptySlice | Trim(trimmed: Trimmed)

  /** Where the kept part of the curve ends (exclusive). */
  function EndIndex(strain: seq<real>, stress: seq<real>, cfg: FractureConfig): nat
  {
    match FractureIndex(stress, cfg)
    case None => |strain|
    case Some(i) => i
  }

  /** `trim_curve_to_fracture`. */
  function TrimCurveToFracture(strain: seq<real>, stress: seq<real>, cfg: FractureConfig): TrimOutcome
  {
    if |strain| == 0 || |stress| == 0 then NoData
    else
      var start := ArgMinAbs(strain);
      var fracture := FractureIndex(stress, cfg);
      var end := EndIndex(strain, stress, cfg);
      var ts := PySlice(strain, start, end);
      var tp := PySlice(stress, start, end);
      if |ts| == 0 || |tp| == 0 then EmptySlice
      else
        Trim(Trimmed(ts, tp, TrimInfo(
          |strain|, |ts|, start, fracture, fracture.Some?,
          (Min(ts), Max(ts)), (Min(tp), Max(tp)),
          if |tp| > 0 then Max(tp) else 0.0)))
  }

  /**
    On a curve whose two sequences have the same length: the trim keeps the
    half-open slice from the point nearest zero strain to the fracture index
    (or the end), the same slice of both sequences, and fails exactly when
    that slice is empty.
  */
  lemma TrimIsSlice(strain: seq<real>, stress: seq<real>, cfg: FractureConfig)
    requires |strain| == |stress| > 0
    ensures var start := ArgMinAbs(strain);
            var end := EndIndex(strain, stress, cfg);
            && end <= |strain|
            && (TrimCurveToFracture(strain, stress, cfg).EmptySlice? <==> end <= start)
            && (TrimCurveToFracture(strain, stress, cfg).Trim? <==> start < end)
            && (start < end ==>
                  var t := TrimCurveToFracture(strain, stress, cfg).trimmed;
                  && t.strain == strain[start..end]
                  && t.stress == stress[start..end]
                  && t.info.zeroStrainIdx == start
                  && t.info.trimmedPoints == end - start
                  && t.info.originalPoints == |strain|)
  {
    var f := FractureIndex(stress, cfg);
    if f.Some? && !cfg.stopMaxStress {
      assert IsDrop(stress, cfg, f.value);
    }
  }

  /** The fracture is reported exactly when an index was found, and the 0.0 fallback for `max_stress` is never taken. */
  lemma TrimInfoFacts(strain: seq<real>, stress: seq<real>, cfg: FractureConfig)
    requires TrimCurveToFracture(strain, stress, cfg).Trim?
    ensures var t := TrimCurveToFracture(strain, stress, cfg).trimmed;
            && t.info.fractureIdx == FractureIndex(stress, cfg)
            && t.info.fractureDetected == FractureIndex(stress, cfg).Some?
            && t.info.maxStress == Max(t.stress)
            && (forall j :: 0 <= j < |t.stress| ==> t.stress[j] <= t.info.maxStress)
            && t.info.strainRange.0 <= t.info.strainRange.1
            && t.info.stressRange.0 <= t.info.stressRange.1
  {
  }

  /** The first kept point has the least absolute strain of the whole curve. */
  lemma TrimStartsNearestZero(strain: seq<real>, stress: seq<real>, cfg: FractureConfig)
    requires |strain| == |stress|
    requires TrimCurveToFracture(strain, stress, cfg).Trim?
    ensures var t := TrimCurveToFracture(strain, stress, cfg).trimmed;
            forall j :: 0 <= j < |strain| ==> Abs(t.strain[0]) <= Abs(strain[j])
  {
    TrimIsSlice(strain, stress, cfg);
  }

  /**
    Under `stop_max_stress` the slice ends at the peak, and the peak itself is
    excluded: every kept point lies before the first maximum.
  */
  lemma StopAtMaxExcludesPeak(strain: seq<real>, stress: seq<real>, cfg: FractureConfig)
    requires |strain| == |stress|
    requires cfg.stopMaxStress && !TooShort(stress, cfg)
    requires TrimCurveToFracture(strain, stress, cfg).Trim?
    ensures var t := TrimCurveToFracture(strain, stress, cfg).trimmed;
            && ArgMinAbs(strain) < ArgMax(stress)
            && t.stress == stress[ArgMinAbs(strain)..ArgMax(stress)]
            && forall j :: 0 <= j < |t.stress| ==> t.stress[j] < stress[ArgMax(stress)]
  {
    TrimIsSlice(strain, stress, cfg);
    assert EndIndex(strain, stress, cfg) == ArgMax(stress);
    BeforePeak(stress, ArgMinAbs(strain));
  }

  /** Every point strictly before the first maximum is below it. */
  lemma BeforePeak(stress: seq<real>, start: nat)
    requires |stress| > 0 && start <= ArgMax(stress)
    ensures forall j :: 0 <= j < |stress[start..ArgMax(stress)]| ==> stress[start..ArgMax(stress)][j] < stress[ArgMax(stress)]
  {
    var peak := ArgMax(stress);
    forall j | 0 <= j < peak - start
      ensures stress[start..peak][j] < stress[peak]
    {
      assert stress[start..peak][j] == stress[start + j];
    }
  }
}
