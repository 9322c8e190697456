/**
  Per-experiment processing (`MechanicalDataProcessor.extract_stress_strain_data`
  and `fit_polynomial_to_experiment`): pair the raw strain and stress values,
  trim the curve, fit the polynomial and assemble the result record.
*/
module ExperimentProcessor {
  import opened Wrappers
  import opened JsonValue
  import opened SeqMath
  import opened CurveTrimmer

  /**
    One raw experiment. The strain and stress values are those under
    `rawData.EngineeringStrain.values` and `rawData.EngineeringStress.values`
    (empty when a level is missing); a missing dictionary or list is the empty one.
  */
  datatype Experiment = Experiment(
    strainValues: seq<Option<real>>,
    stressValues: seq<Option<real>>,
    metadata: Dict,
    mechanicalProperties: Dict,
    sampleChain: seq<Dict>,
    associatedTraits: seq<Dict>)

  /** The loaded `experiments` dictionary: ids in insertion order and the records. */
  datatype Dataset = Dataset(ids: seq<string>, experiments: map<string, Experiment>)

  /** The configuration the processor reads. */
  datatype ProcessingConfig = ProcessingConfig(
    fracture: FractureConfig,
    polynomialDegree: int,
    maxExperiments: Option<int>)

  /** A fitted polynomial's coefficients and its R² on the trimmed curve. */
  datatype Fit = Fit(coefficients: seq<real>, rSquared: real)

  /**
    `Polynomial.fit` followed by the R² computation, as an uninterpreted
    function of the trimmed curve and the degree; `None` when numpy raises.
  */
  type Fitter = (seq<real>, seq<real>, int) -> Option<Fit>

  // ---------------------------------------------------------------------------
  // Pairing of the raw values

  function PairLimit(a: seq<Option<real>>, b: seq<Option<real>>): nat
  {
    if |a| < |b| then |a| else |b|
  }

  /** The indices below `n` where both the strain and the stress value are present, in order. */
  function KeptIndices(a: seq<Option<real>>, b: seq<Option<real>>, n: nat): (r: seq<nat>)
    requires n <= |a| && n <= |b|
    ensures forall j :: 0 <= j < |r| ==> r[j] < n && a[r[j]].Some? && b[r[j]].Some?
    decreases n
  {
    if n == 0 then []
    else
      var prefix := KeptIndices(a, b, n - 1);
      if a[n - 1].Some? && b[n - 1].Some? then prefix + [n - 1] else prefix
  }

  /** The kept indices are increasing, and index `i` is kept exactly when both values are present. */
  lemma {:induction false} KeptIndicesExact(a: seq<Option<real>>, b: seq<Option<real>>, n: nat)
    requires n <= |a| && n <= |b|
    ensures var r := KeptIndices(a, b, n);
            && (forall j, k :: 0 <= j < k < |r| ==> r[j] < r[k])
            && (forall i: nat :: i in r <==> i < n && a[i].Some? && b[i].Some?)
    decreases n
  {
    if n > 0 {
      KeptIndicesExact(a, b, n - 1);
    }
  }

  /** The values of `x` at the indices `idx`. */
  function Pick(x: seq<Option<real>>, idx: seq<nat>): (r: seq<real>)
    requires forall j :: 0 <= j < |idx| ==> idx[j] < |x| && x[idx[j]].Some?
    ensures |r| == |idx|
    ensures forall j :: 0 <= j < |idx| ==> r[j] == x[idx[j]].value
    decreases |idx|
  {
    if idx == [] then []
    else Pick(x, idx[..|idx| - 1]) + [x[idx[|idx| - 1]].value]
  }

  /** The indices of the pairs the pairing loop keeps. */
  function Kept(a: seq<Option<real>>, b: seq<Option<real>>): seq<nat>
  {
    KeptIndices(a, b, PairLimit(a, b))
  }

  /**
    The pairing loop of `extract_stress_strain_data`: index `i` below the
    shorter length is kept exactly when both values are present, and the two
    outputs list the kept values in index order.
  */
  method PairValues(a: seq<Option<real>>, b: seq<Option<real>>) returns (strainClean: seq<real>, stressClean: seq<real>)
    ensures strainClean == Pick(a, Kept(a, b))
    ensures stressClean == Pick(b, Kept(a, b))
  {
    strainClean, stressClean := [], [];
    ghost var kept: seq<nat> := [];
    var n := PairLimit(a, b);
    var i := 0;
    while i < n
      invariant i <= n
      invariant kept == KeptIndices(a, b, i)
      invariant strainClean == Pick(a, kept)
      invariant stressClean == Pick(b, kept)
    {
      if a[i].Some? && b[i].Some? {
        assert (kept + [i])[..|kept|] == kept;
        strainClean := strainClean + [a[i].value];
        stressClean := stressClean + [b[i].value];
        kept := kept + [i];
      }
      assert kept == KeptIndices(a, b, i + 1);
      i := i + 1;
    }
  }

  // ---------------------------------------------------------------------------
  // Extraction

  /** What `extract_stress_strain_data` returns on success. */
  datatype Extracted = Extracted(strain: seq<real>, stress: seq<real>, sampleName: Json, info: TrimInfo)

  /**
    `extract_stress_strain_data`: no pair kept, or a trim that fails, gives
    `None`; otherwise the trimmed curve, the metadata name (`'Unknown'` when
    missing) and the trim information.
  */
  function Extract(exp: Experiment, cfg: ProcessingConfig): Option<Extracted>
  {
    var idx := Kept(exp.strainValues, exp.stressValues);
    if |idx| == 0 then None
    else
      match TrimCurveToFracture(Pick(exp.strainValues, idx), Pick(exp.stressValues, idx), cfg.fracture)
      case Trim(t) => Some(Extracted(t.strain, t.stress, GetOr(exp.metadata, "name", JStr("Unknown")), t.info))
      case _ => None
  }

  method ExtractStressStrainData(exp: Experiment, cfg: ProcessingConfig) returns (r: Option<Extracted>)
    ensures r == Extract(exp, cfg)
  {
    var strainClean, stressClean := PairValues(exp.strainValues, exp.stressValues);
    if |strainClean| == 0 || |stressClean| == 0 {
      return None;
    }
    var sampleName := GetOr(exp.metadata, "name", JStr("Unknown"));
    var outcome := TrimCurveToFracture(strainClean, stressClean, cfg.fracture);
    if !outcome.Trim? {
      return None;
    }
    var t := outcome.trimmed;
    return Some(Extracted(t.strain, t.stress, sampleName, t.info));
  }

  /**
    A successful extraction holds a non-empty slice of the paired curve, the
    same slice of strain and stress, starting at the point nearest zero strain.
  */
  lemma ExtractIsPairedSlice(exp: Experiment, cfg: ProcessingConfig)
    requires Extract(exp, cfg).Some?
    ensures var idx := Kept(exp.strainValues, exp.stressValues);
            var strain := Pick(exp.strainValues, idx);
            var stress := Pick(exp.stressValues, idx);
            var ex := Extract(exp, cfg).value;
            var start := ArgMinAbs(strain);
            var end := EndIndex(strain, stress, cfg.fracture);
            && |idx| > 0
            && start < end <= |strain|
            && ex.strain == strain[start..end]
            && ex.stress == stress[start..end]
            && ex.info.fractureDetected == FractureIndex(stress, cfg.fracture).Some?
  {
    var idx := Kept(exp.strainValues, exp.stressValues);
    TrimIsSlice(Pick(exp.strainValues, idx), Pick(exp.stressValues, idx), cfg.fracture);
  }

  // ---------------------------------------------------------------------------
  // The result record

  /** One associated trait as copied into the record; `detail` and `nfibres` only for a diameter. */
  function TraitRecord(t: Dict): Json
  {
    JObj(map[
      "measurement" := Get(t, "measurement"),
      "type" := Get(t, "type"),
      "equipment" := Get(t, "equipment"),
      "note" := Or(Get(t, "note"), Get(t, "notes"))]
      + (if Get(t, "type") == JStr("diameter")
         then map["detail" := Get(t, "detail"), "nfibres" := Get(t, "nfibres")]
         else map[]))
  }

  /** A taxonomy field of the first sample in the chain, or `None` for an empty chain. */
  function Taxonomy(exp: Experiment, field: string): Json
  {
    if |exp.sampleChain| > 0 then Get(exp.sampleChain[0], field) else JNull
  }

  function Range(s: seq<real>): Json
    requires |s| > 0
  {
    JArr([JNum(Min(s)), JNum(Max(s))])
  }

  function TrimInfoJson(info: TrimInfo): Json
  {
    JObj(map[
      "original_points" := JNum(info.originalPoints as real),
      "trimmed_points" := JNum(info.trimmedPoints as real),
      "zero_strain_idx" := JNum(info.zeroStrainIdx as real),
      "fracture_idx" := (match info.fractureIdx case None => JNull case Some(i) => JNum(i as real)),
      "fracture_detected" := JBool(info.fractureDetected),
      "strain_range" := JArr([JNum(info.strainRange.0), JNum(info.strainRange.1)]),
      "stress_range" := JArr([JNum(info.stressRange.0), JNum(info.stressRange.1)]),
      "max_stress" := JNum(info.maxStress)])
  }

  /** The keys of the result dictionary, in the order the source writes them. */
  datatype Field =
    | ExperimentId | SampleName | Type | Date | PolynomialCoefficients | RSquared | DataPoints
    | StrainRange | StressRange | FractureDetected | MaxStress | TrimInfoField
    | SpecimenDiameter | StrainAtBreak | StressAtBreak | Toughness | OffsetYieldStrain
    | OffsetYieldStress | Modulus | SpecimenName | StrainRate
    | Responsible | Notes | Equipment
    | Family | Genus | Species | Subsampletype
    | AssociatedTraits | SampleChain

  /** The JSON key of a field; for copied fields, also the key read from the source dictionary. */
  function Key(f: Field): string
  {
    match f
    case ExperimentId => "experiment_id"
    case SampleName => "sample_name"
    case Type => "type"
    case Date => "date"
    case PolynomialCoefficients => "polynomial_coefficients"
    case RSquared => "r_squared"
    case DataPoints => "data_points"
    case StrainRange => "strain_range"
    case StressRange => "stress_range"
    case FractureDetected => "fracture_detected"
    case MaxStress => "max_stress"
    case TrimInfoField => "trim_info"
    case SpecimenDiameter => "specimenDiameter"
    case StrainAtBreak => "strainAtBreak"
    case StressAtBreak => "stressAtBreak"
    case Toughness => "toughness"
    case OffsetYieldStrain => "offsetYieldStrain"
    case OffsetYieldStress => "offsetYieldStress"
    case Modulus => "modulus"
    case SpecimenName => "specimenName"
    case StrainRate => "strainRate"
    case Responsible => "responsible"
    case Notes => "notes"
    case Equipment => "equipment"
    case Family => "family"
    case Genus => "genus"
    case Species => "species"
    case Subsampletype => "subsampletype"
    case AssociatedTraits => "associatedTraits"
    case SampleChain => "sampleChain"
  }

  predicate IsTaxonomy(f: Field)
  {
    f == Family || f == Genus || f == Species || f == Subsampletype
  }

  /** The result dictionary of one experiment, keyed by field. */
  type Record = map<Field, Json>

  const AllFields: set<Field> := {
    ExperimentId, SampleName, Type, Date, PolynomialCoefficients, RSquared, DataPoints,
    StrainRange, StressRange, FractureDetected, MaxStress, TrimInfoField,
    SpecimenDiameter, StrainAtBreak, StressAtBreak, Toughness, OffsetYieldStrain,
    OffsetYieldStress, Modulus, SpecimenName, StrainRate,
    Responsible, Notes, Equipment,
    Family, Genus, Species, Subsampletype,
    AssociatedTraits, SampleChain}

  /** The value the result dictionary literal gives a field, before `None` values are removed. */
  function FieldValue(id: string, exp: Experiment, ex: Extracted, fit: Fit, f: Field): Json
    requires |ex.strain| > 0 && |ex.stress| > 0
  {
    var md, mp := exp.metadata, exp.mechanicalProperties;
    match f
    case ExperimentId => JStr(id)
    case SampleName => ex.sampleName
    case Type => GetOr(md, Key(Type), JStr("tensile_test"))
    case Date | Responsible | Notes | Equipment => Get(md, Key(f))
    case PolynomialCoefficients =>
      JArr(seq(|fit.coefficients|, i requires 0 <= i < |fit.coefficients| => JNum(fit.coefficients[i])))
    case RSquared => JNum(fit.rSquared)
    case DataPoints => JNum(|ex.strain| as real)
    case StrainRange => Range(ex.strain)
    case StressRange => Range(ex.stress)
    case FractureDetected => JBool(ex.info.fractureDetected)
    case MaxStress => JNum(ex.info.maxStress)
    case TrimInfoField => TrimInfoJson(ex.info)
    case SpecimenDiameter | StrainAtBreak | StressAtBreak | Toughness | OffsetYieldStrain
       | OffsetYieldStress | Modulus | SpecimenName | StrainRate => Get(mp, Key(f))
    case Family | Genus | Species | Subsampletype => Taxonomy(exp, Key(f))
    case AssociatedTraits =>
      JArr(seq(|exp.associatedTraits|, i requires 0 <= i < |exp.associatedTraits| => TraitRecord(exp.associatedTraits[i])))
    case SampleChain =>
      JArr(seq(|exp.sampleChain|, i requires 0 <= i < |exp.sampleChain| => JObj(exp.sampleChain[i])))
  }

  /** The result dictionary before its `None` values are removed. */
  function BuildResult(id: string, exp: Experiment, ex: Extracted, fit: Fit): Record
    requires |ex.strain| > 0 && |ex.stress| > 0
  {
    map f | f in AllFields :: FieldValue(id, exp, ex, fit, f)
  }

  /** `{k: v for k, v in result.items() if v is not None}`. */
  function DropNone(d: Record): (r: Record)
    ensures forall k :: k in r <==> k in d && d[k] != JNull
    ensures forall k :: k in r ==> r[k] == d[k]
  {
    map k | k in d && d[k] != JNull :: d[k]
  }

  /** `fit_polynomial_to_experiment`, as a function of the dataset, the id and the fitter. */
  function ProcessExperiment(data: Dataset, id: string, cfg: ProcessingConfig, fitter: Fitter): Option<Record>
  {
    if id !in data.experiments then None
    else
      var exp := data.experiments[id];
      match Extract(exp, cfg)
      case None => None
      case Some(ex) =>
        if |ex.strain| < 10 then None
        else
          match fitter(ex.strain, ex.stress, cfg.polynomialDegree)
          case None => None
          case Some(fit) => Some(DropNone(BuildResult(id, exp, ex, fit)))
  }

  method FitPolynomialToExperiment(data: Dataset, id: string, cfg: ProcessingConfig, fitter: Fitter) returns (r: Option<Record>)
    ensures r == ProcessExperiment(data, id, cfg, fitter)
  {
    if id !in data.experiments {
      return None;
    }
    var exp := data.experiments[id];
    var ex := ExtractStressStrainData(exp, cfg);
    if ex.None? || |ex.value.strain| < 10 {
      return None;
    }
    var fit := fitter(ex.value.strain, ex.value.stress, cfg.polynomialDegree);
    if fit.None? {
      return None;
    }
    return Some(DropNone(BuildResult(id, exp, ex.value, fit.value)));
  }

  /**
    When a record is produced: the id is known, extraction succeeded with at
    least 10 trimmed points and the fit succeeded; and conversely.
  */
  lemma ProcessAcceptance(data: Dataset, id: string, cfg: ProcessingConfig, fitter: Fitter)
    ensures ProcessExperiment(data, id, cfg, fitter).Some? <==>
      && id in data.experiments
      && Extract(data.experiments[id], cfg).Some?
      && |Extract(data.experiments[id], cfg).value.strain| >= 10
      && fitter(Extract(data.experiments[id], cfg).value.strain,
                Extract(data.experiments[id], cfg).value.stress, cfg.polynomialDegree).Some?
  {
  }

  /** The record a successful run returns, given its extraction and its fit. */
  lemma ProcessedRecord(data: Dataset, id: string, cfg: ProcessingConfig, fitter: Fitter)
    returns (exp: Experiment, ex: Extracted, fit: Fit)
    requires ProcessExperiment(data, id, cfg, fitter).Some?
    ensures id in data.experiments && exp == data.experiments[id]
    ensures Extract(exp, cfg) == Some(ex) && |ex.strain| >= 10 && |ex.stress| > 0
    ensures ProcessExperiment(data, id, cfg, fitter).value == DropNone(BuildResult(id, exp, ex, fit))
  {
    exp := data.experiments[id];
    ex := Extract(exp, cfg).value;
    ExtractIsPairedSlice(exp, cfg);
    fit := fitter(ex.strain, ex.stress, cfg.polynomialDegree).value;
  }

  /**
    The filtered dictionary holds no `None` value, names its experiment,
    counts its points, and has a taxonomy field exactly when the sample chain
    is non-empty and its first sample has a non-null value there.
  */
  lemma BuiltRecordFacts(id: string, exp: Experiment, ex: Extracted, fit: Fit, f: Field)
    requires |ex.strain| > 0 && |ex.stress| > 0
    requires IsTaxonomy(f)
    ensures var rec := DropNone(BuildResult(id, exp, ex, fit));
            && (forall k :: k in rec ==> rec[k] != JNull)
            && ExperimentId in rec && rec[ExperimentId] == JStr(id)
            && DataPoints in rec && rec[DataPoints] == JNum(|ex.strain| as real)
            && (f in rec <==> |exp.sampleChain| > 0 && Get(exp.sampleChain[0], Key(f)) != JNull)
            && (f in rec ==> rec[f] == exp.sampleChain[0][Key(f)])
  {
    var d := BuildResult(id, exp, ex, fit);
    assert d[f] == Taxonomy(exp, Key(f));
    assert d[ExperimentId] == JStr(id);
    assert d[DataPoints] == JNum(|ex.strain| as real);
  }

  /**
    A produced record holds no `None` value, names its experiment, counts at
    least 10 data points, and takes its taxonomy from the first sample of the
    chain only when the chain is non-empty.
  */
  lemma RecordFacts(data: Dataset, id: string, cfg: ProcessingConfig, fitter: Fitter, f: Field)
    requires ProcessExperiment(data, id, cfg, fitter).Some?
    requires IsTaxonomy(f)
    ensures var rec := ProcessExperiment(data, id, cfg, fitter).value;
            var exp := data.experiments[id];
            && (forall k :: k in rec ==> rec[k] != JNull)
            && ExperimentId in rec && rec[ExperimentId] == JStr(id)
            && DataPoints in rec && rec[DataPoints].JNum? && rec[DataPoints].n >= 10.0
            && (f in rec <==> |exp.sampleChain| > 0 && Get(exp.sampleChain[0], Key(f)) != JNull)
            && (f in rec ==> rec[f] == exp.sampleChain[0][Key(f)])
  {
    var exp, ex, fit := ProcessedRecord(data, id, cfg, fitter);
    BuiltRecordFacts(id, exp, ex, fit, f);
  }

  /** A copied trait carries `detail` and `nfibres` exactly when its type is `'diameter'`, and always its note. */
  lemma TraitRecordFields(t: Dict)
    ensures var fields := TraitRecord(t).fields;
            && ("detail" in fields <==> Get(t, "type") == JStr("diameter"))
            && ("nfibres" in fields <==> Get(t, "type") == JStr("diameter"))
            && "note" in fields && fields["note"] == Or(Get(t, "note"), Get(t, "notes"))
  {
    var base := map[
      "measurement" := Get(t, "measurement"),
      "type" := Get(t, "type"),
      "equipment" := Get(t, "equipment"),
      "note" := Or(Get(t, "note"), Get(t, "notes"))];
    assert base.Keys == {"measurement", "type", "equipment", "note"};
    assert "detail" !in base && "nfibres" !in base;
  }

  lemma BuiltRecordTraits(id: string, exp: Experiment, ex: Extracted, fit: Fit)
    requires |ex.strain| > 0 && |ex.stress| > 0
    ensures var rec := DropNone(BuildResult(id, exp, ex, fit));
            && AssociatedTraits in rec
            && rec[AssociatedTraits].JArr?
            && |rec[AssociatedTraits].items| == |exp.associatedTraits|
            && forall i :: 0 <= i < |exp.associatedTraits| ==> rec[AssociatedTraits].items[i] == TraitRecord(exp.associatedTraits[i])
  {
    var d := BuildResult(id, exp, ex, fit);
    assert d[AssociatedTraits] == FieldValue(id, exp, ex, fit, AssociatedTraits);
  }

  /** The record's `associatedTraits` has one copied entry per input trait, in order. */
  lemma RecordTraits(data: Dataset, id: string, cfg: ProcessingConfig, fitter: Fitter, i: nat)
    requires ProcessExperiment(data, id, cfg, fitter).Some?
    requires i < |data.experiments[id].associatedTraits|
    ensures var rec := ProcessExperiment(data, id, cfg, fitter).value;
            && AssociatedTraits in rec
            && rec[AssociatedTraits].JArr?
            && |rec[AssociatedTraits].items| == |data.experiments[id].associatedTraits|
            && rec[AssociatedTraits].items[i] == TraitRecord(data.experiments[id].associatedTraits[i])
  {
    var exp, ex, fit := ProcessedRecord(data, id, cfg, fitter);
    BuiltRecordTraits(id, exp, ex, fit);
  }
}
