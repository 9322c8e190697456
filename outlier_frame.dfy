/**
  The flattening of processed experiment records into table rows
  (`OutlierAnalyzer.prepare_dataframe`): taxonomy columns, one column per
  polynomial coefficient, the fit quality, and one column per trait type
  holding the mean of that type's numeric measurements.
*/
module OutlierFrame {
  import opened Wrappers
  import opened JsonValue
  import opened SeqMath

  /** The analysable columns: `r_squared`, `coeff_<i>` and `trait_<type>`. */
  datatype Column = RSquared | Coeff(index: nat) | Trait(kind: string)

  /** One entry of `associatedTraits`: its `type` and its `measurement`. */
  datatype TraitInput = TraitInput(kind: Option<string>, measurement: Json)

  /** The fields of one processed experiment that the analysis reads. */
  datatype ExperimentRecord = ExperimentRecord(
    sampleName: Option<string>,
    family: Option<string>,
    genus: Option<string>,
    species: Option<string>,
    subsampletype: Option<string>,
    kind: Option<string>,
    coefficients: seq<real>,
    rSquared: Option<real>,
    traits: seq<TraitInput>)

  datatype Entry = Entry(id: string, record: ExperimentRecord)

  function EntryId(e: Entry): string
  {
    e.id
  }

  /** The loaded results file: the experiments in file order and the fit degree. */
  datatype ProcessedData = ProcessedData(experiments: seq<Entry>, polynomialDegree: int)

  /** One table row; a column absent from `cells` is missing (NaN). */
  datatype Row = Row(
    experimentId: string,
    sampleName: Option<string>,
    family: Option<string>,
    genus: Option<string>,
    species: Option<string>,
    name: string,
    subsampletype: Option<string>,
    kind: Option<string>,
    columns: seq<Column>,
    cells: map<Column, Option<real>>)

  datatype Frame = Frame(columns: seq<Column>, rows: seq<Row>)

  // ---------------------------------------------------------------------------
  // `float(measurement)` on JSON values

  predicate IsDigit(c: char)
  {
    '0' <= c <= '9'
  }

  predicate AllDigits(s: string)
  {
    forall i :: 0 <= i < |s| ==> IsDigit(s[i])
  }

  /** The number a run of decimal digits denotes. */
  function DigitsValue(s: string): nat
    requires AllDigits(s)
    decreases |s|
  {
    if s == [] then 0 else DigitsValue(s[..|s| - 1]) * 10 + (s[|s| - 1] as int - '0' as int)
  }

  function Pow10(n: nat): (r: nat)
    ensures r > 0
  {
    if n == 0 then 1 else 10 * Pow10(n - 1)
  }

  /** The position of the first `.`, or `|s|` when there is none. */
  function DotIndex(s: string): (k: nat)
    ensures k <= |s|
    ensures k < |s| ==> s[k] == '.'
    ensures forall i :: 0 <= i < k ==> s[i] != '.'
    decreases |s|
  {
    if s == [] || s[0] == '.' then 0 else 1 + DotIndex(s[1..])
  }

  /** Digits with an optional decimal point and at least one digit: `12`, `1.5`, `.5`, `3.`. */
  function ParseUnsigned(s: string): Option<real>
  {
    var k := DotIndex(s);
    var whole := s[..k];
    var frac := if k < |s| then s[k + 1..] else "";
    if AllDigits(whole) && AllDigits(frac) && |whole| + |frac| > 0 then
      Some(DigitsValue(whole) as real + DigitsValue(frac) as real / Pow10(|frac|) as real)
    else None
  }

  /**
    `float(s)` on plain decimal strings with an optional sign. Every other
    string gives `None`: those Python rejects, and also those it accepts in
    other spellings (surrounding whitespace, exponents, underscores, `inf`,
    `nan`, non-ASCII Unicode digits), which this model therefore treats as
    failed conversions.
  */
  function ParseFloat(s: string): Option<real>
  {
    if |s| > 0 && s[0] == '-' then
      match ParseUnsigned(s[1..])
      case Some(v) => Some(-v)
      case None => None
    else if |s| > 0 && s[0] == '+' then ParseUnsigned(s[1..])
    else ParseUnsigned(s)
  }

  /**
    `float(measurement)`, with `None` standing for the NaN the source
    substitutes when the conversion raises.
  */
  function ToFloat(j: Json): Option<real>
  {
    match j
    case JNum(n) => Some(n)
    case JBool(b) => Some(if b then 1.0 else 0.0)
    case JStr(s) => ParseFloat(s)
    case _ => None
  }

  function DigitChar(d: nat): (c: char)
    requires d < 10
    ensures IsDigit(c) && c as int - '0' as int == d
  {
    ('0' as int + d) as char
  }

  /** The decimal rendering of a natural number. */
  function NatString(n: nat): (r: string)
    ensures |r| > 0 && AllDigits(r)
    decreases n
  {
    if n < 10 then [DigitChar(n)] else NatString(n / 10) + [DigitChar(n % 10)]
  }

  lemma {:induction false} NatStringValue(n: nat)
    ensures DigitsValue(NatString(n)) == n
    decreases n
  {
    if n >= 10 {
      NatStringValue(n / 10);
      var s := NatString(n);
      assert s[..|s| - 1] == NatString(n / 10);
    }
  }

  /** A measurement written as a decimal string converts to the number it spells. */
  lemma NatStringParses(n: nat)
    ensures ToFloat(JStr(NatString(n))) == Some(n as real)
    ensures ToFloat(JStr("-" + NatString(n))) == Some(-(n as real))
  {
    var s := NatString(n);
    NatStringValue(n);
    DigitsParse(s);
    assert ("-" + s)[1..] == s;
  }

  /** A non-empty run of digits parses to the number it denotes. */
  lemma DigitsParse(s: string)
    requires |s| > 0 && AllDigits(s)
    ensures ParseUnsigned(s) == Some(DigitsValue(s) as real)
  {
    NoDot(s);
    assert s[..|s|] == s;
    assert DigitsValue("") == 0;
    assert Pow10(0) == 1;
  }

  lemma {:induction false} NoDot(s: string)
    requires AllDigits(s)
    ensures DotIndex(s) == |s|
    decreases |s|
  {
    if s != [] {
      assert IsDigit(s[0]);
      NoDot(s[1..]);
    }
  }

  // ---------------------------------------------------------------------------
  // Trait aggregation

  /** Python truthiness of an optional string. */
  predicate TruthyStr(s: Option<string>)
  {
    s.Some? && s.value != ""
  }

  /** A trait is collected when its type is truthy and its measurement is not `None`. */
  predicate Collected(t: TraitInput)
  {
    TruthyStr(t.kind) && t.measurement != JNull
  }

  /** The types of the collected traits, in order, with repeats. */
  function CollectedKinds(traits: seq<TraitInput>): seq<string>
    decreases |traits|
  {
    if traits == [] then []
    else
      var t := traits[|traits| - 1];
      CollectedKinds(traits[..|traits| - 1]) + (if Collected(t) then [t.kind.value] else [])
  }

  /** The keys of `traits_dict`: each collected type once, in order of first appearance. */
  function TraitKinds(traits: seq<TraitInput>): seq<string>
  {
    Dedup(CollectedKinds(traits))
  }

  /** `traits_dict[kind]`: the converted measurements of that type, in order. */
  function Measurements(traits: seq<TraitInput>, kind: string): seq<Option<real>>
    decreases |traits|
  {
    if traits == [] then []
    else
      var t := traits[|traits| - 1];
      Measurements(traits[..|traits| - 1], kind)
        + (if Collected(t) && t.kind.value == kind then [ToFloat(t.measurement)] else [])
  }

  /** The non-missing values, in order (`dropna`, or the `not isnan` filter). */
  function Present(xs: seq<Option<real>>): seq<real>
    decreases |xs|
  {
    if xs == [] then []
    else Present(xs[..|xs| - 1]) + (if xs[|xs| - 1].Some? then [xs[|xs| - 1].value] else [])
  }

  lemma {:induction false} PresentMembers(xs: seq<Option<real>>)
    ensures |Present(xs)| <= |xs|
    ensures forall v :: v in Present(xs) <==> Some(v) in xs
    ensures Present(xs) == [] <==> forall j :: 0 <= j < |xs| ==> xs[j].None?
    decreases |xs|
  {
    if xs != [] {
      var n := |xs| - 1;
      PresentMembers(xs[..n]);
      assert xs == xs[..n] + [xs[n]];
      assert (forall j :: 0 <= j < |xs| ==> xs[j].None?)
         <==> (forall j :: 0 <= j < n ==> xs[..n][j].None?) && xs[n].None?;
    }
  }

  /** The mean of the non-missing values, or missing when there are none. */
  function MeanOfPresent(xs: seq<Option<real>>): Option<real>
  {
    var valid := Present(xs);
    if |valid| > 0 then Some(Mean(valid)) else None
  }

  /** The value of column `trait_<kind>`. */
  function TraitValue(traits: seq<TraitInput>, kind: string): Option<real>
  {
    MeanOfPresent(Measurements(traits, kind))
  }

  lemma {:induction false} MeasurementsMembers(traits: seq<TraitInput>, kind: string)
    ensures forall m :: m in Measurements(traits, kind) <==>
      exists j :: 0 <= j < |traits| && Collected(traits[j]) && traits[j].kind.value == kind
                  && m == ToFloat(traits[j].measurement)
    decreases |traits|
  {
    if traits != [] {
      var n := |traits| - 1;
      MeasurementsMembers(traits[..n], kind);
      forall m | m in Measurements(traits, kind)
        ensures exists j :: 0 <= j < |traits| && Collected(traits[j]) && traits[j].kind.value == kind
                            && m == ToFloat(traits[j].measurement)
      {
        if m !in Measurements(traits[..n], kind) {
          assert Collected(traits[n]) && traits[n].kind.value == kind && m == ToFloat(traits[n].measurement);
        } else {
          var j :| 0 <= j < n && Collected(traits[..n][j]) && traits[..n][j].kind.value == kind
                   && m == ToFloat(traits[..n][j].measurement);
          assert traits[..n][j] == traits[j];
        }
      }
      forall m | exists j :: 0 <= j < |traits| && Collected(traits[j]) && traits[j].kind.value == kind
                             && m == ToFloat(traits[j].measurement)
        ensures m in Measurements(traits, kind)
      {
        var j :| 0 <= j < |traits| && Collected(traits[j]) && traits[j].kind.value == kind
                 && m == ToFloat(traits[j].measurement);
        if j < n {
          assert traits[..n][j] == traits[j];
        }
      }
    }
  }

  /**
    Column `trait_<kind>` is the mean of exactly those measurements of that
    type that convert to a number, and is missing when none does; the mean
    lies between their least and greatest.
  */
  lemma TraitValueFacts(traits: seq<TraitInput>, kind: string)
    ensures var valid := Present(Measurements(traits, kind));
            && (forall v :: v in valid <==>
                  exists j :: 0 <= j < |traits| && Collected(traits[j]) && traits[j].kind.value == kind
                              && ToFloat(traits[j].measurement) == Some(v))
            && (TraitValue(traits, kind).None? <==> valid == [])
            && (TraitValue(traits, kind).Some? ==>
                  Min(valid) <= TraitValue(traits, kind).value <= Max(valid))
  {
    var valid := Present(Measurements(traits, kind));
    PresentMembers(Measurements(traits, kind));
    MeasurementsMembers(traits, kind);
    if valid != [] {
      MeanBetween(valid);
    }
  }

  lemma {:induction false} CollectedKindsMembers(traits: seq<TraitInput>)
    ensures forall k :: k in CollectedKinds(traits) <==>
      exists j :: 0 <= j < |traits| && Collected(traits[j]) && traits[j].kind.value == k
    decreases |traits|
  {
    if traits != [] {
      var n := |traits| - 1;
      CollectedKindsMembers(traits[..n]);
      forall k | exists j :: 0 <= j < |traits| && Collected(traits[j]) && traits[j].kind.value == k
        ensures k in CollectedKinds(traits)
      {
        var j :| 0 <= j < |traits| && Collected(traits[j]) && traits[j].kind.value == k;
        if j < n {
          assert traits[..n][j] == traits[j];
        }
      }
      forall k | k in CollectedKinds(traits)
        ensures exists j :: 0 <= j < |traits| && Collected(traits[j]) && traits[j].kind.value == k
      {
        if k in CollectedKinds(traits[..n]) {
          var j :| 0 <= j < n && Collected(traits[..n][j]) && traits[..n][j].kind.value == k;
          assert traits[..n][j] == traits[j];
        }
      }
    }
  }

  /** Each type with a collected trait gets one column, and no other type does. */
  lemma TraitKindsFacts(traits: seq<TraitInput>)
    ensures Distinct(TraitKinds(traits))
    ensures forall k :: k in TraitKinds(traits) <==>
      exists j :: 0 <= j < |traits| && Collected(traits[j]) && traits[j].kind.value == k
  {
    DedupFacts(CollectedKinds(traits));
    CollectedKindsMembers(traits);
  }

  // ---------------------------------------------------------------------------
  // Rows

  /** `name`: genus and species joined by a space when both are truthy, otherwise empty. */
  function SpeciesName(genus: Option<string>, species: Option<string>): string
  {
    if TruthyStr(genus) && TruthyStr(species) then genus.value + " " + species.value else ""
  }

  /** The analysable columns of one record, in the order the record assigns them. */
  function RowColumns(exp: ExperimentRecord): seq<Column>
  {
    var kinds := TraitKinds(exp.traits);
    seq(|exp.coefficients|, i requires 0 <= i => Coeff(i)) + [RSquared] + seq(|kinds|, j requires 0 <= j < |kinds| => Trait(kinds[j]))
  }

  function Cell(exp: ExperimentRecord, c: Column): Option<real>
  {
    match c
    case RSquared => exp.rSquared
    case Coeff(i) => if i < |exp.coefficients| then Some(exp.coefficients[i]) else None
    case Trait(k) => TraitValue(exp.traits, k)
  }

  /** The row `prepare_dataframe` builds for one experiment. */
  function Flatten(id: string, exp: ExperimentRecord): Row
  {
    var cols := RowColumns(exp);
    Row(id, exp.sampleName, exp.family, exp.genus, exp.species,
        SpeciesName(exp.genus, exp.species), exp.subsampletype, exp.kind,
        cols, map c | c in cols :: Cell(exp, c))
  }

  /** The record's columns are distinct and are exactly its coefficients, `r_squared` and its trait types. */
  lemma RowColumnsFacts(exp: ExperimentRecord)
    ensures var cols := RowColumns(exp);
            && Distinct(cols)
            && (forall i: nat :: Coeff(i) in cols <==> i < |exp.coefficients|)
            && RSquared in cols
            && (forall k :: Trait(k) in cols <==> k in TraitKinds(exp.traits))
  {
    var kinds := TraitKinds(exp.traits);
    var a := seq(|exp.coefficients|, i requires 0 <= i => Coeff(i));
    var b := seq(|kinds|, j requires 0 <= j < |kinds| => Trait(kinds[j]));
    TraitKindsFacts(exp.traits);
    CoeffColumnsFacts(|exp.coefficients|);
    TraitColumnsFacts(kinds);
    DistinctConcat(a, [RSquared]);
    assert forall c: Column | c in a + [RSquared] :: !c.Trait?;
    DistinctConcat(a + [RSquared], b);
  }

  lemma CoeffColumnsFacts(n: nat)
    ensures var a := seq(n, i requires 0 <= i => Coeff(i));
            && Distinct(a)
            && forall c: Column :: c in a <==> c.Coeff? && c.index < n
  {
    var a := seq(n, i requires 0 <= i => Coeff(i));
    forall c: Column | c.Coeff? && c.index < n ensures c in a {
      assert a[c.index] == c;
    }
  }

  lemma TraitColumnsFacts(kinds: seq<string>)
    requires Distinct(kinds)
    ensures var b := seq(|kinds|, j requires 0 <= j < |kinds| => Trait(kinds[j]));
            && Distinct(b)
            && forall c: Column :: c in b <==> c.Trait? && c.kind in kinds
  {
    var b := seq(|kinds|, j requires 0 <= j < |kinds| => Trait(kinds[j]));
    forall c: Column | c.Trait? && c.kind in kinds ensures c in b {
      var j :| 0 <= j < |kinds| && kinds[j] == c.kind;
      assert b[j] == c;
    }
  }

  /**
    The flattened row: `name` is never null, coefficient `i` lands in column
    `coeff_i`, `r_squared` is always a column, and a `trait_<type>` column
    exists exactly for the types with a collected trait.
  */
  lemma FlattenFacts(id: string, exp: ExperimentRecord)
    ensures var row := Flatten(id, exp);
            && row.experimentId == id
            && (row.name != "" <==> TruthyStr(exp.genus) && TruthyStr(exp.species))
            && (row.name != "" ==> row.name == exp.genus.value + " " + exp.species.value)
            && Distinct(row.columns)
            && (forall c :: c in row.cells <==> c in row.columns)
            && (forall i: nat :: Coeff(i) in row.cells <==> i < |exp.coefficients|)
            && (forall i :: 0 <= i < |exp.coefficients| ==> row.cells[Coeff(i)] == Some(exp.coefficients[i]))
            && RSquared in row.cells && row.cells[RSquared] == exp.rSquared
            && (forall k :: Trait(k) in row.cells <==>
                  exists j :: 0 <= j < |exp.traits| && Collected(exp.traits[j]) && exp.traits[j].kind.value == k)
            && (forall k :: Trait(k) in row.cells ==> row.cells[Trait(k)] == TraitValue(exp.traits, k))
  {
    RowColumnsFacts(exp);
    TraitKindsFacts(exp.traits);
  }

  lemma {:induction false} UnseenKindHasNoMeasurements(traits: seq<TraitInput>, kind: string)
    requires kind !in CollectedKinds(traits)
    ensures Measurements(traits, kind) == []
    decreases |traits|
  {
    if traits != [] {
      UnseenKindHasNoMeasurements(traits[..|traits| - 1], kind);
    }
  }

  /** One more trait extends the collected types and the measurements of its own type only. */
  lemma GatherStep(traits: seq<TraitInput>, i: nat)
    requires i < |traits|
    ensures var t := traits[i];
            && CollectedKinds(traits[..i + 1]) == CollectedKinds(traits[..i]) + (if Collected(t) then [t.kind.value] else [])
            && TraitKinds(traits[..i + 1])
               == (if Collected(t) && t.kind.value !in TraitKinds(traits[..i]) then TraitKinds(traits[..i]) + [t.kind.value]
                   else TraitKinds(traits[..i]))
  {
    var before := CollectedKinds(traits[..i]);
    assert traits[..i + 1][..i] == traits[..i];
    if Collected(traits[i]) {
      var x := traits[i].kind.value;
      assert CollectedKinds(traits[..i + 1]) == before + [x];
      assert (before + [x])[..|before|] == before;
      assert Dedup(before + [x]) == if x in Dedup(before) then Dedup(before) else Dedup(before) + [x];
    } else {
      assert CollectedKinds(traits[..i + 1]) == before + [];
      assert before + [] == before;
    }
  }

  lemma MeasurementsStep(traits: seq<TraitInput>, i: nat, kind: string)
    requires i < |traits|
    ensures var t := traits[i];
            Measurements(traits[..i + 1], kind)
            == Measurements(traits[..i], kind) + (if Collected(t) && t.kind.value == kind then [ToFloat(t.measurement)] else [])
  {
    assert traits[..i + 1][..i] == traits[..i];
  }

  /**
    The `traits_dict` loop: each collected type becomes a key on first
    sight, and every collected measurement is appended, converted, under its type.
  */
  method GatherTraits(traits: seq<TraitInput>) returns (kinds: seq<string>, collected: map<string, seq<Option<real>>>)
    ensures kinds == TraitKinds(traits)
    ensures forall k :: k in collected <==> k in kinds
    ensures forall k | k in collected :: collected[k] == Measurements(traits, k)
  {
    kinds, collected := [], map[];
    for i := 0 to |traits|
      invariant kinds == TraitKinds(traits[..i])
      invariant forall k :: k in collected <==> k in kinds
      invariant forall k | k in collected :: collected[k] == Measurements(traits[..i], k)
    {
      var t := traits[i];
      GatherStep(traits, i);
      if TruthyStr(t.kind) && t.measurement != JNull {
        var kind := t.kind.value;
        if kind !in collected {
          DedupFacts(CollectedKinds(traits[..i]));
          UnseenKindHasNoMeasurements(traits[..i], kind);
          kinds := kinds + [kind];
          collected := collected[kind := []];
        }
        ghost var previous := collected;
        collected := collected[kind := collected[kind] + [ToFloat(t.measurement)]];
        forall k | k in collected ensures collected[k] == Measurements(traits[..i + 1], k) {
          MeasurementsStep(traits, i, k);
          if k != kind {
            assert collected[k] == previous[k];
          }
        }
      } else {
        forall k | k in collected ensures collected[k] == Measurements(traits[..i + 1], k) {
          MeasurementsStep(traits, i, k);
        }
      }
    }
    assert traits[..|traits|] == traits;
  }

  /**
    The body of the `prepare_dataframe` loop for one experiment: the
    coefficient columns, `r_squared`, then the trait measurements gathered
    per type and averaged.
  */
  method FlattenRecord(id: string, exp: ExperimentRecord) returns (row: Row)
    ensures row == Flatten(id, exp)
  {
    var columns: seq<Column> := [];
    var cells: map<Column, Option<real>> := map[];
    var coeffs := exp.coefficients;
    for i := 0 to |coeffs|
      invariant columns == seq(i, k requires 0 <= k => Coeff(k))
      invariant forall c :: c in cells <==> c in columns
      invariant forall c | c in cells :: cells[c] == Cell(exp, c)
    {
      columns := columns + [Coeff(i)];
      cells := cells[Coeff(i) := Some(coeffs[i])];
    }
    columns := columns + [RSquared];
    cells := cells[RSquared := exp.rSquared];

    var kinds, collected := GatherTraits(exp.traits);
    ghost var base := columns;
    for j := 0 to |kinds|
      invariant columns == base + seq(j, m requires 0 <= m < j => Trait(kinds[m]))
      invariant forall c :: c in cells <==> c in columns
      invariant forall c | c in cells :: cells[c] == Cell(exp, c)
    {
      var valid := Present(collected[kinds[j]]);
      columns := columns + [Trait(kinds[j])];
      cells := cells[Trait(kinds[j]) := if |valid| > 0 then Some(Mean(valid)) else None];
    }
    assert columns == RowColumns(exp);
    row := Row(id, exp.sampleName, exp.family, exp.genus, exp.species,
               SpeciesName(exp.genus, exp.species), exp.subsampletype, exp.kind,
               columns, cells);
  }

  // ---------------------------------------------------------------------------
  // The table

  /** A row's value in a column; a column the record never set is missing. */
  function CellOf(row: Row, c: Column): Option<real>
  {
    if c in row.cells then row.cells[c] else None
  }

  function RowId(row: Row): string
  {
    row.experimentId
  }

  /** The rows of all experiments, in file order. */
  function FlattenAll(entries: seq<Entry>): (rows: seq<Row>)
    ensures |rows| == |entries|
  {
    seq(|entries|, j requires 0 <= j < |entries| => Flatten(entries[j].id, entries[j].record))
  }

  /** Every row's columns, concatenated in row order. */
  function AllColumns(rows: seq<Row>): seq<Column>
    decreases |rows|
  {
    if rows == [] then [] else AllColumns(rows[..|rows| - 1]) + rows[|rows| - 1].columns
  }

  /**
    `pd.DataFrame(records)`: one row per record, and the columns are the
    union of the records' keys in order of first appearance.
  */
  function BuildFrame(entries: seq<Entry>): Frame
  {
    var rows := FlattenAll(entries);
    Frame(Dedup(AllColumns(rows)), rows)
  }

  lemma {:induction false} AllColumnsMembers(rows: seq<Row>)
    ensures forall c :: c in AllColumns(rows) <==> exists j :: 0 <= j < |rows| && c in rows[j].columns
    decreases |rows|
  {
    if rows != [] {
      var n := |rows| - 1;
      AllColumnsMembers(rows[..n]);
      forall c | c in AllColumns(rows) ensures exists j :: 0 <= j < |rows| && c in rows[j].columns {
        if c in AllColumns(rows[..n]) {
          var j :| 0 <= j < n && c in rows[..n][j].columns;
          assert rows[..n][j] == rows[j];
        }
      }
      forall c | exists j :: 0 <= j < |rows| && c in rows[j].columns ensures c in AllColumns(rows) {
        var j :| 0 <= j < |rows| && c in rows[j].columns;
        if j < n {
          assert rows[..n][j] == rows[j];
        }
      }
    }
  }

  /**
    The table has one row per experiment in file order, its columns are
    distinct and are exactly those some row sets, and `r_squared` is a
    column as soon as there is a row.
  */
  lemma FrameFacts(entries: seq<Entry>)
    ensures var f := BuildFrame(entries);
            && |f.rows| == |entries|
            && (forall j :: 0 <= j < |entries| ==> f.rows[j] == Flatten(entries[j].id, entries[j].record))
            && Distinct(f.columns)
            && (forall c :: c in f.columns <==> exists j :: 0 <= j < |f.rows| && c in f.rows[j].columns)
            && (|entries| > 0 ==> RSquared in f.columns)
  {
    var f := BuildFrame(entries);
    DedupFacts(AllColumns(f.rows));
    AllColumnsMembers(f.rows);
    if |entries| > 0 {
      RowColumnsFacts(entries[0].record);
      assert RSquared in f.rows[0].columns;
    }
  }
}
