/**
  The `OutlierAnalyzer` object: it holds the loaded data and the table built
  from it, and runs the hierarchical analysis and the experiment flagging.
*/
module OutlierAnalysis {
  import opened Wrappers
  import opened SeqMath
  import opened OutlierFrame
  import opened TraitStatistics
  import opened OutlierGrouping
  import opened OutlierFlagging

  class OutlierAnalyzer {
    /** The share of a group's traits an experiment must be an outlier in to be flagged. */
    const outlierTraitThreshold: real
    const sigmaLevel: SigmaLevel
    var data: Option<ProcessedData>
    var experimentsDf: Option<Frame>

    constructor(outlierTraitThreshold: real, sigmaLevel: SigmaLevel)
      ensures this.outlierTraitThreshold == outlierTraitThreshold && this.sigmaLevel == sigmaLevel
      ensures data == None && experimentsDf == None
    {
      this.outlierTraitThreshold := outlierTraitThreshold;
      this.sigmaLevel := sigmaLevel;
      data := None;
      experimentsDf := None;
    }

    /** `load_data`, with the parsed file passed in. */
    method LoadData(loaded: ProcessedData)
      modifies this
      ensures data == Some(loaded) && experimentsDf == old(experimentsDf)
    {
      data := Some(loaded);
    }

    /** `prepare_dataframe`: one flattened row per experiment, then the table. */
    method PrepareDataframe()
      requires data.Some?
      modifies this
      ensures data == old(data)
      ensures experimentsDf == Some(BuildFrame(data.value.experiments))
    {
      var entries := data.value.experiments;
      var records: seq<Row> := [];
      for i := 0 to |entries|
        invariant data == old(data)
        invariant records == FlattenAll(entries[..i])
      {
        var row := FlattenRecord(entries[i].id, entries[i].record);
        records := records + [row];
      }
      assert entries[..|entries|] == entries;
      experimentsDf := Some(Frame(Dedup(AllColumns(records)), records));
    }

    /**
      `analyze_all_traits`: builds the trait catalogue, then analyses every
      group of at least two rows trait by trait.
    */
    method AnalyzeAllTraits(stdOf: StdFunction) returns (results: Option<seq<GroupEntry>>)
      requires data.Some? && experimentsDf.Some?
      ensures results == AnalyzeAll(experimentsDf.value, data.value.polynomialDegree, stdOf)
    {
      var df := experimentsDf.value;
      var traitsToAnalyze := BuildCatalogue(df.columns, data.value.polynomialDegree);
      if df.rows == [] {
        return None;
      }
      var groups := GroupKeys(df.rows);
      var res: seq<GroupEntry> := [];
      for gi := 0 to |groups|
        invariant res == GroupEntries(df.rows, df.columns, groups[..gi], traitsToAnalyze, stdOf)
      {
        var key := groups[gi];
        GroupEntriesStep(df.rows, df.columns, groups, gi, traitsToAnalyze, stdOf);
        var groupDf := GroupRows(df.rows, key);
        if |groupDf| < 2 {
          continue;
        }
        var traits := AnalyzeGroupTraits(groupDf, df.columns, traitsToAnalyze, stdOf);
        res := res + [GroupEntry(key, GroupResult(key.family, key.name, key.subsampletype, |groupDf|, traits))];
      }
      assert groups[..|groups|] == groups;
      results := Some(res);
    }

    /**
      `identify_outlier_experiments`: per group, counts each experiment's
      outlier traits at `level`, keeps those at or above the threshold, and
      orders all kept rows by decreasing percentage.
    */
    method IdentifyOutlierExperiments(results: seq<GroupEntry>, level: SigmaLevel) returns (outlierDf: seq<Flag>)
      ensures outlierDf == IdentifyOutliers(results, level, outlierTraitThreshold)
    {
      var outlierExperiments: seq<Flag> := [];
      for gi := 0 to |results|
        invariant outlierExperiments == Emitted(results[..gi], level, outlierTraitThreshold)
      {
        EmittedStep(results, gi, level, outlierTraitThreshold);
        var flags := GroupOutlierFlags(results[gi].result, level, outlierTraitThreshold);
        outlierExperiments := outlierExperiments + flags;
      }
      assert results[..|results|] == results;
      outlierDf := outlierExperiments;
      if |outlierDf| > 0 {
        outlierDf := SortDesc(outlierDf, Percentage);
      }
    }
  }

  /** The trait catalogue `traits_to_analyze` built from the table's columns. */
  method BuildCatalogue(columns: seq<Column>, polyDegree: int) returns (traitsToAnalyze: seq<Column>)
    ensures traitsToAnalyze == TraitsToAnalyze(columns, polyDegree)
  {
    traitsToAnalyze := [];
    if RSquared in columns {
      traitsToAnalyze := [RSquared];
    }
    ghost var head := traitsToAnalyze;
    for i := 0 to CoeffCount(polyDegree)
      invariant traitsToAnalyze == head + CoeffsUpTo(columns, i)
    {
      if Coeff(i) in columns {
        traitsToAnalyze := traitsToAnalyze + [Coeff(i)];
      }
    }
    traitsToAnalyze := traitsToAnalyze + Filter(columns, IsTraitColumn);
  }

  /** The loop over one group's catalogue: statistics, skip rules and the three outlier tables. */
  method AnalyzeGroupTraits(groupDf: seq<Row>, columns: seq<Column>, traitsToAnalyze: seq<Column>, stdOf: StdFunction)
    returns (traits: seq<TraitEntry>)
    ensures traits == TraitEntries(columns, traitsToAnalyze, Analyzer(groupDf, stdOf))
  {
    traits := [];
    for ti := 0 to |traitsToAnalyze|
      invariant traits == TraitEntries(columns, traitsToAnalyze[..ti], Analyzer(groupDf, stdOf))
    {
      var column := traitsToAnalyze[ti];
      TraitEntriesStep(columns, traitsToAnalyze, ti, Analyzer(groupDf, stdOf));
      if column !in columns {
        continue;
      }
      var analysis := AnalyzeOneTrait(groupDf, column, stdOf);
      assert Analyzer(groupDf, stdOf)(column) == analysis;
      if analysis.None? {
        continue;
      }
      traits := traits + [TraitEntry(column, analysis.value)];
    }
    assert traitsToAnalyze[..|traitsToAnalyze|] == traitsToAnalyze;
  }

  /**
    One trait of one group: its statistics, skipped below two values,
    and its outlier rows at one, two and three standard deviations.
  */
  method AnalyzeOneTrait(groupDf: seq<Row>, column: Column, stdOf: StdFunction) returns (analysis: Option<TraitAnalysis>)
    ensures analysis == AnalyzeTrait(groupDf, column, stdOf)
    ensures analysis.Some? <==> |Present(ColumnValues(groupDf, column))| >= 2
    ensures analysis.Some? ==>
      && CalculateStatisticsForGroup(groupDf, column, stdOf) == Some(analysis.value.statistics)
      && analysis.value.statistics.count >= 2
      && forall level: SigmaLevel ::
           OutliersAt(analysis.value, level)
           == FindOutliersInGroup(groupDf, column, CalculateStatisticsForGroup(groupDf, column, stdOf), level)
  {
    AnalyzeTraitFacts(groupDf, column, stdOf);
    var stats := CalculateStatisticsForGroup(groupDf, column, stdOf);
    if stats.None? || stats.value.count < 2 {
      return None;
    }
    analysis := Some(TraitAnalysis(stats.value,
                                   FindOutliersInGroup(groupDf, column, stats, 1),
                                   FindOutliersInGroup(groupDf, column, stats, 2),
                                   FindOutliersInGroup(groupDf, column, stats, 3)));
  }

  /**
    The flags of one group: the experiments whose share of outlier traits
    at `level` is at least `threshold`, in counter order.
  */
  method GroupOutlierFlags(groupData: GroupResult, level: SigmaLevel, threshold: real) returns (flags: seq<Flag>)
    ensures flags == GroupFlags(groupData, level, threshold)
  {
    var totalTraits := |groupData.traits|;
    if totalTraits == 0 {
      return [];
    }
    var counter := CountGroupOutliers(groupData.traits, level);
    flags := [];
    for k := 0 to |counter.order|
      invariant flags == FlagsOf(groupData, counter.order[..k], counter.tallies, level, threshold)
    {
      var id := counter.order[k];
      FlagsOfStep(groupData, counter.order, k, counter.tallies, level, threshold);
      var t := counter.tallies[id];
      var outlierPercentage := t.count as real / totalTraits as real;
      if outlierPercentage >= threshold {
        flags := flags + [Flag(id, t.sampleName, groupData.family, groupData.name, groupData.subsampletype,
                               t.count, totalTraits, outlierPercentage, level, t.traitList)];
      }
    }
    assert counter.order[..|counter.order|] == counter.order;
  }

  /** The counting loops of one group: `experiment_outlier_count` after all its traits. */
  method CountGroupOutliers(traits: seq<TraitEntry>, level: SigmaLevel) returns (counter: Counter)
    ensures counter == Count(Hits(traits, level))
  {
    counter := Counter([], map[]);
    for ti := 0 to |traits|
      invariant counter == Count(Hits(traits[..ti], level))
    {
      HitsStep(traits, ti, level);
      counter := CountTraitOutliers(counter, Hits(traits[..ti], level), traits[ti], level);
    }
    assert traits[..|traits|] == traits;
  }

  /** The inner loop over one trait's outlier rows at `level`. */
  method CountTraitOutliers(counter: Counter, ghost before: seq<Hit>, te: TraitEntry, level: SigmaLevel)
    returns (updated: Counter)
    requires counter == Count(before)
    ensures updated == Count(before + TraitHits(te, level))
  {
    var outliers := OutliersAt(te.analysis, level);
    ghost var visits := TraitHits(te, level);
    updated := counter;
    assert before + visits[..0] == before;
    for oi := 0 to |outliers|
      invariant updated == Count(before + visits[..oi])
    {
      assert visits[oi] == Hit(te.column, outliers[oi]);
      assert before + visits[..oi + 1] == (before + visits[..oi]) + [visits[oi]];
      CountStep(before + visits[..oi], visits[oi]);
      updated := CountOutlierRow(updated, te.column, outliers[oi]);
    }
    assert visits[..|outliers|] == visits;
  }

  /** One outlier row: its experiment's entry is created at zero when new, then counted. */
  method CountOutlierRow(counter: Counter, column: Column, row: OutlierRow) returns (updated: Counter)
    ensures updated == Tick(counter, Hit(column, row))
  {
    var expId := row.experimentId;
    updated := counter;
    if expId !in updated.tallies {
      updated := Counter(updated.order + [expId], updated.tallies[expId := Tally(0, row.sampleName, [])]);
    }
    var t := updated.tallies[expId];
    updated := Counter(updated.order, updated.tallies[expId := Tally(t.count + 1, t.sampleName, t.traitList + [column])]);
    if expId !in counter.tallies {
      assert t.traitList + [column] == [column];
    }
  }

  /**
    From the loaded experiments to the flagged table: when the experiment
    ids are distinct, a flag lists each trait once, so its outlier count is
    at most its group's trait count and its percentage at most 1.
  */
  lemma FlagsAreBounded(data: ProcessedData, stdOf: StdFunction, level: SigmaLevel, threshold: real)
    requires DistinctBy(data.experiments, EntryId)
    ensures var frame := BuildFrame(data.experiments);
            var r := AnalyzeAll(frame, data.polynomialDegree, stdOf);
            r.Some? ==> forall f | f in IdentifyOutliers(r.value, level, threshold) ::
              && Distinct(f.outlierTraitList)
              && f.outlierTraits <= f.totalTraits
              && f.percentage <= 1.0
  {
    var frame := BuildFrame(data.experiments);
    var r := AnalyzeAll(frame, data.polynomialDegree, stdOf);
    if r.Some? {
      FrameRowIds(data.experiments);
      AnalyzeAllUniqueIds(frame, data.polynomialDegree, stdOf, level);
      FrameTraitsDistinct(data.experiments, data.polynomialDegree, stdOf);
      IdentifyBounded(r.value, level, threshold);
    }
  }

  /** Distinct experiment ids give distinct row ids in the table. */
  lemma FrameRowIds(entries: seq<Entry>)
    requires DistinctBy(entries, EntryId)
    ensures DistinctBy(BuildFrame(entries).rows, RowId)
  {
    var frame := BuildFrame(entries);
    FrameFacts(entries);
    forall i, j | 0 <= i < j < |frame.rows| ensures RowId(frame.rows[i]) != RowId(frame.rows[j]) {
      FlattenFacts(entries[i].id, entries[i].record);
      FlattenFacts(entries[j].id, entries[j].record);
    }
  }

  /** Every analysed group of the table lists each trait once. */
  lemma FrameTraitsDistinct(entries: seq<Entry>, degree: int, stdOf: StdFunction)
    ensures var frame := BuildFrame(entries);
            var r := AnalyzeAll(frame, degree, stdOf);
            r.Some? ==> forall e | e in r.value :: DistinctBy(e.result.traits, EntryColumn)
  {
    var frame := BuildFrame(entries);
    var r := AnalyzeAll(frame, degree, stdOf);
    if r.Some? {
      FrameFacts(entries);
      forall e | e in r.value ensures DistinctBy(e.result.traits, EntryColumn) {
        AnalyzedGroupTraits(frame, degree, stdOf, e);
      }
    }
  }

  /** A group-key field as an f-string renders it; pandas keeps a missing value as NaN. */
  function KeyPart(s: Option<string>): string
  {
    if s.Some? then s.value else "nan"
  }

  /** The dictionary key `analyze_all_traits` files a group under: its three fields joined by `_`. */
  function GroupKeyString(k: GroupKey): (r: string)
    ensures |r| >= 2
  {
    KeyPart(k.family) + "_" + k.name + "_" + KeyPart(k.subsampletype)
  }

  /**
    `results` as the source builds it: a dictionary keyed by the joined
    string, where a later group overwrites an earlier one with the same string.
  */
  function ResultsDict(entries: seq<GroupEntry>): (d: map<string, GroupResult>)
    ensures forall e | e in entries :: GroupKeyString(e.key) in d
    decreases |entries|
  {
    if entries == [] then map[]
    else
      var e := entries[|entries| - 1];
      ResultsDict(entries[..|entries| - 1])[GroupKeyString(e.key) := e.result]
  }

  /**
    Two different groups whose fields contain `_` are filed under one string:
    the dictionary keeps only the second, and the first group's analysis is lost.
  */
  lemma GroupKeyStringCollides()
    ensures var a := GroupKey(Some("A"), "B C_D", Some("E"));
            var b := GroupKey(Some("A"), "B C", Some("D_E"));
            var ra := GroupResult(a.family, a.name, a.subsampletype, 2, []);
            var rb := GroupResult(b.family, b.name, b.subsampletype, 3, []);
            && a != b
            && GroupKeyString(a) == GroupKeyString(b)
            && ResultsDict([GroupEntry(a, ra), GroupEntry(b, rb)]) == map[GroupKeyString(a) := rb]
  {
    var a := GroupKey(Some("A"), "B C_D", Some("E"));
    var b := GroupKey(Some("A"), "B C", Some("D_E"));
    var ra := GroupResult(a.family, a.name, a.subsampletype, 2, []);
    var rb := GroupResult(b.family, b.name, b.subsampletype, 3, []);
    assert a.name != b.name;
    assert GroupKeyString(a) == "A_B C_D_E" == GroupKeyString(b);
    var es := [GroupEntry(a, ra), GroupEntry(b, rb)];
    assert es[..1] == [GroupEntry(a, ra)];
    assert [GroupEntry(a, ra)][..0] == [];
    assert ResultsDict(es[..1]) == map[GroupKeyString(a) := ra];
  }

  /** A missing family and the family literally named "nan" are filed under one string too. */
  lemma MissingFieldCollides(name: string, subsampletype: Option<string>)
    ensures GroupKey(None, name, subsampletype) != GroupKey(Some("nan"), name, subsampletype)
    ensures GroupKeyString(GroupKey(None, name, subsampletype)) == GroupKeyString(GroupKey(Some("nan"), name, subsampletype))
  {
  }

  // One-step unfoldings of the specification functions, for the loops above.

  lemma TraitEntriesStep(columns: seq<Column>, catalogue: seq<Column>, i: nat, analyze: Column -> Option<TraitAnalysis>)
    requires i < |catalogue|
    ensures var c := catalogue[i];
            TraitEntries(columns, catalogue[..i + 1], analyze)
            == TraitEntries(columns, catalogue[..i], analyze)
               + (if c in columns && analyze(c).Some? then [TraitEntry(c, analyze(c).value)] else [])
  {
    assert catalogue[..i + 1][..i] == catalogue[..i];
  }

  lemma GroupEntriesStep(rows: seq<Row>, columns: seq<Column>, keys: seq<GroupKey>, i: nat,
                         catalogue: seq<Column>, stdOf: StdFunction)
    requires i < |keys|
    ensures var k := keys[i];
            GroupEntries(rows, columns, keys[..i + 1], catalogue, stdOf)
            == GroupEntries(rows, columns, keys[..i], catalogue, stdOf)
               + (if |GroupRows(rows, k)| < 2 then [] else [GroupEntry(k, AnalyzeGroup(rows, columns, k, catalogue, stdOf))])
  {
    assert keys[..i + 1][..i] == keys[..i];
  }

  lemma EmittedStep(results: seq<GroupEntry>, i: nat, level: SigmaLevel, threshold: real)
    requires i < |results|
    ensures Emitted(results[..i + 1], level, threshold)
            == Emitted(results[..i], level, threshold) + GroupFlags(results[i].result, level, threshold)
  {
    assert results[..i + 1][..i] == results[..i];
  }

  lemma FlagsOfStep(g: GroupResult, ids: seq<string>, i: nat, tallies: map<string, Tally>, level: SigmaLevel, threshold: real)
    requires |g.traits| > 0 && i < |ids|
    requires forall x | x in ids :: x in tallies
    ensures var f := MakeFlag(g, ids[i], tallies[ids[i]], level);
            FlagsOf(g, ids[..i + 1], tallies, level, threshold)
            == FlagsOf(g, ids[..i], tallies, level, threshold) + (if f.percentage >= threshold then [f] else [])
  {
    assert ids[..i + 1][..i] == ids[..i];
  }

  lemma CountStep(hits: seq<Hit>, h: Hit)
    ensures Count(hits + [h]) == Tick(Count(hits), h)
  {
    assert (hits + [h])[..|hits|] == hits;
  }

  lemma HitsStep(traits: seq<TraitEntry>, i: nat, level: SigmaLevel)
    requires i < |traits|
    ensures Hits(traits[..i + 1], level) == Hits(traits[..i], level) + TraitHits(traits[i], level)
  {
    assert traits[..i + 1][..i] == traits[..i];
  }
}
