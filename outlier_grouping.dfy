/**
  The hierarchical analysis (`analyze_all_traits`): the trait catalogue,
  the grouping of rows by (family, name, subsampletype), and the per-group,
  per-trait statistics and outlier lists with their skip rules.
*/
module OutlierGrouping {
  import opened Wrappers
  import opened SeqMath
  import opened OutlierFrame
  import opened TraitStatistics

  // ---------------------------------------------------------------------------
  // Trait catalogue

  predicate IsTraitColumn(c: Column)
  {
    c.Trait?
  }

  /** The number of coefficient columns probed: `range(poly_degree + 1)`. */
  function CoeffCount(degree: int): nat
  {
    if degree + 1 > 0 then degree + 1 else 0
  }

  /** `coeff_0 … coeff_{n-1}`, keeping those that are columns of the table. */
  function CoeffsUpTo(columns: seq<Column>, n: nat): seq<Column>
  {
    if n == 0 then []
    else CoeffsUpTo(columns, n - 1) + (if Coeff(n - 1) in columns then [Coeff(n - 1)] else [])
  }

  /**
    `traits_to_analyze`: `r_squared` if it is a column, then the coefficient
    columns up to the polynomial degree, then every `trait_*` column in
    table order.
  */
  function TraitsToAnalyze(columns: seq<Column>, degree: int): seq<Column>
  {
    (if RSquared in columns then [RSquared] else [])
      + CoeffsUpTo(columns, CoeffCount(degree))
      + Filter(columns, IsTraitColumn)
  }

  lemma {:induction false} CoeffsUpToFacts(columns: seq<Column>, n: nat)
    ensures forall c | c in CoeffsUpTo(columns, n) :: c.Coeff? && c.index < n && c in columns
    ensures forall i: nat | i < n && Coeff(i) in columns :: Coeff(i) in CoeffsUpTo(columns, n)
    ensures Distinct(CoeffsUpTo(columns, n))
  {
    if n > 0 {
      CoeffsUpToFacts(columns, n - 1);
    }
  }

  /**
    The catalogue lists each analysable column of the table once:
    `r_squared`, the coefficients up to the degree, and the trait columns.
  */
  lemma CatalogueFacts(columns: seq<Column>, degree: int)
    requires Distinct(columns)
    ensures var cat := TraitsToAnalyze(columns, degree);
            && Distinct(cat)
            && (forall c :: c in cat <==>
                  c in columns && (c.RSquared? || c.Trait? || (c.Coeff? && c.index <= degree)))
  {
    var cat := TraitsToAnalyze(columns, degree);
    var a := if RSquared in columns then [RSquared] else [];
    var b := CoeffsUpTo(columns, CoeffCount(degree));
    var t := Filter(columns, IsTraitColumn);
    CoeffsUpToFacts(columns, CoeffCount(degree));
    FilterMembers(columns, IsTraitColumn);
    FilterDistinct(columns, IsTraitColumn);
    assert cat == a + b + t;
    DistinctConcat(a, b);
    assert forall x: Column | x in a + b :: x.RSquared? || x.Coeff?;
    DistinctConcat(a + b, t);
    forall c | c in columns && (c.RSquared? || c.Trait? || (c.Coeff? && c.index <= degree))
      ensures c in cat
    {
      if c.Trait? {
        assert c in t;
      } else if c.Coeff? {
        assert c in b;
      }
    }
  }

  // ---------------------------------------------------------------------------
  // Grouping

  /** The grouping key; `None` stands for the NaN group `dropna=False` keeps. */
  datatype GroupKey = GroupKey(family: Option<string>, name: string, subsampletype: Option<string>)

  function KeyOf(row: Row): GroupKey
  {
    GroupKey(row.family, row.name, row.subsampletype)
  }

  function RowKeys(rows: seq<Row>): seq<GroupKey>
  {
    seq(|rows|, j requires 0 <= j < |rows| => KeyOf(rows[j]))
  }

  /** The distinct keys, in order of first appearance. */
  function GroupKeys(rows: seq<Row>): seq<GroupKey>
  {
    Dedup(RowKeys(rows))
  }

  function HasKey(key: GroupKey): Row -> bool
  {
    (row: Row) => KeyOf(row) == key
  }

  /** `group_df`: the rows of one group, in table order. */
  function GroupRows(rows: seq<Row>, key: GroupKey): seq<Row>
  {
    Filter(rows, HasKey(key))
  }

  /**
    The groups partition the table: the keys are distinct, a key occurs
    exactly when some row carries it, and a group holds exactly the rows
    with its key; experiment ids stay distinct within a group.
  */
  lemma GroupingFacts(rows: seq<Row>, key: GroupKey)
    ensures Distinct(GroupKeys(rows))
    ensures key in GroupKeys(rows) <==> exists j :: 0 <= j < |rows| && KeyOf(rows[j]) == key
    ensures |GroupRows(rows, key)| <= |rows|
    ensures forall row :: row in GroupRows(rows, key) <==> row in rows && KeyOf(row) == key
    ensures DistinctBy(rows, RowId) ==> DistinctBy(GroupRows(rows, key), RowId)
  {
    DedupFacts(RowKeys(rows));
    FilterMembers(rows, HasKey(key));
    if key in RowKeys(rows) {
      var j :| 0 <= j < |rows| && RowKeys(rows)[j] == key;
    }
    if exists j :: 0 <= j < |rows| && KeyOf(rows[j]) == key {
      var j :| 0 <= j < |rows| && KeyOf(rows[j]) == key;
      assert RowKeys(rows)[j] == key;
    }
    if DistinctBy(rows, RowId) {
      FilterDistinctBy(rows, HasKey(key), RowId);
    }
  }

  // ---------------------------------------------------------------------------
  // Per-trait and per-group analysis

  /** The statistics and the three outlier tables of one trait in one group. */
  datatype TraitAnalysis = TraitAnalysis(
    statistics: Stats,
    outliers1: seq<OutlierRow>,
    outliers2: seq<OutlierRow>,
    outliers3: seq<OutlierRow>)

  /** `analysis[f'outliers_{level}sigma']`. */
  function OutliersAt(a: TraitAnalysis, level: SigmaLevel): seq<OutlierRow>
  {
    if level == 1 then a.outliers1 else if level == 2 then a.outliers2 else a.outliers3
  }

  datatype TraitEntry = TraitEntry(column: Column, analysis: TraitAnalysis)

  /** One entry of `results`, with its `traits` dictionary in insertion order. */
  datatype GroupResult = GroupResult(
    family: Option<string>,
    name: string,
    subsampletype: Option<string>,
    sampleCount: nat,
    traits: seq<TraitEntry>)

  datatype GroupEntry = GroupEntry(key: GroupKey, result: GroupResult)

  /** A trait is analysed in a group when its statistics exist with a count of at least 2. */
  function AnalyzeTrait(group: seq<Row>, col: Column, stdOf: StdFunction): Option<TraitAnalysis>
  {
    var st := CalculateStatisticsForGroup(group, col, stdOf);
    if st.None? || st.value.count < 2 then None
    else Some(TraitAnalysis(st.value,
                            FindOutliersInGroup(group, col, st, 1),
                            FindOutliersInGroup(group, col, st, 2),
                            FindOutliersInGroup(group, col, st, 3)))
  }

  /** The per-trait analysis of one group, as a function of the column. */
  function Analyzer(group: seq<Row>, stdOf: StdFunction): Column -> Option<TraitAnalysis>
  {
    (c: Column) => AnalyzeTrait(group, c, stdOf)
  }

  /**
    The `traits` dictionary of a group: the catalogue entries that are
    columns and that `analyze` accepts, in catalogue order.
  */
  function TraitEntries(columns: seq<Column>, catalogue: seq<Column>,
                        analyze: Column -> Option<TraitAnalysis>): seq<TraitEntry>
    decreases |catalogue|
  {
    if catalogue == [] then []
    else
      var c := catalogue[|catalogue| - 1];
      var earlier := TraitEntries(columns, catalogue[..|catalogue| - 1], analyze);
      if c in columns && analyze(c).Some? then earlier + [TraitEntry(c, analyze(c).value)]
      else earlier
  }

  function EntryColumn(e: TraitEntry): Column
  {
    e.column
  }

  function AnalyzeGroup(rows: seq<Row>, columns: seq<Column>, key: GroupKey,
                        catalogue: seq<Column>, stdOf: StdFunction): GroupResult
  {
    var group := GroupRows(rows, key);
    GroupResult(key.family, key.name, key.subsampletype, |group|,
                TraitEntries(columns, catalogue, Analyzer(group, stdOf)))
  }

  /** The entries of `results` for the given keys: groups with fewer than 2 rows are skipped. */
  function GroupEntries(rows: seq<Row>, columns: seq<Column>, keys: seq<GroupKey>,
                        catalogue: seq<Column>, stdOf: StdFunction): seq<GroupEntry>
    decreases |keys|
  {
    if keys == [] then []
    else
      var k := keys[|keys| - 1];
      var earlier := GroupEntries(rows, columns, keys[..|keys| - 1], catalogue, stdOf);
      if |GroupRows(rows, k)| < 2 then earlier
      else earlier + [GroupEntry(k, AnalyzeGroup(rows, columns, k, catalogue, stdOf))]
  }

  /**
    `analyze_all_traits` on the table; `None` for a table without rows,
    where grouping by the missing `family` column raises `KeyError`.
  */
  function AnalyzeAll(frame: Frame, degree: int, stdOf: StdFunction): Option<seq<GroupEntry>>
  {
    if frame.rows == [] then None
    else Some(GroupEntries(frame.rows, frame.columns, GroupKeys(frame.rows),
                           TraitsToAnalyze(frame.columns, degree), stdOf))
  }

  /** A trait is analysed exactly when at least two rows of the group hold a value for it. */
  lemma AnalyzeTraitFacts(group: seq<Row>, col: Column, stdOf: StdFunction)
    ensures var a := AnalyzeTrait(group, col, stdOf);
            var st := CalculateStatisticsForGroup(group, col, stdOf);
            && (a.Some? <==> |Present(ColumnValues(group, col))| >= 2)
            && (a.Some? ==>
                  && st == Some(a.value.statistics)
                  && a.value.statistics.count >= 2
                  && forall level: SigmaLevel :: OutliersAt(a.value, level) == FindOutliersInGroup(group, col, st, level))
  {
    StatisticsFacts(group, col, stdOf);
  }

  lemma {:induction false} TraitEntriesSound(columns: seq<Column>, catalogue: seq<Column>,
                                             analyze: Column -> Option<TraitAnalysis>)
    ensures var es := TraitEntries(columns, catalogue, analyze);
            && |es| <= |catalogue|
            && forall e | e in es :: e.column in catalogue && e.column in columns && analyze(e.column) == Some(e.analysis)
    decreases |catalogue|
  {
    if catalogue != [] {
      var n := |catalogue| - 1;
      TraitEntriesSound(columns, catalogue[..n], analyze);
      assert catalogue == catalogue[..n] + [catalogue[n]];
    }
  }

  lemma {:induction false} TraitEntriesComplete(columns: seq<Column>, catalogue: seq<Column>,
                                                analyze: Column -> Option<TraitAnalysis>)
    ensures var es := TraitEntries(columns, catalogue, analyze);
            forall c | c in catalogue && c in columns && analyze(c).Some? :: TraitEntry(c, analyze(c).value) in es
    decreases |catalogue|
  {
    if catalogue != [] {
      var n := |catalogue| - 1;
      TraitEntriesComplete(columns, catalogue[..n], analyze);
      assert catalogue == catalogue[..n] + [catalogue[n]];
    }
  }

  lemma {:induction false} TraitEntriesDistinct(columns: seq<Column>, catalogue: seq<Column>,
                                                analyze: Column -> Option<TraitAnalysis>)
    requires Distinct(catalogue)
    ensures DistinctBy(TraitEntries(columns, catalogue, analyze), EntryColumn)
    decreases |catalogue|
  {
    if catalogue != [] {
      var n := |catalogue| - 1;
      var c := catalogue[n];
      assert Distinct(catalogue[..n]);
      TraitEntriesDistinct(columns, catalogue[..n], analyze);
      TraitEntriesSound(columns, catalogue[..n], analyze);
      var earlier := TraitEntries(columns, catalogue[..n], analyze);
      forall i | 0 <= i < |earlier| ensures earlier[i].column != c {
        assert earlier[i] in earlier;
        var k :| 0 <= k < n && catalogue[..n][k] == earlier[i].column;
      }
    }
  }

  /**
    A group's trait dictionary holds, once each and in catalogue order,
    exactly the catalogue columns the analysis accepts, with their analyses.
  */
  lemma TraitEntriesFacts(columns: seq<Column>, catalogue: seq<Column>, analyze: Column -> Option<TraitAnalysis>)
    requires Distinct(catalogue)
    ensures var es := TraitEntries(columns, catalogue, analyze);
            && |es| <= |catalogue|
            && DistinctBy(es, EntryColumn)
            && (forall e | e in es :: e.column in catalogue && e.column in columns && analyze(e.column) == Some(e.analysis))
            && (forall c | c in catalogue && c in columns && analyze(c).Some? :: TraitEntry(c, analyze(c).value) in es)
  {
    TraitEntriesSound(columns, catalogue, analyze);
    TraitEntriesComplete(columns, catalogue, analyze);
    TraitEntriesDistinct(columns, catalogue, analyze);
  }

  function EntryKey(e: GroupEntry): GroupKey
  {
    e.key
  }

  lemma {:induction false} GroupEntriesFacts(rows: seq<Row>, columns: seq<Column>, keys: seq<GroupKey>,
                                             catalogue: seq<Column>, stdOf: StdFunction)
    ensures var es := GroupEntries(rows, columns, keys, catalogue, stdOf);
            && (forall e | e in es :: e.key in keys && |GroupRows(rows, e.key)| >= 2
                                      && e.result == AnalyzeGroup(rows, columns, e.key, catalogue, stdOf))
            && (forall k | k in keys && |GroupRows(rows, k)| >= 2 :: exists e :: e in es && e.key == k)
            && (Distinct(keys) ==> DistinctBy(es, EntryKey))
    decreases |keys|
  {
    if keys != [] {
      var n := |keys| - 1;
      var k := keys[n];
      GroupEntriesFacts(rows, columns, keys[..n], catalogue, stdOf);
      assert keys == keys[..n] + [k];
      var earlier := GroupEntries(rows, columns, keys[..n], catalogue, stdOf);
      if Distinct(keys) {
        assert Distinct(keys[..n]);
        forall i | 0 <= i < |earlier| ensures earlier[i].key != k {
          assert earlier[i] in earlier;
          var p :| 0 <= p < n && keys[..n][p] == earlier[i].key;
        }
      }
    }
  }

  /**
    `results` has one entry per group of at least two rows, and no other;
    each entry carries its key's fields and its group's size.
  */
  lemma AnalyzeAllGroups(frame: Frame, degree: int, stdOf: StdFunction)
    ensures var r := AnalyzeAll(frame, degree, stdOf);
            && (r.None? <==> frame.rows == [])
            && (r.Some? ==>
                  && DistinctBy(r.value, EntryKey)
                  && (forall k :: (exists e :: e in r.value && e.key == k) <==>
                        (exists j :: 0 <= j < |frame.rows| && KeyOf(frame.rows[j]) == k)
                        && |GroupRows(frame.rows, k)| >= 2)
                  && (forall e | e in r.value ::
                        && e.result.family == e.key.family
                        && e.result.name == e.key.name
                        && e.result.subsampletype == e.key.subsampletype
                        && e.result.sampleCount == |GroupRows(frame.rows, e.key)| >= 2))
  {
    if frame.rows != [] {
      var keys := GroupKeys(frame.rows);
      var es := GroupEntries(frame.rows, frame.columns, keys, TraitsToAnalyze(frame.columns, degree), stdOf);
      GroupEntriesFacts(frame.rows, frame.columns, keys, TraitsToAnalyze(frame.columns, degree), stdOf);
      forall k ensures k in keys <==> exists j :: 0 <= j < |frame.rows| && KeyOf(frame.rows[j]) == k {
        GroupingFacts(frame.rows, k);
      }
      DedupFacts(RowKeys(frame.rows));
    }
  }

  /**
    Within an analysed group, a catalogue trait is analysed exactly when at
    least two of the group's rows hold a value for it; each appears once,
    with its statistics and its three outlier tables over the group's rows.
  */
  lemma AnalyzedGroupTraits(frame: Frame, degree: int, stdOf: StdFunction, e: GroupEntry)
    requires Distinct(frame.columns)
    requires AnalyzeAll(frame, degree, stdOf).Some? && e in AnalyzeAll(frame, degree, stdOf).value
    ensures var group := GroupRows(frame.rows, e.key);
            var cat := TraitsToAnalyze(frame.columns, degree);
            && DistinctBy(e.result.traits, EntryColumn)
            && (forall te | te in e.result.traits ::
                  && te.column in cat
                  && |Present(ColumnValues(group, te.column))| >= 2
                  && CalculateStatisticsForGroup(group, te.column, stdOf) == Some(te.analysis.statistics)
                  && forall level: SigmaLevel ::
                       OutliersAt(te.analysis, level)
                       == FindOutliersInGroup(group, te.column, Some(te.analysis.statistics), level))
            && (forall c | c in cat && |Present(ColumnValues(group, c))| >= 2 ::
                  exists te :: te in e.result.traits && te.column == c)
  {
    var group := GroupRows(frame.rows, e.key);
    var cat := TraitsToAnalyze(frame.columns, degree);
    GroupEntriesFacts(frame.rows, frame.columns, GroupKeys(frame.rows), cat, stdOf);
    CatalogueFacts(frame.columns, degree);
    var analyze := Analyzer(group, stdOf);
    assert e.result.traits == TraitEntries(frame.columns, cat, analyze);
    TraitEntriesFacts(frame.columns, cat, analyze);
    forall te | te in e.result.traits
      ensures |Present(ColumnValues(group, te.column))| >= 2
      ensures CalculateStatisticsForGroup(group, te.column, stdOf) == Some(te.analysis.statistics)
      ensures forall level: SigmaLevel ::
                OutliersAt(te.analysis, level) == FindOutliersInGroup(group, te.column, Some(te.analysis.statistics), level)
    {
      AnalyzeTraitFacts(group, te.column, stdOf);
    }
    forall c | c in cat && |Present(ColumnValues(group, c))| >= 2
      ensures exists te :: te in e.result.traits && te.column == c
    {
      AnalyzeTraitFacts(group, c, stdOf);
      assert TraitEntry(c, analyze(c).value) in e.result.traits;
    }
  }

  /** Every outlier table of every analysed trait lists each experiment at most once. */
  ghost predicate UniqueOutlierIds(results: seq<GroupEntry>, level: SigmaLevel)
  {
    forall e, te | e in results && te in e.result.traits :: DistinctBy(OutliersAt(te.analysis, level), OutlierId)
  }

  /** When experiment ids are unique in the table, they are unique in every outlier table. */
  lemma AnalyzeAllUniqueIds(frame: Frame, degree: int, stdOf: StdFunction, level: SigmaLevel)
    requires DistinctBy(frame.rows, RowId)
    ensures AnalyzeAll(frame, degree, stdOf).Some? ==> UniqueOutlierIds(AnalyzeAll(frame, degree, stdOf).value, level)
  {
    if frame.rows != [] {
      var cat := TraitsToAnalyze(frame.columns, degree);
      var results := AnalyzeAll(frame, degree, stdOf).value;
      GroupEntriesFacts(frame.rows, frame.columns, GroupKeys(frame.rows), cat, stdOf);
      forall e, te | e in results && te in e.result.traits
        ensures DistinctBy(OutliersAt(te.analysis, level), OutlierId)
      {
        var group := GroupRows(frame.rows, e.key);
        GroupingFacts(frame.rows, e.key);
        TraitEntriesSound(frame.columns, cat, Analyzer(group, stdOf));
        assert AnalyzeTrait(group, te.column, stdOf) == Some(te.analysis);
        var st := CalculateStatisticsForGroup(group, te.column, stdOf);
        assert OutliersAt(te.analysis, level) == FindOutliersInGroup(group, te.column, st, level);
        FindOutliersDistinctIds(group, te.column, st, level);
      }
    }
  }
}
