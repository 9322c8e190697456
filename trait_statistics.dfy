/**
  Per-group statistics of one column and the sigma-band outlier selection
  (`calculate_statistics_for_group`, `find_outliers_in_group`).
*/
module TraitStatistics {
  import opened Wrappers
  import opened SeqMath
  import opened OutlierFrame

  /** The sigma levels the analysis stores bands for. */
  type SigmaLevel = k: int | 1 <= k <= 3 witness 1

  datatype Band = Band(low: real, high: real)

  /** The statistics dictionary of one column in one group (the median is not modelled). */
  datatype Stats = Stats(
    column: Column,
    count: nat,
    mean: real,
    std: real,
    min: real,
    max: real,
    sigma1: Band,
    sigma2: Band,
    sigma3: Band)

  /** `stats[f'sigma_{level}_low']` and `stats[f'sigma_{level}_high']`. */
  function BandAt(s: Stats, level: SigmaLevel): Band
  {
    if level == 1 then s.sigma1 else if level == 2 then s.sigma2 else s.sigma3
  }

  /** The standard deviation of a non-empty list, as pandas computes it; supplied by the caller. */
  type StdFunction = seq<real> -> real

  /** `group_df[column]`: the column's value in every row, missing where unset. */
  function ColumnValues(rows: seq<Row>, col: Column): (r: seq<Option<real>>)
    ensures |r| == |rows|
  {
    seq(|rows|, j requires 0 <= j < |rows| => CellOf(rows[j], col))
  }

  /** `calculate_statistics_for_group`: `None` when the column has no value in the group. */
  function CalculateStatisticsForGroup(rows: seq<Row>, col: Column, stdOf: StdFunction): Option<Stats>
  {
    var values := Present(ColumnValues(rows, col));
    if |values| == 0 then None
    else
      var mean := Mean(values);
      var std := stdOf(values);
      Some(Stats(col, |values|, mean, std, Min(values), Max(values),
                 Band(mean - std, mean + std),
                 Band(mean - 2.0 * std, mean + 2.0 * std),
                 Band(mean - 3.0 * std, mean + 3.0 * std)))
  }

  /** Band `k` is `mean ± k·std` for each level `k`. */
  ghost predicate Banded(s: Stats)
  {
    && s.sigma1 == Band(s.mean - s.std, s.mean + s.std)
    && s.sigma2 == Band(s.mean - 2.0 * s.std, s.mean + 2.0 * s.std)
    && s.sigma3 == Band(s.mean - 3.0 * s.std, s.mean + 3.0 * s.std)
  }

  /** The column's present values are exactly the values its rows hold. */
  lemma ColumnValuesPresent(rows: seq<Row>, col: Column)
    ensures var values := Present(ColumnValues(rows, col));
            && |values| <= |rows|
            && (forall v :: v in values <==> exists j :: 0 <= j < |rows| && CellOf(rows[j], col) == Some(v))
            && (values == [] <==> forall j :: 0 <= j < |rows| ==> CellOf(rows[j], col).None?)
  {
    var cv := ColumnValues(rows, col);
    PresentMembers(cv);
    assert forall j :: 0 <= j < |rows| ==> cv[j] == CellOf(rows[j], col);
  }

  /**
    The statistics exist exactly when some row has a value; then `count`
    is the number of rows with a value, the mean lies between min and max,
    and band `k` is `mean ± k·std`.
  */
  lemma StatisticsFacts(rows: seq<Row>, col: Column, stdOf: StdFunction)
    ensures var r := CalculateStatisticsForGroup(rows, col, stdOf);
            var values := Present(ColumnValues(rows, col));
            && (r.None? <==> forall j :: 0 <= j < |rows| ==> CellOf(rows[j], col).None?)
            && (r.Some? ==>
                  && r.value.column == col
                  && r.value.count == |values| && 1 <= r.value.count <= |rows|
                  && (forall v :: v in values <==> exists j :: 0 <= j < |rows| && CellOf(rows[j], col) == Some(v))
                  && r.value.std == stdOf(values)
                  && r.value.min <= r.value.mean <= r.value.max
                  && Banded(r.value))
  {
    var values := Present(ColumnValues(rows, col));
    ColumnValuesPresent(rows, col);
    if values != [] {
      MeanBetween(values);
    }
  }

  /** With a non-negative deviation the bands widen with the level and all contain the mean. */
  lemma BandsNest(s: Stats)
    requires Banded(s) && s.std >= 0.0
    ensures s.sigma3.low <= s.sigma2.low <= s.sigma1.low <= s.mean
    ensures s.mean <= s.sigma1.high <= s.sigma2.high <= s.sigma3.high
  {
  }

  // ---------------------------------------------------------------------------
  // Outliers

  /** `(value - mean) / std`, with the infinities and NaN a zero deviation yields. */
  datatype Deviation = Finite(d: real) | PositiveInfinity | NegativeInfinity | Undefined

  function DeviationOf(value: real, s: Stats): Deviation
  {
    if s.std != 0.0 then Finite((value - s.mean) / s.std)
    else if value > s.mean then PositiveInfinity
    else if value < s.mean then NegativeInfinity
    else Undefined
  }

  /** One row of the outlier table. */
  datatype OutlierRow = OutlierRow(
    experimentId: string,
    sampleName: Option<string>,
    family: Option<string>,
    name: string,
    subsampletype: Option<string>,
    value: real,
    deviation: Deviation)

  /** A row is an outlier when its value is present and strictly outside the band. */
  predicate IsOutlier(row: Row, col: Column, band: Band)
  {
    CellOf(row, col).Some? && (CellOf(row, col).value < band.low || CellOf(row, col).value > band.high)
  }

  function ToOutlier(row: Row, col: Column, s: Stats): OutlierRow
    requires CellOf(row, col).Some?
  {
    var v := CellOf(row, col).value;
    OutlierRow(row.experimentId, row.sampleName, row.family, row.name, row.subsampletype, v, DeviationOf(v, s))
  }

  /** The boolean-mask selection, in row order. */
  function SelectOutliers(rows: seq<Row>, col: Column, s: Stats, band: Band): seq<OutlierRow>
    decreases |rows|
  {
    if rows == [] then []
    else
      var row := rows[|rows| - 1];
      SelectOutliers(rows[..|rows| - 1], col, s, band)
        + (if IsOutlier(row, col, band) then [ToOutlier(row, col, s)] else [])
  }

  /** The sort key: `|value - mean|`, which orders rows as `|deviation|` does. */
  function Distance(mean: real): OutlierRow -> real
  {
    (o: OutlierRow) => Abs(o.value - mean)
  }

  /**
    `find_outliers_in_group`: the rows outside the band of the given level,
    ordered by decreasing distance from the mean.
  */
  function FindOutliersInGroup(rows: seq<Row>, col: Column, stats: Option<Stats>, level: SigmaLevel): seq<OutlierRow>
  {
    match stats
    case None => []
    case Some(s) => SortDesc(SelectOutliers(rows, col, s, BandAt(s, level)), Distance(s.mean))
  }

  lemma {:induction false} SelectOutliersMembers(rows: seq<Row>, col: Column, s: Stats, band: Band)
    ensures forall o :: o in SelectOutliers(rows, col, s, band) <==>
      exists j :: 0 <= j < |rows| && IsOutlier(rows[j], col, band) && o == ToOutlier(rows[j], col, s)
    decreases |rows|
  {
    if rows != [] {
      var n := |rows| - 1;
      SelectOutliersMembers(rows[..n], col, s, band);
      forall o | o in SelectOutliers(rows, col, s, band)
        ensures exists j :: 0 <= j < |rows| && IsOutlier(rows[j], col, band) && o == ToOutlier(rows[j], col, s)
      {
        if o in SelectOutliers(rows[..n], col, s, band) {
          var j :| 0 <= j < n && IsOutlier(rows[..n][j], col, band) && o == ToOutlier(rows[..n][j], col, s);
          assert rows[..n][j] == rows[j];
        }
      }
      forall o | exists j :: 0 <= j < |rows| && IsOutlier(rows[j], col, band) && o == ToOutlier(rows[j], col, s)
        ensures o in SelectOutliers(rows, col, s, band)
      {
        var j :| 0 <= j < |rows| && IsOutlier(rows[j], col, band) && o == ToOutlier(rows[j], col, s);
        if j < n {
          assert rows[..n][j] == rows[j];
        }
      }
    }
  }

  lemma AbsQuotient(a: real, s: real)
    requires s > 0.0
    ensures Abs(a / s) == Abs(a) / s
  {
    if a < 0.0 {
      assert a / s < 0.0;
      assert -(a / s) == (-a) / s;
    }
  }

  lemma QuotientMonotone(a: real, b: real, s: real)
    requires s > 0.0 && a >= b
    ensures a / s >= b / s
  {
  }

  /**
    A row is reported exactly when its value is present and strictly
    outside the band, and each reported row carries its value and
    `(value - mean)/std`.
  */
  lemma FindOutliersMembers(rows: seq<Row>, col: Column, stats: Option<Stats>, level: SigmaLevel)
    ensures var r := FindOutliersInGroup(rows, col, stats, level);
            && (stats.None? ==> r == [])
            && (stats.Some? ==>
                  && (forall o :: o in r <==>
                        exists j :: 0 <= j < |rows| && IsOutlier(rows[j], col, BandAt(stats.value, level))
                                    && o == ToOutlier(rows[j], col, stats.value))
                  && (forall o :: o in r ==> o.deviation == DeviationOf(o.value, stats.value)))
  {
    if stats.Some? {
      var s := stats.value;
      var band := BandAt(s, level);
      var selected := SelectOutliers(rows, col, s, band);
      var r := FindOutliersInGroup(rows, col, stats, level);
      assert multiset(r) == multiset(selected);
      SelectOutliersMembers(rows, col, s, band);
      forall o ensures o in r <==> o in selected {
        assert o in r <==> o in multiset(r);
        assert o in selected <==> o in multiset(selected);
      }
    }
  }

  lemma FindOutliersDeviations(rows: seq<Row>, col: Column, s: Stats, level: SigmaLevel)
    ensures var r := FindOutliersInGroup(rows, col, Some(s), level);
            && SortedDesc(r, Distance(s.mean))
            && forall o | o in r :: o.deviation == DeviationOf(o.value, s)
  {
    FindOutliersMembers(rows, col, Some(s), level);
  }

  /** With a positive deviation the reported rows come by non-increasing `|deviation|`. */
  lemma FindOutliersOrdered(rows: seq<Row>, col: Column, s: Stats, level: SigmaLevel)
    requires s.std > 0.0
    ensures var r := FindOutliersInGroup(rows, col, Some(s), level);
            forall i, j :: 0 <= i < j < |r| ==>
              && r[i].deviation == Finite((r[i].value - s.mean) / s.std)
              && r[j].deviation == Finite((r[j].value - s.mean) / s.std)
              && Abs(r[i].deviation.d) >= Abs(r[j].deviation.d)
  {
    var r := FindOutliersInGroup(rows, col, Some(s), level);
    FindOutliersDeviations(rows, col, s, level);
    forall i, j | 0 <= i < j < |r|
      ensures && r[i].deviation == Finite((r[i].value - s.mean) / s.std)
              && r[j].deviation == Finite((r[j].value - s.mean) / s.std)
              && Abs(r[i].deviation.d) >= Abs(r[j].deviation.d)
    {
      assert r[i] in r && r[j] in r;
      assert Distance(s.mean)(r[i]) >= Distance(s.mean)(r[j]);
      FartherDeviatesMore(r[i].value, r[j].value, s);
    }
  }

  /** The farther value from the mean has the larger `|deviation|`. */
  lemma FartherDeviatesMore(a: real, b: real, s: Stats)
    requires s.std > 0.0 && Abs(a - s.mean) >= Abs(b - s.mean)
    ensures DeviationOf(a, s) == Finite((a - s.mean) / s.std)
    ensures DeviationOf(b, s) == Finite((b - s.mean) / s.std)
    ensures Abs((a - s.mean) / s.std) >= Abs((b - s.mean) / s.std)
  {
    AbsQuotient(a - s.mean, s.std);
    AbsQuotient(b - s.mean, s.std);
    QuotientMonotone(Abs(a - s.mean), Abs(b - s.mean), s.std);
  }

  lemma {:induction false} SelectOutliersShrink(rows: seq<Row>, col: Column, s: Stats, inner: Band, outer: Band)
    requires outer.low <= inner.low && inner.high <= outer.high
    ensures multiset(SelectOutliers(rows, col, s, outer)) <= multiset(SelectOutliers(rows, col, s, inner))
    decreases |rows|
  {
    if rows != [] {
      SelectOutliersShrink(rows[..|rows| - 1], col, s, inner, outer);
    }
  }

  /**
    With a non-negative deviation every 3-sigma outlier is a 2-sigma
    outlier and every 2-sigma outlier a 1-sigma outlier.
  */
  lemma OutlierLevelsNest(rows: seq<Row>, col: Column, stdOf: StdFunction)
    requires var st := CalculateStatisticsForGroup(rows, col, stdOf); st.Some? ==> st.value.std >= 0.0
    ensures var st := CalculateStatisticsForGroup(rows, col, stdOf);
            && multiset(FindOutliersInGroup(rows, col, st, 3)) <= multiset(FindOutliersInGroup(rows, col, st, 2))
            && multiset(FindOutliersInGroup(rows, col, st, 2)) <= multiset(FindOutliersInGroup(rows, col, st, 1))
  {
    var st := CalculateStatisticsForGroup(rows, col, stdOf);
    if st.Some? {
      StatisticsBanded(rows, col, stdOf);
      FindOutliersNest(rows, col, st.value);
    }
  }

  lemma StatisticsBanded(rows: seq<Row>, col: Column, stdOf: StdFunction)
    ensures var st := CalculateStatisticsForGroup(rows, col, stdOf);
            st.Some? ==> Banded(st.value)
  {
  }

  lemma FindOutliersNest(rows: seq<Row>, col: Column, s: Stats)
    requires Banded(s) && s.std >= 0.0
    ensures multiset(FindOutliersInGroup(rows, col, Some(s), 3)) <= multiset(FindOutliersInGroup(rows, col, Some(s), 2))
    ensures multiset(FindOutliersInGroup(rows, col, Some(s), 2)) <= multiset(FindOutliersInGroup(rows, col, Some(s), 1))
  {
    BandsNest(s);
    var sel1 := SelectOutliers(rows, col, s, s.sigma1);
    var sel2 := SelectOutliers(rows, col, s, s.sigma2);
    var sel3 := SelectOutliers(rows, col, s, s.sigma3);
    assert multiset(FindOutliersInGroup(rows, col, Some(s), 1)) == multiset(sel1);
    assert multiset(FindOutliersInGroup(rows, col, Some(s), 2)) == multiset(sel2);
    assert multiset(FindOutliersInGroup(rows, col, Some(s), 3)) == multiset(sel3);
    SelectOutliersShrink(rows, col, s, s.sigma2, s.sigma3);
    SelectOutliersShrink(rows, col, s, s.sigma1, s.sigma2);
  }

  function OutlierId(o: OutlierRow): string
  {
    o.experimentId
  }

  lemma {:induction false} SelectOutliersDistinctIds(rows: seq<Row>, col: Column, s: Stats, band: Band)
    requires DistinctBy(rows, RowId)
    ensures DistinctBy(SelectOutliers(rows, col, s, band), OutlierId)
    decreases |rows|
  {
    if rows != [] {
      var n := |rows| - 1;
      assert DistinctBy(rows[..n], RowId);
      SelectOutliersDistinctIds(rows[..n], col, s, band);
      SelectOutliersMembers(rows[..n], col, s, band);
      var earlier := SelectOutliers(rows[..n], col, s, band);
      forall i | 0 <= i < |earlier| ensures earlier[i].experimentId != rows[n].experimentId {
        assert earlier[i] in earlier;
        var j :| 0 <= j < n && IsOutlier(rows[..n][j], col, band) && earlier[i] == ToOutlier(rows[..n][j], col, s);
        assert rows[..n][j] == rows[j];
      }
    }
  }

  /** An experiment appears at most once in an outlier table when ids are unique in the group. */
  lemma FindOutliersDistinctIds(rows: seq<Row>, col: Column, stats: Option<Stats>, level: SigmaLevel)
    requires DistinctBy(rows, RowId)
    ensures DistinctBy(FindOutliersInGroup(rows, col, stats, level), OutlierId)
  {
    if stats.Some? {
      var s := stats.value;
      var selected := SelectOutliers(rows, col, s, BandAt(s, level));
      SelectOutliersDistinctIds(rows, col, s, BandAt(s, level));
      PermutationDistinctBy(selected, FindOutliersInGroup(rows, col, stats, level), OutlierId);
    }
  }
}
