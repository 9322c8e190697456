/**
  Flagging of experiments that are outliers in a large enough share of
  their group's analysed traits (`identify_outlier_experiments`).
*/
module OutlierFlagging {
  import opened Wrappers
  import opened SeqMath
  import opened OutlierFrame
  import opened TraitStatistics
  import opened OutlierGrouping

  /** One visit of the counting loops: a trait and one row of its outlier table. */
  datatype Hit = Hit(column: Column, row: OutlierRow)

  function TraitHits(te: TraitEntry, level: SigmaLevel): seq<Hit>
  {
    RowHits(OutliersAt(te.analysis, level), te.column)
  }

  /** The visits of the inner loop over one outlier table. */
  function RowHits(outs: seq<OutlierRow>, column: Column): seq<Hit>
  {
    seq(|outs|, i requires 0 <= i < |outs| => Hit(column, outs[i]))
  }

  /** The visits of the nested loops over a group's traits and their outlier rows, in order. */
  function Hits(traits: seq<TraitEntry>, level: SigmaLevel): seq<Hit>
    decreases |traits|
  {
    if traits == [] then []
    else Hits(traits[..|traits| - 1], level) + TraitHits(traits[|traits| - 1], level)
  }

  /** An entry of `experiment_outlier_count`. */
  datatype Tally = Tally(count: nat, sampleName: Option<string>, traitList: seq<Column>)

  /** `experiment_outlier_count`, with its keys in insertion order. */
  datatype Counter = Counter(order: seq<string>, tallies: map<string, Tally>)

  /** One pass of the innermost loop body. */
  function Tick(c: Counter, h: Hit): Counter
  {
    var id := h.row.experimentId;
    if id in c.tallies then
      var t := c.tallies[id];
      Counter(c.order, c.tallies[id := Tally(t.count + 1, t.sampleName, t.traitList + [h.column])])
    else Counter(c.order + [id], c.tallies[id := Tally(1, h.row.sampleName, [h.column])])
  }

  /** The counter after the given visits. */
  function Count(hits: seq<Hit>): (c: Counter)
    ensures forall id :: id in c.tallies <==> id in c.order
    decreases |hits|
  {
    if hits == [] then Counter([], map[]) else Tick(Count(hits[..|hits| - 1]), hits[|hits| - 1])
  }

  /** The traits of the visits that name `id`, in order. */
  function TraitsHitting(hits: seq<Hit>, id: string): seq<Column>
    decreases |hits|
  {
    if hits == [] then []
    else
      var h := hits[|hits| - 1];
      TraitsHitting(hits[..|hits| - 1], id) + (if h.row.experimentId == id then [h.column] else [])
  }

  lemma {:induction false} CountOrder(hits: seq<Hit>)
    ensures var c := Count(hits);
            && Distinct(c.order)
            && (forall id :: id in c.tallies <==> exists h :: h in hits && h.row.experimentId == id)
    decreases |hits|
  {
    if hits != [] {
      var n := |hits| - 1;
      CountOrder(hits[..n]);
      assert hits == hits[..n] + [hits[n]];
    }
  }

  lemma {:induction false} CountTallies(hits: seq<Hit>)
    ensures var c := Count(hits);
            && (forall id | id in c.tallies ::
                  && c.tallies[id].traitList == TraitsHitting(hits, id)
                  && c.tallies[id].count == |c.tallies[id].traitList| >= 1)
            && (forall id | id !in c.tallies :: TraitsHitting(hits, id) == [])
    decreases |hits|
  {
    if hits != [] {
      var n := |hits| - 1;
      var h := hits[n];
      var prev := Count(hits[..n]);
      var c := Count(hits);
      CountTallies(hits[..n]);
      assert c == Tick(prev, h);
      forall id
        ensures id in c.tallies ==>
                  && c.tallies[id].traitList == TraitsHitting(hits, id)
                  && c.tallies[id].count == |c.tallies[id].traitList| >= 1
        ensures id !in c.tallies ==> TraitsHitting(hits, id) == []
      {
        var step := if h.row.experimentId == id then [h.column] else [];
        assert TraitsHitting(hits, id) == TraitsHitting(hits[..n], id) + step;
        if id == h.row.experimentId {
          if id in prev.tallies {
            var t := prev.tallies[id];
            assert c.tallies[id] == Tally(t.count + 1, t.sampleName, t.traitList + [h.column]);
          } else {
            assert c.tallies[id] == Tally(1, h.row.sampleName, [h.column]);
          }
        } else {
          assert id in c.tallies <==> id in prev.tallies;
          assert id in c.tallies ==> c.tallies[id] == prev.tallies[id];
        }
      }
    }
  }

  /**
    After the loops, the counter has one entry per experiment met, once each
    in order of first meeting, and an experiment's count is the number of
    visits naming it, whose traits form its trait list.
  */
  lemma CountFacts(hits: seq<Hit>)
    ensures var c := Count(hits);
            && Distinct(c.order)
            && (forall id :: id in c.tallies <==> exists h :: h in hits && h.row.experimentId == id)
            && (forall id | id in c.tallies ::
                  && c.tallies[id].traitList == TraitsHitting(hits, id)
                  && c.tallies[id].count == |c.tallies[id].traitList| >= 1)
  {
    CountOrder(hits);
    CountTallies(hits);
  }

  // ---------------------------------------------------------------------------
  // Trait counts per experiment

  function ListsId(level: SigmaLevel, id: string): TraitEntry -> bool
  {
    (te: TraitEntry) => exists o :: o in OutliersAt(te.analysis, level) && o.experimentId == id
  }

  function Columns(es: seq<TraitEntry>): seq<Column>
  {
    seq(|es|, i requires 0 <= i < |es| => es[i].column)
  }

  /** The analysed traits whose outlier table at `level` lists `id`, in dictionary order. */
  function FlaggingColumns(traits: seq<TraitEntry>, level: SigmaLevel, id: string): seq<Column>
  {
    Columns(Filter(traits, ListsId(level, id)))
  }

  lemma {:induction false} TraitsHittingAppend(a: seq<Hit>, b: seq<Hit>, id: string)
    ensures TraitsHitting(a + b, id) == TraitsHitting(a, id) + TraitsHitting(b, id)
    decreases |b|
  {
    if b == [] {
      assert a + b == a;
    } else {
      var n := |b| - 1;
      TraitsHittingAppend(a, b[..n], id);
      assert (a + b)[..|a + b| - 1] == a + b[..n];
      assert (a + b)[|a + b| - 1] == b[n];
    }
  }

  lemma {:induction false} TraitsHittingOneTrait(outs: seq<OutlierRow>, column: Column, id: string)
    requires DistinctBy(outs, OutlierId)
    ensures TraitsHitting(RowHits(outs, column), id) == if exists o :: o in outs && o.experimentId == id then [column] else []
    decreases |outs|
  {
    if outs != [] {
      var n := |outs| - 1;
      var prefix := outs[..n];
      var last := outs[n];
      DistinctByPrefix(outs, OutlierId, n);
      TraitsHittingOneTrait(prefix, column, id);
      RowHitsPrefix(outs, column);
      assert outs == prefix + [last];
      if last.experimentId == id {
        forall o | o in prefix ensures o.experimentId != id {
          var k :| 0 <= k < n && prefix[k] == o;
          assert OutlierId(outs[k]) != OutlierId(outs[n]);
        }
      }
    }
  }

  lemma RowHitsPrefix(outs: seq<OutlierRow>, column: Column)
    requires |outs| > 0
    ensures var hits := RowHits(outs, column);
            && hits[..|outs| - 1] == RowHits(outs[..|outs| - 1], column)
            && hits[|outs| - 1] == Hit(column, outs[|outs| - 1])
  {
  }

  /**
    With experiment ids unique in each outlier table, an experiment is
    counted once per analysed trait whose table lists it, so its trait list
    names each such trait once, in dictionary order, and is no longer than
    the dictionary.
  */
  lemma {:induction false} HitsPerTrait(traits: seq<TraitEntry>, level: SigmaLevel, id: string)
    requires forall te | te in traits :: DistinctBy(OutliersAt(te.analysis, level), OutlierId)
    ensures TraitsHitting(Hits(traits, level), id) == FlaggingColumns(traits, level, id)
    decreases |traits|
  {
    if traits != [] {
      var n := |traits| - 1;
      var te := traits[n];
      var prefix := traits[..n];
      var p := ListsId(level, id);
      var outs := OutliersAt(te.analysis, level);
      forall x | x in prefix ensures DistinctBy(OutliersAt(x.analysis, level), OutlierId) {
        assert x in traits;
      }
      assert te in traits;
      calc {
        TraitsHitting(Hits(traits, level), id);
        TraitsHitting(Hits(prefix, level) + TraitHits(te, level), id);
        { TraitsHittingAppend(Hits(prefix, level), TraitHits(te, level), id); }
        TraitsHitting(Hits(prefix, level), id) + TraitsHitting(TraitHits(te, level), id);
        { HitsPerTrait(prefix, level, id);
          TraitsHittingOneTrait(outs, te.column, id); }
        FlaggingColumns(prefix, level, id) + (if p(te) then [te.column] else []);
        { ColumnsSnoc(Filter(prefix, p), te); }
        Columns(Filter(prefix, p) + (if p(te) then [te] else []));
        FlaggingColumns(traits, level, id);
      }
    }
  }

  lemma ColumnsSnoc(es: seq<TraitEntry>, te: TraitEntry)
    ensures Columns(es + [te]) == Columns(es) + [te.column]
    ensures Columns(es + []) == Columns(es)
  {
    assert es + [] == es;
  }

  lemma FlaggingColumnsBound(traits: seq<TraitEntry>, level: SigmaLevel, id: string)
    ensures |FlaggingColumns(traits, level, id)| <= |traits|
  {
    FilterMembers(traits, ListsId(level, id));
  }

  lemma FlaggingColumnsDistinct(traits: seq<TraitEntry>, level: SigmaLevel, id: string)
    requires DistinctBy(traits, EntryColumn)
    ensures Distinct(FlaggingColumns(traits, level, id))
  {
    FilterDistinctBy(traits, ListsId(level, id), EntryColumn);
  }

  // ---------------------------------------------------------------------------
  // Emission

  /** One row of the outlier-experiment table. */
  datatype Flag = Flag(
    experimentId: string,
    sampleName: Option<string>,
    family: Option<string>,
    name: string,
    subsampletype: Option<string>,
    outlierTraits: nat,
    totalTraits: nat,
    percentage: real,
    sigmaLevel: SigmaLevel,
    outlierTraitList: seq<Column>)

  function MakeFlag(g: GroupResult, id: string, t: Tally, level: SigmaLevel): Flag
    requires |g.traits| > 0
  {
    Flag(id, t.sampleName, g.family, g.name, g.subsampletype, t.count, |g.traits|,
         t.count as real / |g.traits| as real, level, t.traitList)
  }

  /** The threshold test over the counter's experiments, in counter order. */
  function FlagsOf(g: GroupResult, ids: seq<string>, tallies: map<string, Tally>, level: SigmaLevel, threshold: real): seq<Flag>
    requires |g.traits| > 0
    requires forall id | id in ids :: id in tallies
    decreases |ids|
  {
    if ids == [] then []
    else
      var id := ids[|ids| - 1];
      var f := MakeFlag(g, id, tallies[id], level);
      FlagsOf(g, ids[..|ids| - 1], tallies, level, threshold) + (if f.percentage >= threshold then [f] else [])
  }

  /** The flags one group contributes; a group without analysed traits contributes none. */
  function GroupFlags(g: GroupResult, level: SigmaLevel, threshold: real): seq<Flag>
  {
    if |g.traits| == 0 then []
    else
      var c := Count(Hits(g.traits, level));
      FlagsOf(g, c.order, c.tallies, level, threshold)
  }

  /** `outlier_experiments` after the loop over the groups. */
  function Emitted(results: seq<GroupEntry>, level: SigmaLevel, threshold: real): seq<Flag>
    decreases |results|
  {
    if results == [] then []
    else Emitted(results[..|results| - 1], level, threshold) + GroupFlags(results[|results| - 1].result, level, threshold)
  }

  function Percentage(f: Flag): real
  {
    f.percentage
  }

  /** `identify_outlier_experiments`: the emitted rows, by decreasing outlier percentage. */
  function IdentifyOutliers(results: seq<GroupEntry>, level: SigmaLevel, threshold: real): seq<Flag>
  {
    SortDesc(Emitted(results, level, threshold), Percentage)
  }

  lemma {:induction false} FlagsOfMembers(g: GroupResult, ids: seq<string>, tallies: map<string, Tally>,
                                          level: SigmaLevel, threshold: real)
    requires |g.traits| > 0
    requires forall id | id in ids :: id in tallies
    ensures forall f :: f in FlagsOf(g, ids, tallies, level, threshold) <==>
      f.experimentId in ids && f == MakeFlag(g, f.experimentId, tallies[f.experimentId], level) && f.percentage >= threshold
    decreases |ids|
  {
    if ids != [] {
      var n := |ids| - 1;
      FlagsOfMembers(g, ids[..n], tallies, level, threshold);
      assert ids == ids[..n] + [ids[n]];
    }
  }

  lemma {:induction false} EmittedMembers(results: seq<GroupEntry>, level: SigmaLevel, threshold: real)
    ensures forall f :: f in Emitted(results, level, threshold) <==>
      exists e :: e in results && f in GroupFlags(e.result, level, threshold)
    decreases |results|
  {
    if results != [] {
      var n := |results| - 1;
      EmittedMembers(results[..n], level, threshold);
      assert results == results[..n] + [results[n]];
    }
  }

  /** What a flag emitted for group entry `e` records. */
  ghost predicate FlagFrom(f: Flag, e: GroupEntry, level: SigmaLevel, threshold: real)
  {
    && |e.result.traits| > 0
    && f.family == e.result.family
    && f.name == e.result.name
    && f.subsampletype == e.result.subsampletype
    && f.sigmaLevel == level
    && f.totalTraits == |e.result.traits|
    && f.outlierTraitList == TraitsHitting(Hits(e.result.traits, level), f.experimentId)
    && f.outlierTraits == |f.outlierTraitList| >= 1
    && f.percentage == f.outlierTraits as real / f.totalTraits as real
    && f.percentage >= threshold
  }

  lemma GroupFlagsSound(e: GroupEntry, level: SigmaLevel, threshold: real)
    ensures forall f | f in GroupFlags(e.result, level, threshold) :: FlagFrom(f, e, level, threshold)
  {
    var g := e.result;
    if |g.traits| > 0 {
      var c := Count(Hits(g.traits, level));
      FlagsOfMembers(g, c.order, c.tallies, level, threshold);
      CountFacts(Hits(g.traits, level));
    }
  }

  /**
    Every emitted row comes from one analysed group: it carries the group's
    fields and trait total, its count is the number of that group's outlier
    tables at `level` that list it, its trait list names those tables'
    traits, its percentage is count over total and reaches the threshold;
    and the rows come by non-increasing percentage.
  */
  lemma IdentifySound(results: seq<GroupEntry>, level: SigmaLevel, threshold: real)
    ensures var out := IdentifyOutliers(results, level, threshold);
            && multiset(out) == multiset(Emitted(results, level, threshold))
            && SortedDesc(out, Percentage)
            && forall f | f in out :: exists e :: e in results && FlagFrom(f, e, level, threshold)
  {
    var out := IdentifyOutliers(results, level, threshold);
    EmittedMembers(results, level, threshold);
    forall f | f in out ensures exists e :: e in results && FlagFrom(f, e, level, threshold) {
      assert f in multiset(out);
      assert f in Emitted(results, level, threshold);
      var e :| e in results && f in GroupFlags(e.result, level, threshold);
      GroupFlagsSound(e, level, threshold);
    }
  }

  /**
    Conversely, an experiment listed in an outlier table at `level` of a
    group with analysed traits is emitted for that group whenever its
    share of the group's traits reaches the threshold.
  */
  lemma IdentifyComplete(results: seq<GroupEntry>, level: SigmaLevel, threshold: real, e: GroupEntry, id: string)
    requires e in results && |e.result.traits| > 0
    requires var hits := TraitsHitting(Hits(e.result.traits, level), id);
             hits != [] && |hits| as real / |e.result.traits| as real >= threshold
    ensures exists f :: f in IdentifyOutliers(results, level, threshold) && f.experimentId == id
                        && FlagFrom(f, e, level, threshold)
  {
    var g := e.result;
    var hits := Hits(g.traits, level);
    var c := Count(hits);
    CountFacts(hits);
    CountTallies(hits);
    assert id in c.tallies;
    var f := MakeFlag(g, id, c.tallies[id], level);
    FlagsOfMembers(g, c.order, c.tallies, level, threshold);
    assert f in GroupFlags(g, level, threshold);
    GroupFlagsSound(e, level, threshold);
    EmittedMembers(results, level, threshold);
    assert f in Emitted(results, level, threshold);
    var out := IdentifyOutliers(results, level, threshold);
    assert f in multiset(out);
  }

  lemma RatioAtMostOne(a: nat, b: nat)
    requires 0 < b && a <= b
    ensures a as real / b as real <= 1.0
  {
  }

  /**
    With experiment ids unique in each outlier table and traits unique in
    each group, an emitted row's trait list names each trait whose table
    lists it exactly once, in dictionary order, so the count never exceeds
    the group's trait total and the percentage is at most 1.
  */
  lemma IdentifyBounded(results: seq<GroupEntry>, level: SigmaLevel, threshold: real)
    requires UniqueOutlierIds(results, level)
    requires forall e | e in results :: DistinctBy(e.result.traits, EntryColumn)
    ensures forall f | f in IdentifyOutliers(results, level, threshold) ::
              && Distinct(f.outlierTraitList)
              && f.outlierTraits <= f.totalTraits
              && f.percentage <= 1.0
              && exists e :: e in results && FlagFrom(f, e, level, threshold)
                             && f.outlierTraitList == FlaggingColumns(e.result.traits, level, f.experimentId)
  {
    IdentifySound(results, level, threshold);
    forall f | f in IdentifyOutliers(results, level, threshold)
      ensures && Distinct(f.outlierTraitList)
              && f.outlierTraits <= f.totalTraits
              && f.percentage <= 1.0
              && exists e :: e in results && FlagFrom(f, e, level, threshold)
                             && f.outlierTraitList == FlaggingColumns(e.result.traits, level, f.experimentId)
    {
      var e :| e in results && FlagFrom(f, e, level, threshold);
      HitsPerTrait(e.result.traits, level, f.experimentId);
      FlaggingColumnsBound(e.result.traits, level, f.experimentId);
      FlaggingColumnsDistinct(e.result.traits, level, f.experimentId);
      RatioAtMostOne(f.outlierTraits, f.totalTraits);
    }
  }
}
