/**
  The batch loop over all experiments (`MechanicalDataProcessor.process_all_experiments`).
*/
module BatchRunner {
  import opened Wrappers
  import opened JsonValue
  import opened SeqMath
  import opened ExperimentProcessor

  /**
    The ids the batch considers: `experiment_ids[:max_experiments]` when
    `max_experiments` is truthy (neither `None` nor 0), all ids otherwise.
  */
  function SelectedIds(ids: seq<string>, maxExperiments: Option<int>): (r: seq<string>)
    ensures |r| <= |ids| && r == ids[..|r|]
    ensures maxExperiments.None? || maxExperiments.value == 0 ==> r == ids
    ensures maxExperiments.Some? && maxExperiments.value > 0 ==>
      |r| == if maxExperiments.value < |ids| then maxExperiments.value else |ids|
  {
    if maxExperiments.Some? && maxExperiments.value != 0 then PyPrefix(ids, maxExperiments.value) else ids
  }

  /** The records of the experiments among `ids` that produce one, in id order. */
  function Successes(data: Dataset, ids: seq<string>, cfg: ProcessingConfig, fitter: Fitter): seq<Record>
    decreases |ids|
  {
    if ids == [] then []
    else
      var earlier := Successes(data, ids[..|ids| - 1], cfg, fitter);
      match ProcessExperiment(data, ids[|ids| - 1], cfg, fitter)
      case Some(rec) => earlier + [rec]
      case None => earlier
  }

  /** Appending one id extends the successes by that id's record, if any. */
  lemma SuccessesStep(data: Dataset, ids: seq<string>, i: nat, cfg: ProcessingConfig, fitter: Fitter)
    requires i < |ids|
    ensures Successes(data, ids[..i + 1], cfg, fitter)
            == Successes(data, ids[..i], cfg, fitter)
               + (match ProcessExperiment(data, ids[i], cfg, fitter) case Some(rec) => [rec] case None => [])
  {
    assert ids[..i + 1][..i] == ids[..i];
  }

  /** The ids among `ids` whose experiment produces a record, in order. */
  function SucceededIds(data: Dataset, ids: seq<string>, cfg: ProcessingConfig, fitter: Fitter): seq<string>
    decreases |ids|
  {
    if ids == [] then []
    else
      var earlier := SucceededIds(data, ids[..|ids| - 1], cfg, fitter);
      if ProcessExperiment(data, ids[|ids| - 1], cfg, fitter).Some? then earlier + [ids[|ids| - 1]] else earlier
  }

  /**
    The batch keeps id order: the `j`-th result is the record of the `j`-th
    succeeding id, and an id succeeds exactly when its experiment produces a record.
  */
  lemma {:induction false} SuccessesFollowIds(data: Dataset, ids: seq<string>, cfg: ProcessingConfig, fitter: Fitter)
    ensures var results := Successes(data, ids, cfg, fitter);
            var succeeded := SucceededIds(data, ids, cfg, fitter);
            && |results| == |succeeded| <= |ids|
            && (forall j :: 0 <= j < |results| ==> ProcessExperiment(data, succeeded[j], cfg, fitter) == Some(results[j]))
            && (forall x :: x in succeeded <==> x in ids && ProcessExperiment(data, x, cfg, fitter).Some?)
    decreases |ids|
  {
    if ids != [] {
      var n := |ids| - 1;
      var last := ids[n];
      SuccessesFollowIds(data, ids[..n], cfg, fitter);
      assert ids == ids[..n] + [last];
      var results := Successes(data, ids, cfg, fitter);
      var succeeded := SucceededIds(data, ids, cfg, fitter);
      var earlier := Successes(data, ids[..n], cfg, fitter);
      var earlierIds := SucceededIds(data, ids[..n], cfg, fitter);
      var p := ProcessExperiment(data, last, cfg, fitter);
      if p.Some? {
        assert results == earlier + [p.value];
        assert succeeded == earlierIds + [last];
      } else {
        assert results == earlier;
        assert succeeded == earlierIds;
      }
    }
  }

  /** Each result is tagged with the id of the experiment it was built from. */
  lemma SuccessesCarryIds(data: Dataset, ids: seq<string>, cfg: ProcessingConfig, fitter: Fitter)
    ensures var results := Successes(data, ids, cfg, fitter);
            var succeeded := SucceededIds(data, ids, cfg, fitter);
            |results| == |succeeded| &&
            forall j :: 0 <= j < |results| ==> ExperimentId in results[j] && results[j][ExperimentId] == JStr(succeeded[j])
  {
    var results := Successes(data, ids, cfg, fitter);
    var succeeded := SucceededIds(data, ids, cfg, fitter);
    SuccessesFollowIds(data, ids, cfg, fitter);
    forall j | 0 <= j < |results| ensures ExperimentId in results[j] && results[j][ExperimentId] == JStr(succeeded[j]) {
      RecordFacts(data, succeeded[j], cfg, fitter, Family);
    }
  }

  /**
    `process_all_experiments`: every considered experiment is counted once,
    as processed or as failed, and the results are the records of the
    processed ones in id order.
  */
  method ProcessAllExperiments(data: Dataset, cfg: ProcessingConfig, fitter: Fitter)
    returns (results: seq<Record>, processed: nat, failed: nat)
    ensures var ids := SelectedIds(data.ids, cfg.maxExperiments);
            && processed + failed == |ids|
            && |results| == processed
            && results == Successes(data, ids, cfg, fitter)
  {
    var experimentIds := data.ids;
    var maxExp := cfg.maxExperiments;
    if maxExp.Some? && maxExp.value != 0 {
      experimentIds := PyPrefix(experimentIds, maxExp.value);
    }
    results, processed, failed := [], 0, 0;
    var i := 0;
    while i < |experimentIds|
      invariant i <= |experimentIds|
      invariant processed + failed == i
      invariant |results| == processed
      invariant results == Successes(data, experimentIds[..i], cfg, fitter)
    {
      var result := FitPolynomialToExperiment(data, experimentIds[i], cfg, fitter);
      SuccessesStep(data, experimentIds, i, cfg, fitter);
      if result.Some? {
        results := results + [result.value];
        processed := processed + 1;
      } else {
        failed := failed + 1;
      }
      i := i + 1;
    }
    assert experimentIds[..i] == experimentIds;
  }
}
