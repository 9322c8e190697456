/**
  The recursive merge of a saved configuration over the default one, used
  when a configuration file is loaded. The same helper appears in each of the
  repository's scripts; it is modelled once here, with value semantics.
*/
module ConfigMerge {
  import opened Wrappers
  import opened JsonValue

  /** Both sides hold a nested dictionary under `key`, so the merge recurses. */
  predicate BothObjects(default: Dict, saved: Dict, key: string)
  {
    key in default && key in saved && default[key].JObj? && saved[key].JObj?
  }

  /**
    Start from a copy of `default`; for every saved key, recurse when both
    values are dictionaries and otherwise let the saved value replace the
    default one.
  */
  function MergeConfigs(default: Dict, saved: Dict): (r: Dict)
    ensures r.Keys == default.Keys + saved.Keys
    ensures forall k :: k in default && k !in saved ==> r[k] == default[k]
    ensures forall k :: k in saved && !BothObjects(default, saved, k) ==> r[k] == saved[k]
    ensures forall k :: BothObjects(default, saved, k) ==> r[k].JObj?
    ensures saved == map[] ==> r == default
    ensures default == map[] ==> r == saved
    decreases JObj(saved)
  {
    map k | k in default.Keys + saved.Keys ::
      if BothObjects(default, saved, k) then
        assert saved[k] == JObj(saved[k].fields);
        JObj(MergeConfigs(default[k].fields, saved[k].fields))
      else if k in saved then saved[k]
      else default[k]
  }

  /** The value reached by following `path` through nested dictionaries. */
  function Lookup(d: Dict, path: seq<string>): Option<Json>
    requires |path| > 0
    decreases |path|
  {
    if path[0] !in d then None
    else if |path| == 1 then Some(d[path[0]])
    else if d[path[0]].JObj? then Lookup(d[path[0]].fields, path[1..])
    else None
  }

  /** Every leaf the saved configuration sets is found, unchanged, in the merge. */
  lemma {:induction false} SavedLeavesWin(default: Dict, saved: Dict, path: seq<string>)
    requires |path| > 0
    requires Lookup(saved, path).Some? && !Lookup(saved, path).value.JObj?
    ensures Lookup(MergeConfigs(default, saved), path) == Lookup(saved, path)
    decreases |path|
  {
    var r := MergeConfigs(default, saved);
    var k := path[0];
    if |path| > 1 {
      assert saved[k].JObj?;
      if BothObjects(default, saved, k) {
        SavedLeavesWin(default[k].fields, saved[k].fields, path[1..]);
      }
    }
  }

  /** A default leaf survives when no saved entry covers its path. */
  lemma {:induction false} DefaultLeavesSurvive(default: Dict, saved: Dict, path: seq<string>)
    requires |path| > 0
    requires Lookup(default, path).Some? && !Lookup(default, path).value.JObj?
    requires forall j :: 1 <= j <= |path| ==>
      Lookup(saved, path[..j]).None? || (j < |path| && Lookup(saved, path[..j]).value.JObj?)
    ensures Lookup(MergeConfigs(default, saved), path) == Lookup(default, path)
    decreases |path|
  {
    var k := path[0];
    assert path[..1] == [k];
    if |path| > 1 && k in saved {
      assert BothObjects(default, saved, k);
      forall j | 1 <= j <= |path| - 1
        ensures Lookup(saved[k].fields, path[1..][..j]).None?
             || (j < |path| - 1 && Lookup(saved[k].fields, path[1..][..j]).value.JObj?)
      {
        assert path[..j + 1][1..] == path[1..][..j];
        assert path[..j + 1][0] == k;
      }
      DefaultLeavesSurvive(default[k].fields, saved[k].fields, path[1..]);
    }
  }

  /** Merging the same saved configuration a second time changes nothing. */
  lemma {:induction false} MergeIdempotent(default: Dict, saved: Dict)
    ensures MergeConfigs(MergeConfigs(default, saved), saved) == MergeConfigs(default, saved)
    decreases JObj(saved)
  {
    var once := MergeConfigs(default, saved);
    var twice := MergeConfigs(once, saved);
    forall k | k in twice.Keys
      ensures twice[k] == once[k]
    {
      if BothObjects(once, saved, k) {
        assert saved[k] == JObj(saved[k].fields);
        if BothObjects(default, saved, k) {
          MergeIdempotent(default[k].fields, saved[k].fields);
        } else {
          MergeSelf(saved[k].fields);
        }
      }
    }
  }

  /** Merging a configuration with itself gives it back. */
  lemma {:induction false} MergeSelf(d: Dict)
    ensures MergeConfigs(d, d) == d
    decreases JObj(d)
  {
    var r := MergeConfigs(d, d);
    forall k | k in r.Keys
      ensures r[k] == d[k]
    {
      if BothObjects(d, d, k) {
        assert d[k] == JObj(d[k].fields);
        MergeSelf(d[k].fields);
      }
    }
  }
}
