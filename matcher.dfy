/**
  The matcher (`filter_ckpts`): every checkpoint's file name is looked up in
  the hash map, then the dataset is scanned in order and the first entry
  that lists the hash, or else lists the file name, is recorded for that
  name.
*/
module Matcher {
  import opened Wrappers
  import opened Paths
  import opened Dataset

  /** The tests of one scan step: the hash is in `hashes`, or the name is in `files`. */
  predicate Matches(e: Entry, hash: string, name: string) {
    hash in e.hashes || name in e.files
  }

  /** The index of the first entry that matches, or None when none does. */
  function FirstMatch(ckpts: seq<Entry>, hash: string, name: string): (r: Option<nat>)
    ensures r.Some? ==> r.value < |ckpts| && Matches(ckpts[r.value], hash, name)
    ensures r.Some? ==> forall j :: 0 <= j < r.value ==> !Matches(ckpts[j], hash, name)
    ensures r.None? ==> forall j :: 0 <= j < |ckpts| ==> !Matches(ckpts[j], hash, name)
  {
    if ckpts == [] then None
    else if Matches(ckpts[0], hash, name) then Some(0)
    else match FirstMatch(ckpts[1..], hash, name)
      case None => None
      case Some(k) => Some(k + 1)
  }

  /**
    `filter_ckpts` as a fold over the checkpoint list: `Err(name)` for the
    first file name missing from `hashes` (the `KeyError`), else the map
    from file names to their first matching entry.
  */
  function Filter(paths: seq<Path>, ckpts: seq<Entry>, hashes: map<string, string>): Result<map<string, Entry>, string>
  {
    if paths == [] then Ok(map[])
    else
      match Filter(paths[..|paths| - 1], ckpts, hashes)
      case Err(missing) => Err(missing)
      case Ok(result) =>
        var name := paths[|paths| - 1].name;
        if name !in hashes then Err(name)
        else
          match FirstMatch(ckpts, hashes[name], name)
          case None => Ok(result)
          case Some(k) => Ok(result[name := ckpts[k]])
  }

  /** A lookup error on a prefix of the list is the error of the whole list: the loop stops there. */
  lemma {:induction false} FilterErrSticks(paths: seq<Path>, ckpts: seq<Entry>, hashes: map<string, string>, i: nat)
    requires i <= |paths|
    requires Filter(paths[..i], ckpts, hashes).Err?
    ensures Filter(paths, ckpts, hashes) == Filter(paths[..i], ckpts, hashes)
  {
    if i < |paths| {
      var shorter := paths[..|paths| - 1];
      assert shorter[..i] == paths[..i];
      FilterErrSticks(shorter, ckpts, hashes, i);
    } else {
      assert paths[..i] == paths;
    }
  }

  /**
    `filter_ckpts`: the outer loop over checkpoints, the inner scan over the
    dataset that stops at the first hash match or, failing that, name match.
  */
  method FilterCkpts(paths: seq<Path>, ckpts: seq<Entry>, hashes: map<string, string>)
    returns (r: Result<map<string, Entry>, string>)
    ensures r == Filter(paths, ckpts, hashes)
  {
    var result: map<string, Entry> := map[];
    for i := 0 to |paths|
      invariant Filter(paths[..i], ckpts, hashes) == Ok(result)
    {
      assert paths[..i + 1][..i] == paths[..i];
      var name := paths[i].name;
      if name !in hashes {
        FilterErrSticks(paths, ckpts, hashes, i + 1);
        return Err(name);
      }
      var hash := hashes[name];
      var j := 0;
      while j < |ckpts|
        invariant j <= |ckpts|
        invariant forall k :: 0 <= k < j ==> !Matches(ckpts[k], hash, name)
      {
        var ckpt := ckpts[j];
        if hash in ckpt.hashes {
          result := result[name := ckpt];
          break;
        } else if name in ckpt.files {
          result := result[name := ckpt];
          break;
        }
        j := j + 1;
      }
      assert j < |ckpts| ==> FirstMatch(ckpts, hash, name) == Some(j);
    }
    assert paths[..|paths|] == paths;
    r := Ok(result);
  }

  /** Some checkpoint in the list has file name `n`. */
  predicate Listed(paths: seq<Path>, n: string) {
    exists i :: 0 <= i < |paths| && paths[i].name == n
  }

  /**
    `filter_ckpts` raises exactly when some checkpoint's file name has no
    hash, and the error names the first such checkpoint in list order.
  */
  lemma {:induction false} FilterLookupError(paths: seq<Path>, ckpts: seq<Entry>, hashes: map<string, string>)
    ensures Filter(paths, ckpts, hashes).Err? <==> exists i :: 0 <= i < |paths| && paths[i].name !in hashes
    ensures Filter(paths, ckpts, hashes).Err? ==>
      exists i :: 0 <= i < |paths| && paths[i].name == Filter(paths, ckpts, hashes).error &&
        paths[i].name !in hashes && forall j :: 0 <= j < i ==> paths[j].name in hashes
  {
    if paths != [] {
      var shorter := paths[..|paths| - 1];
      FilterLookupError(shorter, ckpts, hashes);
      assert forall i :: 0 <= i < |shorter| ==> shorter[i] == paths[i];
      var last := |paths| - 1;
      if Filter(shorter, ckpts, hashes).Err? {
        var i :| 0 <= i < |shorter| && shorter[i].name == Filter(shorter, ckpts, hashes).error &&
          shorter[i].name !in hashes && forall j :: 0 <= j < i ==> shorter[j].name in hashes;
        assert paths[i].name == Filter(paths, ckpts, hashes).error;
      } else if paths[last].name !in hashes {
        assert forall j :: 0 <= j < last ==> paths[j].name in hashes;
      }
    }
  }

  /**
    When every file name has a hash, the result holds exactly the listed
    names for which some entry matches, each mapped to the first matching
    entry in dataset order.
  */
  lemma {:induction false} FilterResult(paths: seq<Path>, ckpts: seq<Entry>, hashes: map<string, string>)
    requires forall i :: 0 <= i < |paths| ==> paths[i].name in hashes
    ensures Filter(paths, ckpts, hashes).Ok?
    ensures forall n :: n in Filter(paths, ckpts, hashes).value <==>
      Listed(paths, n) && n in hashes && FirstMatch(ckpts, hashes[n], n).Some?
    ensures forall n :: n in Filter(paths, ckpts, hashes).value ==>
      n in hashes && FirstMatch(ckpts, hashes[n], n).Some? &&
      Filter(paths, ckpts, hashes).value[n] == ckpts[FirstMatch(ckpts, hashes[n], n).value]
  {
    if paths != [] {
      var shorter := paths[..|paths| - 1];
      assert forall i :: 0 <= i < |shorter| ==> shorter[i] == paths[i];
      FilterResult(shorter, ckpts, hashes);
      var last := paths[|paths| - 1];
      forall n
        ensures Listed(paths, n) <==> Listed(shorter, n) || n == last.name
      {
        if Listed(paths, n) && n != last.name {
          var i :| 0 <= i < |paths| && paths[i].name == n;
          assert i < |shorter| && shorter[i].name == n;
        }
        if n == last.name {
          assert paths[|paths| - 1].name == n;
        }
      }
    }
  }

  /** Every key of the result is the file name of a listed checkpoint, and every value is a dataset entry. */
  lemma FilterKeysAndValues(paths: seq<Path>, ckpts: seq<Entry>, hashes: map<string, string>)
    requires Filter(paths, ckpts, hashes).Ok?
    ensures forall n :: n in Filter(paths, ckpts, hashes).value ==>
      Listed(paths, n) && Filter(paths, ckpts, hashes).value[n] in ckpts
  {
    FilterLookupError(paths, ckpts, hashes);
    FilterResult(paths, ckpts, hashes);
  }

  /**
    First match wins: the entry recorded for `n` matches it by hash or by
    name, and no earlier entry of the dataset matches it by either test.
  */
  lemma FilterFirstMatchWins(paths: seq<Path>, ckpts: seq<Entry>, hashes: map<string, string>, n: string)
    requires Filter(paths, ckpts, hashes).Ok?
    requires n in Filter(paths, ckpts, hashes).value
    ensures n in hashes
    ensures exists i :: (0 <= i < |ckpts| && Filter(paths, ckpts, hashes).value[n] == ckpts[i] &&
      Matches(ckpts[i], hashes[n], n) && forall j :: 0 <= j < i ==> !Matches(ckpts[j], hashes[n], n))
  {
    FilterLookupError(paths, ckpts, hashes);
    FilterResult(paths, ckpts, hashes);
  }

  /**
    A listed name is absent from the result exactly when no entry lists its
    hash and no entry lists the name itself.
  */
  lemma FilterAbsentIffUnmatched(paths: seq<Path>, ckpts: seq<Entry>, hashes: map<string, string>, n: string)
    requires Filter(paths, ckpts, hashes).Ok?
    requires Listed(paths, n)
    ensures n in hashes
    ensures n !in Filter(paths, ckpts, hashes).value <==>
      forall j :: 0 <= j < |ckpts| ==> hashes[n] !in ckpts[j].hashes && n !in ckpts[j].files
  {
    FilterLookupError(paths, ckpts, hashes);
    FilterResult(paths, ckpts, hashes);
  }

  /**
    Dataset order beats the kind of match: an earlier entry that lists only
    the file name wins over a later entry that lists the hash.
  */
  lemma EarlierNameMatchBeatsLaterHashMatch(dir: string, name: string, hash: string, byName: Entry, byHash: Entry)
    requires name in byName.files && hash !in byName.hashes
    requires hash in byHash.hashes
    ensures Filter([Path(dir, name)], [byName, byHash], map[name := hash]) == Ok(map[name := byName])
  {
    var paths := [Path(dir, name)];
    assert paths[..0] == [];
    assert FirstMatch([byName, byHash], hash, name) == Some(0);
  }
}
