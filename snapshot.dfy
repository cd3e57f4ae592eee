/**
  The refresh of the metadata snapshot (`get_ckpts`): the stored manifest
  `latest.json` and the stored dataset `checkpoints.json` are kept as a pair.
  When the dataset file exists and the stored manifest's `updatedAt` marker
  equals the remote one, the stored dataset is served; otherwise the remote
  manifest is written first and the dataset is downloaded, falling back to
  the stored dataset, or to an empty one, when the download fails.
*/
module Snapshot {
  import opened Wrappers
  import opened Dataset

  /** A JSON file on disk: its decoded value, or contents that `json.load` rejects. */
  datatype Stored<+T> = Corrupt | Parsed(value: T)

  /** A manifest document: JSON `null` (Python `None`), or an object with or without `updatedAt`. */
  datatype Manifest = Null | Object(updatedAt: Option<string>)

  /** The two files, each of which may be missing. */
  datatype Store = Store(latest: Option<Stored<Manifest>>, checkpoints: Option<Stored<seq<Entry>>>)

  /** Why `get_ckpts` raised: the stored dataset could not be decoded on the up-to-date path. */
  datatype Failure = CorruptDataset

  /** One call's outcome: what it returned, whether it downloaded, and the files afterwards. */
  datatype Refreshed = Refreshed(result: Result<seq<Entry>, Failure>, downloaded: bool, store: Store)

  /** `get_local_latest`: the stored manifest, or `None` when it is missing or does not decode. */
  function LocalLatest(latest: Option<Stored<Manifest>>): Manifest {
    match latest
    case Some(Parsed(m)) => m
    case _ => Null
  }

  /** `get_remote_latest`: the fetched manifest, or `None` when the request or its decoding failed. */
  function RemoteLatest(remote: Option<Manifest>): Manifest {
    remote.GetOr(Null)
  }

  /** The `updatedAt` marker of a manifest, `None` when it is `null` or has no such key. */
  function Marker(m: Manifest): Option<string> {
    if m.Object? then m.updatedAt else None
  }

  /** `is_updated == False`: the dataset file exists and the two markers are equal (both `None` included). */
  predicate UpToDate(s: Store, remote: Option<Manifest>) {
    s.checkpoints.Some? && Marker(LocalLatest(s.latest)) == Marker(RemoteLatest(remote))
  }

  /** The failed-download fallback: the stored dataset if it exists and decodes, else `[]`. */
  function Fallback(checkpoints: Option<Stored<seq<Entry>>>): seq<Entry> {
    match checkpoints
    case Some(Parsed(d)) => d
    case _ => []
  }

  /**
    One call of `get_ckpts` against the store `s`, given the remote manifest
    (None when fetching it failed) and the dataset download (None when the
    request, the decompression or the decoding failed).
  */
  function Refresh(s: Store, remote: Option<Manifest>, download: Option<seq<Entry>>): (r: Refreshed)
    ensures r.downloaded <==> !UpToDate(s, remote)
    ensures !r.downloaded ==> r.store == s
    ensures !r.downloaded ==> r.result == if s.checkpoints == Some(Corrupt) then Err(CorruptDataset) else Ok(s.checkpoints.value.value)
    ensures r.downloaded ==> r.store.latest == Some(Parsed(RemoteLatest(remote)))
    ensures r.downloaded && download.None? ==> r.store.checkpoints == s.checkpoints && r.result == Ok(Fallback(s.checkpoints))
    ensures r.downloaded && download.Some? ==> r.store.checkpoints == Some(Parsed(download.value)) && r.result == Ok(download.value)
    ensures Marker(LocalLatest(r.store.latest)) == Marker(RemoteLatest(remote))
  {
    if UpToDate(s, remote) then
      var result := match s.checkpoints.value
        case Corrupt => Err(CorruptDataset)
        case Parsed(d) => Ok(d);
      Refreshed(result, false, s)
    else
      var written := Store(Some(Parsed(RemoteLatest(remote))), s.checkpoints);
      match download
      case Some(data) => Refreshed(Ok(data), true, written.(checkpoints := Some(Parsed(data))))
      case None => Refreshed(Ok(Fallback(s.checkpoints)), true, written)
  }

  /** The data directory holding `latest.json` and `checkpoints.json`. */
  class DataDir {
    var latest: Option<Stored<Manifest>>
    var checkpoints: Option<Stored<seq<Entry>>>

    constructor (latest: Option<Stored<Manifest>>, checkpoints: Option<Stored<seq<Entry>>>)
      ensures State() == Store(latest, checkpoints)
    {
      this.latest := latest;
      this.checkpoints := checkpoints;
    }

    /** The two files as a value. */
    function State(): Store
      reads this
    {
      Store(latest, checkpoints)
    }

    /**
      `get_ckpts`: compares the markers, serves the stored dataset when up to
      date, and otherwise writes the remote manifest, then stores and returns
      the download or falls back. `downloaded` reports the dataset request.
    */
    method GetCkpts(remote: Option<Manifest>, download: Option<seq<Entry>>)
      returns (result: Result<seq<Entry>, Failure>, downloaded: bool)
      modifies this
      ensures Refreshed(result, downloaded, State()) == Refresh(old(State()), remote, download)
    {
      var localData := LocalLatest(latest);
      var remoteData := RemoteLatest(remote);
      var remoteTime := Marker(remoteData);
      var localTime := Marker(localData);
      var isUpdated := checkpoints.None? || localTime != remoteTime;
      if !isUpdated {
        downloaded := false;
        match checkpoints.value {
          case Corrupt => result := Err(CorruptDataset);
          case Parsed(d) => result := Ok(d);
        }
        return;
      }
      latest := Some(Parsed(remoteData));
      downloaded := true;
      match download {
        case Some(data) =>
          checkpoints := Some(Parsed(data));
          result := Ok(data);
        case None =>
          result := Ok(Fallback(checkpoints));
      }
    }
  }

  /**
    A second call with the same remote manifest serves the stored dataset
    without downloading, returns what the first call returned and changes
    nothing, whenever the first call left a decodable dataset file; without
    a dataset file it downloads again.
  */
  lemma SecondCallServesCache(s: Store, remote: Option<Manifest>, download: Option<seq<Entry>>, again: Option<seq<Entry>>)
    ensures Refresh(Refresh(s, remote, download).store, remote, again).downloaded
        <==> Refresh(s, remote, download).store.checkpoints.None?
    ensures Refresh(s, remote, download).store.checkpoints.Some? && Refresh(s, remote, download).store.checkpoints.value.Parsed? ==>
      && Refresh(Refresh(s, remote, download).store, remote, again).result == Refresh(s, remote, download).result
      && Refresh(Refresh(s, remote, download).store, remote, again).store == Refresh(s, remote, download).store
  {
  }

  /**
    A stale call whose download fails leaves the pair out of step: the
    manifest now carries the remote marker while the dataset file is the old
    one (or still missing).
  */
  lemma FailedDownloadDesynchronises(s: Store, remote: Option<Manifest>)
    requires !UpToDate(s, remote)
    ensures Refresh(s, remote, None).store == Store(Some(Parsed(RemoteLatest(remote))), s.checkpoints)
    ensures Refresh(s, remote, None).result == Ok(Fallback(s.checkpoints))
  {
  }

  /**
    A failed manifest fetch forces a download exactly when the stored
    manifest carries a marker or the dataset file is missing; a stored
    `null` manifest (left by an earlier failed fetch) matches it.
  */
  lemma FailedManifestFetch(s: Store, download: Option<seq<Entry>>)
    ensures Refresh(s, None, download).downloaded <==> s.checkpoints.None? || Marker(LocalLatest(s.latest)).Some?
  {
  }

  /**
    A corrupt dataset file with a failing download: the stale call falls back
    to `[]`, and the next call, now up to date, raises on the same file.
  */
  lemma CorruptDatasetThenRaises(s: Store, remote: Option<Manifest>, again: Option<seq<Entry>>)
    requires s.checkpoints == Some(Corrupt) && !UpToDate(s, remote)
    ensures Refresh(s, remote, None).result == Ok([])
    ensures Refresh(Refresh(s, remote, None).store, remote, again).result == Err(CorruptDataset)
  {
  }
}
