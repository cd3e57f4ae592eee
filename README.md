# comfyui-civitai-workflow: checkpoint metadata lookup, modelled in Dafny

The extension answers one HTTP request by joining three things:

- the SHA-256 hashes of the local checkpoint files (`get_hashes`);
- a community dataset of checkpoint metadata (`get_ckpts`);
- a matcher between the two (`filter_ckpts`).

This project models those three operations and proves what they promise.

## Modules

- `Paths` (`paths.dfy`): a checkpoint location as `Path(dir, name)`.
  - `SplitExt` models Python's `os.path.splitext` on a file name, including the rule that leading dots never start an extension.
  - `Sidecar` gives the `<stem>.sha256` file that caches a checkpoint's hash.
- `HashCache` (`hash_cache.dfy`): the sidecar hash cache.
  - The filesystem is the `files` field of the class `Disk`, a map from paths to bodies. A body is readable text or `Unreadable` (reading raises). Paths in `readOnly` cannot be written.
  - SHA-256 is the parameter `digest`, an arbitrary function from contents to text.
  - `GetHashes` is the loop of `get_hashes`. It is proved equal to the fold `Hashes`, whose one step `HashOne` is the loop body.
  - The lemmas state the following. No file is ever rewritten. Every returned hash is what a sidecar holds. A fully cached run never computes a digest. A second call writes nothing, and returns the same map when no two checkpoints share a sidecar. Both hold when every file name has a character other than '.'.
- `Dataset` (`dataset.dfy`): a dataset entry, with its `hashes` and `files` lists.
- `Snapshot` (`snapshot.dfy`): the refresh of the stored pair `latest.json` / `checkpoints.json`.
  - The class `DataDir` holds the two files. Each is missing, corrupt (`json.load` raises) or parsed.
  - `GetCkpts` is proved equal to the function `Refresh`. The remote manifest and the dataset download enter as values, `None` when the network step failed.
  - The lemmas cover the following: the second call serving the cache, the pair falling out of step after a failed download, the effect of a failed manifest fetch, and a corrupt dataset file that first yields `[]` (download failed) and then raises (same remote manifest).
- `Matcher` (`matcher.dfy`): `FilterCkpts` keeps the nested loops with their `break`s. It is proved equal to the fold `Filter`.
  - A missing hash is the `KeyError`, modelled as `Err(name)`.
  - The lemmas say when that error happens and which name it reports. They also say which names the result holds and that the first matching entry in dataset order wins.
- `Pipeline` (`pipeline.dfy`): the three stages together.
  - An unreadable checkpoint without a sidecar makes the whole request fail, provided no other listed checkpoint has the same file name or the same sidecar, and no other checkpoint's sidecar is that checkpoint itself. A same-named checkpoint in another folder whose hash is found would fill the name's entry, and the lookup would then succeed.
  - The two-checkpoint first request is worked through end to end.

Four behaviours of `py/civitai.py` worth noting:

- The hash cache is one sidecar file per checkpoint (`py/civitai.py:46-58`). It is not a single JSON document.
- The matcher takes the first entry in dataset order that lists either the hash or the file name (`py/civitai.py:147-153`). A hash match does not take priority over a name match in an earlier entry. `Matcher.EarlierNameMatchBeatsLaterHashMatch` shows this.
- A refresh is not idempotent in every case. A corrupt `checkpoints.json` yields `[]` when the manifest is stale and the download fails. Once the manifest is rewritten, the next call with the same remote manifest raises on that file (`Snapshot.CorruptDatasetThenRaises`).
- Two checkpoints in one directory that differ only by extension share one sidecar. When the first checkpoint's hash is found, the second is reported with that hash (`HashCache.SharedSidecarReportsFirstHash`).

## Model

| member | source | states |
|---|---|---|
| Paths.AllDots | py/civitai.py:47 | the leading-dots rule of `os.path.splitext`: a name made only of dots (the empty name included) |
| Paths.AllDotsSpec | py/civitai.py:47 | the leading-dots test holds exactly when every character is a '.' |
| Paths.LastDot | py/civitai.py:47 | the index of the last '.' search is within the string |
| Paths.LastDotSpec | py/civitai.py:47 | the found index holds a '.', and no '.' follows it; None means the name has no '.' |
| Paths.SplitExt | py/civitai.py:47 | root and extension concatenate back to the file name |
| Paths.SplitExtSpec | py/civitai.py:47 | a non-empty extension starts with its only '.' and follows a root that is not all dots; the extension is empty only when every '.' has only dots before it |
| Paths.StemNotAllDots | py/civitai.py:47-48 | the stem of a file name with a character other than '.' also has a character other than '.' |
| Paths.SplitExtOfExtension | py/civitai.py:47 | for a root that is not all dots, splitting "<root><.ext>" gives back root and extension |
| Paths.Stem | py/civitai.py:47 | the root that `os.path.splitext` leaves of the file name |
| Paths.SidecarName | py/civitai.py:48 | the stem followed by ".sha256" |
| Paths.Sidecar | py/civitai.py:46-49 | the sidecar path: the checkpoint's directory joined with its sidecar name |
| Paths.SidecarReplacesExtension | py/civitai.py:46-49 | for a root that is not all dots, the sidecar of "<root><.ext>" is "<root>.sha256" in the same directory |
| Paths.SidecarIsFixpoint | py/civitai.py:46-49 | for a file name with a character other than '.', the sidecar of its sidecar is that sidecar itself |
| HashCache.HashOne | py/civitai.py:51-62 | one loop step finds a hash exactly when the sidecar exists and reads, or the sidecar is missing while the checkpoint reads and the sidecar path is writable; it only adds files; an existing sidecar is never written; a write happens only when the sidecar was missing and writable, and it stores the returned hash; a computed hash is the digest of the checkpoint's contents; no hash means no change |
| HashCache.Disk.Exists | py/civitai.py:53 | `os.path.exists`: the path is among the files |
| HashCache.Disk.CreateHash | py/civitai.py:29-31 | a hash exactly when the checkpoint exists and is readable, and it is the digest of its contents |
| HashCache.Disk.ReadHash | py/civitai.py:33-35 | the sidecar's text exactly when it exists and is readable |
| HashCache.Disk.SaveHash | py/civitai.py:37-40 | the write succeeds exactly when the path is writable, and then (over)writes that one file |
| HashCache.Hashes | py/civitai.py:42-64 | the reference definition of `get_hashes`: the loop as a left fold of `HashOne` over the checkpoint list, recording each found hash under the checkpoint's file name |
| HashCache.FoundNameReturned | py/civitai.py:53-60 | a checkpoint whose step finds a hash at its turn has its file name among the returned keys |
| HashCache.GetHashes | py/civitai.py:42-64 | the returned map and the files afterwards are those of the fold `Hashes` over the checkpoint list |
| HashCache.PrefixKept | py/civitai.py:45-62 | files present after a prefix of the loop are still present, unchanged, at the end |
| HashCache.AddedAreSidecars | py/civitai.py:53-56 | every file added after the first i checkpoints is the writable sidecar of a later checkpoint |
| HashCache.ExistingFilesNeverRewritten | py/civitai.py:53-58 | existing files keep their contents; every new file is the writable sidecar of a listed checkpoint |
| HashCache.HashesAreSidecarContents | py/civitai.py:53-60 | every returned hash is what the sidecar of a checkpoint with that name holds afterwards |
| HashCache.FullyCachedRun | py/civitai.py:57-60 | with every sidecar present and readable, nothing is written, every name gets a hash, and the result does not depend on the digest |
| HashCache.StepAgainWritesNothing | py/civitai.py:53-56 | when every file name has a character other than '.', a loop step repeated on the final files writes nothing |
| HashCache.SecondRunWritesNothingPrefix | py/civitai.py:42-64 | when every file name has a character other than '.', a second pass over any prefix writes nothing |
| HashCache.SecondCallWritesNothing | py/civitai.py:42-64 | when every file name has a character other than '.', a second call writes nothing |
| HashCache.StepAgainSameHash | py/civitai.py:53-60 | with distinct sidecars and every file name having a character other than '.', a repeated loop step finds the hash found the first time |
| HashCache.SecondRunSamePrefix | py/civitai.py:42-64 | with distinct sidecars and every file name having a character other than '.', a second pass over a prefix returns the first pass's map and writes nothing |
| HashCache.SecondCallSameResult | py/civitai.py:42-64 | with distinct sidecars and every file name having a character other than '.', a second call returns the same map and leaves the files as they were |
| HashCache.SharedSidecarReportsFirstHash | py/civitai.py:46-60 | "model.ckpt" and "model.safetensors" in one directory are both reported with the hash of the first |
| Snapshot.RemoteLatest | py/civitai.py:66-72 | the fetched manifest, or `None` (JSON `null`) when the request or its decoding failed |
| Snapshot.LocalLatest | py/civitai.py:74-80 | the stored manifest, or `None` when the file is missing or does not decode |
| Snapshot.Marker | py/civitai.py:90-96 | the `updatedAt` value of a manifest object, `None` for `null` or a missing key |
| Snapshot.UpToDate | py/civitai.py:98 | not `is_updated`: the dataset file exists and the two markers are equal |
| Snapshot.Fallback | py/civitai.py:133-140 | the stored dataset when it exists and decodes, else `[]` |
| Snapshot.Refresh | py/civitai.py:82-140 | downloads exactly when the dataset file is missing or the markers differ; otherwise the stored dataset is returned (an error when it is corrupt) and nothing changes; a download rewrites the manifest, then stores and returns the dataset, or on failure returns the stored dataset or []; the markers agree afterwards |
| Snapshot.DataDir.GetCkpts | py/civitai.py:82-140 | result, download flag and the two files afterwards are those of `Refresh` on the files before |
| Snapshot.SecondCallServesCache | py/civitai.py:98-103 | a second call with the same manifest downloads exactly when no dataset file exists; with a decodable one it returns the first call's result and changes nothing |
| Snapshot.FailedDownloadDesynchronises | py/civitai.py:105-140 | a stale call whose download fails stores the new manifest beside the old dataset and returns the fallback |
| Snapshot.FailedManifestFetch | py/civitai.py:66-98 | when the manifest fetch fails, a download happens exactly when the dataset file is missing or the stored manifest has a marker |
| Snapshot.CorruptDatasetThenRaises | py/civitai.py:98-140 | a corrupt dataset file with a failed download yields [], and the next call with the same remote manifest raises |
| Matcher.Matches | py/civitai.py:148-151 | the two tests of one scan step: the hash is in the entry's `hashes`, or the file name is in its `files` |
| Matcher.FirstMatch | py/civitai.py:147-153 | the index of an entry that matches by hash or by name, with no earlier entry matching; None when no entry matches |
| Matcher.Filter | py/civitai.py:142-154 | the reference definition of `filter_ckpts`: a fold over the checkpoint list that stops with `Err(name)` at the first name without a hash, and otherwise records the first matching entry for each name |
| Matcher.FilterErrSticks | py/civitai.py:144-146 | a lookup error on a prefix is the result of the whole list |
| Matcher.FilterCkpts | py/civitai.py:142-154 | the nested loops compute the fold `Filter` |
| Matcher.FilterLookupError | py/civitai.py:144-146 | an error exactly when some file name has no hash, and the error names the first such checkpoint |
| Matcher.FilterResult | py/civitai.py:142-154 | with every hash present, the result holds exactly the listed names that some entry matches, each mapped to its first matching entry |
| Matcher.FilterKeysAndValues | py/civitai.py:142-154 | result keys are listed file names and values are dataset entries |
| Matcher.FilterFirstMatchWins | py/civitai.py:147-153 | the recorded entry matches, and no earlier entry does |
| Matcher.FilterAbsentIffUnmatched | py/civitai.py:147-153 | a listed name is absent exactly when no entry lists its hash or its name |
| Matcher.EarlierNameMatchBeatsLaterHashMatch | py/civitai.py:147-153 | an earlier name-only match wins over a later hash match |
| Pipeline.UnreadableCheckpointFailsRequest | py/civitai.py:156-168 | an unreadable checkpoint without a sidecar gets no hash, and the matcher's lookup then fails the request |
| Pipeline.TwoFreshCheckpoints | py/civitai.py:53-60 | two readable checkpoints with separate missing sidecars both get their digests |
| Pipeline.ScenarioSidecars | py/civitai.py:46-49 | "model_a.safetensors" and "model_b.safetensors" cache their hashes in "model_a.sha256" and "model_b.sha256" |
| Pipeline.FirstRequestScenario | py/civitai.py:156-165 | on a first request, the dataset is downloaded and returned, and only the checkpoint whose hash the dataset lists is in the response |

## Left out

- The HTTP route and its mapping of any exception to status 400 (`py/civitai.py:156-168`) appear only as an `Err` result. The JSON response body is not modelled.
- Network requests, gzip decompression and JSON decoding of the remote files are not modelled. Each enters as an `Option` value, `None` when it raised.
- SHA-256 and its upper-case hex rendering are not modelled. Both are the uninterpreted parameter `digest`.
- The enumeration of checkpoint folders through `folder_paths` is not modelled. The checkpoint list is a parameter.
- Creating the data directory, and the progress and traceback messages, are not modelled.
- Concurrent requests and files changed by other processes between steps are not modelled.
- Path strings are taken as already split into directory and file name. Normalisation and Windows separators are not modelled.
- Dataset entries are assumed to be objects with list-valued `hashes` and `files`. Entries lacking either key (a `KeyError` in the scan) are not modelled.
- A manifest that is JSON but neither `null` nor an object is not modelled.
- A `null` `updatedAt` value is treated the same as a missing key.
- A failure while writing `latest.json` or `checkpoints.json` is not modelled. Both writes succeed in the model.
- HashCache.Disk.SaveHash: a sidecar write is all or nothing in the model. In the source, `open(..., "w")` creates or truncates the sidecar before the write can fail (a full disk, say). That leaves an empty or partial sidecar, which every later call reads back and trusts as the hash. The model does not capture this.
- Byte versus text decoding of checkpoint and sidecar files is not modelled: contents are strings.
- Stale hashes are not modelled as a state change. A checkpoint whose file changes keeps its cached hash, and `HashCache.FullyCachedRun` states this only as independence from `digest`.
- HashCache.SecondCallWritesNothing: proved only for file names with some character other than '.'. For a name made only of dots, the sidecar of the sidecar is a different file, so a second call may add it.
- HashCache.SecondCallSameResult: proved only when no two checkpoints share a sidecar and every file name has a character other than '.'. With a shared sidecar, the first call may compute a hash that the second reads back for another name. With a name made only of dots, the first call may write a file that the second reads as another checkpoint's sidecar.
