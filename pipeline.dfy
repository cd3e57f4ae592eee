/**
  The request as a whole: hashes from the sidecar cache, the dataset from
  the refresh, and the matcher joining the two. An exception anywhere
  (here: the matcher's lookup error) turns the request into a failure.
*/
module Pipeline {
  import opened Wrappers
  import opened Paths
  import opened Dataset
  import opened HashCache
  import opened Snapshot
  import opened Matcher

  /**
    A checkpoint that has no sidecar and cannot be read is silently left out
    of the hashes, and the matcher's lookup of its name then fails the whole
    request (when no other checkpoint shares its name or its sidecar).
  */
  lemma UnreadableCheckpointFailsRequest(files: Files, readOnly: set<Path>, paths: seq<Path>, digest: Digest,
                                         ckpts: seq<Entry>, j: nat)
    requires j < |paths|
    requires Sidecar(paths[j]) !in files
    requires paths[j] !in files || files[paths[j]].Unreadable?
    requires forall k :: 0 <= k < |paths| && k != j ==>
      paths[k].name != paths[j].name && Sidecar(paths[k]) != Sidecar(paths[j]) && Sidecar(paths[k]) != paths[j]
    ensures paths[j].name !in Hashes(files, readOnly, paths, digest).hashes
    ensures Filter(paths, ckpts, Hashes(files, readOnly, paths, digest).hashes).Err?
  {
    var prefix := paths[..j];
    assert forall k :: 0 <= k < j ==> prefix[k] == paths[k];
    ExistingFilesNeverRewritten(files, readOnly, prefix, digest);
    var before := Hashes(files, readOnly, prefix, digest).files;
    assert Sidecar(paths[j]) !in before;
    assert paths[j] !in before || before[paths[j]].Unreadable?;
    assert paths[..j + 1][..j] == prefix;
    assert Hashes(files, readOnly, paths[..j + 1], digest).files == before;
    AddedAreSidecars(files, readOnly, paths, digest, j + 1);
    var run := Hashes(files, readOnly, paths, digest);
    assert Sidecar(paths[j]) !in run.files;
    HashesAreSidecarContents(files, readOnly, paths, digest);
    assert paths[j].name !in run.hashes;
    FilterLookupError(paths, ckpts, run.hashes);
  }

  /** Two readable checkpoints with no sidecars yet, and sidecars of their own: both hashes are computed. */
  lemma TwoFreshCheckpoints(files: Files, a: Path, b: Path, digest: Digest)
    requires a in files && files[a].Readable? && b in files && files[b].Readable?
    requires Sidecar(a) !in files && Sidecar(b) !in files && Sidecar(a) != Sidecar(b)
    ensures Hashes(files, {}, [a, b], digest).hashes
         == map[a.name := digest(files[a].text)][b.name := digest(files[b].text)]
  {
    assert [a, b][..1] == [a] && [a][..0] == [];
    var afterA := files[Sidecar(a) := Readable(digest(files[a].text))];
    assert Hashes(files, {}, [a], digest) == Run(map[a.name := digest(files[a].text)], afterA);
    assert HashOne(afterA, {}, b, digest).0 == Some(digest(files[b].text));
  }

  /** The sidecars of the two checkpoints of the first-request scenario. */
  lemma ScenarioSidecars(dir: string)
    ensures Sidecar(Path(dir, "model_a.safetensors")) == Path(dir, "model_a.sha256")
    ensures Sidecar(Path(dir, "model_b.safetensors")) == Path(dir, "model_b.sha256")
  {
    assert "model_a"[0] != '.' && "model_b"[0] != '.';
    assert "model_a.safetensors" == "model_a" + ".safetensors" && "model_a.sha256" == "model_a" + SidecarSuffix;
    assert "model_b.safetensors" == "model_b" + ".safetensors" && "model_b.sha256" == "model_b" + SidecarSuffix;
    SidecarReplacesExtension(dir, "model_a", ".safetensors");
    SidecarReplacesExtension(dir, "model_b", ".safetensors");
  }

  /**
    A first request: no sidecars and no stored files,
    two checkpoints, a remote manifest with a marker and a one-entry dataset
    that lists the first checkpoint's hash. The first checkpoint is matched;
    the second, matching nothing, is absent.
  */
  lemma FirstRequestScenario(dir: string, contentA: string, contentB: string, digest: Digest)
    requires digest(contentA) == "ABCD" && digest(contentB) != "ABCD"
    ensures Refresh(Store(None, None), Some(Object(Some("2024-01-01"))), Some([Entry(["ABCD"], ["model_a.safetensors"])])).result
         == Ok([Entry(["ABCD"], ["model_a.safetensors"])])
    ensures Filter([Path(dir, "model_a.safetensors"), Path(dir, "model_b.safetensors")],
                   [Entry(["ABCD"], ["model_a.safetensors"])],
                   Hashes(map[Path(dir, "model_a.safetensors") := Readable(contentA), Path(dir, "model_b.safetensors") := Readable(contentB)],
                          {}, [Path(dir, "model_a.safetensors"), Path(dir, "model_b.safetensors")], digest).hashes)
         == Ok(map["model_a.safetensors" := Entry(["ABCD"], ["model_a.safetensors"])])
  {
    var a, b := Path(dir, "model_a.safetensors"), Path(dir, "model_b.safetensors");
    ScenarioSidecars(dir);
    assert "model_a.sha256"[6] != "model_b.sha256"[6];
    assert |"model_a.sha256"| != |"model_a.safetensors"|;
    TwoFreshCheckpoints(map[a := Readable(contentA), b := Readable(contentB)], a, b, digest);
    var entry := Entry(["ABCD"], ["model_a.safetensors"]);
    var hashes := map["model_a.safetensors" := "ABCD", "model_b.safetensors" := digest(contentB)];
    assert [a, b][..1] == [a] && [a][..0] == [];
    assert FirstMatch([entry], "ABCD", "model_a.safetensors") == Some(0);
    assert FirstMatch([entry], digest(contentB), "model_b.safetensors") == None;
    assert Filter([a], [entry], hashes) == Ok(map["model_a.safetensors" := entry]);
  }
}
