/**
  The sidecar hash cache (`get_hashes`): every checkpoint's SHA-256 is kept
  in a `<stem>.sha256` file beside it. An existing sidecar is read and
  trusted; a missing one is computed from the checkpoint's contents and
  written. Any failure on the way leaves that checkpoint out of the result.
*/
module HashCache {
  import opened Wrappers
  import opened Paths

  /** What a path holds: text that can be read, or something that exists but raises on reading. */
  datatype Body = Readable(text: string) | Unreadable

  type Files = map<Path, Body>

  /** SHA-256 over a file's contents, rendered as upper-case hex. */
  type Digest = string -> string

  /** One pass of `get_hashes`: the returned name-to-hash map and the files afterwards. */
  datatype Run = Run(hashes: map<string, string>, files: Files)

  /** `small` is contained in `big`: every file of `small` is in `big` with the same body. */
  ghost predicate Keeps(small: Files, big: Files) {
    forall k :: k in small ==> k in big && big[k] == small[k]
  }

  /**
    The body of the loop for one checkpoint `p`: the hash found (None when an
    exception was swallowed) and the files afterwards.
  */
  function HashOne(files: Files, readOnly: set<Path>, p: Path, digest: Digest): (r: (Option<string>, Files))
    ensures r.0.Some? <==>
      (Sidecar(p) in files && files[Sidecar(p)].Readable?) ||
      (Sidecar(p) !in files && p in files && files[p].Readable? && Sidecar(p) !in readOnly)
    ensures Keeps(files, r.1)
    ensures Sidecar(p) in files ==> r.1 == files
    ensures r.1 == files || (r.0.Some? && Sidecar(p) !in files && Sidecar(p) !in readOnly && r.1 == files[Sidecar(p) := Readable(r.0.value)])
    ensures r.0.Some? ==> Sidecar(p) in r.1 && r.1[Sidecar(p)] == Readable(r.0.value)
    ensures r.0.Some? && Sidecar(p) !in files ==> p in files && files[p].Readable? && r.0.value == digest(files[p].text)
    ensures r.0.None? ==> r.1 == files
  {
    var sidecar := Sidecar(p);
    if sidecar !in files then
      if p in files && files[p].Readable? && sidecar !in readOnly then
        var h := digest(files[p].text);
        (Some(h), files[sidecar := Readable(h)])
      else
        (None, files)
    else if files[sidecar].Readable? then
      (Some(files[sidecar].text), files)
    else
      (None, files)
  }

  /** `get_hashes` over the checkpoint list, as a left fold over its prefixes. */
  function Hashes(files: Files, readOnly: set<Path>, paths: seq<Path>, digest: Digest): Run
  {
    if paths == [] then Run(map[], files)
    else
      var prev := Hashes(files, readOnly, paths[..|paths| - 1], digest);
      var p := paths[|paths| - 1];
      var step := HashOne(prev.files, readOnly, p, digest);
      Run(if step.0.Some? then prev.hashes[p.name := step.0.value] else prev.hashes, step.1)
  }

  /** The files that `get_hashes` reads and writes; writes to `readOnly` paths raise. */
  class Disk {
    var files: Files
    const readOnly: set<Path>

    constructor (files: Files, readOnly: set<Path>)
      ensures this.files == files && this.readOnly == readOnly
    {
      this.files := files;
      this.readOnly := readOnly;
    }

    /** `os.path.exists`. */
    predicate Exists(p: Path)
      reads this
    {
      p in files
    }

    /** `create_hash`: the digest of the checkpoint's contents, None where reading raises. */
    method CreateHash(p: Path, digest: Digest) returns (h: Option<string>)
      ensures h.Some? <==> p in files && files[p].Readable?
      ensures h.Some? ==> h.value == digest(files[p].text)
    {
      if p in files && files[p].Readable? {
        h := Some(digest(files[p].text));
      } else {
        h := None;
      }
    }

    /** `read_hash`: the sidecar's text, None where reading raises. */
    method ReadHash(p: Path) returns (h: Option<string>)
      ensures h.Some? <==> p in files && files[p].Readable?
      ensures h.Some? ==> h.value == files[p].text
    {
      if p in files && files[p].Readable? {
        h := Some(files[p].text);
      } else {
        h := None;
      }
    }

    /** `save_hash`: (over)writes `p` with `hash`; false where opening for writing raises. */
    method SaveHash(p: Path, hash: string) returns (ok: bool)
      modifies this
      ensures ok == (p !in readOnly)
      ensures files == if ok then old(files)[p := Readable(hash)] else old(files)
    {
      ok := p !in readOnly;
      if ok {
        files := files[p := Readable(hash)];
      }
    }
  }

  /**
    `get_hashes`: for each checkpoint in order, read its sidecar if it exists,
    else compute the hash and write the sidecar; record the hash under the
    checkpoint's file name unless something raised.
  */
  method GetHashes(disk: Disk, paths: seq<Path>, digest: Digest) returns (hashes: map<string, string>)
    modifies disk
    ensures Run(hashes, disk.files) == Hashes(old(disk.files), disk.readOnly, paths, digest)
  {
    hashes := map[];
    for i := 0 to |paths|
      invariant Run(hashes, disk.files) == Hashes(old(disk.files), disk.readOnly, paths[..i], digest)
    {
      var p := paths[i];
      var sidecar := Sidecar(p);
      var hash: Option<string>;
      if !disk.Exists(sidecar) {
        hash := disk.CreateHash(p, digest);
        if hash.Some? {
          var saved := disk.SaveHash(sidecar, hash.value);
          if !saved {
            hash := None;
          }
        }
      } else {
        hash := disk.ReadHash(sidecar);
      }
      if hash.Some? {
        hashes := hashes[p.name := hash.value];
      }
      assert paths[..i + 1][..i] == paths[..i];
    }
    assert paths[..|paths|] == paths;
  }

  /** Whatever a prefix of the pass left on disk is still there, unchanged, at the end. */
  lemma {:induction false} PrefixKept(files: Files, readOnly: set<Path>, paths: seq<Path>, digest: Digest, i: nat)
    requires i <= |paths|
    ensures Keeps(Hashes(files, readOnly, paths[..i], digest).files, Hashes(files, readOnly, paths, digest).files)
  {
    if i == |paths| {
      assert paths[..i] == paths;
    } else {
      var shorter := paths[..|paths| - 1];
      assert shorter[..i] == paths[..i];
      PrefixKept(files, readOnly, shorter, digest, i);
    }
  }

  /** Every file added after the first `i` checkpoints is the writable sidecar of a later checkpoint. */
  lemma {:induction false} AddedAreSidecars(files: Files, readOnly: set<Path>, paths: seq<Path>, digest: Digest, i: nat)
    requires i <= |paths|
    ensures forall k :: k in Hashes(files, readOnly, paths, digest).files && k !in Hashes(files, readOnly, paths[..i], digest).files ==>
              k !in readOnly && exists j :: i <= j < |paths| && k == Sidecar(paths[j])
  {
    if i == |paths| {
      assert paths[..i] == paths;
    } else {
      var shorter := paths[..|paths| - 1];
      assert shorter[..i] == paths[..i];
      AddedAreSidecars(files, readOnly, shorter, digest, i);
      var prev := Hashes(files, readOnly, shorter, digest).files;
      forall k | k in Hashes(files, readOnly, paths, digest).files && k !in Hashes(files, readOnly, paths[..i], digest).files
        ensures k !in readOnly && exists j :: i <= j < |paths| && k == Sidecar(paths[j])
      {
        if k in prev {
          var j :| i <= j < |shorter| && k == Sidecar(shorter[j]);
          assert paths[j] == shorter[j];
        } else {
          assert k == Sidecar(paths[|paths| - 1]);
        }
      }
    }
  }

  /**
    `get_hashes` never rewrites or removes a file: an existing sidecar keeps
    its contents, and every file it adds is the writable sidecar of a listed
    checkpoint.
  */
  lemma ExistingFilesNeverRewritten(files: Files, readOnly: set<Path>, paths: seq<Path>, digest: Digest)
    ensures Keeps(files, Hashes(files, readOnly, paths, digest).files)
    ensures forall k :: k in Hashes(files, readOnly, paths, digest).files && k !in files ==>
              k !in readOnly && exists j :: 0 <= j < |paths| && k == Sidecar(paths[j])
  {
    assert paths[..0] == [];
    PrefixKept(files, readOnly, paths, digest, 0);
    AddedAreSidecars(files, readOnly, paths, digest, 0);
  }

  /** The hash `run` returns for `n` is what the sidecar of a listed checkpoint named `n` holds. */
  ghost predicate FromSidecar(run: Run, paths: seq<Path>, n: string)
    requires n in run.hashes
  {
    exists j :: 0 <= j < |paths| && paths[j].name == n &&
      Sidecar(paths[j]) in run.files && run.files[Sidecar(paths[j])] == Readable(run.hashes[n])
  }

  /**
    Every hash returned for a name is what the sidecar of a checkpoint with
    that name holds once the pass is over, so the next pass reads it back.
  */
  lemma {:induction false} HashesAreSidecarContents(files: Files, readOnly: set<Path>, paths: seq<Path>, digest: Digest)
    ensures forall n :: n in Hashes(files, readOnly, paths, digest).hashes ==>
      FromSidecar(Hashes(files, readOnly, paths, digest), paths, n)
  {
    if paths != [] {
      var shorter := paths[..|paths| - 1];
      HashesAreSidecarContents(files, readOnly, shorter, digest);
      var prev := Hashes(files, readOnly, shorter, digest);
      var p := paths[|paths| - 1];
      var step := HashOne(prev.files, readOnly, p, digest);
      var run := Hashes(files, readOnly, paths, digest);
      assert run.hashes == if step.0.Some? then prev.hashes[p.name := step.0.value] else prev.hashes;
      assert run.files == step.1;
      forall n | n in run.hashes
        ensures FromSidecar(run, paths, n)
      {
        if step.0.Some? && n == p.name {
          assert paths[|paths| - 1] == p;
        } else {
          assert n in prev.hashes && run.hashes[n] == prev.hashes[n];
          assert FromSidecar(prev, shorter, n);
          var j :| 0 <= j < |shorter| && shorter[j].name == n &&
            Sidecar(shorter[j]) in prev.files && prev.files[Sidecar(shorter[j])] == Readable(prev.hashes[n]);
          assert paths[j] == shorter[j];
        }
      }
    }
  }

  /**
    When every checkpoint already has a readable sidecar, `get_hashes` writes
    nothing, returns every name, and never computes a digest: the result is
    the same whatever the digest function, so a changed checkpoint keeps its
    stale hash.
  */
  lemma {:induction false} FullyCachedRun(files: Files, readOnly: set<Path>, paths: seq<Path>, digest: Digest, other: Digest)
    requires forall j :: 0 <= j < |paths| ==> Sidecar(paths[j]) in files && files[Sidecar(paths[j])].Readable?
    ensures Hashes(files, readOnly, paths, digest).files == files
    ensures Hashes(files, readOnly, paths, digest).hashes == Hashes(files, readOnly, paths, other).hashes
    ensures forall j :: 0 <= j < |paths| ==> paths[j].name in Hashes(files, readOnly, paths, digest).hashes
  {
    if paths != [] {
      var shorter := paths[..|paths| - 1];
      assert forall j :: 0 <= j < |shorter| ==> shorter[j] == paths[j];
      FullyCachedRun(files, readOnly, shorter, digest, other);
      FullyCachedRun(files, readOnly, shorter, other, digest);
      var prev := Hashes(files, readOnly, shorter, digest);
      var p := paths[|paths| - 1];
      assert Sidecar(p) in files && files[Sidecar(p)].Readable?;
      assert HashOne(files, readOnly, p, digest) == HashOne(files, readOnly, p, other) == (Some(files[Sidecar(p)].text), files);
      assert Hashes(files, readOnly, paths, digest) == Run(prev.hashes[p.name := files[Sidecar(p)].text], files);
      assert Hashes(files, readOnly, paths, other) == Run(prev.hashes[p.name := files[Sidecar(p)].text], files);
    }
  }

  /**
    The step for checkpoint `i` run again on the files the whole pass left
    behind writes nothing, provided every file name holds a character other
    than '.'.
  */
  lemma StepAgainWritesNothing(files: Files, readOnly: set<Path>, paths: seq<Path>, digest: Digest, i: nat)
    requires i < |paths|
    requires forall j :: 0 <= j < |paths| ==> !AllDots(paths[j].name)
    ensures var after := Hashes(files, readOnly, paths, digest).files;
      HashOne(after, readOnly, paths[i], digest).1 == after
  {
    var after := Hashes(files, readOnly, paths, digest).files;
    var before := Hashes(files, readOnly, paths[..i], digest).files;
    var p := paths[i];
    var sidecar := Sidecar(p);
    var mid := HashOne(before, readOnly, p, digest).1;
    assert paths[..i + 1][..i] == paths[..i];
    assert Hashes(files, readOnly, paths[..i + 1], digest).files == mid;
    PrefixKept(files, readOnly, paths, digest, i);
    PrefixKept(files, readOnly, paths, digest, i + 1);
    AddedAreSidecars(files, readOnly, paths, digest, i);
    if sidecar !in after && sidecar !in readOnly && p !in before {
      assert p !in after by {
        forall j | i <= j < |paths|
          ensures Sidecar(paths[j]) == p ==> sidecar == p
        {
          SidecarIsFixpoint(paths[j]);
        }
      }
    }
  }

  /** A second pass over a prefix of the list, on the files the first pass left behind, writes nothing. */
  lemma {:induction false} SecondRunWritesNothingPrefix(files: Files, readOnly: set<Path>, paths: seq<Path>, digest: Digest, i: nat)
    requires i <= |paths|
    requires forall j :: 0 <= j < |paths| ==> !AllDots(paths[j].name)
    ensures var after := Hashes(files, readOnly, paths, digest).files;
      Hashes(after, readOnly, paths[..i], digest).files == after
  {
    if i > 0 {
      SecondRunWritesNothingPrefix(files, readOnly, paths, digest, i - 1);
      assert paths[..i][..i - 1] == paths[..i - 1];
      StepAgainWritesNothing(files, readOnly, paths, digest, i - 1);
    }
  }

  /**
    A second call to `get_hashes` with no new checkpoints writes nothing,
    provided every file name holds a character other than '.'.
  */
  lemma SecondCallWritesNothing(files: Files, readOnly: set<Path>, paths: seq<Path>, digest: Digest)
    requires forall j :: 0 <= j < |paths| ==> !AllDots(paths[j].name)
    ensures Hashes(Hashes(files, readOnly, paths, digest).files, readOnly, paths, digest).files
         == Hashes(files, readOnly, paths, digest).files
  {
    SecondRunWritesNothingPrefix(files, readOnly, paths, digest, |paths|);
    assert paths[..|paths|] == paths;
  }

  /**
    When no two checkpoints share a sidecar, the step for checkpoint `i`
    finds the same hash on the files the whole pass left behind as it did
    during the pass.
  */
  lemma StepAgainSameHash(files: Files, readOnly: set<Path>, paths: seq<Path>, digest: Digest, i: nat)
    requires i < |paths|
    requires forall j :: 0 <= j < |paths| ==> !AllDots(paths[j].name)
    requires forall j, k :: 0 <= j < k < |paths| ==> Sidecar(paths[j]) != Sidecar(paths[k])
    ensures HashOne(Hashes(files, readOnly, paths, digest).files, readOnly, paths[i], digest).0
         == HashOne(Hashes(files, readOnly, paths[..i], digest).files, readOnly, paths[i], digest).0
  {
    var after := Hashes(files, readOnly, paths, digest).files;
    var before := Hashes(files, readOnly, paths[..i], digest).files;
    var p := paths[i];
    var sidecar := Sidecar(p);
    var mid := HashOne(before, readOnly, p, digest).1;
    assert paths[..i + 1][..i] == paths[..i];
    assert Hashes(files, readOnly, paths[..i + 1], digest).files == mid;
    PrefixKept(files, readOnly, paths, digest, i);
    PrefixKept(files, readOnly, paths, digest, i + 1);
    AddedAreSidecars(files, readOnly, paths, digest, i);
    AddedAreSidecars(files, readOnly, paths, digest, i + 1);
    if sidecar in before {
      assert after[sidecar] == before[sidecar];
    } else if p in before && before[p].Readable? && sidecar !in readOnly {
      assert after[sidecar] == mid[sidecar];
    } else {
      assert mid == before;
      assert sidecar !in after by {
        assert forall j :: i + 1 <= j < |paths| ==> Sidecar(paths[j]) != sidecar;
      }
      if sidecar !in readOnly && p !in before {
        assert p !in after by {
          forall j | i <= j < |paths|
            ensures Sidecar(paths[j]) == p ==> sidecar == p
          {
            SidecarIsFixpoint(paths[j]);
          }
        }
      }
    }
  }

  /** The second pass over a prefix returns what the first pass returned for it, and writes nothing. */
  lemma {:induction false} SecondRunSamePrefix(files: Files, readOnly: set<Path>, paths: seq<Path>, digest: Digest, i: nat)
    requires i <= |paths|
    requires forall j :: 0 <= j < |paths| ==> !AllDots(paths[j].name)
    requires forall j, k :: 0 <= j < k < |paths| ==> Sidecar(paths[j]) != Sidecar(paths[k])
    ensures Hashes(Hashes(files, readOnly, paths, digest).files, readOnly, paths[..i], digest)
         == Run(Hashes(files, readOnly, paths[..i], digest).hashes, Hashes(files, readOnly, paths, digest).files)
  {
    if i > 0 {
      SecondRunSamePrefix(files, readOnly, paths, digest, i - 1);
      assert paths[..i][..i - 1] == paths[..i - 1];
      StepAgainWritesNothing(files, readOnly, paths, digest, i - 1);
      StepAgainSameHash(files, readOnly, paths, digest, i - 1);
    }
  }

  /**
    A checkpoint whose step finds a hash (at its turn in the loop) has its
    file name among the returned keys: later steps only add or overwrite keys.
  */
  lemma {:induction false} FoundNameReturned(files: Files, readOnly: set<Path>, paths: seq<Path>, digest: Digest, j: nat)
    requires j < |paths|
    requires HashOne(Hashes(files, readOnly, paths[..j], digest).files, readOnly, paths[j], digest).0.Some?
    ensures paths[j].name in Hashes(files, readOnly, paths, digest).hashes
  {
    var shorter := paths[..|paths| - 1];
    if j == |paths| - 1 {
      assert shorter == paths[..j];
    } else {
      assert shorter[..j] == paths[..j] && shorter[j] == paths[j];
      FoundNameReturned(files, readOnly, shorter, digest, j);
    }
  }

  /**
    When no two checkpoints share a sidecar, a second call to `get_hashes`
    returns exactly what the first returned and leaves the files as they were.
  */
  lemma SecondCallSameResult(files: Files, readOnly: set<Path>, paths: seq<Path>, digest: Digest)
    requires forall j :: 0 <= j < |paths| ==> !AllDots(paths[j].name)
    requires forall j, k :: 0 <= j < k < |paths| ==> Sidecar(paths[j]) != Sidecar(paths[k])
    ensures Hashes(Hashes(files, readOnly, paths, digest).files, readOnly, paths, digest)
         == Hashes(files, readOnly, paths, digest)
  {
    SecondRunSamePrefix(files, readOnly, paths, digest, |paths|);
    assert paths[..|paths|] == paths;
  }

  /**
    Two checkpoints in one directory that differ only in their extension
    share one sidecar: the first one's hash is written there and is then
    returned for the second as well, whatever the second file holds.
  */
  lemma SharedSidecarReportsFirstHash(dir: string, first: string, second: string, digest: Digest)
    ensures Hashes(map[Path(dir, "model.ckpt") := Readable(first), Path(dir, "model.safetensors") := Readable(second)],
                   {}, [Path(dir, "model.ckpt"), Path(dir, "model.safetensors")], digest).hashes
         == map["model.ckpt" := digest(first), "model.safetensors" := digest(first)]
  {
    var a, b := Path(dir, "model.ckpt"), Path(dir, "model.safetensors");
    assert "model"[0] != '.';
    assert "model.ckpt" == "model" + ".ckpt";
    assert "model.safetensors" == "model" + ".safetensors";
    SidecarReplacesExtension(dir, "model", ".ckpt");
    SidecarReplacesExtension(dir, "model", ".safetensors");
    var sidecar := Path(dir, "model" + SidecarSuffix);
    assert sidecar != a && sidecar != b;
    var paths := [a, b];
    assert paths[..1] == [a] && [a][..0] == [];
    var files := map[a := Readable(first), b := Readable(second)];
    assert Hashes(files, {}, [a], digest) == Run(map["model.ckpt" := digest(first)], files[sidecar := Readable(digest(first))]);
  }
}
