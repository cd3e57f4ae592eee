/**
  Checkpoint locations and the name of the hash sidecar that sits beside
  each checkpoint: `<stem>.sha256` in the same directory, where the stem is
  what Python's `os.path.splitext` leaves of the file name.
*/
module Paths {
  import opened Wrappers

  /** A file location, already split into `os.path.dirname` and `os.path.basename`. */
  datatype Path = Path(dir: string, name: string)

  /** The suffix of every sidecar file name. */
  const SidecarSuffix: string := ".sha256"

  /** True when `s` consists of '.' characters only (the empty string included). */
  predicate AllDots(s: string) {
    |s| == 0 || (s[0] == '.' && AllDots(s[1..]))
  }

  /** `AllDots` means every character is a '.'. */
  lemma {:induction false} AllDotsSpec(s: string)
    ensures AllDots(s) <==> forall k :: 0 <= k < |s| ==> s[k] == '.'
  {
    if |s| > 0 {
      AllDotsSpec(s[1..]);
      assert forall k :: 1 <= k < |s| ==> s[1..][k - 1] == s[k];
    }
  }

  /** Index of the last '.' in `s` (`str.rfind('.')`), or None when there is none. */
  function LastDot(s: string): (r: Option<nat>)
    ensures r.Some? ==> r.value < |s|
  {
    if |s| == 0 then None
    else if s[|s| - 1] == '.' then Some(|s| - 1)
    else LastDot(s[..|s| - 1])
  }

  /** `LastDot` finds a '.', and no '.' follows it; None means the string has no '.'. */
  lemma {:induction false} LastDotSpec(s: string)
    ensures LastDot(s).Some? ==> LastDot(s).value < |s| && s[LastDot(s).value] == '.'
    ensures LastDot(s).Some? ==> forall k :: LastDot(s).value < k < |s| ==> s[k] != '.'
    ensures LastDot(s).None? ==> forall k :: 0 <= k < |s| ==> s[k] != '.'
  {
    if |s| > 0 && s[|s| - 1] != '.' {
      var init := s[..|s| - 1];
      LastDotSpec(init);
      assert forall k :: 0 <= k < |init| ==> init[k] == s[k];
    }
  }

  /**
    `os.path.splitext` on a bare file name: the extension starts at the last
    '.', but only when some character other than '.' comes before it, so
    leading dots (".hidden") never start an extension.
  */
  function SplitExt(name: string): (r: (string, string))
    ensures r.0 + r.1 == name
  {
    match LastDot(name)
    case None => (name, "")
    case Some(d) => if !AllDots(name[..d]) then (name[..d], name[d..]) else (name, "")
  }

  /**
    What `SplitExt` promises: the extension is empty or a '.' followed by no
    further '.', with a character other than '.' before it; and it is empty
    only when every '.' of the name has only dots before it.
  */
  lemma SplitExtSpec(name: string)
    ensures var (root, ext) := SplitExt(name);
      && (ext != [] ==> ext[0] == '.' && !AllDots(root))
      && (forall k :: 0 < k < |ext| ==> ext[k] != '.')
      && (ext == [] ==> forall d :: 0 <= d < |name| && name[d] == '.' ==> AllDots(name[..d]))
  {
    LastDotSpec(name);
    match LastDot(name)
    case None =>
    case Some(d) =>
      if AllDots(name[..d]) {
        AllDotsSpec(name[..d]);
        forall d' | 0 <= d' < |name| && name[d'] == '.'
          ensures AllDots(name[..d'])
        {
          AllDotsSpec(name[..d']);
          assert forall k :: 0 <= k < d' ==> name[..d'][k] == name[..d][k];
        }
      }
  }

  /** The file name without its extension. */
  function Stem(name: string): string {
    SplitExt(name).0
  }

  /** The name of the sidecar that caches the hash of checkpoint `name`. */
  function SidecarName(name: string): string {
    Stem(name) + SidecarSuffix
  }

  /** `os.path.join(os.path.dirname(p), stem + ".sha256")`. */
  function Sidecar(p: Path): Path {
    Path(p.dir, SidecarName(p.name))
  }

  /** The stem of a name that is not all dots is not all dots. */
  lemma StemNotAllDots(name: string)
    requires !AllDots(name)
    ensures !AllDots(Stem(name))
  {
    SplitExtSpec(name);
  }

  /** Appending ".ext" (no further dots) to a root that is not all dots splits back into the two. */
  lemma SplitExtOfExtension(root: string, ext: string)
    requires !AllDots(root)
    requires |ext| > 0 && ext[0] == '.'
    requires forall k :: 0 < k < |ext| ==> ext[k] != '.'
    ensures SplitExt(root + ext) == (root, ext)
  {
    var name := root + ext;
    assert name[|root|] == '.';
    assert forall k :: |root| < k < |name| ==> name[k] == ext[k - |root|];
    LastDotSpec(name);
    assert LastDot(name) == Some(|root|);
    assert name[..|root|] == root;
    assert name[|root|..] == ext;
  }

  /** The sidecar of "<root><ext>" is "<root>.sha256" in the same directory. */
  lemma SidecarReplacesExtension(dir: string, root: string, ext: string)
    requires !AllDots(root)
    requires |ext| > 0 && ext[0] == '.'
    requires forall k :: 0 < k < |ext| ==> ext[k] != '.'
    ensures Sidecar(Path(dir, root + ext)) == Path(dir, root + SidecarSuffix)
  {
    SplitExtOfExtension(root, ext);
  }

  /**
    For any real file name (one that is not all dots), the sidecar of a
    sidecar is the sidecar itself: a file named like a sidecar would cache
    its hash in itself.
  */
  lemma SidecarIsFixpoint(p: Path)
    requires !AllDots(p.name)
    ensures Sidecar(Sidecar(p)) == Sidecar(p)
  {
    StemNotAllDots(p.name);
    SplitExtOfExtension(Stem(p.name), SidecarSuffix);
  }
}
