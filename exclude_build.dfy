/**
 * Hiding a directory from the build (`Util.ExcludeDirectory`) and bringing
 * it back (`Util.RevertExcludedDirectory`). A project-relative directory
 * path is flattened into one entry name under `__ExcludeBuild`, and entry
 * names are turned back into paths on revert. Only the names are modelled;
 * the moves themselves are file-system effects.
 */
module ExcludeBuild {
  import opened Wrappers
  import opened NetString

  const ExcludeBuildDir: string := "__ExcludeBuild"

  /** The path with Windows separators turned into `'/'`. */
  function Normalize(dir: string): (r: string)
    ensures |r| == |dir| && '\\' !in r
    ensures forall i :: 0 <= i < |dir| ==> r[i] == if dir[i] == '\\' then '/' else dir[i]
  {
    ReplaceCharByChar(dir, '\\', '/');
    ReplaceCharRemoves(dir, '\\', "/");
    ReplaceAll(dir, "\\", "/")
  }

  /** The entry name a directory is stored under: separators become `"~~"`. */
  function Encode(dir: string): (r: string)
    ensures '/' !in r && '\\' !in r
  {
    var n := Normalize(dir);
    ReplaceCharRemoves(n, '/', "~~");
    ReplaceAll(n, "/", "~~")
  }

  /** The project-relative path an entry name is restored to. */
  function Decode(name: string): (r: string)
    ensures forall c :: c in r ==> c in name || c == '/'
  {
    ReplaceAll(name, "~~", "/")
  }

  /**
   * Where `ExcludeDirectory` moves `dir`: nowhere when the directory does not
   * exist, otherwise the direct child of `__ExcludeBuild` named by `Encode(dir)`.
   */
  function ExcludeDirectory(dir: string, dirExists: bool): (r: Option<string>)
    ensures r.Some? <==> dirExists
    ensures r.Some? ==> r.value == ExcludeBuildDir + "/" + Encode(dir)
    ensures r.Some? ==> exists name :: r.value == ExcludeBuildDir + "/" + name && '/' !in name && '\\' !in name
  {
    if !dirExists then None
    else Some(ExcludeBuildDir + "/" + Encode(dir))
  }

  /**
   * Restoring an excluded directory puts it back at its own path (with
   * `'/'` separators), provided the path has no `'~'`.
   */
  lemma ExcludeRevertRoundTrip(dir: string)
    requires '~' !in dir
    ensures Decode(Encode(dir)) == Normalize(dir)
  {
    var n := Normalize(dir);
    assert '~' !in n;
    ReplaceCharInverse(n, '/', "~~");
  }

  /**
   * Excluding an existing tilde-free directory and reverting it: the entry
   * name under `__ExcludeBuild` decodes back to the directory's own path.
   */
  lemma ExcludeThenRevert(dir: string)
    requires '~' !in dir
    ensures ExcludeDirectory(dir, true).Some?
    ensures Decode(ExcludeDirectory(dir, true).value[|ExcludeBuildDir| + 1..]) == Normalize(dir)
  {
    assert ExcludeDirectory(dir, true).value[|ExcludeBuildDir| + 1..] == Encode(dir);
    ExcludeRevertRoundTrip(dir);
  }

  /** Two tilde-free directories that the build excludes never share an entry. */
  lemma EncodeInjective(d1: string, d2: string)
    requires '~' !in d1 && '~' !in d2
    requires Encode(d1) == Encode(d2)
    ensures Normalize(d1) == Normalize(d2)
  {
    ExcludeRevertRoundTrip(d1);
    ExcludeRevertRoundTrip(d2);
  }

  /**
   * With a `'~'` in the path the restore can go wrong. A path component
   * ending in `'~'` (Unity's convention for folders it hides, as in
   * `Samples~`) runs into the following separator: `"S~/X"` is stored as
   * `"S~~~X"` and restored as `"S/~X"`.
   */
  lemma TildeBreaksRoundTrip()
    ensures Encode("S~/X") == "S~~~X"
    ensures Decode(Encode("S~/X")) == "S/~X" != Normalize("S~/X")
  {
    ReplaceCharUnfold("S~/X", '\\', "/");
    ReplaceCharUnfold("~/X", '\\', "/");
    ReplaceCharUnfold("/X", '\\', "/");
    ReplaceCharUnfold("X", '\\', "/");
    assert Normalize("S~/X") == "S~/X";
    ReplaceCharUnfold("S~/X", '/', "~~");
    ReplaceCharUnfold("~/X", '/', "~~");
    ReplaceCharUnfold("/X", '/', "~~");
    ReplaceCharUnfold("X", '/', "~~");
    assert Encode("S~/X") == "S~~~X";
    DecodeTildeExample();
  }

  /** The decoding step of `TildeBreaksRoundTrip`, one replacement at a time. */
  lemma DecodeTildeExample()
    ensures Decode("S~~~X") == "S/~X"
  {
    assert Decode("X") == "X";
    assert "~X"[..2][1] != "~~"[1];
    assert "~X"[1..] == "X";
    assert Decode("~X") == "~X";
    assert "~~~X"[..2] == "~~" && "~~~X"[2..] == "~X";
    assert Decode("~~~X") == "/~X";
    assert "S~~~X"[..2][0] != "~~"[0];
    assert "S~~~X"[1..] == "~~~X";
  }

  /**
   * `RevertExcludedDirectory`'s loop over the entries of `__ExcludeBuild`:
   * the destination each entry is moved back to.
   */
  method RevertTargets(entryNames: seq<string>) returns (targets: seq<string>)
    ensures |targets| == |entryNames|
    ensures forall i :: 0 <= i < |entryNames| ==> targets[i] == Decode(entryNames[i])
  {
    targets := [];
    for i := 0 to |entryNames|
      invariant |targets| == i
      invariant forall j :: 0 <= j < i ==> targets[j] == Decode(entryNames[j])
    {
      targets := targets + [Decode(entryNames[i])];
    }
  }
}
