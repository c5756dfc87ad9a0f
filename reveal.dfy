/**
 * `Util.RevealOutputInFinder`: which path the editor reveals in the file
 * browser after a build. Whether a path exists as a file or a directory,
 * and `Path.GetDirectoryName` (which yields `null` for a root), are
 * parameters.
 */
module Reveal {
  import opened Wrappers
  import opened NetString

  /** `Util.projectDir`: the current directory with `'/'` separators. */
  function ProjectDir(currentDirectory: string): (r: string)
    ensures |r| == |currentDirectory| && '\\' !in r
    ensures forall i :: 0 <= i < |r| ==>
              r[i] == if currentDirectory[i] == '\\' then '/' else currentDirectory[i]
  {
    ReplaceCharByChar(currentDirectory, '\\', '/');
    ReplaceCharRemoves(currentDirectory, '\\', "/");
    ReplaceAll(currentDirectory, "\\", "/")
  }

  /**
   * The path revealed: none in batch mode; otherwise `path` if it exists,
   * else its parent if that exists, else the project directory.
   */
  function RevealTarget(
    path: string, inBatchMode: bool, pathExists: string -> bool,
    directoryName: string -> Option<string>, projectDir: string)
    : (r: Option<string>)
    ensures r.None? <==> inBatchMode
    ensures r.Some? ==> pathExists(r.value) || r.value == projectDir
    ensures r.Some? && pathExists(path) ==> r.value == path
    ensures r.Some? && r.value != path ==> !pathExists(path)
    ensures r.Some? && !pathExists(path) && directoryName(path).Some? && pathExists(directoryName(path).value) ==>
              r.value == directoryName(path).value
    ensures r.Some? && r.value != path && r.value != projectDir ==>
              directoryName(path).Some? && r.value == directoryName(path).value
  {
    if inBatchMode then None
    else
      var parent := directoryName(path);
      Some(if pathExists(path) then path
           else if parent.Some? && pathExists(parent.value) then parent.value
           else projectDir)
  }

  /** The first candidate that exists, or `fallback` when none does. */
  function FirstExisting(candidates: seq<string>, pathExists: string -> bool, fallback: string): (r: string)
    ensures r == fallback || (r in candidates && pathExists(r))
    ensures (exists c :: c in candidates && pathExists(c)) ==> r in candidates && pathExists(r)
  {
    if |candidates| == 0 then fallback
    else if pathExists(candidates[0]) then candidates[0]
    else FirstExisting(candidates[1..], pathExists, fallback)
  }

  /** The places tried, nearest first: the path itself, then its parent when it has one. */
  function Candidates(path: string, directoryName: string -> Option<string>): seq<string>
  {
    [path] + (if directoryName(path).Some? then [directoryName(path).value] else [])
  }

  /** Outside batch mode the revealed path is the nearest existing candidate. */
  lemma RevealIsNearestExisting(
    path: string, pathExists: string -> bool,
    directoryName: string -> Option<string>, projectDir: string)
    ensures RevealTarget(path, false, pathExists, directoryName, projectDir)
         == Some(FirstExisting(Candidates(path, directoryName), pathExists, projectDir))
  {
  }
}
