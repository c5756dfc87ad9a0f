# Project builder command-line and path utilities

A Dafny model of the algorithmic core of the project builder's `Util` class
(`Mobcast.Coffee.Build.Util`, a Unity editor utility): how it reads options
from the editor's command line, how it picks the builder asset to build
with, how it encodes a directory path as a flat entry name when it hides
that directory from the build, and how it chooses which path to reveal
after a build.

Modules, one per file:

- `Wrappers` (`wrappers.dfy`): `Option` (a C# `null`) and `Result` (a thrown exception).
- `NetString` (`net_string.dfy`): `String.IndexOf(char)` and
  `String.Replace(string, string)`, which scans left to right and replaces
  non-overlapping occurrences. It also holds the lemmas about one-character
  replacement.
- `ExecuteArguments` (`execute_arguments.dfy`): the option table.
  `OptionTable` says declaratively what the table holds: every option token
  maps to the value at its last occurrence. `ParseCommandLine` is the source's
  two-state scan, a loop with a pending key. It is proved to build exactly
  `OptionTable`. Lemmas cover overwriting, options without values and
  ignored tokens.
- `BuilderSelection` (`builder_selection.dfy`): the choice between
  `-bvrbuildtarget` and `-builder`, the asset lookup, and the build-target check.
- `ExcludeBuild` (`exclude_build.dfy`): the `__ExcludeBuild` entry names, with
  their round trip and its limits.
- `Reveal` (`reveal.dfy`): `projectDir` and the reveal-path fallback.

Environment inputs are parameters:
- the process arguments are a `seq<string>`;
- the asset search is `find: string -> Option<B>`;
- a builder's build target is `targetOf`;
- the active build target is `activeTarget`;
- batch mode is `inBatchMode`;
- file and directory existence is `pathExists` or `dirExists`;
- `Path.GetDirectoryName` is `directoryName`, whose `None` stands for a `null` result (the exception it throws for an empty path is not modelled, see "## Left out");
- the current directory is `currentDirectory`.

## Model

| member | source | states |
|---|---|---|
| NetString.IndexOf | Assets/Mobcast/Coffee/Editor/ProjectBuilder/Util.cs:72 | The result is -1 exactly when the character is absent; otherwise it is an index holding the character, with no earlier occurrence. |
| NetString.ReplaceAll | Assets/Mobcast/Coffee/Editor/ProjectBuilder/Util.cs:274 | Every character of the result comes from the input or from the replacement text. |
| NetString.ReplaceCharRemoves | Assets/Mobcast/Coffee/Editor/ProjectBuilder/Util.cs:274 | Replacing a character by a text that does not contain it leaves no occurrence of that character. |
| NetString.ReplaceCharByChar | Assets/Mobcast/Coffee/Editor/ProjectBuilder/Util.cs:137 | Replacing one character by another keeps the length and changes exactly the positions that held the old character. |
| NetString.ReplaceCharInverse | Assets/Mobcast/Coffee/Editor/ProjectBuilder/Util.cs:274-287 | Escaping a character and then un-escaping gives back the text, when the text never contains the escape's first character. |
| ExecuteArguments.IsOption | Assets/Mobcast/Coffee/Editor/ProjectBuilder/Util.cs:72 | `IndexOf('-') == 0` holds exactly for non-empty tokens that start with `'-'`. |
| ExecuteArguments.ParseCommandLine | Assets/Mobcast/Coffee/Editor/ProjectBuilder/Util.cs:69-82 | The scan builds exactly the option table. Its keys are precisely the tokens of the argument list that start with `'-'`. |
| ExecuteArguments.LaterOccurrenceWins | Assets/Mobcast/Coffee/Editor/ProjectBuilder/Util.cs:72-79 | An option that occurs again later takes the value of its later occurrence; the earlier value is overwritten. |
| ExecuteArguments.OptionWithoutValue | Assets/Mobcast/Coffee/Editor/ProjectBuilder/Util.cs:72-76 | An option that is last, or is directly followed by another option, maps to `""`. |
| ExecuteArguments.OptionWithValue | Assets/Mobcast/Coffee/Editor/ProjectBuilder/Util.cs:77-80 | A non-option token directly after the last occurrence of an option becomes that option's value. |
| ExecuteArguments.StrayTokenIgnored | Assets/Mobcast/Coffee/Editor/ProjectBuilder/Util.cs:69-81 | A non-option token that does not directly follow an option does not affect the table. This covers tokens before the first option and a second consecutive value. |
| BuilderSelection.BuilderName | Assets/Mobcast/Coffee/Editor/ProjectBuilder/Util.cs:134-143 | The selection succeeds exactly when one of the two options is present. With `-bvrbuildtarget`, the name is its value with every `'-'` turned into a space, so it contains no `'-'`. Otherwise the name is the `-builder` value unchanged. Missing both is the missing-option error. |
| BuilderSelection.GetBuilderFromExecuteArgument | Assets/Mobcast/Coffee/Editor/ProjectBuilder/Util.cs:129-155 | It succeeds exactly when a name is selected, the lookup finds a builder and that builder targets the active target. The three failures are missing option, builder not found (with the name) and wrong build target (with the active target). |
| BuilderSelection.CloudBuilderWins | Assets/Mobcast/Coffee/Editor/ProjectBuilder/Util.cs:135-140 | When `-bvrbuildtarget` is present, adding, changing or removing `-builder` does not change the selected name. |
| BuilderSelection.BuilderNameFromCommandLine | Assets/Mobcast/Coffee/Editor/ProjectBuilder/Util.cs:139 | On a command line `... -builder <name> ...` with no later `-builder` and no cloud option, the selected name is `<name>`. |
| BuilderSelection.CloudBuilderNameFromCommandLine | Assets/Mobcast/Coffee/Editor/ProjectBuilder/Util.cs:135-137 | On a command line `... -bvrbuildtarget <v> ...` with no later cloud option, the selected name is `<v>` with `'-'` replaced by `' '`. |
| ExcludeBuild.Normalize | Assets/Mobcast/Coffee/Editor/ProjectBuilder/Util.cs:274 | Turning `'\'` into `'/'` keeps the length, changes exactly the backslash positions and leaves no backslash. |
| ExcludeBuild.Encode | Assets/Mobcast/Coffee/Editor/ProjectBuilder/Util.cs:274 | The encoded entry name contains neither `'/'` nor `'\'`. |
| ExcludeBuild.Decode | Assets/Mobcast/Coffee/Editor/ProjectBuilder/Util.cs:287 | The restored path only contains characters of the entry name and `'/'`. |
| ExcludeBuild.ExcludeDirectory | Assets/Mobcast/Coffee/Editor/ProjectBuilder/Util.cs:267-274 | Nothing moves when the directory does not exist. Otherwise the destination is `__ExcludeBuild/` followed by the encoded path, an entry name with no separator. |
| ExcludeBuild.ExcludeThenRevert | Assets/Mobcast/Coffee/Editor/ProjectBuilder/Util.cs:267-287 | Excluding an existing tilde-free directory and reverting it: the entry name it was moved to decodes back to the directory's own path with `/` separators. |
| ExcludeBuild.ExcludeRevertRoundTrip | Assets/Mobcast/Coffee/Editor/ProjectBuilder/Util.cs:274-287 | For a path without `'~'`, decoding its entry name gives the path with `'/'` separators. This is the restore the revert promises. |
| ExcludeBuild.EncodeInjective | Assets/Mobcast/Coffee/Editor/ProjectBuilder/Util.cs:274 | Two tilde-free paths that differ after normalisation never get the same entry name. |
| ExcludeBuild.TildeBreaksRoundTrip | Assets/Mobcast/Coffee/Editor/ProjectBuilder/Util.cs:287 | The tilde-free condition is needed: a path component ending in `~` (Unity's hidden-folder convention, as in `Samples~`) is restored wrongly, since `S~/X` is stored as `S~~~X` and restored as `S/~X`. |
| ExcludeBuild.RevertTargets | Assets/Mobcast/Coffee/Editor/ProjectBuilder/Util.cs:286-287 | The revert loop moves each entry back to the decoding of its name, one destination per entry, in order. |
| Reveal.ProjectDir | Assets/Mobcast/Coffee/Editor/ProjectBuilder/Util.cs:35 | The project directory keeps the current directory's length, with every `'\'` turned into `'/'` and no backslash left. |
| Reveal.RevealTarget | Assets/Mobcast/Coffee/Editor/ProjectBuilder/Util.cs:202-212 | In batch mode there is no path. Otherwise the path is `path` if it exists, else its parent if that exists, else the project directory. The chosen path exists or is the project directory. |
| Reveal.RevealIsNearestExisting | Assets/Mobcast/Coffee/Editor/ProjectBuilder/Util.cs:207-212 | Outside batch mode, the chosen path is the first existing path in the list "path, then parent", with the project directory as the fallback. |

## Left out

- Reveal.RevealTarget: does not model the `ArgumentException` that `Path.GetDirectoryName` throws for an empty path (Util.cs:207, before any existence test). For `path == ""` outside batch mode the source throws, while the model returns `Some(_)`. The callers in the editor pass builder output paths.
- ExcludeBuild.ExcludeDirectory: does not model the `ArgumentException` that `new DirectoryInfo("")` throws (Util.cs:268, before `d.Exists`). For `dir == ""` the source throws, while the model returns `None` when the directory is reported missing and an `__ExcludeBuild/` destination when it is reported present.
- `ExecuteArguments.ParseCommandLine` starts from an empty table. The source's static dictionary is created afresh each time the editor loads the assembly, so this is the case that occurs.
- The ".NET rejects an empty pattern" case of `String.Replace` is a precondition of `NetString.ReplaceAll`. Every call in `Util` passes a non-empty constant.
- The file-system effects of `ExcludeDirectory` and `RevertExcludedDirectory` are not modelled: creating `__ExcludeBuild`, `Directory.Move`, moving `.meta` files (`MoveDirectory`), deleting stray files and the directory itself, and `AssetDatabase.Refresh`. Only the names are modelled.
- `EditorUtility.RevealInFinder` is not modelled. Only the chosen path is modelled.
- `UpdateBuilderAssets`, `GetAssets`, `CreateBuilderAsset` and `CreateCustomProjectBuilder` are not modelled. They are asset-database searches, dialogs and reflection into the editor. `GetAssets(name).FirstOrDefault()` becomes the `find` parameter.
- `builderType` and `miSetIconForObject` are not modelled. They are discovered by reflection.
- `StartBuild` and `ResumeBuild` are not modelled. They are compile-callback plumbing, exception logging and `EditorApplication.Exit`, including the `-batchmode` check that chooses the exit code.
- The exception messages are not modelled. The three errors are kept as distinct datatype constructors carrying the name or the active target.
- `ProjectBuilderEditor.cs` and `AssetManagerEditor.cs` are not modelled. They are editor UI, reflection-based platform discovery, serialized-property iteration and local-server process control. The runtime asset-manager state that the inspector displays belongs to a class that is not part of this model.
