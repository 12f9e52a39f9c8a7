# AutoCopyGitHook in Dafny

A model of the Unity editor hook `CopyGitHooksPostprocessor.OnPostprocessAllAssets`.
Unity calls it on every asset import. The routine installs a `pre-commit` git hook:

1. If `dataPath/../pre-commit` is not a file, it logs a warning and stops.
2. If `dataPath/../.git` is not a directory, it logs a warning and stops.
3. It creates `.git/hooks` if that directory is missing.
4. It copies the hook to `.git/hooks/pre-commit` when no file is there yet. It also copies when the source's creation time is strictly later than the installed file's; in that case it deletes the stale file first, because `File.Copy` is called without overwrite.
5. Otherwise it does nothing.

The project has four modules:

- `Paths` (`Paths.dfy`): a path is a sequence of segments, and `Path.Combine` appends a segment.
- `SystemIO` (`SystemIO.dfy`): the filesystem is a set of directories plus a map from file paths to records (bytes and creation time).
  - `WellFormed` says the state is one that can exist on disk: every entry lives in an existing directory, and no path is both a file and a directory.
  - The three state-changing calls (`Directory.CreateDirectory`, `File.Delete`, `File.Copy`) are values of type `Operation`.
  - `Enabled` says when a call completes instead of throwing. `Apply` gives its effect, and `Run` replays a sequence of calls.
  - The class `FileSystem` holds the state in fields `dirs` and `files`, plus a ghost `log` of the calls made. Each of its three state-changing methods is specified by `Apply`. The three queries read the fields.
- `CopyGitHooksPostprocessor` (`CopyGitHooksPostprocessor.dfy`): the three configuration constants and the paths built from them.
  - `Sync` is the pure specification. Its `Plan` holds the outcome (`SourceMissing`, `GitMissing`, `Copied`, `SkippedUpToDate`, one per log branch), the calls in order, and the final filesystem.
  - `OnPostprocessAllAssets` is the routine itself, with the same branches and the same `doCopy` flag, run on a `FileSystem` object.
  - The lemmas state what the routine promises.
- `Scenarios` (`Scenarios.dfy`): three scenarios on concrete projects. The verifier checks their outcomes against the contracts alone.

Inputs that the original reads from its environment become parameters:
- `Application.dataPath` becomes `dataPath`.
- The creation time that the filesystem gives a file written by `File.Copy` becomes `now`.

## Model

| member | source | states |
|---|---|---|
| `Paths.Combine` | Assets/Editor/CopyGitHooksPostprocessor.cs:59-73 | `Path.Combine` with a single relative segment: the result is the path extended by that segment. |
| `Paths.PrefixesCharacterized` | Assets/Editor/CopyGitHooksPostprocessor.cs:71 | The directories `Directory.CreateDirectory(p)` makes sure exist are exactly the non-empty leading parts of `p`. It creates only the missing ones. |
| `Paths.PrefixesParentClosed` | Assets/Editor/CopyGitHooksPostprocessor.cs:71 | Among the directories `CreateDirectory` makes sure exist, the parent of each one is also among them. |
| `Paths.PrefixesOfCombine` | Assets/Editor/CopyGitHooksPostprocessor.cs:67-71 | The directories that must exist for `git/hooks` are those for `git` plus `hooks` itself. |
| `SystemIO.DirectoriesPrefixClosed` | Assets/Editor/CopyGitHooksPostprocessor.cs:65-71 | In a well-formed filesystem, every leading part of an existing directory is a directory. So once `.git` exists, creating `.git/hooks` adds only that directory. |
| `SystemIO.MakeDirectoryPreservesWellFormed` | Assets/Editor/CopyGitHooksPostprocessor.cs:71 | `CreateDirectory`, when it does not throw, keeps the filesystem well formed. |
| `SystemIO.Enabled` | Assets/Editor/CopyGitHooksPostprocessor.cs:71-91 | When each call completes instead of throwing. `CreateDirectory` needs no file at the path or on the way. `File.Delete` needs no directory at the path. `File.Copy` needs the source to be a file, and the destination to be absent with an existing directory. An enabled copy never has the source as its destination. |
| `SystemIO.Apply` | Assets/Editor/CopyGitHooksPostprocessor.cs:71-91 | The effect of `CreateDirectory`, `File.Delete` and `File.Copy`; each keeps the filesystem well formed. |
| `SystemIO.ApplyEffect` | Assets/Editor/CopyGitHooksPostprocessor.cs:71-91 | After `CreateDirectory` the directory exists. After `Delete` the file is gone. After `Copy` the destination has the source's bytes and the given creation time. No other file changes. |
| `SystemIO.Run` | Assets/Editor/CopyGitHooksPostprocessor.cs:68-91 | Replaying calls keeps the filesystem well formed and never removes a directory. |
| `SystemIO.RunAppend` | Assets/Editor/CopyGitHooksPostprocessor.cs:68-91 | Running two call sequences one after the other is the same as running them concatenated. |
| `SystemIO.FileSystem.FileExists` | Assets/Editor/CopyGitHooksPostprocessor.cs:61 | `File.Exists` is true exactly for regular files. |
| `SystemIO.FileSystem.DirectoryExists` | Assets/Editor/CopyGitHooksPostprocessor.cs:65-68 | `Directory.Exists` is true exactly for directories. |
| `SystemIO.FileSystem.CreationTimeUtc` | Assets/Editor/CopyGitHooksPostprocessor.cs:78-80 | `FileInfo.CreationTimeUtc` of an existing file is its recorded creation time. |
| `SystemIO.FileSystem.CreateDirectory` | Assets/Editor/CopyGitHooksPostprocessor.cs:71 | Adds the path and every missing directory on the way, logs the call, and leaves the files alone. |
| `SystemIO.FileSystem.Delete` | Assets/Editor/CopyGitHooksPostprocessor.cs:86 | Removes the file, logs the call, and leaves everything else alone. |
| `SystemIO.FileSystem.Copy` | Assets/Editor/CopyGitHooksPostprocessor.cs:91 | Requires that the destination does not exist (no overwrite) and that its directory does. Creates the destination with the source's bytes and logs the call. |
| `CopyGitHooksPostprocessor.HookPath` | Assets/Editor/CopyGitHooksPostprocessor.cs:45-59 | The source is `dataPath/../pre-commit`, built from `hookRelativeDirectoryPath` and `hookFilename`. |
| `CopyGitHooksPostprocessor.GitPath` | Assets/Editor/CopyGitHooksPostprocessor.cs:40-64 | The git directory is `dataPath/../.git`, built from `dotGitRelativeDirectoryPath`. |
| `CopyGitHooksPostprocessor.GitHooksPath` | Assets/Editor/CopyGitHooksPostprocessor.cs:64-67 | The hooks directory is `dataPath/../.git/hooks`, directly inside the git directory. |
| `CopyGitHooksPostprocessor.DestinationPath` | Assets/Editor/CopyGitHooksPostprocessor.cs:67-73 | The destination is `dataPath/../.git/hooks/pre-commit`, directly inside the hooks directory. |
| `CopyGitHooksPostprocessor.PathsDistinct` | Assets/Editor/CopyGitHooksPostprocessor.cs:59-73 | The source is neither the destination nor the hooks directory, and the hooks directory is not the destination. |
| `CopyGitHooksPostprocessor.SourceIsNewer` | Assets/Editor/CopyGitHooksPostprocessor.cs:80 | The freshness gate is a strict `>` on creation times. When the source is as old as the installed copy or older, equal times included, the gate is closed and the copy is skipped. |
| `CopyGitHooksPostprocessor.IoSucceeds` | Assets/Editor/CopyGitHooksPostprocessor.cs:61-91 | The states the routine accepts without throwing: no file stands at `.git/hooks` and no directory at `.git/hooks/pre-commit`. It can fail only when the hook file and `.git` both exist, because the two warning branches make no call. |
| `CopyGitHooksPostprocessor.EnsureHooksOps` | Assets/Editor/CopyGitHooksPostprocessor.cs:67-72 | At most one call. It is empty exactly when `.git/hooks` is already a directory; otherwise it is the single `CreateDirectory(.git/hooks)`. |
| `CopyGitHooksPostprocessor.InstallOps` | Assets/Editor/CopyGitHooksPostprocessor.cs:84-91 | One or two calls, ending with `File.Copy(hook, destination)`. A `File.Delete` of the destination comes first exactly when a file is installed there. |
| `CopyGitHooksPostprocessor.Sync` | Assets/Editor/CopyGitHooksPostprocessor.cs:52-104 | The routine's decision, per branch. No hook file: `SourceMissing`, no calls, filesystem unchanged. Hook file but no `.git` directory: `GitMissing`, no calls, filesystem unchanged. Otherwise on a skip: `SkippedUpToDate`, only the hooks-directory call, and the directories gain `.git/hooks` while the files stay as they were. On a copy: `Copied`, the hooks-directory call then the install calls, and the destination holds the source's bytes dated `now`. |
| `CopyGitHooksPostprocessor.EnsureHooksRuns` | Assets/Editor/CopyGitHooksPostprocessor.cs:67-72 | When `.git` exists and no file stands at `.git/hooks`, the create step cannot throw. Afterwards `.git/hooks` is a directory and nothing else has changed. |
| `CopyGitHooksPostprocessor.InstallRuns` | Assets/Editor/CopyGitHooksPostprocessor.cs:73-91 | With `.git/hooks` present, delete-then-copy cannot throw. Afterwards the destination holds the source's bytes. |
| `CopyGitHooksPostprocessor.SyncReplays` | Assets/Editor/CopyGitHooksPostprocessor.cs:52-104 | Making the calls `Sync` plans, in order, completes, and leaves exactly the final filesystem `Sync` declares. |
| `CopyGitHooksPostprocessor.SyncRunnable` | Assets/Editor/CopyGitHooksPostprocessor.cs:67-91 | On a well-formed filesystem, the routine's calls all complete if and only if `IoSucceeds` holds. |
| `CopyGitHooksPostprocessor.SyncPreservesWellFormed` | Assets/Editor/CopyGitHooksPostprocessor.cs:52-104 | The routine leaves a well-formed filesystem well formed. |
| `CopyGitHooksPostprocessor.SourceMissingLeavesFilesystem` | Assets/Editor/CopyGitHooksPostprocessor.cs:100-103 | No hook file: the outcome is `SourceMissing`, there are no calls, and the filesystem is unchanged. |
| `CopyGitHooksPostprocessor.GitMissingLeavesFilesystem` | Assets/Editor/CopyGitHooksPostprocessor.cs:95-98 | Hook file present but no `.git` directory: the outcome is `GitMissing`, there are no calls, and the filesystem is unchanged. |
| `CopyGitHooksPostprocessor.HooksDirectoryEnsured` | Assets/Editor/CopyGitHooksPostprocessor.cs:67-72 | With the hook and `.git` present, the directories afterwards are the old ones plus `.git/hooks`. The create call is made exactly when `.git/hooks` was missing. |
| `CopyGitHooksPostprocessor.CopyExactlyWhenStale` | Assets/Editor/CopyGitHooksPostprocessor.cs:74-89 | With the hook and `.git` present, the outcome is `Copied` or `SkippedUpToDate`. It is `Copied` if and only if the destination is absent or the source is strictly newer. When the installed copy's creation time is at least the source's, equal times included, the outcome is `SkippedUpToDate` and the files are unchanged. |
| `CopyGitHooksPostprocessor.UpToDateCopyUntouched` | Assets/Editor/CopyGitHooksPostprocessor.cs:77-83 | A skip (equal or older source creation time) deletes or writes no file, and the files are unchanged. |
| `CopyGitHooksPostprocessor.CopyInstallsSource` | Assets/Editor/CopyGitHooksPostprocessor.cs:84-91 | On a copy the last call is the copy. A delete of the destination is made exactly when the destination existed, and it comes immediately before the copy. Afterwards the destination has the source's bytes. |
| `CopyGitHooksPostprocessor.OnlyDestinationTouched` | Assets/Editor/CopyGitHooksPostprocessor.cs:86-91 | Every delete and every write targets the destination. Every other file, the source included, keeps its presence and its record. |
| `CopyGitHooksPostprocessor.SecondRunSkips` | Assets/Editor/CopyGitHooksPostprocessor.cs:78-83 | Assume a copied file is never created before its source. Then a second run on the result reports `SkippedUpToDate` and changes nothing. |
| `CopyGitHooksPostprocessor.OnPostprocessAllAssets` | Assets/Editor/CopyGitHooksPostprocessor.cs:52-104 | The routine keeps the filesystem well formed. It reports the planned outcome, makes exactly the planned calls in order, and leaves exactly the planned filesystem. |

## Left out

- Unity integration: the `AssetPostprocessor` base class, the four asset arrays (the routine never reads them) and `Application.dataPath`, which becomes the parameter `dataPath`.
- The text of the `Debug.Log` and `Debug.LogWarning` messages: only the branch taken is modelled, as the `Outcome`.
- Path normalisation: `..` stays an ordinary segment, as in the string `Path.Combine` builds. The rule that `Path.Combine` returns its second argument when that argument is rooted is not modelled either; every argument here is relative.
- Executable permission bits and every other file attribute except contents and creation time.
- How the operating system dates a file written by `File.Copy`: the creation time is the parameter `now`.
- CopyGitHooksPostprocessor.OnPostprocessAllAssets: requires `IoSucceeds`. It excludes the two states where the original throws an `IOException`: a file standing at `.git/hooks`, and a directory standing at `.git/hooks/pre-commit`. The original does not catch these exceptions, so there is no outcome to model. `SyncRunnable` proves these are exactly the states in which the calls cannot all complete.
- Other I/O failures (permissions, a full disk, over-long paths, a file deleted between the check and the copy) are not modelled. `File.Delete` fails only on a directory in this model.
- CopyGitHooksPostprocessor.SecondRunSkips: idempotence holds only under the stated assumption that `now` is at least the source's creation time. The original cannot promise more, because the creation time `File.Copy` assigns is outside its control.
- Concurrency: overlapping import events racing on the destination file.

The routine has no outcome for a failed directory creation or a failed copy, and it does nothing to keep the hook executable. It lets exceptions propagate, and it calls plain `File.Copy`. The model follows the code in both respects.
