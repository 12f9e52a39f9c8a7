/** The Unity editor postprocessor that installs the `pre-commit` git hook.

    On every asset import it looks for the hook file beside the `Assets`
    folder; if both it and the `.git` directory are there, it makes sure
    `.git/hooks` exists and copies the hook in, unless a copy at least as
    new as the source is already installed.

    `Sync` is the specification: which outcome the routine reports and
    which filesystem calls it makes, in order, as a function of the
    filesystem it starts from. `OnPostprocessAllAssets` is the routine
    itself, making those calls on a `FileSystem` object. */
module CopyGitHooksPostprocessor {
  import opened Paths
  import opened SystemIO

  /** Where the directory holding `.git` is, relative to the assets folder. */
  const DotGitRelativeDirectoryPath: Segment := ".."

  /** Where the directory holding the hook file is, relative to the assets folder. */
  const HookRelativeDirectoryPath: Segment := ".."

  /** The hook file's name, at the source and in `.git/hooks`. */
  const HookFilename: Segment := "pre-commit"

  /** `dataPath/../pre-commit`: the hook to install. */
  function HookPath(dataPath: Path): (r: Path)
    ensures r == dataPath + [HookRelativeDirectoryPath, HookFilename]
  {
    Combine(Combine(dataPath, HookRelativeDirectoryPath), HookFilename)
  }

  /** `dataPath/../.git`: the repository's git directory. */
  function GitPath(dataPath: Path): (r: Path)
    ensures r == dataPath + [DotGitRelativeDirectoryPath, ".git"]
  {
    Combine(Combine(dataPath, DotGitRelativeDirectoryPath), ".git")
  }

  /** `dataPath/../.git/hooks`. */
  function GitHooksPath(dataPath: Path): (r: Path)
    ensures r == dataPath + [DotGitRelativeDirectoryPath, ".git", "hooks"]
    ensures Parent(r) == GitPath(dataPath)
  {
    Combine(GitPath(dataPath), "hooks")
  }

  /** `dataPath/../.git/hooks/pre-commit`: where the hook is installed. */
  function DestinationPath(dataPath: Path): (r: Path)
    ensures r == dataPath + [DotGitRelativeDirectoryPath, ".git", "hooks", HookFilename]
    ensures Parent(r) == GitHooksPath(dataPath)
  {
    Combine(GitHooksPath(dataPath), HookFilename)
  }

  /** The hook file is none of the paths the routine creates or writes, and
      the hooks directory is not the destination file. */
  lemma {:induction false} PathsDistinct(dataPath: Path)
    ensures HookPath(dataPath) != DestinationPath(dataPath)
    ensures HookPath(dataPath) != GitHooksPath(dataPath)
    ensures GitHooksPath(dataPath) != DestinationPath(dataPath)
  {
    var n := |dataPath|;
    assert HookPath(dataPath)[n + 1] != DestinationPath(dataPath)[n + 1];
  }

  /** Which branch the routine took: the warning for a missing hook file, the
      warning for a missing `.git` directory, the "git hook copied" message,
      or none (an installed copy is up to date). */
  datatype Outcome = SourceMissing | GitMissing | Copied | SkippedUpToDate

  /** What the routine reports, the filesystem calls it makes (in order),
      and the filesystem it leaves behind. */
  datatype Plan = Plan(outcome: Outcome, ops: seq<Operation>, after: FsState)

  /** The freshness gate: the source was created strictly after the
      installed copy. */
  predicate SourceIsNewer(src: FileRecord, dst: FileRecord): (b: bool)
    ensures src.creationTime <= dst.creationTime ==> !b
  {
    src.creationTime > dst.creationTime
  }

  /** The calls the routine makes never throw: when the hook file and `.git`
      are both there, no file stands at `.git/hooks` (which
      `Directory.CreateDirectory` would refuse) and no directory stands at
      `.git/hooks/pre-commit` (which `File.Copy` would refuse). */
  predicate IoSucceeds(s: FsState, dataPath: Path): (b: bool)
    ensures !b ==> HookPath(dataPath) in s.files && GitPath(dataPath) in s.dirs
  {
    HookPath(dataPath) in s.files && GitPath(dataPath) in s.dirs ==>
      GitHooksPath(dataPath) !in s.files && DestinationPath(dataPath) !in s.dirs
  }

  /** The calls that make sure `.git/hooks` exists. */
  function EnsureHooksOps(s: FsState, dataPath: Path): (ops: seq<Operation>)
    ensures |ops| <= 1
    ensures ops == [] <==> GitHooksPath(dataPath) in s.dirs
    ensures forall op :: op in ops ==> op == MakeDirectory(GitHooksPath(dataPath))
  {
    if GitHooksPath(dataPath) in s.dirs then [] else [MakeDirectory(GitHooksPath(dataPath))]
  }

  /** The calls that install the hook: delete an installed copy, then copy. */
  function InstallOps(s: FsState, dataPath: Path, now: int): (ops: seq<Operation>)
    ensures 1 <= |ops| <= 2
    ensures ops[|ops| - 1] == CopyFile(HookPath(dataPath), DestinationPath(dataPath), now)
    ensures |ops| == 2 <==> DestinationPath(dataPath) in s.files
    ensures |ops| == 2 ==> ops[0] == DeleteFile(DestinationPath(dataPath))
  {
    var src, dst := HookPath(dataPath), DestinationPath(dataPath);
    (if dst in s.files then [DeleteFile(dst)] else []) + [CopyFile(src, dst, now)]
  }

  /** The routine's specification, from the filesystem it starts in. `now` is
      the creation time the filesystem gives a copied file. */
  function Sync(s: FsState, dataPath: Path, now: int): (p: Plan)
    ensures p.outcome == SourceMissing <==> HookPath(dataPath) !in s.files
    ensures p.outcome == GitMissing <==> HookPath(dataPath) in s.files && GitPath(dataPath) !in s.dirs
    ensures p.outcome == SourceMissing || p.outcome == GitMissing ==> p.ops == [] && p.after == s
    ensures p.outcome == SkippedUpToDate ==>
      p.ops == EnsureHooksOps(s, dataPath) &&
      p.after == FsState(s.dirs + {GitHooksPath(dataPath)}, s.files)
    ensures p.outcome == Copied ==>
      p.ops == EnsureHooksOps(s, dataPath) + InstallOps(s, dataPath, now) &&
      p.after == FsState(s.dirs + {GitHooksPath(dataPath)},
                         s.files[DestinationPath(dataPath) := FileRecord(s.files[HookPath(dataPath)].contents, now)])
  {
    var src, git := HookPath(dataPath), GitPath(dataPath);
    if src !in s.files then Plan(SourceMissing, [], s)
    else if git !in s.dirs then Plan(GitMissing, [], s)
    else
      var hooks, dst := GitHooksPath(dataPath), DestinationPath(dataPath);
      var dirs := s.dirs + {hooks};
      if dst in s.files && !SourceIsNewer(s.files[src], s.files[dst]) then
        Plan(SkippedUpToDate, EnsureHooksOps(s, dataPath), FsState(dirs, s.files))
      else
        Plan(Copied, EnsureHooksOps(s, dataPath) + InstallOps(s, dataPath, now),
             FsState(dirs, s.files[dst := FileRecord(s.files[src].contents, now)]))
  }

  /** Making sure `.git/hooks` exists adds that one directory and nothing else. */
  lemma {:induction false} EnsureHooksRuns(s: FsState, dataPath: Path)
    requires WellFormed(s) && GitPath(dataPath) in s.dirs && GitHooksPath(dataPath) !in s.files
    ensures Runnable(s, EnsureHooksOps(s, dataPath))
    ensures Run(s, EnsureHooksOps(s, dataPath)) == FsState(s.dirs + {GitHooksPath(dataPath)}, s.files)
  {
    var hooks := GitHooksPath(dataPath);
    if hooks !in s.dirs {
      PrefixesOfCombine(GitPath(dataPath), "hooks");
      DirectoriesPrefixClosed(s, GitPath(dataPath));
      assert Prefixes(hooks) == Prefixes(GitPath(dataPath)) + {hooks};
      RunSingle(s, MakeDirectory(hooks));
    }
  }

  /** Once `.git/hooks` exists, installing replaces whatever is at the
      destination by a file with the source's bytes. */
  lemma {:induction false} InstallRuns(s: FsState, dataPath: Path, now: int)
    requires WellFormed(s) && IoSucceeds(s, dataPath)
    requires HookPath(dataPath) in s.files && GitPath(dataPath) in s.dirs
    ensures var s1 := FsState(s.dirs + {GitHooksPath(dataPath)}, s.files);
      Runnable(s1, InstallOps(s, dataPath, now)) &&
      Run(s1, InstallOps(s, dataPath, now)) ==
        FsState(s1.dirs, s.files[DestinationPath(dataPath) := FileRecord(s.files[HookPath(dataPath)].contents, now)])
  {
    var src, dst := HookPath(dataPath), DestinationPath(dataPath);
    var s1 := FsState(s.dirs + {GitHooksPath(dataPath)}, s.files);
    var copy := CopyFile(src, dst, now);
    PathsDistinct(dataPath);
    var written := s.files[dst := FileRecord(s.files[src].contents, now)];
    if dst in s.files {
      var s2 := Apply(s1, DeleteFile(dst));
      assert s2 == FsState(s1.dirs, s.files - {dst});
      assert Enabled(s2, copy);
      assert s2.files[dst := FileRecord(s.files[src].contents, now)] == written;
      RunSingle(s2, copy);
      RunAppend(s1, [DeleteFile(dst)], [copy]);
      RunSingle(s1, DeleteFile(dst));
    } else {
      assert InstallOps(s, dataPath, now) == [copy];
      RunSingle(s1, copy);
    }
  }

  /** Making the planned calls, in order, leaves exactly the planned
      filesystem. */
  lemma {:induction false} SyncReplays(s: FsState, dataPath: Path, now: int)
    requires WellFormed(s) && IoSucceeds(s, dataPath)
    ensures Runnable(s, Sync(s, dataPath, now).ops)
    ensures Run(s, Sync(s, dataPath, now).ops) == Sync(s, dataPath, now).after
  {
    if HookPath(dataPath) in s.files && GitPath(dataPath) in s.dirs {
      EnsureHooksRuns(s, dataPath);
      if Sync(s, dataPath, now).outcome == Copied {
        InstallRuns(s, dataPath, now);
        RunAppend(s, EnsureHooksOps(s, dataPath), InstallOps(s, dataPath, now));
      }
    }
  }

  /** The routine runs to the end exactly when its calls cannot throw. */
  lemma {:induction false} SyncRunnable(s: FsState, dataPath: Path, now: int)
    requires WellFormed(s)
    ensures Runnable(s, Sync(s, dataPath, now).ops) <==> IoSucceeds(s, dataPath)
  {
    if IoSucceeds(s, dataPath) {
      SyncReplays(s, dataPath, now);
    } else {
      var hooks, dst := GitHooksPath(dataPath), DestinationPath(dataPath);
      var e := EnsureHooksOps(s, dataPath);
      var ops := Sync(s, dataPath, now).ops;
      if hooks in s.files {
        assert hooks in Prefixes(hooks);
        assert !Enabled(s, MakeDirectory(hooks));
        assert ops[0] == MakeDirectory(hooks);
      } else {
        PathsDistinct(dataPath);
        assert dst !in s.files;
        assert ops == e + [CopyFile(HookPath(dataPath), dst, now)];
        EnsureHooksRuns(s, dataPath);
        RunAppend(s, e, [CopyFile(HookPath(dataPath), dst, now)]);
        RunSingle(Run(s, e), CopyFile(HookPath(dataPath), dst, now));
      }
    }
  }

  /** The routine leaves a well-formed filesystem well formed. */
  lemma {:induction false} SyncPreservesWellFormed(s: FsState, dataPath: Path, now: int)
    requires WellFormed(s) && IoSucceeds(s, dataPath)
    ensures WellFormed(Sync(s, dataPath, now).after)
  {
    SyncReplays(s, dataPath, now);
  }

  /** A missing hook file: the "does not exist" warning and no change. */
  lemma {:induction false} SourceMissingLeavesFilesystem(s: FsState, dataPath: Path, now: int)
    requires HookPath(dataPath) !in s.files
    ensures Sync(s, dataPath, now) == Plan(SourceMissing, [], s)
  {
  }

  /** A hook file but no `.git` directory: the ".git directory does not
      exist" warning and no change. */
  lemma {:induction false} GitMissingLeavesFilesystem(s: FsState, dataPath: Path, now: int)
    requires HookPath(dataPath) in s.files && GitPath(dataPath) !in s.dirs
    ensures Sync(s, dataPath, now) == Plan(GitMissing, [], s)
  {
  }

  /** With the hook file and `.git` present, the routine ends with
      `.git/hooks` a directory; that directory is the only one it adds, and it
      creates it only when it was missing. */
  lemma {:induction false} HooksDirectoryEnsured(s: FsState, dataPath: Path, now: int)
    requires HookPath(dataPath) in s.files && GitPath(dataPath) in s.dirs
    ensures Sync(s, dataPath, now).after.dirs == s.dirs + {GitHooksPath(dataPath)}
    ensures MakeDirectory(GitHooksPath(dataPath)) in Sync(s, dataPath, now).ops
        <==> GitHooksPath(dataPath) !in s.dirs
  {
    var ops := Sync(s, dataPath, now).ops;
    if GitHooksPath(dataPath) !in s.dirs {
      assert ops[0] == MakeDirectory(GitHooksPath(dataPath));
    } else {
      assert forall i :: 0 <= i < |ops| ==> !ops[i].MakeDirectory?;
    }
  }

  /** The routine copies exactly when no copy is installed or the source is
      strictly newer than the installed copy; otherwise it reports that the
      copy is up to date. */
  lemma {:induction false} CopyExactlyWhenStale(s: FsState, dataPath: Path, now: int)
    requires HookPath(dataPath) in s.files && GitPath(dataPath) in s.dirs
    ensures var p := Sync(s, dataPath, now);
      (p.outcome == Copied || p.outcome == SkippedUpToDate) &&
      (p.outcome == Copied <==>
         DestinationPath(dataPath) !in s.files ||
         SourceIsNewer(s.files[HookPath(dataPath)], s.files[DestinationPath(dataPath)]))
    ensures var p, src, dst := Sync(s, dataPath, now), HookPath(dataPath), DestinationPath(dataPath);
      dst in s.files && s.files[dst].creationTime >= s.files[src].creationTime ==>
        p.outcome == SkippedUpToDate && p.after.files == s.files
  {
  }

  /** When the installed copy is as new as the source or newer (equal
      creation times included), no file is deleted or written. */
  lemma {:induction false} UpToDateCopyUntouched(s: FsState, dataPath: Path, now: int)
    requires Sync(s, dataPath, now).outcome == SkippedUpToDate
    ensures Sync(s, dataPath, now).after.files == s.files
    ensures forall op, p :: op in Sync(s, dataPath, now).ops ==> !Touches(op, p)
  {
  }

  /** On a copy, a stale installed copy is deleted first, immediately before
      the copy, and afterwards the installed file has the source's bytes. */
  lemma {:induction false} CopyInstallsSource(s: FsState, dataPath: Path, now: int)
    requires Sync(s, dataPath, now).outcome == Copied
    ensures var ops := Sync(s, dataPath, now).ops;
      var src, dst := HookPath(dataPath), DestinationPath(dataPath);
      ops[|ops| - 1] == CopyFile(src, dst, now) &&
      (DeleteFile(dst) in ops <==> dst in s.files) &&
      (dst in s.files ==> ops[|ops| - 2] == DeleteFile(dst))
    ensures var t := Sync(s, dataPath, now).after;
      DestinationPath(dataPath) in t.files &&
      t.files[DestinationPath(dataPath)] == FileRecord(s.files[HookPath(dataPath)].contents, now)
  {
    var ops := Sync(s, dataPath, now).ops;
    var e := EnsureHooksOps(s, dataPath);
    assert forall i :: 0 <= i < |e| ==> e[i].MakeDirectory?;
    assert ops == e + InstallOps(s, dataPath, now);
  }

  /** The only file the routine deletes or writes is the installed hook:
      every other file, the source included, keeps its record. */
  lemma {:induction false} OnlyDestinationTouched(s: FsState, dataPath: Path, now: int)
    ensures var ops := Sync(s, dataPath, now).ops;
      forall i, p :: 0 <= i < |ops| && Touches(ops[i], p) ==> p == DestinationPath(dataPath)
    ensures var t := Sync(s, dataPath, now).after;
      forall p :: p != DestinationPath(dataPath) ==>
        (p in t.files <==> p in s.files) && (p in s.files ==> t.files[p] == s.files[p])
    ensures HookPath(dataPath) in s.files ==>
      var t := Sync(s, dataPath, now).after;
      HookPath(dataPath) in t.files && t.files[HookPath(dataPath)] == s.files[HookPath(dataPath)]
  {
    PathsDistinct(dataPath);
  }

  /** A second run with nothing changed in between copies nothing and
      changes nothing, provided a copied file is not created before its
      source (`now` at least the source's creation time). */
  lemma {:induction false} SecondRunSkips(s: FsState, dataPath: Path, now: int, later: int)
    requires HookPath(dataPath) in s.files && GitPath(dataPath) in s.dirs
    requires now >= s.files[HookPath(dataPath)].creationTime
    ensures var t := Sync(s, dataPath, now).after;
      Sync(t, dataPath, later) == Plan(SkippedUpToDate, [], t)
  {
    PathsDistinct(dataPath);
  }

  /** `OnPostprocessAllAssets`, with the filesystem passed in and `now` the
      creation time the filesystem gives the copy. The four asset arrays the
      editor passes are unused by the routine and left out; `dataPath` is the
      editor's `Application.dataPath`. */
  method OnPostprocessAllAssets(fs: FileSystem, dataPath: Path, now: int) returns (outcome: Outcome)
    requires fs.Valid() && IoSucceeds(fs.State(), dataPath)
    modifies fs
    ensures fs.Valid()
    ensures outcome == Sync(old(fs.State()), dataPath, now).outcome
    ensures fs.log == old(fs.log) + Sync(old(fs.State()), dataPath, now).ops
    ensures fs.State() == Sync(old(fs.State()), dataPath, now).after
  {
    ghost var s := fs.State();
    var hookPath := HookPath(dataPath);
    var hookExists := fs.FileExists(hookPath);
    if hookExists {
      var gitPath := GitPath(dataPath);
      var gitExists := fs.DirectoryExists(gitPath);
      if gitExists {
        var gitHooksPath := Combine(gitPath, "hooks");
        var hooksExist := fs.DirectoryExists(gitHooksPath);
        if !hooksExist {
          EnsureHooksRuns(s, dataPath);
          RunSingle(s, MakeDirectory(gitHooksPath));
          fs.CreateDirectory(gitHooksPath);
        }
        assert fs.State() == FsState(s.dirs + {gitHooksPath}, s.files);
        ghost var logged := fs.log;
        var destinationFullPath := Combine(gitHooksPath, HookFilename);
        PathsDistinct(dataPath);
        var doCopy := true;
        var destExists := fs.FileExists(destinationFullPath);
        if destExists {
          var destTime := fs.CreationTimeUtc(destinationFullPath);
          var srcTime := fs.CreationTimeUtc(hookPath);
          if srcTime <= destTime {
            doCopy := false;
          } else {
            fs.Delete(destinationFullPath);
          }
        }
        if doCopy {
          fs.Copy(hookPath, destinationFullPath, now);
          assert fs.log == logged + InstallOps(s, dataPath, now);
          assert fs.files == s.files[destinationFullPath := FileRecord(s.files[hookPath].contents, now)];
          outcome := Copied;
        } else {
          outcome := SkippedUpToDate;
        }
      } else {
        outcome := GitMissing;
      }
    } else {
      outcome := SourceMissing;
    }
  }
}
