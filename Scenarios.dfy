/** Scenarios on concrete projects, which the verifier checks against the
    contracts alone: a fresh checkout without `.git/hooks`, an installed copy
    older than the hook, and an installed copy newer than the hook. */
module Scenarios {
  import opened Paths
  import opened SystemIO
  import opened CopyGitHooksPostprocessor

  method InstallIntoFreshCheckout(hook: seq<byte>, now: int)
  {
    var assets: Path := ["proj", "Assets"];
    var root := Combine(assets, "..");
    var s := FsState({["proj"], assets, root, GitPath(assets)},
                     map[HookPath(assets) := FileRecord(hook, 5)]);
    assert Parent(assets) == ["proj"];
    assert Anchored(["proj"], s.dirs) && Anchored(assets, s.dirs);
    assert Anchored(root, s.dirs) && Anchored(GitPath(assets), s.dirs);
    var fs := new FileSystem(s);
    var outcome := OnPostprocessAllAssets(fs, assets, now);
    assert outcome == Copied;
    assert GitHooksPath(assets) in fs.dirs;
    assert fs.files[DestinationPath(assets)].contents == hook;
  }

  method ReplaceStaleCopy(hook: seq<byte>, stale: seq<byte>, now: int)
  {
    var assets: Path := ["proj", "Assets"];
    var root := Combine(assets, "..");
    var s := FsState({["proj"], assets, root, GitPath(assets), GitHooksPath(assets)},
                     map[HookPath(assets) := FileRecord(hook, 5),
                         DestinationPath(assets) := FileRecord(stale, 3)]);
    assert Parent(assets) == ["proj"];
    assert Anchored(["proj"], s.dirs) && Anchored(assets, s.dirs) && Anchored(root, s.dirs);
    assert Anchored(GitPath(assets), s.dirs) && Anchored(GitHooksPath(assets), s.dirs);
    var fs := new FileSystem(s);
    var outcome := OnPostprocessAllAssets(fs, assets, now);
    assert outcome == Copied;
    assert fs.log == [DeleteFile(DestinationPath(assets)), CopyFile(HookPath(assets), DestinationPath(assets), now)];
    assert fs.files[DestinationPath(assets)].contents == hook;
  }

  method KeepNewerCopy(hook: seq<byte>, newer: seq<byte>, now: int)
  {
    var assets: Path := ["proj", "Assets"];
    var root := Combine(assets, "..");
    var s := FsState({["proj"], assets, root, GitPath(assets), GitHooksPath(assets)},
                     map[HookPath(assets) := FileRecord(hook, 5),
                         DestinationPath(assets) := FileRecord(newer, 7)]);
    assert Parent(assets) == ["proj"];
    assert Anchored(["proj"], s.dirs) && Anchored(assets, s.dirs) && Anchored(root, s.dirs);
    assert Anchored(GitPath(assets), s.dirs) && Anchored(GitHooksPath(assets), s.dirs);
    var fs := new FileSystem(s);
    var outcome := OnPostprocessAllAssets(fs, assets, now);
    assert outcome == SkippedUpToDate;
    assert fs.log == [] && fs.State() == s;
  }
}
