/** The part of .NET's System.IO that the hook postprocessor uses, over an
    abstract filesystem: a set of directories and a map from file paths to
    file records. `File.Exists`, `Directory.Exists`, `FileInfo.CreationTimeUtc`,
    `Directory.CreateDirectory`, `File.Delete` and `File.Copy` (the
    non-overwriting two-argument form) are the operations. */
module SystemIO {
  import opened Paths

  newtype byte = x: int | 0 <= x < 256

  /** A regular file: its bytes and its creation time (abstract ticks, UTC). */
  datatype FileRecord = FileRecord(contents: seq<byte>, creationTime: int)

  /** A snapshot of the filesystem. */
  datatype FsState = FsState(dirs: set<Path>, files: map<Path, FileRecord>)

  /** `p` has a non-empty name and, unless it sits at the root, its parent is
      a directory. */
  predicate Anchored(p: Path, dirs: set<Path>)
  {
    |p| > 0 && (|p| > 1 ==> Parent(p) in dirs)
  }

  /** A filesystem as it can be on disk: every directory and every file lives
      in an existing directory, and no path is both a file and a directory. */
  predicate WellFormed(s: FsState)
  {
    (forall d {:trigger Anchored(d, s.dirs)} :: d in s.dirs ==> Anchored(d, s.dirs)) &&
    (forall f :: f in s.files ==> Anchored(f, s.dirs) && f !in s.dirs)
  }

  /** In a well-formed filesystem every leading part of a directory is a
      directory too. */
  lemma {:induction false} DirectoriesPrefixClosed(s: FsState, d: Path)
    requires WellFormed(s) && d in s.dirs
    ensures Prefixes(d) <= s.dirs
    decreases |d|
  {
    assert Anchored(d, s.dirs);
    if |d| > 1 {
      DirectoriesPrefixClosed(s, Parent(d));
      PrefixesOfCombine(Parent(d), d[|d| - 1]);
    } else {
      PrefixesOfCombine([], d[0]);
      assert d == Combine([], d[0]);
    }
  }

  /** The filesystem calls that change state. */
  datatype Operation =
    | MakeDirectory(path: Path)
    | DeleteFile(path: Path)
    | CopyFile(source: Path, destination: Path, creationTime: int)

  /** `op` deletes or writes the file at `p`. */
  predicate Touches(op: Operation, p: Path)
  {
    (op.DeleteFile? && op.path == p) || (op.CopyFile? && op.destination == p)
  }

  /** The call completes rather than throwing an `IOException`:
      `Directory.CreateDirectory` fails when a file stands where one of the
      directories should be; `File.Delete` fails on a directory; `File.Copy`
      without overwrite fails unless the source is a file, the destination is
      neither a file nor a directory, and the destination's directory exists. */
  predicate Enabled(s: FsState, op: Operation): (b: bool)
    ensures b && op.MakeDirectory? ==> op.path !in s.files
    ensures b && op.CopyFile? ==> op.source != op.destination && op.destination !in s.files
  {
    match op
    case MakeDirectory(p) =>
      |p| > 0 && forall q :: q in Prefixes(p) ==> q !in s.files
    case DeleteFile(p) =>
      p !in s.dirs
    case CopyFile(src, dst, _) =>
      src in s.files && dst !in s.files && dst !in s.dirs && Anchored(dst, s.dirs)
  }

  /** Creating a directory and every missing directory on the way keeps the
      filesystem well formed. */
  lemma MakeDirectoryPreservesWellFormed(s: FsState, p: Path)
    requires Enabled(s, MakeDirectory(p))
    ensures WellFormed(s) ==> WellFormed(FsState(s.dirs + Prefixes(p), s.files))
  {
    if WellFormed(s) {
      var dirs := s.dirs + Prefixes(p);
      PrefixesParentClosed(p);
      forall d | d in dirs
        ensures Anchored(d, dirs)
      {
        if d in s.dirs {
          assert Anchored(d, s.dirs);
        }
      }
    }
  }

  /** The effect of one call. `Directory.CreateDirectory` creates every
      missing directory on the way; `File.Delete` of a missing file does
      nothing; `File.Copy` gives the new file the source's bytes and the
      creation time passed in (the clock reading of the copy). */
  function Apply(s: FsState, op: Operation): (t: FsState)
    requires Enabled(s, op)
    ensures WellFormed(s) ==> WellFormed(t)
  {
    match op
    case MakeDirectory(p) =>
      MakeDirectoryPreservesWellFormed(s, p);
      FsState(s.dirs + Prefixes(p), s.files)
    case DeleteFile(p) =>
      FsState(s.dirs, s.files - {p})
    case CopyFile(src, dst, time) =>
      FsState(s.dirs, s.files[dst := FileRecord(s.files[src].contents, time)])
  }

  /** What each call does to the filesystem: the directory it makes exists
      afterwards, the file it deletes is gone, the file it copies to holds the
      source's bytes with the given creation time; no other file is touched. */
  lemma ApplyEffect(s: FsState, op: Operation)
    requires Enabled(s, op)
    ensures var t := Apply(s, op);
      (op.MakeDirectory? ==> op.path in t.dirs && t.files == s.files) &&
      (op.DeleteFile? ==> op.path !in t.files && t.dirs == s.dirs) &&
      (op.CopyFile? ==>
         t.dirs == s.dirs && op.destination in t.files &&
         t.files[op.destination] == FileRecord(s.files[op.source].contents, op.creationTime))
    ensures var t := Apply(s, op);
      forall p :: !Touches(op, p) ==> (p in t.files <==> p in s.files)
    ensures var t := Apply(s, op);
      forall p :: p in s.files && !Touches(op, p) ==> t.files[p] == s.files[p]
  {
  }

  /** Every call of `ops`, in order, completes. */
  predicate Runnable(s: FsState, ops: seq<Operation>)
    decreases |ops|
  {
    |ops| == 0 || (Enabled(s, ops[0]) && Runnable(Apply(s, ops[0]), ops[1..]))
  }

  /** The filesystem after the calls `ops`, in order. */
  function Run(s: FsState, ops: seq<Operation>): (t: FsState)
    requires Runnable(s, ops)
    ensures WellFormed(s) ==> WellFormed(t)
    ensures s.dirs <= t.dirs
    decreases |ops|
  {
    if |ops| == 0 then s else Run(Apply(s, ops[0]), ops[1..])
  }

  /** Running `a` and then `b` is running `a + b`. */
  lemma {:induction false} RunAppend(s: FsState, a: seq<Operation>, b: seq<Operation>)
    requires Runnable(s, a)
    ensures Runnable(s, a + b) <==> Runnable(Run(s, a), b)
    ensures Runnable(s, a + b) ==> Run(s, a + b) == Run(Run(s, a), b)
    decreases |a|
  {
    if |a| > 0 {
      assert (a + b)[0] == a[0] && (a + b)[1..] == a[1..] + b;
      RunAppend(Apply(s, a[0]), a[1..], b);
    } else {
      assert a + b == b;
    }
  }

  /** One call on its own. */
  lemma RunSingle(s: FsState, op: Operation)
    ensures Runnable(s, [op]) <==> Enabled(s, op)
    ensures Enabled(s, op) ==> Run(s, [op]) == Apply(s, op)
  {
    assert [op][1..] == [];
  }

  /** The filesystem the postprocessor sees. The state is public: `dirs` and
      `files` are the directories and files on disk, and `log` records, in
      order, every state-changing call made through this object. */
  class FileSystem {
    var dirs: set<Path>
    var files: map<Path, FileRecord>
    ghost var log: seq<Operation>

    function State(): FsState
      reads this
    {
      FsState(dirs, files)
    }

    ghost predicate Valid()
      reads this
    {
      WellFormed(State())
    }

    constructor (s: FsState)
      requires WellFormed(s)
      ensures Valid() && State() == s && log == []
    {
      dirs := s.dirs;
      files := s.files;
      log := [];
    }

    /** `File.Exists`: true exactly for regular files. */
    method FileExists(p: Path) returns (b: bool)
      ensures b <==> p in files
    {
      b := p in files;
    }

    /** `Directory.Exists`: true exactly for directories. */
    method DirectoryExists(p: Path) returns (b: bool)
      ensures b <==> p in dirs
    {
      b := p in dirs;
    }

    /** `new FileInfo(p).CreationTimeUtc` of an existing file. */
    method CreationTimeUtc(p: Path) returns (t: int)
      requires p in files
      ensures t == files[p].creationTime
    {
      t := files[p].creationTime;
    }

    /** `Directory.CreateDirectory`. */
    method CreateDirectory(p: Path)
      requires Enabled(State(), MakeDirectory(p))
      modifies this
      ensures State() == Apply(old(State()), MakeDirectory(p))
      ensures log == old(log) + [MakeDirectory(p)]
    {
      dirs := dirs + Prefixes(p);
      log := log + [MakeDirectory(p)];
    }

    /** `File.Delete`. */
    method Delete(p: Path)
      requires Enabled(State(), DeleteFile(p))
      modifies this
      ensures State() == Apply(old(State()), DeleteFile(p))
      ensures log == old(log) + [DeleteFile(p)]
    {
      files := files - {p};
      log := log + [DeleteFile(p)];
    }

    /** `File.Copy(src, dst)`; `now` is the creation time the new file gets. */
    method Copy(src: Path, dst: Path, now: int)
      requires Enabled(State(), CopyFile(src, dst, now))
      modifies this
      ensures State() == Apply(old(State()), CopyFile(src, dst, now))
      ensures log == old(log) + [CopyFile(src, dst, now)]
    {
      files := files[dst := FileRecord(files[src].contents, now)];
      log := log + [CopyFile(src, dst, now)];
    }
  }
}
