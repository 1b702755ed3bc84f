/** nautilus_bookmark_fix.py: optionally back up every listed file to a
    sibling `.backup` file, check that every listed file exists, comment out
    every line of every listed file in place, and optionally delete the
    backups again. */
module NautilusBookmarkFix {
  import opened Text
  import opened Fs
  import opened CommentTransform

  /** Where `backup_files` copies a file. */
  function BackupPath(p: Path): Path
  {
    p + ".backup"
  }

  lemma BackupPathInjective(p: Path, q: Path)
    requires BackupPath(p) == BackupPath(q)
    ensures p == q
  {
    assert p == BackupPath(p)[..|p|];
  }

  /** The list `backup_files` returns: one backup path per input, in order. */
  function BackupPaths(files: seq<Path>): (r: seq<Path>)
  {
    seq(|files|, i requires 0 <= i < |files| => BackupPath(files[i]))
  }

  /** No listed path is the backup path of a listed path, so copying never
      overwrites a file that is still to be read or rewritten. */
  predicate NoBackupListed(files: seq<Path>)
  {
    forall i, j :: 0 <= i < |files| && 0 <= j < |files| ==> files[i] != BackupPath(files[j])
  }

  /** No path is listed twice. */
  predicate Distinct(paths: seq<Path>)
  {
    forall i, j :: 0 <= i < j < |paths| ==> paths[i] != paths[j]
  }

  /** `shutil.copy(file, file + ".backup")` for each file in turn, stopping
      at the first source that does not exist. */
  function CopyEach(m: map<Path, string>, files: seq<Path>): Step
    decreases |files|
  {
    if files == [] then Step(Success, m)
    else if files[0] !in m then Step(Raised(FileNotFoundError(files[0])), m)
    else CopyEach(m[BackupPath(files[0]) := m[files[0]]], files[1..])
  }

  /** `os.remove` of each path in turn, stopping at the first that does not
      exist. */
  function RemoveEach(m: map<Path, string>, paths: seq<Path>): Step
    decreases |paths|
  {
    if paths == [] then Step(Success, m)
    else if paths[0] !in m then Step(Raised(FileNotFoundError(paths[0])), m)
    else RemoveEach(m - {paths[0]}, paths[1..])
  }

  /** Copying a file's backup does not change which listed paths exist. */
  lemma CopyStepKeepsListed(m: map<Path, string>, files: seq<Path>)
    requires NoBackupListed(files) && files != [] && files[0] in m
    ensures var m' := m[BackupPath(files[0]) := m[files[0]]];
      && NoBackupListed(files[1..])
      && (forall i :: 0 <= i < |files| ==> (files[i] in m' <==> files[i] in m))
      && (forall i :: 0 <= i < |files| && files[i] in m ==> m'[files[i]] == m[files[i]])
      && FirstMissing(m, files) == 1 + FirstMissing(m', files[1..])
  {
    var m' := m[BackupPath(files[0]) := m[files[0]]];
    assert forall i :: 0 <= i < |files| - 1 ==> files[1..][i] == files[i + 1];
    FirstMissingAgree(m, m', files[1..]);
  }

  /** The backups stop at the first missing file, which is reported. */
  lemma {:induction false} CopyEachStatus(m: map<Path, string>, files: seq<Path>)
    requires NoBackupListed(files)
    ensures CopyEach(m, files).status == ExistenceCheck(m, files)
    decreases |files|
  {
    if files != [] && files[0] in m {
      var m' := m[BackupPath(files[0]) := m[files[0]]];
      CopyStepKeepsListed(m, files);
      CopyEachStatus(m', files[1..]);
    }
  }

  /** Every file before the first missing one has a backup holding its
      content from before the copies. */
  lemma {:induction false} CopyEachBackups(m: map<Path, string>, files: seq<Path>)
    requires NoBackupListed(files)
    ensures var k, s := FirstMissing(m, files), CopyEach(m, files).files;
      forall i :: 0 <= i < k ==> BackupPath(files[i]) in s && s[BackupPath(files[i])] == m[files[i]]
    decreases |files|
  {
    if files != [] && files[0] in m {
      var m' := m[BackupPath(files[0]) := m[files[0]]];
      var k, s := FirstMissing(m, files), CopyEach(m, files).files;
      CopyStepKeepsListed(m, files);
      CopyEachBackups(m', files[1..]);
      CopyEachFrame(m', files[1..]);
      forall i | 0 <= i < k ensures BackupPath(files[i]) in s && s[BackupPath(files[i])] == m[files[i]] {
        if i > 0 {
          assert files[i] == files[1..][i - 1];
        } else if exists j :: 0 <= j < k - 1 && BackupPath(files[0]) == BackupPath(files[1..][j]) {
          var j :| 0 <= j < k - 1 && BackupPath(files[0]) == BackupPath(files[1..][j]);
          BackupPathInjective(files[0], files[1..][j]);
        }
      }
    }
  }

  /** A path that is not the backup of a file copied before the first
      missing one keeps its content; in particular no listed file changes. */
  lemma {:induction false} CopyEachFrame(m: map<Path, string>, files: seq<Path>)
    requires NoBackupListed(files)
    ensures var k, s := FirstMissing(m, files), CopyEach(m, files).files;
      && (forall p :: p in m && (forall i :: 0 <= i < k ==> p != BackupPath(files[i])) ==> p in s && s[p] == m[p])
      && (forall p :: p in s ==> p in m || exists i :: 0 <= i < k && p == BackupPath(files[i]))
    decreases |files|
  {
    if files != [] && files[0] in m {
      var m' := m[BackupPath(files[0]) := m[files[0]]];
      CopyStepKeepsListed(m, files);
      CopyEachFrame(m', files[1..]);
      var k, s := FirstMissing(m, files), CopyEach(m, files).files;
      assert forall i :: 0 <= i < k - 1 ==> files[1..][i] == files[i + 1];
      forall p | p in s ensures p in m || exists i :: 0 <= i < k && p == BackupPath(files[i]) {
        if p !in m' {
          var i :| 0 <= i < k - 1 && p == BackupPath(files[1..][i]);
          assert p == BackupPath(files[i + 1]);
        }
      }
    }
  }

  /** Removing never touches a path that is not listed, and never adds one. */
  lemma {:induction false} RemoveEachFrame(m: map<Path, string>, paths: seq<Path>)
    ensures var s := RemoveEach(m, paths).files;
      && (forall p :: p in s ==> p in m && s[p] == m[p])
      && (forall p :: p in m && p !in paths ==> p in s)
    decreases |paths|
  {
    if paths != [] && paths[0] in m {
      RemoveEachFrame(m - {paths[0]}, paths[1..]);
    }
  }

  /** Removing distinct existing paths succeeds and deletes exactly them. */
  lemma {:induction false} RemoveEachDistinct(m: map<Path, string>, paths: seq<Path>)
    requires Distinct(paths)
    requires forall i :: 0 <= i < |paths| ==> paths[i] in m
    ensures var s := RemoveEach(m, paths);
      && s.status == Success
      && forall p :: p in s.files <==> p in m && p !in paths
    decreases |paths|
  {
    if paths != [] {
      var rest := paths[1..];
      assert forall i :: 0 <= i < |rest| ==> rest[i] == paths[i + 1];
      RemoveEachDistinct(m - {paths[0]}, rest);
      assert forall p :: p in paths <==> p == paths[0] || p in rest;
    }
  }

  /** Removing a path that does not exist (any more) ends in
      `FileNotFoundError`. */
  lemma {:induction false} RemoveEachMissing(m: map<Path, string>, paths: seq<Path>, j: nat)
    requires j < |paths| && paths[j] !in m
    ensures RemoveEach(m, paths).status.Raised?
    decreases |paths|
  {
    if paths[0] in m {
      assert paths[1..][j - 1] == paths[j];
      RemoveEachMissing(m - {paths[0]}, paths[1..], j - 1);
    }
  }

  /** A path listed twice cannot be removed twice: `FileNotFoundError`. */
  lemma {:induction false} RemoveEachDuplicate(m: map<Path, string>, paths: seq<Path>, i: nat, j: nat)
    requires i < j < |paths| && paths[i] == paths[j]
    ensures RemoveEach(m, paths).status.Raised?
    decreases |paths|
  {
    if paths[0] in m {
      assert paths[1..][j - 1] == paths[j];
      if i == 0 {
        RemoveEachMissing(m - {paths[0]}, paths[1..], j - 1);
      } else {
        assert paths[1..][i - 1] == paths[i];
        RemoveEachDuplicate(m - {paths[0]}, paths[1..], i - 1, j - 1);
      }
    }
  }

  /** What `main` does to the filesystem: backups (when `backup` is set),
      then the transform, then removal of the backups (when `remove` and
      `backup` are both set). Any exception ends the run where it is raised. */
  function MainSpec(m: map<Path, string>, files: seq<Path>, backup: bool, remove: bool): Step
  {
    if !backup then ApplyFixSpec(m, files)
    else
      var copied := CopyEach(m, files);
      if copied.status.Raised? then copied
      else
        var fixed := ApplyFixSpec(copied.files, files);
        if fixed.status.Raised? || !remove then fixed
        else RemoveEach(fixed.files, BackupPaths(files))
  }

  /** After successful backups every listed file still exists and is
      unchanged, so the transform that follows succeeds. */
  lemma AfterBackups(m: map<Path, string>, files: seq<Path>)
    requires NoBackupListed(files)
    requires forall i :: 0 <= i < |files| ==> files[i] in m
    ensures var c := CopyEach(m, files);
      && c.status == Success
      && (forall i :: 0 <= i < |files| ==> files[i] in c.files && c.files[files[i]] == m[files[i]])
      && (forall i :: 0 <= i < |files| ==> BackupPath(files[i]) in c.files && c.files[BackupPath(files[i])] == m[files[i]])
      && ApplyFixSpec(c.files, files) == Step(Success, FixAll(c.files, files))
  {
    var c := CopyEach(m, files);
    CopyEachStatus(m, files);
    CopyEachBackups(m, files);
    CopyEachFrame(m, files);
    forall i | 0 <= i < |files| ensures files[i] in c.files && c.files[files[i]] == m[files[i]] {
      assert forall j :: 0 <= j < |files| ==> files[i] != BackupPath(files[j]);
    }
    FirstMissingAgree(m, c.files, files);
  }

  /** Without `backup`, `main` is the transform alone, whatever `remove` says. */
  lemma MainWithoutBackup(m: map<Path, string>, files: seq<Path>, remove: bool)
    ensures MainSpec(m, files, false, remove) == ApplyFixSpec(m, files)
  {
  }

  /** With `backup` and without `remove`, every listed file is commented and
      its `.backup` sibling keeps the content from before the run. */
  lemma MainKeepsBackups(m: map<Path, string>, files: seq<Path>)
    requires NoBackupListed(files)
    requires forall i :: 0 <= i < |files| ==> files[i] in m
    ensures var s := MainSpec(m, files, true, false);
      && s.status == Success
      && (forall i :: 0 <= i < |files| ==> files[i] in s.files && s.files[files[i]] == FixedContent(m[files[i]]))
      && (forall i :: 0 <= i < |files| ==> BackupPath(files[i]) in s.files && s.files[BackupPath(files[i])] == m[files[i]])
  {
    AfterBackups(m, files);
    var c := CopyEach(m, files);
    forall i | 0 <= i < |files| ensures BackupPath(files[i]) !in files {
      assert forall j :: 0 <= j < |files| ==> files[j] != BackupPath(files[i]);
    }
  }

  /** With `backup` and `remove` on distinct files, every listed file is
      commented, no `.backup` sibling of a listed file is left (even one that
      existed before the run), and every other path is as it was. */
  lemma MainRemovesBackups(m: map<Path, string>, files: seq<Path>)
    requires NoBackupListed(files) && Distinct(files)
    requires forall i :: 0 <= i < |files| ==> files[i] in m
    ensures var s := MainSpec(m, files, true, true);
      && s.status == Success
      && (forall p :: p in s.files <==> p in m && p !in BackupPaths(files))
      && (forall p :: p in s.files ==> s.files[p] == if p in files then FixedContent(m[p]) else m[p])
  {
    AfterBackups(m, files);
    BackupsFrame(m, files);
    BackupPathsDistinct(files);
    var c := CopyEach(m, files).files;
    var f := FixAll(c, files);
    var backups := BackupPaths(files);
    RemoveEachDistinct(f, backups);
    RemoveEachFrame(f, backups);
  }

  /** Once every listed file is backed up, the paths are the old ones plus
      the backups, and every path that is not a backup keeps its content. */
  lemma BackupsFrame(m: map<Path, string>, files: seq<Path>)
    requires NoBackupListed(files)
    requires forall i :: 0 <= i < |files| ==> files[i] in m
    ensures var c := CopyEach(m, files).files;
      && (forall p :: p in c <==> p in m || p in BackupPaths(files))
      && (forall p :: p in m && p !in BackupPaths(files) ==> c[p] == m[p])
  {
    AfterBackups(m, files);
    CopyEachFrame(m, files);
    var c := CopyEach(m, files).files;
    var backups := BackupPaths(files);
    assert forall i :: 0 <= i < |files| ==> backups[i] == BackupPath(files[i]);
    forall p | p in c ensures p in m || p in backups {
      if p !in m {
        var i :| 0 <= i < |files| && p == BackupPath(files[i]);
        assert p == backups[i];
      }
    }
  }

  lemma BackupPathsDistinct(files: seq<Path>)
    requires Distinct(files)
    ensures Distinct(BackupPaths(files))
  {
    var backups := BackupPaths(files);
    forall i, j | 0 <= i < j < |backups| ensures backups[i] != backups[j] {
      if backups[i] == backups[j] {
        BackupPathInjective(files[i], files[j]);
      }
    }
  }

  /** A missing file, with or without backups: the first missing path is
      reported and no file other than a `.backup` sibling of a listed file
      is changed. */
  lemma MainMissingFile(m: map<Path, string>, files: seq<Path>, backup: bool, remove: bool)
    requires backup ==> NoBackupListed(files)
    requires FirstMissing(m, files) < |files|
    ensures var s, k := MainSpec(m, files, backup, remove), FirstMissing(m, files);
      && s.status == Raised(FileNotFoundError(files[k]))
      && (forall p :: p in m && p !in BackupPaths(files) ==> p in s.files && s.files[p] == m[p])
      && (forall p :: p in s.files ==> p in m || p in BackupPaths(files))
  {
    if backup {
      CopyEachStatus(m, files);
      CopyEachFrame(m, files);
      var k := FirstMissing(m, files);
      var s := CopyEach(m, files).files;
      forall p | p in m && p !in BackupPaths(files)
        ensures forall i :: 0 <= i < k ==> p != BackupPath(files[i])
      {
        forall i | 0 <= i < k ensures p != BackupPath(files[i]) {
          assert BackupPaths(files)[i] == BackupPath(files[i]);
        }
      }
      forall p | p in s && p !in m ensures p in BackupPaths(files) {
        var i :| 0 <= i < k && p == BackupPath(files[i]);
        assert BackupPaths(files)[i] == p;
      }
    }
  }

  /** A file listed twice with `backup` and `remove`: its backup is removed
      once and the second removal raises `FileNotFoundError`, after every
      listed file was commented. */
  lemma MainDuplicateFile(m: map<Path, string>, files: seq<Path>, i: nat, j: nat)
    requires NoBackupListed(files)
    requires forall l :: 0 <= l < |files| ==> files[l] in m
    requires i < j < |files| && files[i] == files[j]
    ensures var s := MainSpec(m, files, true, true);
      && s.status.Raised?
      && forall l :: 0 <= l < |files| ==> files[l] in s.files && s.files[files[l]] == FixedContent(m[files[l]])
  {
    AfterBackups(m, files);
    var c := CopyEach(m, files);
    var f := FixAll(c.files, files);
    var backups := BackupPaths(files);
    assert backups[i] == backups[j];
    RemoveEachDuplicate(f, backups, i, j);
    RemoveEachFrame(f, backups);
    forall l | 0 <= l < |files| ensures files[l] !in backups {
      assert forall q :: 0 <= q < |backups| ==> backups[q] == BackupPath(files[q]) != files[l];
    }
  }

  /** `backup_files`: copy each file to its `.backup` sibling and return the
      list of backup paths. */
  method BackupFiles(fs: FileSystem, files: seq<Path>) returns (r: Result<seq<Path>>)
    modifies fs
    ensures Step(r.ToStatus(), fs.files) == CopyEach(old(fs.files), files)
    ensures r.Ok? ==> r.value == BackupPaths(files)
  {
    var backedUp: seq<Path> := [];
    for i := 0 to |files|
      invariant CopyEach(fs.files, files[i..]) == CopyEach(old(fs.files), files)
      invariant backedUp == BackupPaths(files[..i])
    {
      var file := files[i];
      assert files[i..][0] == file && files[i..][1..] == files[i + 1..];
      backedUp := backedUp + [BackupPath(file)];
      var copied := fs.Copy(file, BackupPath(file));
      if copied.Raised? {
        return Failed(copied.error);
      }
    }
    assert files[..|files|] == files;
    return Ok(backedUp);
  }

  /** `remove_backup`: delete each listed path in turn. */
  method RemoveBackup(fs: FileSystem, files: seq<Path>) returns (r: Status)
    modifies fs
    ensures Step(r, fs.files) == RemoveEach(old(fs.files), files)
  {
    for i := 0 to |files|
      invariant RemoveEach(fs.files, files[i..]) == RemoveEach(old(fs.files), files)
    {
      assert files[i..][0] == files[i] && files[i..][1..] == files[i + 1..];
      r := fs.Remove(files[i]);
      if r.Raised? {
        return;
      }
    }
    return Success;
  }

  /** `apply_fix`: check every path first, then for each file read its lines,
      blank it out and write each line back, commented unless it already is
      a comment. A file listed twice is rewritten twice, which changes
      nothing the second time. */
  method ApplyFix(fs: FileSystem, files: seq<Path>) returns (r: Status)
    modifies fs
    ensures Step(r, fs.files) == ApplyFixSpec(old(fs.files), files)
  {
    r := CheckFilesExist(fs, files);
    if r.Raised? {
      return;
    }
    RewriteAll(fs, files);
  }

  /** `main`: back up or (outside this model) ask the user to, apply the fix,
      and remove the backups when both `remove` and `backup` are set. */
  method Entrypoint(fs: FileSystem, files: seq<Path>, backup: bool, remove: bool) returns (r: Status)
    modifies fs
    ensures Step(r, fs.files) == MainSpec(old(fs.files), files, backup, remove)
  {
    var backedUp: seq<Path> := [];
    if backup {
      var b := BackupFiles(fs, files);
      if b.Failed? {
        return Raised(b.error);
      }
      backedUp := b.value;
    }
    r := ApplyFix(fs, files);
    if r.Raised? {
      return;
    }
    if remove && backup {
      r := RemoveBackup(fs, backedUp);
    }
  }
}
