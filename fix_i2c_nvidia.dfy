/** fix_i2c_nvidia.py: blacklists the `i2c_nvidia_gpu` kernel module by
    writing a modprobe configuration file, unless that file already holds
    exactly the wanted text. The effective user id and whether
    `update-initramfs` can be started are outside the filesystem: both are
    parameters, and the command's own effect is recorded only as whether it
    was started. */
module FixI2cNvidia {
  import opened Fs
  import opened Text

  /** The default of `--file`. */
  const DefaultFile: Path := "/etc/modprobe.d/blacklist_i2c-nvidia-gpu.conf"

  /** The default of `--contents`: no trailing line feed. */
  const DefaultContents: string := "blacklist i2c_nvidia_gpu"

  /** The fix is in place: the file exists and, read back in text mode,
      holds exactly `contents`. */
  predicate AlreadyApplied(m: map<Path, string>, file: Path, contents: string)
  {
    file in m && UniversalNewlines(m[file]) == contents
  }

  /** `is_already_applied`: opening a missing file raises
      `FileNotFoundError`, which is turned into `False`; otherwise the whole
      content, with its line endings translated by the text-mode read, is
      compared with `contents`. */
  method IsAlreadyApplied(fs: FileSystem, file: Path, contents: string) returns (b: bool)
    ensures b == AlreadyApplied(fs.files, file, contents)
    ensures file !in fs.files ==> !b
  {
    var present := fs.Exists(file);
    if !present {
      return false;
    }
    var text := fs.Read(file);
    b := UniversalNewlines(text) == contents;
  }

  /** The check is exact: a file holding a proper prefix of `contents`, or
      `contents` followed by anything more, does not count as fixed. */
  lemma PrefixNotApplied(m: map<Path, string>, file: Path, contents: string)
    requires file in m
    requires m[file] < contents || contents < m[file]
    ensures !AlreadyApplied(m, file, contents)
  {
    var text := m[file];
    UniversalNewlinesShape(text);
    if '\r' in contents {
      assert UniversalNewlines(text) != contents;
    } else if contents < text {
      var rest := text[|contents|..];
      assert text == contents + rest;
      UniversalNewlinesPlainPrefix(contents, rest);
      UniversalNewlinesShape(rest);
    }
  }

  /** `apply_fix`: `open(file, "w")` creates or empties the file, then
      `contents` is written to it. */
  method ApplyFix(fs: FileSystem, file: Path, contents: string)
    modifies fs
    ensures fs.files == old(fs.files)[file := contents]
  {
    fs.Truncate(file);
    fs.Write(file, contents);
    assert "" + contents == contents;
  }

  /** After the fix, the check finds it in place exactly when `contents`
      holds no carriage return, which the text-mode read would turn into a
      line feed; no other path has changed, whatever the file held and
      whether it existed. */
  lemma FixIsApplied(m: map<Path, string>, file: Path, contents: string)
    ensures AlreadyApplied(m[file := contents], file, contents) <==> '\r' !in contents
    ensures forall p :: p != file ==> (p in m[file := contents] <==> p in m)
    ensures forall p :: p != file && p in m ==> m[file := contents][p] == m[p]
  {
    UniversalNewlinesIdentity(contents);
  }

  /** How `main` ends: by raising, by `exit()` once the fix is found in
      place, or by returning, having started `update-initramfs` or not. */
  datatype Exit = Raise(error: Error) | SystemExit | Returned(initramfsUpdated: bool)

  /** How `main` ended and the files it left. */
  datatype Run = Run(exit: Exit, files: map<Path, string>)

  /** `main`: refuse before touching anything when an update is asked for
      without root; stop when the fix is in place and not forced; otherwise
      write the file and, when asked, start `update-initramfs`. `launch` is
      how starting that command ends: `subprocess.check_call` raises when the
      command cannot be started, and only its non-zero exit status is caught,
      so a failure to start it ends `main` after the file was written. */
  function MainSpec(m: map<Path, string>, file: Path, contents: string,
                    update: bool, force: bool, isRoot: bool, launch: Status): Run
  {
    if update && !isRoot then Run(Raise(PermissionError), m)
    else if AlreadyApplied(m, file, contents) && !force then Run(SystemExit, m)
    else if update && launch.Raised? then Run(Raise(launch.error), m[file := contents])
    else Run(Returned(update), m[file := contents])
  }

  /** `main`, with `is_root()` passed in as `isRoot` and the outcome of
      starting `update-initramfs` as `launch`: the outcome and the files it
      leaves are those of `MainSpec`. */
  method Entrypoint(fs: FileSystem, file: Path, contents: string,
                  update: bool, force: bool, isRoot: bool, launch: Status) returns (r: Exit)
    modifies fs
    ensures Run(r, fs.files) == MainSpec(old(fs.files), file, contents, update, force, isRoot, launch)
  {
    if update && !isRoot {
      return Raise(PermissionError);
    }
    var applied := IsAlreadyApplied(fs, file, contents);
    if applied && !force {
      return SystemExit;
    }
    ApplyFix(fs, file, contents);
    if update && launch.Raised? {
      return Raise(launch.error);
    }
    return Returned(update);
  }

  /** Without root an update request raises `PermissionError`, and no file
      was edited. */
  lemma MainDenied(m: map<Path, string>, file: Path, contents: string, force: bool, launch: Status)
    ensures MainSpec(m, file, contents, true, force, false, launch) == Run(Raise(PermissionError), m)
  {
  }

  /** `main` leaves every file alone when it is refused or stops at the check.
      Otherwise it edits only `file`, which then holds exactly `contents`: on
      a normal return, and also when `update-initramfs` cannot be started. */
  lemma MainEffect(m: map<Path, string>, file: Path, contents: string,
                   update: bool, force: bool, isRoot: bool, launch: Status)
    ensures var s := MainSpec(m, file, contents, update, force, isRoot, launch);
      && (s.exit == SystemExit || (update && !isRoot) ==> s.files == m)
      && (s.exit.Returned? || (update && isRoot && s.exit.Raise?) ==>
            file in s.files && s.files[file] == contents)
      && (forall p :: p != file ==> (p in s.files <==> p in m))
      && (forall p :: p != file && p in m ==> s.files[p] == m[p])
  {
    FixIsApplied(m, file, contents);
  }

  /** `main` writes the file exactly when it is permitted to and the fix is
      missing or forced. It stops with `exit()` exactly when it is permitted,
      not forced and the fix is in place. It starts `update-initramfs` exactly
      when it writes the file, `--update` was given and the command can be
      started; when the command cannot be started, the error propagates. */
  lemma MainWritesIff(m: map<Path, string>, file: Path, contents: string,
                      update: bool, force: bool, isRoot: bool, launch: Status)
    ensures var s := MainSpec(m, file, contents, update, force, isRoot, launch);
      var permitted := !update || isRoot;
      var writes := permitted && (force || !AlreadyApplied(m, file, contents));
      && (s.exit == SystemExit <==> permitted && !force && AlreadyApplied(m, file, contents))
      && (s.exit.Returned? <==> writes && !(update && launch.Raised?))
      && (s.exit == Returned(true) <==> writes && update && launch.Success?)
      && (writes && update && launch.Raised? ==> s.exit == Raise(launch.error))
      && (s.files == if writes then m[file := contents] else m)
  {
  }

  /** Running `main` again without `--force` after a run that wrote the file
      (one that returned, or one as root whose `update-initramfs` could not
      be started) changes nothing. It stops at the check when `contents`
      holds no carriage return; otherwise the check fails, the same text is
      written again, and the run ends as the first one did. */
  lemma MainRerun(m: map<Path, string>, file: Path, contents: string,
                  update: bool, force: bool, isRoot: bool, launch: Status)
    requires var s := MainSpec(m, file, contents, update, force, isRoot, launch);
      s.exit.Returned? || (update && isRoot && s.exit.Raise?)
    ensures var s := MainSpec(m, file, contents, update, force, isRoot, launch);
      MainSpec(s.files, file, contents, update, false, isRoot, launch)
        == if '\r' !in contents then Run(SystemExit, s.files) else Run(s.exit, s.files)
  {
    FixIsApplied(m, file, contents);
  }

  /** After a run with `--update` whose `update-initramfs` could not be
      started, a second run with `--update`, now able to start it, still
      stops at the check without `--force`: the file was written, so the
      update is never started. */
  lemma MainRerunAfterFailedStart(m: map<Path, string>, file: Path, contents: string,
                                  force: bool, e: Error)
    requires '\r' !in contents
    requires MainSpec(m, file, contents, true, force, true, Raised(e)).exit.Raise?
    ensures var s := MainSpec(m, file, contents, true, force, true, Raised(e));
      && s.files == m[file := contents]
      && MainSpec(s.files, file, contents, true, false, true, Success) == Run(SystemExit, s.files)
  {
    FixIsApplied(m, file, contents);
  }

  /** Run as root with the defaults and no flags, a system without the
      configuration file ends up with it holding the blacklist line, and a
      second run stops at the check. (Without root, opening a file under
      `/etc` for writing would fail, which the model does not capture.) */
  lemma MainDefaults(m: map<Path, string>, isRoot: bool, launch: Status)
    requires isRoot
    requires DefaultFile !in m
    ensures var s := MainSpec(m, DefaultFile, DefaultContents, false, false, isRoot, launch);
      && s.exit == Returned(false) && s.files == m[DefaultFile := DefaultContents]
      && MainSpec(s.files, DefaultFile, DefaultContents, false, false, isRoot, launch).exit == SystemExit
  {
    assert forall i :: 0 <= i < |DefaultContents| ==> DefaultContents[i] != '\r';
    MainRerun(m, DefaultFile, DefaultContents, false, false, isRoot, launch);
  }
}
