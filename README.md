# Desktop configuration fixes, modelled in Dafny

This project models three small Python utilities that patch configuration files on a desktop
Linux system, and proves properties of the model:

- `nautilus_bookmark_fix.py` comments out every line of the user-directory configuration files,
  so the file manager stops showing default bookmarks. A line that is already a comment is left
  alone. The script can first copy each file to a sibling `.backup` file and delete those copies
  once the fix has been applied.
- `nautilusbookmarkfix.py` is a variant of the same fix with no backups. It runs the same
  existence check and a rewrite loop that leaves the same files. Its confirmation prompt
  (nautilusbookmarkfix.py:47) is an f-string that reuses `"` and holds a backslash inside
  `{…}`, which Python accepts only from version 3.12; on earlier versions the script does not
  parse at all. The model describes it as run on 3.12 or later.
- `fix_i2c_nvidia.py` writes a modprobe configuration file that blacklists the `i2c_nvidia_gpu`
  module, unless the file already holds exactly that text. It refuses before touching anything
  when asked to update the initramfs without root, and it can start `update-initramfs`.
  Only a non-zero exit status of that command is caught (fix_i2c_nvidia.py:51-55). A failure to
  start it, such as `FileNotFoundError` when the command is not installed, propagates out of
  `main` after the file was written. The model takes how that start ends as the parameter
  `launch`.

The filesystem is a class `Fs.FileSystem` whose field `files` maps each path to its text. Its
methods are the operating-system calls the scripts make:

- `os.path.exists`;
- reading, truncating and writing an open file;
- `shutil.copy` and `os.remove`, which raise `FileNotFoundError` for a missing path.

Each script's operation is an imperative method over that class. Each method is proved equal to a
specification function over the map. The properties the scripts promise are then proved about
those functions:

- what the rewrite does to each line;
- line count and order are kept;
- idempotence;
- the error paths;
- what the backups hold;
- which paths are left untouched.

Python's text primitives are modelled in module `Text`:

- `str.isspace` on ASCII;
- `str.strip` and `str.startswith`;
- `readlines` (the text cut after every line feed);
- the line-ending translation of `read` in text mode;
- the concatenation left by successive `write` calls.

Two round-trip lemmas connect `readlines` and `write`. The existence check, the loop over the
files and the rewrite of one file leave the same files in both bookmark scripts, so they are
modelled once, in module `CommentTransform`. The scripts differ only in how they open a file: one
uses a single `"r+"` open with `seek(0)` and `truncate(0)` (nautilus_bookmark_fix.py:67-70); the
other uses an `"r"` open and then a separate `"w"` open (nautilusbookmarkfix.py:13-16). Both
leave the file empty before the write loop. The per-file `print` (nautilus_bookmark_fix.py:66)
changes no file.

Three behaviours of the code are worth stating on their own:

- **Order of checks.** `main` in `nautilus_bookmark_fix.py` makes the backups before any
  existence check. The check runs only inside `apply_fix` (nautilus_bookmark_fix.py:14-23, 64).
- **A missing file with backups on.** When no listed file is the `.backup` of a listed file, the
  missing file is reported by `shutil.copy`, after the backups of the files listed before it have
  already been created. `NautilusBookmarkFix.CopyEach` and `NautilusBookmarkFix.MainMissingFile`
  state this; only `.backup` siblings can have changed. Without that condition a backup can create
  a listed file: for the list `a`, `a.backup` with only `a` present, the first copy creates
  `a.backup` (nautilus_bookmark_fix.py:43), the existence check then passes, and `main` succeeds.
  The lemmas about the backups therefore all assume the condition (`NoBackupListed`).
- **A file listed twice with backup and removal on.** That file has one backup path, so the
  second `os.remove` of it raises `FileNotFoundError`. This happens after every file has already
  been rewritten (`NautilusBookmarkFix.MainDuplicateFile`).

## Model

| member | source | states |
|---|---|---|
| Text.IsSpace | nautilus_bookmark_fix.py:74 | the whitespace set `strip` removes: the ASCII characters Python's `str.isspace` accepts (tab, line feed, vertical tab, form feed, carriage return, U+001C to U+001F, and space) |
| Text.TrimLeft | nautilus_bookmark_fix.py:74 | the left half of `str.strip()`: the text with its leading whitespace removed |
| Text.TrimRight | nautilus_bookmark_fix.py:74 | the right half of `str.strip()`: the text with its trailing whitespace removed |
| Text.Strip | nautilus_bookmark_fix.py:74 | `str.strip()`: the text with its leading and its trailing whitespace removed |
| Text.StartsWith | nautilus_bookmark_fix.py:74 | `str.startswith(prefix)`: the text is at least as long as the prefix and begins with it |
| Text.Join | nautilus_bookmark_fix.py:77 | what a file emptied and then given successive `write` calls holds: the written strings one after another |
| Text.UniversalNewlines | fix_i2c_nvidia.py:74-75 | what `f.read()` in text mode with the default `newline=None` returns: each `\r\n` and each lone `\r` comes back as `\n`, every other character as it was |
| Text.TrimLeftSpec | nautilus_bookmark_fix.py:74 | the left half of `strip` drops exactly the leading run of whitespace: the result is a suffix, everything dropped is whitespace, and the result is empty or starts with a non-whitespace character |
| Text.TrimRightSpec | nautilus_bookmark_fix.py:74 | the right half of `strip` drops exactly the trailing run of whitespace: the result is a prefix, everything dropped is whitespace, and the result is empty or ends with a non-whitespace character |
| Text.StripEmptyIff | nautilus_bookmark_fix.py:74 | `strip` gives the empty string exactly when every character is whitespace |
| Text.LineLength | nautilus_bookmark_fix.py:68 | the first line `readlines` cuts off is non-empty, has no line feed before its end, and ends with a line feed unless it is the rest of the text |
| Text.ReadLines | nautilus_bookmark_fix.py:68 | `readlines` yields lines whose concatenation is the whole text again (nothing is lost or reordered); every line is non-empty and every line but the last ends with a line feed |
| Text.JoinAppend | nautilus_bookmark_fix.py:73-77 | writing two line sequences one after the other leaves their two concatenations one after the other |
| Text.ReadLinesJoin | nautilus_bookmark_fix.py:68 | reading back well-formed written lines gives exactly those lines |
| Text.ReadLinesAppend | nautilus_bookmark_fix.py:68 | reading a text cut at a line boundary gives the lines of the first part followed by the lines of the second |
| Fs.FileSystem.Exists | nautilus_bookmark_fix.py:87 | `os.path.exists` is true exactly for the paths in the map |
| Fs.FileSystem.Read | nautilus_bookmark_fix.py:68 | reading an existing file gives its whole content |
| Fs.FileSystem.Truncate | nautilus_bookmark_fix.py:69-70 | after `seek(0)` and `truncate(0)`, or after opening with `"w"`, the file exists and is empty; no other path changes |
| Fs.FileSystem.Write | nautilus_bookmark_fix.py:77 | `write` appends its argument to the file; no other path changes |
| Fs.FileSystem.Copy | nautilus_bookmark_fix.py:43 | `shutil.copy` gives the destination the source's content; a missing source raises `FileNotFoundError` naming it and changes nothing |
| Fs.FileSystem.Remove | nautilus_bookmark_fix.py:55 | `os.remove` deletes exactly the path; a missing path raises `FileNotFoundError` naming it and changes nothing |
| CommentTransform.IsComment | nautilus_bookmark_fix.py:74 | the test `line.strip().startswith("#")` |
| CommentTransform.CommentLine | nautilus_bookmark_fix.py:73-75 | the rewrite of one line: kept as it is when it is a comment, otherwise `# ` followed by the line |
| CommentTransform.FixedContent | nautilus_bookmark_fix.py:67-77 | a file's new content: its `readlines` lines, each rewritten, written back one after another in place of the old content |
| CommentTransform.ExistenceCheck | nautilus_bookmark_fix.py:80-88 | the existence pre-check: success when every listed path exists, otherwise `FileNotFoundError` naming the first missing one |
| CommentTransform.FixAll | nautilus_bookmark_fix.py:65-77 | the files after the loop over the list: every listed path gets the new content of its old content, every other path keeps its content, and no path is added or removed |
| CommentTransform.ApplyFixSpec | nautilus_bookmark_fix.py:58-77 | `apply_fix`: the existence check first; when it raises, the error with the files unchanged; otherwise success with every listed file rewritten |
| CommentTransform.IsCommentIff | nautilus_bookmark_fix.py:74 | `line.strip().startswith("#")` holds exactly when the first non-whitespace character of the line is `#` |
| CommentTransform.PrefixedIsComment | nautilus_bookmark_fix.py:75 | a line with `# ` in front is a comment, whatever followed |
| CommentTransform.CommentLineIdempotent | nautilus_bookmark_fix.py:74-75 | every rewritten line is a comment, so rewriting it again leaves it byte-identical |
| CommentTransform.BlankLineCommented | nautilus_bookmark_fix.py:74-75 | a line of whitespace only (a bare line feed, say) strips to nothing and gets `# ` in front |
| CommentTransform.PlainLineNotComment | nautilus_bookmark_fix.py:74 | a line whose first character is neither whitespace nor `#` is not a comment, so it gets `# ` in front |
| CommentTransform.CommentLineShape | nautilus_bookmark_fix.py:73-77 | a rewritten line is still a line, and ends with a line feed exactly when the original did |
| CommentTransform.CommentLines | nautilus_bookmark_fix.py:73-77 | the rewrite keeps the number of lines |
| CommentTransform.CommentLinesAt | nautilus_bookmark_fix.py:73-77 | line `i` of the rewrite is line `i` of the input, rewritten: order is kept and each line depends only on itself |
| CommentTransform.CommentLinesAppend | nautilus_bookmark_fix.py:73-77 | the rewrite of two line sequences put together is the two rewrites put together |
| CommentTransform.CommentLinesWellFormed | nautilus_bookmark_fix.py:73-77 | the rewritten lines still have the shape `readlines` produces |
| CommentTransform.FixedLines | nautilus_bookmark_fix.py:67-77 | reading a rewritten file back gives its old lines in the same order and the same number, each commented |
| CommentTransform.FixIdempotent | nautilus_bookmark_fix.py:73-75 | rewriting a file's content twice gives the same content as rewriting it once |
| CommentTransform.FixEmpty | nautilus_bookmark_fix.py:68 | an empty file stays empty |
| CommentTransform.FixAppend | nautilus_bookmark_fix.py:67-77 | the rewrite of a text cut at a line boundary is the rewrite of the first part followed by the rewrite of the second |
| CommentTransform.FixJoin | nautilus_bookmark_fix.py:67-77 | a file written as well-formed lines is rewritten to exactly the concatenation of those lines, each rewritten |
| CommentTransform.FixOneLine | nautilus_bookmark_fix.py:73-77 | a file of one line is rewritten as that line |
| CommentTransform.FixTwoLines | nautilus_bookmark_fix.py:73-77 | a file of a terminated line followed by one more line is rewritten line by line |
| CommentTransform.FixThreeLines | nautilus_bookmark_fix.py:73-77 | a file holding a setting line, a comment line and a setting line becomes `# ` + the first, the comment unchanged, `# ` + the third |
| CommentTransform.FirstMissing | nautilus_bookmark_fix.py:86-88 | the index of the first listed path that does not exist: every path before it exists, and it is the number of paths when all exist |
| CommentTransform.FirstMissingAgree | nautilus_bookmark_fix.py:86-88 | the first missing path depends only on which listed paths exist, not on their contents |
| CommentTransform.FixAllStep | nautilus_bookmark_fix.py:65-77 | rewriting the next listed file after the ones before it gives the rewrite of the longer list, even when that file was listed before |
| CommentTransform.ApplyFixIdempotent | nautilus_bookmark_fix.py:58-77 | running the transform again on its own result changes nothing and ends the same way |
| CommentTransform.ApplyFixEffect | nautilus_bookmark_fix.py:58-77 | with a path missing, `FileNotFoundError` names the first missing path and no file changes; otherwise no path is added or removed, every listed file reads back as its old lines each commented, and every other path is unchanged |
| CommentTransform.FixExampleFile | nautilus_bookmark_fix.py:67-77 | the file `foo`, `# bar`, `baz` (each line ending in a line feed) becomes `# foo`, `# bar`, `# baz`: the two settings are commented and the comment is kept |
| CommentTransform.WriteCommented | nautilus_bookmark_fix.py:73-77 | on an emptied file, the write loop leaves exactly the concatenation of the rewritten lines, and changes no other path |
| CommentTransform.CheckFilesExist | nautilus_bookmark_fix.py:80-88 | matches the specification function; succeeds exactly when every listed path exists, and otherwise raises `FileNotFoundError` for a missing path all of whose predecessors exist (the same code is `assert_files_exist` at nautilusbookmarkfix.py:24-32) |
| CommentTransform.RewriteAll | nautilus_bookmark_fix.py:65-77 | once every listed file exists, the loop over the files leaves every listed file rewritten and every other path as it was (the same loop is nautilusbookmarkfix.py:12-21) |
| CommentTransform.RewriteFile | nautilus_bookmark_fix.py:67-77 | one file's new content is the rewrite of its old content, which it replaces entirely; no other path changes (the same steps with a `"r"` and a `"w"` open are nautilusbookmarkfix.py:13-21) |
| NautilusBookmarkFix.BackupPath | nautilus_bookmark_fix.py:42-43 | the sibling a file is copied to: its path followed by `.backup` |
| NautilusBookmarkFix.BackupPaths | nautilus_bookmark_fix.py:40-45 | the list `backup_files` builds: one backup path per listed file, in the same order |
| NautilusBookmarkFix.CopyEach | nautilus_bookmark_fix.py:41-43 | `shutil.copy` of each file to its backup path in turn; a missing source ends the loop with `FileNotFoundError` naming it, keeping the copies already made |
| NautilusBookmarkFix.RemoveEach | nautilus_bookmark_fix.py:54-55 | `os.remove` of each path in turn; a missing path ends the loop with `FileNotFoundError` naming it, keeping the removals already made |
| NautilusBookmarkFix.MainSpec | nautilus_bookmark_fix.py:14-28 | `main`: the backups when `backup` is set, where an error ends the run; then `apply_fix`, where an error ends the run; then the removal of the backup paths only when `remove` and `backup` are both set |
| NautilusBookmarkFix.BackupPathInjective | nautilus_bookmark_fix.py:42-43 | different files have different backup paths |
| NautilusBookmarkFix.CopyEachStatus | nautilus_bookmark_fix.py:40-45 | when no listed file is the `.backup` of a listed file, the backups stop at the first missing file, which is reported as `FileNotFoundError` |
| NautilusBookmarkFix.CopyEachBackups | nautilus_bookmark_fix.py:40-45 | when no listed file is the `.backup` of a listed file, every file before the first missing one has a backup holding its content from before the copies |
| NautilusBookmarkFix.CopyEachFrame | nautilus_bookmark_fix.py:40-45 | when no listed file is the `.backup` of a listed file, copying changes only the backup paths of the files copied, so no original changes |
| NautilusBookmarkFix.RemoveEachFrame | nautilus_bookmark_fix.py:54-55 | removing never adds a path and never changes or removes a path that is not listed |
| NautilusBookmarkFix.RemoveEachDistinct | nautilus_bookmark_fix.py:54-55 | removing distinct existing paths succeeds and deletes exactly those paths |
| NautilusBookmarkFix.RemoveEachMissing | nautilus_bookmark_fix.py:54-55 | removing a list containing a path that does not exist raises `FileNotFoundError` |
| NautilusBookmarkFix.RemoveEachDuplicate | nautilus_bookmark_fix.py:54-55 | removing a list that names one path twice raises `FileNotFoundError` |
| NautilusBookmarkFix.AfterBackups | nautilus_bookmark_fix.py:14-23 | when no listed file is the `.backup` of a listed file, after successful backups every listed file still exists with its old content, every backup holds its file's content, and the transform that follows succeeds |
| NautilusBookmarkFix.MainWithoutBackup | nautilus_bookmark_fix.py:26 | without `backup`, `main` is the transform alone: nothing is removed whatever `remove` says |
| NautilusBookmarkFix.MainKeepsBackups | nautilus_bookmark_fix.py:14-28 | when no listed file is the `.backup` of a listed file, with `backup` and without `remove`, every listed file is rewritten and each `.backup` sibling remains, holding the content from before the run |
| NautilusBookmarkFix.MainRemovesBackups | nautilus_bookmark_fix.py:14-28 | when no listed file is the `.backup` of a listed file, with `backup` and `remove` on distinct files, `main` succeeds, every listed file is rewritten, no `.backup` sibling of a listed file is left, and every other path is as it was |
| NautilusBookmarkFix.BackupsFrame | nautilus_bookmark_fix.py:40-45 | when no listed file is the `.backup` of a listed file, after all backups the paths are the old ones plus the backup paths, and every path that is not a backup path keeps its content |
| NautilusBookmarkFix.BackupPathsDistinct | nautilus_bookmark_fix.py:42 | distinct files give distinct backup paths |
| NautilusBookmarkFix.MainMissingFile | nautilus_bookmark_fix.py:14-23 | with a listed file missing, `main` without backups, and `main` with backups when no listed file is the `.backup` of a listed file, raises `FileNotFoundError` for the first missing file; every existing path other than a `.backup` sibling of a listed file keeps its content, and every path present afterwards either existed before or is such a sibling |
| NautilusBookmarkFix.MainDuplicateFile | nautilus_bookmark_fix.py:26-28 | when no listed file is the `.backup` of a listed file, a file listed twice with `backup` and `remove` makes `main` raise, after every listed file was rewritten |
| NautilusBookmarkFix.BackupFiles | nautilus_bookmark_fix.py:34-45 | the copies match the specification function, and on success the returned list is `files[i] + ".backup"` for each `i`, in order |
| NautilusBookmarkFix.RemoveBackup | nautilus_bookmark_fix.py:48-55 | the removals match the specification function |
| NautilusBookmarkFix.ApplyFix | nautilus_bookmark_fix.py:58-77 | the existence check and then the rewrite of every listed file: the same outcome and files as the specification function |
| NautilusBookmarkFix.Entrypoint | nautilus_bookmark_fix.py:8-31 | backups when `backup` is set, then `apply_fix`, then removal of the backups only when both `remove` and `backup` are set; matches the specification function |
| NautilusBookmarkFixManual.Entrypoint | nautilusbookmarkfix.py:5-21 | ends with the same status and the same files as `apply_fix` of nautilus_bookmark_fix.py on the same inputs |
| FixI2cNvidia.AlreadyApplied | fix_i2c_nvidia.py:73-77 | the fix is in place: the file exists and its content, read in text mode, equals `contents` |
| FixI2cNvidia.MainSpec | fix_i2c_nvidia.py:17-31 | `main`: `PermissionError` with no change when `update` is set without root; `exit()` with no change when the fix is in place and not forced; otherwise the file is set to `contents`, then the start's error is raised when `update` is set and `update-initramfs` cannot be started, and otherwise `main` returns, having started the update exactly when `update` is set |
| FixI2cNvidia.IsAlreadyApplied | fix_i2c_nvidia.py:66-77 | false when the file does not exist; otherwise true exactly when the whole content, read back with its line endings translated, equals `contents` |
| FixI2cNvidia.PrefixNotApplied | fix_i2c_nvidia.py:75 | a file holding a proper prefix of `contents`, or `contents` followed by more, does not count as fixed |
| FixI2cNvidia.ApplyFix | fix_i2c_nvidia.py:34-42 | the file holds exactly `contents` afterwards, whatever it held and whether it existed; no other path changes |
| FixI2cNvidia.FixIsApplied | fix_i2c_nvidia.py:41-42 | after the fix the check finds it in place exactly when `contents` holds no carriage return, and no other path was added, removed or changed |
| FixI2cNvidia.Entrypoint | fix_i2c_nvidia.py:11-31 | the outcome and files match the specification function, including the error raised after the write when `update-initramfs` cannot be started |
| Text.UniversalNewlinesShape | fix_i2c_nvidia.py:74-75 | the text-mode read leaves no carriage return, never lengthens the text and keeps a non-empty text non-empty |
| Text.UniversalNewlinesIdentity | fix_i2c_nvidia.py:74-75 | a text reads back unchanged exactly when it holds no carriage return |
| Text.UniversalNewlinesPlainPrefix | fix_i2c_nvidia.py:74-75 | a leading part without carriage returns reads back unchanged in front of the translated rest |
| FixI2cNvidia.MainDenied | fix_i2c_nvidia.py:17-18 | with `update` set and not root, `main` raises `PermissionError` and no file changes |
| FixI2cNvidia.MainEffect | fix_i2c_nvidia.py:17-28 | a refused run and a run stopped at the check change no file; a run that returns normally, and a run as root whose `update-initramfs` cannot be started, leave the target file holding exactly `contents`; no other path is ever added, removed or changed |
| FixI2cNvidia.MainWritesIff | fix_i2c_nvidia.py:17-31 | `main` writes exactly when it is permitted and the fix is missing or forced; it stops with `exit()` exactly when it is permitted, not forced and already applied; it returns having started `update-initramfs` exactly when it writes, `update` is set and the command starts; when the command cannot be started, the start's error is raised after the write |
| FixI2cNvidia.MainRerun | fix_i2c_nvidia.py:20-28 | a second run without `--force` after a run that wrote the file (one that returned, or one as root whose `update-initramfs` could not be started) changes nothing; it stops at the check exactly when `contents` holds no carriage return, and otherwise writes the same text again and ends as the first run did |
| FixI2cNvidia.MainRerunAfterFailedStart | fix_i2c_nvidia.py:20-28 | after a run with `--update` whose `update-initramfs` could not be started, the file holds `contents`, and a second run with `--update` that could start it stops at the check without `--force` (when `contents` holds no carriage return), so the update is never started |
| FixI2cNvidia.MainDefaults | fix_i2c_nvidia.py:84-88 | run as root with no flags and the default path `/etc/modprobe.d/blacklist_i2c-nvidia-gpu.conf` and contents `blacklist i2c_nvidia_gpu` (the constants `DefaultFile` and `DefaultContents`), a system without the file ends up with it holding `blacklist i2c_nvidia_gpu`, and a second such run stops at the check |

## Left out

- `update_initramfs` and `subprocess.check_call` (fix_i2c_nvidia.py:45-55) are an external process. The model records whether the update was started (`Returned(true)`). Whether it can be started is the parameter `launch`: `Success` stands for a command that ran, whatever its exit status, and `Raised(e)` for the uncaught error of a start that failed. The command's output, its effect on the boot image and the message of its caught failure are not modelled.
- `is_root` (fix_i2c_nvidia.py:58-63) reads the effective user id. It is the parameter `isRoot` of `FixI2cNvidia.Entrypoint`.
- `get_original_user_home` (nautilus_bookmark_fix.py:91-103) and `os.path.expanduser` (nautilusbookmarkfix.py:45) read the environment and the password database. The file list is a parameter instead, so the default file lists are not modelled.
- The `argparse` setup is command-line plumbing. The flags are parameters. The inverted `store_false` defaults of `--backup` and `--remove` (nautilus_bookmark_fix.py:115-122) are therefore not modelled.
- The `input()` confirmation prompt (nautilus_bookmark_fix.py:20, nautilusbookmarkfix.py:47) and every `print` are user interface, and change no file. The model always continues past the prompt. In the source, Ctrl-C or the end of input at the prompt raises `KeyboardInterrupt` or `EOFError` out of `main` before `apply_fix` (nautilus_bookmark_fix.py:20-23), or before `main` is called (nautilusbookmarkfix.py:47-49), so no file is touched; that ending is not modelled.
- `exit()` is the outcome `SystemExit`; the process exit status is not modelled.
- The only I/O failure modelled is a missing file. Permission errors from `open`, `shutil.copy` or `os.remove`, and a full disk, are not.
- A path that exists but is a directory is not modelled: `os.path.exists` is true for it, but `open` would then fail.
- A file deleted between the existence check and the `open` is not modelled, because the scripts are modelled as sequential with no other process.
- `shutil.copy` also copies permission bits; only the content is modelled.
- The bookmark scripts' `readlines` is modelled without Python's universal-newline translation (the `f.read()` of `is_already_applied` is modelled with it, as `Text.UniversalNewlines`), and the encoding is not modelled. A file's content is its decoded text. In text mode with the default `newline=None` (nautilus_bookmark_fix.py:67-68, nautilusbookmarkfix.py:13-14), `readlines` also ends a line at `\r\n` or at a lone `\r`, and returns both as `\n`; the writes then put back `\n`. So on disk such lines change bytes, even comment lines. For example, a file holding `a`, a lone `\r`, then `b` becomes `# a`, `\n`, `# b`. The model reads that file as a single line and writes `# ` followed by the original bytes.
- `str.isspace` is modelled on ASCII only. The Unicode whitespace characters outside ASCII, which Python's `strip` also removes, are not covered.
- Paths are taken as canonical names of distinct files. `"x"`, `"./x"` and a symbolic link to `x` name the same file in the source but are different keys in the model. For example, with backup and removal on and files `x` and `./x`, the source's second `os.remove` (nautilus_bookmark_fix.py:55) raises `FileNotFoundError`, but `NautilusBookmarkFix.MainRemovesBackups` proves success, because the two strings are distinct.
- Directories are not modelled, including a missing parent directory. `open(file, "w")` (fix_i2c_nvidia.py:41, nautilusbookmarkfix.py:16) raises `FileNotFoundError` when the parent directory does not exist (for example with no `/etc/modprobe.d`). `Fs.FileSystem.Truncate` and `FixI2cNvidia.ApplyFix` always create the file.
