/** nautilusbookmarkfix.py: the variant without backups. It runs the same
    existence check and the same rewrite of every listed file as `apply_fix`
    of nautilus_bookmark_fix.py, written with a `"r"` open followed by a
    `"w"` open instead of a single `"r+"` open. */
module NautilusBookmarkFixManual {
  import opened Fs
  import opened CommentTransform

  /** `main`: `assert_files_exist`, then the rewrite of every listed file.
      It ends exactly as `apply_fix` of nautilus_bookmark_fix.py does on the
      same files: with `FileNotFoundError` for the first missing path and no
      file changed, or with every listed file rewritten. */
  method Entrypoint(fs: FileSystem, files: seq<Path>) returns (r: Status)
    modifies fs
    ensures Step(r, fs.files) == ApplyFixSpec(old(fs.files), files)
  {
    r := CheckFilesExist(fs, files);
    if r.Raised? {
      return;
    }
    RewriteAll(fs, files);
  }
}
