/** The line-comment transform that both bookmark scripts apply: a line whose
    stripped form starts with `#` is kept, any other line gets `# ` in front.
    Also the existence pre-check both scripts run before any file is
    rewritten, and the effect of the whole rewrite on the filesystem. */
module CommentTransform {
  import opened Text
  import opened Fs

  /** `line.strip().startswith("#")`. */
  predicate IsComment(line: string)
  {
    StartsWith(Strip(line), "#")
  }

  /** A line is a comment exactly when its first character that is not
      whitespace is `#`. */
  lemma IsCommentIff(line: string)
    ensures IsComment(line) <==>
      exists k :: 0 <= k < |line| && line[k] == '#' && forall j :: 0 <= j < k ==> IsSpace(line[j])
  {
    var t := TrimLeft(line);
    var k := |line| - |t|;
    var r := TrimRight(t);
    TrimLeftSpec(line);
    TrimRightSpec(t);
    assert t != [] ==> t[0] == line[k];
    assert t != [] ==> r != [] && r[0] == t[0];
    assert IsComment(line) <==> t != [] && t[0] == '#' by {
      if r != [] {
        assert r[..1] == [r[0]];
      }
    }
    forall k' | 0 <= k' < |line| && line[k'] == '#' && (forall j :: 0 <= j < k' ==> IsSpace(line[j]))
      ensures t != [] && t[0] == '#'
    {
      assert !IsSpace(line[k']);
      assert t != [] ==> !IsSpace(line[k]);
    }
  }

  /** Whatever follows it, `# ` starts a comment. */
  lemma PrefixedIsComment(line: string)
    ensures IsComment("# " + line)
  {
    IsCommentIff("# " + line);
    assert ("# " + line)[0] == '#';
  }

  /** The rewrite of one line. */
  function CommentLine(line: string): string
  {
    if IsComment(line) then line else "# " + line
  }

  /** Every rewritten line is a comment, so rewriting it again leaves it
      unchanged. */
  lemma CommentLineIdempotent(line: string)
    ensures IsComment(CommentLine(line))
    ensures CommentLine(CommentLine(line)) == CommentLine(line)
  {
    if !IsComment(line) {
      PrefixedIsComment(line);
    }
  }

  /** A line of whitespace only strips to nothing, so it is commented too. */
  lemma BlankLineCommented(line: string)
    requires forall i :: 0 <= i < |line| ==> IsSpace(line[i])
    ensures CommentLine(line) == "# " + line
  {
    StripEmptyIff(line);
  }

  /** A commented line still has the shape of a line, and ends in a line feed
      exactly when the original did. */
  lemma CommentLineShape(line: string)
    ensures IsLine(line) ==> IsLine(CommentLine(line))
    ensures Terminated(CommentLine(line)) <==> Terminated(line)
  {
    if !IsComment(line) {
      var r := "# " + line;
      assert forall j :: 2 <= j < |r| ==> r[j] == line[j - 2];
    }
  }

  /** The rewrite of every line: the same number of lines, in the same order,
      each one commented. */
  function CommentLines(lines: seq<string>): (r: seq<string>)
    ensures |r| == |lines|
    decreases |lines|
  {
    if lines == [] then []
    else
      [CommentLine(lines[0])] + CommentLines(lines[1..])
  }

  /** Line `i` of the rewrite is line `i` of the input, rewritten. */
  lemma {:induction false} CommentLinesAt(lines: seq<string>)
    ensures forall i :: 0 <= i < |lines| ==> CommentLines(lines)[i] == CommentLine(lines[i])
    decreases |lines|
  {
    if lines != [] {
      CommentLinesAt(lines[1..]);
      assert forall i :: 1 <= i < |lines| ==> CommentLines(lines)[i] == CommentLines(lines[1..])[i - 1];
    }
  }

  /** The rewrite commutes with concatenation of line sequences. */
  lemma {:induction false} CommentLinesAppend(a: seq<string>, b: seq<string>)
    ensures CommentLines(a + b) == CommentLines(a) + CommentLines(b)
    decreases |a|
  {
    if a == [] {
      assert a + b == b;
    } else {
      assert (a + b)[1..] == a[1..] + b;
      CommentLinesAppend(a[1..], b);
    }
  }

  lemma CommentLinesWellFormed(lines: seq<string>)
    requires WellFormed(lines)
    ensures WellFormed(CommentLines(lines))
  {
    CommentLinesAt(lines);
    forall i | 0 <= i < |lines| {
      CommentLineShape(lines[i]);
    }
  }

  /** Writing the commented lines one after another, the first `j` of them. */
  lemma JoinCommentedStep(data: seq<string>, j: nat)
    requires j < |data|
    ensures Join(CommentLines(data[..j + 1])) == Join(CommentLines(data[..j])) + CommentLine(data[j])
  {
    assert data[..j + 1] == data[..j] + [data[j]];
    CommentLinesAppend(data[..j], [data[j]]);
    JoinAppend(CommentLines(data[..j]), CommentLines([data[j]]));
    assert Join([CommentLine(data[j])]) == CommentLine(data[j]) + Join([]);
  }

  /** The new content of a rewritten file: the old lines, each commented,
      written back one after another. */
  function FixedContent(text: string): string
  {
    Join(CommentLines(ReadLines(text)))
  }

  /** Reading a rewritten file back gives its old lines, each commented: line
      count and order are kept. */
  lemma FixedLines(text: string)
    ensures ReadLines(FixedContent(text)) == CommentLines(ReadLines(text))
  {
    CommentLinesWellFormed(ReadLines(text));
    ReadLinesJoin(CommentLines(ReadLines(text)));
  }

  /** Rewriting a file twice gives what rewriting it once gives. */
  lemma FixIdempotent(text: string)
    ensures FixedContent(FixedContent(text)) == FixedContent(text)
  {
    var once := CommentLines(ReadLines(text));
    FixedLines(text);
    CommentLinesAt(ReadLines(text));
    CommentLinesAt(once);
    forall i | 0 <= i < |once| ensures CommentLines(once)[i] == once[i] {
      CommentLineIdempotent(ReadLines(text)[i]);
    }
    assert CommentLines(once) == once;
  }

  /** An empty file stays empty. */
  lemma FixEmpty()
    ensures FixedContent("") == ""
  {
  }

  /** Rewriting a text cut at a line boundary rewrites the two parts apart. */
  lemma FixAppend(s: string, t: string)
    requires s == [] || s[|s| - 1] == '\n'
    ensures FixedContent(s + t) == FixedContent(s) + FixedContent(t)
  {
    ReadLinesAppend(s, t);
    CommentLinesAppend(ReadLines(s), ReadLines(t));
    JoinAppend(CommentLines(ReadLines(s)), CommentLines(ReadLines(t)));
  }

  /** A line that starts with a character that is neither whitespace nor
      `#` is not a comment. */
  lemma PlainLineNotComment(line: string)
    requires line != [] && !IsSpace(line[0]) && line[0] != '#'
    ensures !IsComment(line)
  {
    IsCommentIff(line);
  }

  /** A file written as well-formed lines is rewritten line by line. */
  lemma FixJoin(lines: seq<string>)
    requires WellFormed(lines)
    ensures FixedContent(Join(lines)) == Join(CommentLines(lines))
  {
    ReadLinesJoin(lines);
  }

  /** A file of one line is rewritten as that line. */
  lemma FixOneLine(line: string)
    requires IsLine(line)
    ensures FixedContent(line) == CommentLine(line)
  {
    assert Join([line]) == line + Join([]);
    assert Join([line]) == line;
    FixJoin([line]);
    assert [line][1..] == [];
    assert CommentLines([line]) == [CommentLine(line)];
    assert Join([CommentLine(line)]) == CommentLine(line) + Join([]);
  }

  /** A file of a terminated line and one more line is rewritten line by
      line. */
  lemma FixTwoLines(a: string, b: string)
    requires IsLine(a) && Terminated(a) && IsLine(b)
    ensures FixedContent(a + b) == CommentLine(a) + CommentLine(b)
  {
    FixAppend(a, b);
    FixOneLine(a);
    FixOneLine(b);
  }

  /** A comment line between two setting lines: the settings are commented
      and the comment is kept. */
  lemma FixThreeLines(a: string, b: string, c: string)
    requires IsLine(a) && Terminated(a) && !IsSpace(a[0]) && a[0] != '#'
    requires IsLine(b) && Terminated(b) && b[0] == '#'
    requires IsLine(c) && !IsSpace(c[0]) && c[0] != '#'
    ensures FixedContent(a + (b + c)) == ("# " + a) + (b + ("# " + c))
  {
    FixAppend(a, b + c);
    FixOneLine(a);
    FixTwoLines(b, c);
    PlainLineNotComment(a);
    PlainLineNotComment(c);
    IsCommentIff(b);
    assert b[0] == '#';
  }

  /** The example file: two settings around a comment. */
  lemma FixExampleFile()
    ensures FixedContent("foo\n# bar\nbaz\n") == "# foo\n# bar\n# baz\n"
  {
    FixThreeLines("foo\n", "# bar\n", "baz\n");
    assert "foo\n" + ("# bar\n" + "baz\n") == "foo\n# bar\nbaz\n";
    assert ("# " + "foo\n") + ("# bar\n" + ("# " + "baz\n")) == "# foo\n# bar\n# baz\n";
  }

  /** The write loop both scripts run on a file they have just emptied:
      each line read before is written back, commented unless it is a
      comment already. */
  method WriteCommented(fs: FileSystem, file: Path, data: seq<string>)
    requires file in fs.files && fs.files[file] == ""
    modifies fs
    ensures fs.files == old(fs.files)[file := Join(CommentLines(data))]
  {
    for j := 0 to |data|
      invariant file in fs.files && fs.files == old(fs.files)[file := fs.files[file]]
      invariant fs.files[file] == Join(CommentLines(data[..j]))
    {
      var line := data[j];
      if !IsComment(line) {
        line := "# " + line;
      }
      JoinCommentedStep(data, j);
      fs.Write(file, line);
    }
    assert data[..|data|] == data;
  }

  /** The index of the first listed path that does not exist, or the number
      of paths when all exist. */
  function FirstMissing(m: map<Path, string>, files: seq<Path>): (k: nat)
    ensures k <= |files|
    ensures forall j :: 0 <= j < k ==> files[j] in m
    ensures k < |files| ==> files[k] !in m
    decreases |files|
  {
    if files == [] || files[0] !in m then 0 else 1 + FirstMissing(m, files[1..])
  }

  /** The first missing path depends only on which listed paths exist. */
  lemma FirstMissingAgree(m: map<Path, string>, m': map<Path, string>, files: seq<Path>)
    requires forall i :: 0 <= i < |files| ==> (files[i] in m <==> files[i] in m')
    ensures FirstMissing(m, files) == FirstMissing(m', files)
  {
  }

  /** The existence pre-check: `FileNotFoundError` for the first missing
      path, if any. */
  function ExistenceCheck(m: map<Path, string>, files: seq<Path>): Status
  {
    var k := FirstMissing(m, files);
    if k < |files| then Raised(FileNotFoundError(files[k])) else Success
  }

  /** Every listed file rewritten, every other path as it was. */
  function FixAll(m: map<Path, string>, files: seq<Path>): map<Path, string>
  {
    map p | p in m :: if p in files then FixedContent(m[p]) else m[p]
  }

  /** Rewriting the next listed file after the ones before it, even when it
      was rewritten already, gives the rewrite of the longer prefix. */
  lemma FixAllStep(m: map<Path, string>, files: seq<Path>, i: nat)
    requires i < |files| && files[i] in m
    ensures var c := FixAll(m, files[..i]);
      files[i] in c && c[files[i] := FixedContent(c[files[i]])] == FixAll(m, files[..i + 1])
  {
    var file, done := files[i], files[..i];
    assert files[..i + 1] == done + [file];
    var c := FixAll(m, done);
    var l, r := c[file := FixedContent(c[file])], FixAll(m, done + [file]);
    forall p | p in m ensures l[p] == r[p] {
      assert p in done + [file] <==> p in done || p == file;
      if p == file && file in done {
        FixIdempotent(m[file]);
      }
    }
    assert l == r;
  }

  /** The whole transform: check all paths first, then rewrite every listed
      file; on a missing path nothing changes. */
  function ApplyFixSpec(m: map<Path, string>, files: seq<Path>): Step
  {
    var check := ExistenceCheck(m, files);
    if check.Raised? then Step(check, m) else Step(Success, FixAll(m, files))
  }

  /** Running the transform a second time on its own result changes nothing
      and ends the same way. */
  lemma ApplyFixIdempotent(m: map<Path, string>, files: seq<Path>)
    ensures ApplyFixSpec(ApplyFixSpec(m, files).files, files) == ApplyFixSpec(m, files)
  {
    var s := ApplyFixSpec(m, files);
    if s.status.Success? {
      var f := FixAll(m, files);
      FirstMissingAgree(m, f, files);
      forall p | p in f ensures FixAll(f, files)[p] == f[p] {
        if p in files {
          FixIdempotent(m[p]);
        }
      }
      assert FixAll(f, files) == f;
    }
  }

  /** After a successful transform every listed file reads back as its old
      lines, each commented, and every other path is unchanged; after a
      failed one nothing changed and the first missing path is reported. */
  lemma ApplyFixEffect(m: map<Path, string>, files: seq<Path>)
    ensures var s, k := ApplyFixSpec(m, files), FirstMissing(m, files);
      && (k < |files| ==> s == Step(Raised(FileNotFoundError(files[k])), m))
      && (k == |files| ==>
            && s.status == Success
            && s.files.Keys == m.Keys
            && (forall p :: p in m && p in files ==> ReadLines(s.files[p]) == CommentLines(ReadLines(m[p])))
            && (forall p :: p in m && p !in files ==> s.files[p] == m[p]))
  {
    forall p | p in m {
      FixedLines(m[p]);
    }
  }

  /** The existence pre-check, written the same way in both scripts
      (`verify_files_exist`, `assert_files_exist`): `FileNotFoundError` for
      the first listed path that does not exist. */
  method CheckFilesExist(fs: FileSystem, files: seq<Path>) returns (r: Status)
    ensures r == ExistenceCheck(fs.files, files)
    ensures r.Success? <==> forall i :: 0 <= i < |files| ==> files[i] in fs.files
    ensures r.Raised? ==>
      exists i :: 0 <= i < |files| && r.error == FileNotFoundError(files[i]) &&
        files[i] !in fs.files && forall j :: 0 <= j < i ==> files[j] in fs.files
  {
    for i := 0 to |files|
      invariant forall j :: 0 <= j < i ==> files[j] in fs.files
    {
      var present := fs.Exists(files[i]);
      if !present {
        return Raised(FileNotFoundError(files[i]));
      }
    }
    return Success;
  }

  /** The loop over the files that both scripts run once every file is known
      to exist. A file listed twice is rewritten twice, which changes nothing
      the second time. */
  method RewriteAll(fs: FileSystem, files: seq<Path>)
    requires forall i :: 0 <= i < |files| ==> files[i] in fs.files
    modifies fs
    ensures fs.files == FixAll(old(fs.files), files)
  {
    ghost var m := fs.files;
    for i := 0 to |files|
      invariant fs.files == FixAll(m, files[..i])
    {
      var file := files[i];
      FixAllStep(m, files, i);
      RewriteFile(fs, file);
    }
    assert files[..|files|] == files;
  }

  /** One file: read all its lines, empty it (`seek(0)` and `truncate(0)` on
      the `"r+"` handle in one script, reopening it with `"w"` in the other,
      which leave the same empty file) and write the lines back. */
  method RewriteFile(fs: FileSystem, file: Path)
    requires file in fs.files
    modifies fs
    ensures fs.files == old(fs.files)[file := FixedContent(old(fs.files)[file])]
  {
    var text := fs.Read(file);
    var data := ReadLines(text);
    fs.Truncate(file);
    WriteCommented(fs, file, data);
  }
}
