/** The filesystem the scripts work on, as a map from path to text, and the
    operating-system calls they make on it: `os.path.exists`, `open` with
    `read`, `truncate` and `write`, `shutil.copy` and `os.remove`. */
module Fs {

  type Path = string

  /** The exceptions the scripts raise or let propagate. */
  datatype Error = FileNotFoundError(path: Path) | PermissionError

  /** How a call ended: normally, or by raising an exception. */
  datatype Status = Success | Raised(error: Error)

  /** A call that returns a value or raises. */
  datatype Result<T> = Ok(value: T) | Failed(error: Error)
  {
    function ToStatus(): Status
    {
      if Ok? then Success else Raised(error)
    }
  }

  /** How a sequence of filesystem calls ended, and the files it left. */
  datatype Step = Step(status: Status, files: map<Path, string>)

  class FileSystem {
    var files: map<Path, string>

    constructor (initial: map<Path, string>)
      ensures files == initial
    {
      files := initial;
    }

    /** `os.path.exists(p)`. */
    method Exists(p: Path) returns (b: bool)
      ensures b <==> p in files
    {
      b := p in files;
    }

    /** Reading the whole of an open file. */
    method Read(p: Path) returns (text: string)
      requires p in files
      ensures text == files[p]
    {
      text := files[p];
    }

    /** `open(p, "w")`, or `seek(0)` followed by `truncate(0)`: the file is
        created if needed and left empty. */
    method Truncate(p: Path)
      modifies this
      ensures files == old(files)[p := ""]
    {
      files := files[p := ""];
    }

    /** `f.write(text)` at the end of an open file. */
    method Write(p: Path, text: string)
      requires p in files
      modifies this
      ensures files == old(files)[p := old(files)[p] + text]
    {
      files := files[p := files[p] + text];
    }

    /** `shutil.copy(src, dst)`: `dst` gets the content of `src`; a missing
        `src` raises `FileNotFoundError` and changes nothing. */
    method Copy(src: Path, dst: Path) returns (r: Status)
      modifies this
      ensures src in old(files) ==> r == Success && files == old(files)[dst := old(files)[src]]
      ensures src !in old(files) ==> r == Raised(FileNotFoundError(src)) && files == old(files)
    {
      if src in files {
        files := files[dst := files[src]];
        r := Success;
      } else {
        r := Raised(FileNotFoundError(src));
      }
    }

    /** `os.remove(p)`: a missing `p` raises `FileNotFoundError` and changes
        nothing. */
    method Remove(p: Path) returns (r: Status)
      modifies this
      ensures p in old(files) ==> r == Success && files == old(files) - {p}
      ensures p !in old(files) ==> r == Raised(FileNotFoundError(p)) && files == old(files)
    {
      if p in files {
        files := files - {p};
        r := Success;
      } else {
        r := Raised(FileNotFoundError(p));
      }
    }
  }
}
