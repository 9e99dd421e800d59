/** An explicit filesystem value: the set of existing directories and the
    bytes of every existing file. The converter reads PDFs, tests whether an
    output exists, creates directories with `mkdir(parents=True,
    exist_ok=True)` and writes Markdown with `write_text`; each of those is a
    function from one filesystem value to the next, or to the OS error the
    call would raise. */
module Files {
  import opened Wrappers
  import opened Paths
  import Text

  type byte = b: int | 0 <= b < 256

  datatype FileSystem = FileSystem(dirs: set<Path>, files: map<Path, seq<byte>>)

  /** The OS errors the modelled calls can raise. */
  datatype IoError =
    | NoSuchFile(path: Path)
    | IsADirectory(path: Path)
    | NotADirectory(path: Path)
    | FileExists(path: Path)

  /** `str(e)` for the error, as CPython renders an `OSError`. */
  function Describe(e: IoError): string
  {
    match e
    case NoSuchFile(p) => "[Errno 2] No such file or directory: '" + PathStr(p) + "'"
    case IsADirectory(p) => "[Errno 21] Is a directory: '" + PathStr(p) + "'"
    case NotADirectory(p) => "[Errno 20] Not a directory: '" + PathStr(p) + "'"
    case FileExists(p) => "[Errno 17] File exists: '" + PathStr(p) + "'"
  }

  predicate IsFile(fs: FileSystem, p: Path)
  {
    p in fs.files
  }

  predicate IsDir(fs: FileSystem, p: Path)
  {
    p in fs.dirs
  }

  /** `p.exists()`. */
  predicate Exists(fs: FileSystem, p: Path)
  {
    IsFile(fs, p) || IsDir(fs, p)
  }

  /** `open(p, "rb").read()`. */
  function ReadBytes(fs: FileSystem, p: Path): (r: Result<seq<byte>, IoError>)
    ensures r.Success? <==> IsFile(fs, p)
    ensures r.Success? ==> r.value == fs.files[p]
    ensures r.Failure? && Exists(fs, p) ==> r.error == IsADirectory(p)
    ensures !Exists(fs, p) ==> r == Failure(NoSuchFile(p))
  {
    if p in fs.files then Success(fs.files[p])
    else if p in fs.dirs then Failure(IsADirectory(p))
    else Failure(NoSuchFile(p))
  }

  /** Some component on the way to `d`, or `d` itself, is a regular file, so
      no directory can be created there. */
  predicate Blocked(fs: FileSystem, d: Path)
  {
    exists i :: 0 <= i <= |d.parts| && Prefix(d, i) in fs.files
  }

  /** `d.mkdir(parents=True, exist_ok=True)`: creates `d` and every missing
      ancestor; fails without creating anything when a file is in the way. */
  function MakeDirs(fs: FileSystem, d: Path): (r: Result<FileSystem, IoError>)
    ensures r.Success? <==> !Blocked(fs, d)
    ensures r.Success? ==> r.value.files == fs.files
    ensures r.Success? ==> fs.dirs + {d} + Ancestors(d) == r.value.dirs
  {
    assert Prefix(d, |d.parts|) == d;
    if d in fs.files then Failure(FileExists(d))
    else if Blocked(fs, d) then Failure(NotADirectory(d))
    else Success(fs.(dirs := fs.dirs + {d} + Ancestors(d)))
  }

  /** `p.write_bytes(data)` (the encoded form of `write_text`): needs the
      parent directory; replaces the file if present. */
  function WriteFile(fs: FileSystem, p: Path, data: seq<byte>): (r: Result<FileSystem, IoError>)
    ensures r.Success? <==> IsDir(fs, Parent(p)) && !IsDir(fs, p)
    ensures r.Success? ==> r.value == fs.(files := fs.files[p := data])
  {
    if Parent(p) !in fs.dirs then Failure(NoSuchFile(p))
    else if p in fs.dirs then Failure(IsADirectory(p))
    else Success(fs.(files := fs.files[p := data]))
  }

  /** What a save leaves behind: the filesystem after the calls that ran,
      and the error that stopped it, if any. */
  datatype Attempt = Attempt(fs: FileSystem, error: Option<IoError>)

  /** `output_path.parent.mkdir(parents=True, exist_ok=True)` followed by the
      write. It succeeds exactly when no file blocks the parent and the target
      is a non-root path that is not a directory; then the target holds
      `data`. Whatever happens, no other file changes and no directory
      disappears. */
  function SaveFile(fs: FileSystem, p: Path, data: seq<byte>): (r: Attempt)
    ensures r.error.None? <==> !Blocked(fs, Parent(p)) && !IsDir(fs, p) && |p.parts| > 0
    ensures r.error.None? ==> r.fs.files == fs.files[p := data]
    ensures r.error.Some? ==> r.fs.files == fs.files
    ensures fs.dirs <= r.fs.dirs
  {
    match MakeDirs(fs, Parent(p))
    case Failure(e) => Attempt(fs, Some(e))
    case Success(made) =>
      if |p.parts| == 0 then
        Attempt(made, Some(IsADirectory(p)))
      else
        ParentIsAncestor(p);
        assert p in made.dirs <==> p in fs.dirs;
        match WriteFile(made, p, data)
        case Failure(e) => Attempt(made, Some(e))
        case Success(written) => Attempt(written, None)
  }
}
