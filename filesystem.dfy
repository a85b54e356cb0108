/** The part of the filesystem the scanner observes, as a finite tree fixed during one scan. */
module FileSystem {

  /** Outcome of `os.Stat` on a path: success, or an error that is or is not "does not exist". */
  datatype Stat = StatOk | StatErr(notExist: bool)

  /** A value or an error, for Go's `(value, error)` pairs. */
  datatype Result<T> = Ok(value: T) | Err

  /**
   * A directory. `marker` is what `os.Stat(<this dir>/pubspec.yaml)` reports,
   * `readable` whether `os.ReadDir` succeeds, and `entries` what it lists, in its
   * (filename) order.
   */
  datatype Dir = Dir(name: string, marker: Stat, readable: bool, entries: seq<Entry>)

  /** A directory entry: anything that is not a directory, or a subdirectory. */
  datatype Entry = FileEntry(name: string) | DirEntry(dir: Dir)

  /** `filepath.Join(path, name)` for a plain entry name. */
  function Join(path: string, name: string): (r: string)
    ensures |r| == |path| + 1 + |name|
    ensures r[..|path| + 1] == path + "/" && r[|path| + 1..] == name
  {
    path + "/" + name
  }

  /**
   * `fileExists`: a successful stat means present, a not-exist error means
   * absent, and any other error is passed on as an error.
   */
  function FileExists(s: Stat): (r: Result<bool>)
    ensures r == Ok(true) <==> s.StatOk?
    ensures r == Ok(false) <==> s == StatErr(true)
    ensures r.Err? <==> s == StatErr(false)
  {
    match s
    case StatOk => Ok(true)
    case StatErr(notExist) => if notExist then Ok(false) else Err
  }
}
