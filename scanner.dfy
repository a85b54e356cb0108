/** The depth-bounded scan for Flutter projects (`scan` in main.go). */
module Scanner {
  import opened Strings
  import opened FileSystem

  /** What one scan does, in order: the observable trace of the traversal. */
  datatype Event =
    | ReadFailed(path: string)           // listing `path` failed; its frame ends
    | Listed(path: string, depth: int)   // `path` was listed, with `depth` levels to go
    | StatFailed(path: string)           // the marker stat in `path` failed other than not-exist
    | Cleaned(path: string, ok: bool)    // project found at `path`; the Cleaner ran with outcome `ok`

  /** Substrings that keep the scanner out of a path. */
  const Excluded: seq<string> := ["node_modules", "vendor", ".git", ".vscode", ".idea", ".npmignore"]

  /**
   * The trace of `scan(path, depth)` on directory `d`, where `clean(p)` is the
   * outcome of running the Cleaner in `p`.
   */
  function Scan(path: string, depth: int, d: Dir, clean: string -> bool): (t: seq<Event>)
    ensures t != [] && t[0].path == path
    decreases d
  {
    if !d.readable then [ReadFailed(path)]
    else [Listed(path, depth)] + ScanEntries(path, depth, d.marker, d.entries, clean)
  }

  /**
   * The trace of the loop over `entries` of the directory `path` whose marker
   * stat is `marker`.
   */
  function ScanEntries(path: string, depth: int, marker: Stat, entries: seq<Entry>, clean: string -> bool): (t: seq<Event>)
    decreases entries
  {
    if entries == [] then []
    else if entries[0].FileEntry? then ScanEntries(path, depth, marker, entries[1..], clean)
    else match FileExists(marker)
      case Err => [StatFailed(path)] + ScanEntries(path, depth, marker, entries[1..], clean)
      case Ok(isProject) =>
        if isProject then [Cleaned(path, clean(path))]
        else Descend(path, depth, entries[0], clean) + ScanEntries(path, depth, marker, entries[1..], clean)
  }

  /**
   * The trace of one subdirectory entry of a directory that is not a project:
   * the child's own scan, with one level less, unless the depth is used up or
   * the child's path is excluded.
   */
  function Descend(path: string, depth: int, e: Entry, clean: string -> bool): (t: seq<Event>)
    requires e.DirEntry?
    ensures depth == 0 ==> t == []
    ensures Contains(Join(path, e.dir.name), Excluded) ==> t == []
    ensures depth != 0 && !Contains(Join(path, e.dir.name), Excluded) ==>
      t == Scan(Join(path, e.dir.name), depth - 1, e.dir, clean)
    decreases e
  {
    var next := Join(path, e.dir.name);
    if depth != 0 && !Contains(next, Excluded) then Scan(next, depth - 1, e.dir, clean) else []
  }

  /** `scan` as the program runs it: one loop over the entries, with `continue` and early `return`. */
  method ScanDir(path: string, depth: int, d: Dir, clean: string -> bool) returns (t: seq<Event>)
    ensures t == Scan(path, depth, d, clean)
    decreases d
  {
    if !d.readable {
      return [ReadFailed(path)];
    }
    t := [Listed(path, depth)];
    var i := 0;
    while i < |d.entries|
      invariant i <= |d.entries|
      invariant Scan(path, depth, d, clean) == t + ScanEntries(path, depth, d.marker, d.entries[i..], clean)
    {
      var e := d.entries[i];
      ghost var rest := d.entries[i..];
      assert rest[0] == e && rest[1..] == d.entries[i + 1..];
      i := i + 1;
      if e.FileEntry? {
        assert ScanEntries(path, depth, d.marker, rest, clean) == ScanEntries(path, depth, d.marker, d.entries[i..], clean);
        continue;
      }
      var isProject := FileExists(d.marker);
      if isProject.Err? {
        assert ScanEntries(path, depth, d.marker, rest, clean)
          == [StatFailed(path)] + ScanEntries(path, depth, d.marker, d.entries[i..], clean);
        t := t + [StatFailed(path)];
        continue;
      }
      if isProject.value {
        assert ScanEntries(path, depth, d.marker, rest, clean) == [Cleaned(path, clean(path))];
        t := t + [Cleaned(path, clean(path))];
        return;
      }
      ghost var step := Descend(path, depth, e, clean);
      ghost var later := ScanEntries(path, depth, d.marker, d.entries[i..], clean);
      assert ScanEntries(path, depth, d.marker, rest, clean) == step + later;
      assert Scan(path, depth, d, clean) == (t + step) + later;
      var next := Join(path, e.dir.name);
      if depth != 0 && !Contains(next, Excluded) {
        var sub := ScanDir(next, depth - 1, e.dir, clean);
        assert sub == step;
        t := t + sub;
      } else {
        assert step == [];
        assert t + step == t;
      }
    }
  }
}
