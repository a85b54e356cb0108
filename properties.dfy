/** What the scan promises, proved about the trace function `Scanner.Scan`. */
module ScanProperties {
  import opened Strings
  import opened FileSystem
  import opened Scanner

  // ---------------------------------------------------------------------------
  // Non-directory entries play no part.

  /** The tree with every non-directory entry removed, at every level. */
  function DirsOnly(d: Dir): (r: Dir)
    ensures r.name == d.name && r.marker == d.marker && r.readable == d.readable
    decreases d
  {
    d.(entries := DirsOnlyEntries(d.entries))
  }

  function DirsOnlyEntries(es: seq<Entry>): (r: seq<Entry>)
    ensures forall k :: 0 <= k < |r| ==> r[k].DirEntry?
    decreases es
  {
    if es == [] then []
    else if es[0].FileEntry? then DirsOnlyEntries(es[1..])
    else [DirsOnlyEntry(es[0])] + DirsOnlyEntries(es[1..])
  }

  function DirsOnlyEntry(e: Entry): (r: Entry)
    requires e.DirEntry?
    ensures r.DirEntry? && r.dir.name == e.dir.name
    decreases e
  {
    DirEntry(DirsOnly(e.dir))
  }

  /** Removing every non-directory entry from the tree does not change what the scan does. */
  lemma {:induction false} ScanIgnoresFiles(path: string, depth: int, d: Dir, clean: string -> bool)
    ensures Scan(path, depth, d, clean) == Scan(path, depth, DirsOnly(d), clean)
    decreases d
  {
    if d.readable {
      ScanEntriesIgnoresFiles(path, depth, d.marker, d.entries, clean);
    }
  }

  lemma {:induction false} ScanEntriesIgnoresFiles(path: string, depth: int, marker: Stat, es: seq<Entry>, clean: string -> bool)
    ensures ScanEntries(path, depth, marker, es, clean) == ScanEntries(path, depth, marker, DirsOnlyEntries(es), clean)
    decreases es
  {
    if es != [] {
      ScanEntriesIgnoresFiles(path, depth, marker, es[1..], clean);
      if es[0].DirEntry? {
        var r := [DirsOnlyEntry(es[0])] + DirsOnlyEntries(es[1..]);
        assert r[1..] == DirsOnlyEntries(es[1..]);
        DescendIgnoresFiles(path, depth, es[0], clean);
      }
    }
  }

  lemma {:induction false} DescendIgnoresFiles(path: string, depth: int, e: Entry, clean: string -> bool)
    requires e.DirEntry?
    ensures Descend(path, depth, e, clean) == Descend(path, depth, DirsOnlyEntry(e), clean)
    decreases e
  {
    ScanIgnoresFiles(Join(path, e.dir.name), depth - 1, e.dir, clean);
  }

  /** A directory that cannot be listed yields one failure report and nothing else. */
  lemma ScanUnreadable(path: string, depth: int, d: Dir, clean: string -> bool)
    requires !d.readable
    ensures Scan(path, depth, d, clean) == [ReadFailed(path)]
  {
  }

  // ---------------------------------------------------------------------------
  // What happens in one frame, by the outcome of the marker stat.

  /** Some entry of `es` is a subdirectory. */
  ghost predicate HasSubdir(es: seq<Entry>) {
    exists k :: 0 <= k < |es| && es[k].DirEntry?
  }

  /** The number of subdirectory entries in `es`. */
  function CountSubdirs(es: seq<Entry>): (n: nat)
    ensures n <= |es|
    ensures n == 0 <==> !HasSubdir(es)
  {
    if es == [] then 0
    else
      var n := CountSubdirs(es[1..]);
      assert HasSubdir(es[1..]) ==> HasSubdir(es);
      assert HasSubdir(es) && es[0].FileEntry? ==> HasSubdir(es[1..]) by {
        if HasSubdir(es) && es[0].FileEntry? {
          var k :| 0 <= k < |es| && es[k].DirEntry?;
          assert es[1..][k - 1] == es[k];
        }
      }
      (if es[0].DirEntry? then 1 else 0) + n
  }

  /**
   * A readable project directory with at least one subdirectory entry is
   * cleaned exactly once, in place, and the frame ends there: no child is
   * entered and no later entry is looked at, whatever the Cleaner reports.
   */
  lemma {:induction false} ScanProjectRoot(path: string, depth: int, d: Dir, clean: string -> bool)
    requires d.readable && d.marker == StatOk && HasSubdir(d.entries)
    ensures Scan(path, depth, d, clean) == [Listed(path, depth), Cleaned(path, clean(path))]
  {
    ScanEntriesProjectRoot(path, depth, d.entries, clean);
  }

  lemma {:induction false} ScanEntriesProjectRoot(path: string, depth: int, es: seq<Entry>, clean: string -> bool)
    requires HasSubdir(es)
    ensures ScanEntries(path, depth, StatOk, es, clean) == [Cleaned(path, clean(path))]
    decreases es
  {
    if es[0].FileEntry? {
      var k :| 0 <= k < |es| && es[k].DirEntry?;
      assert es[1..][k - 1] == es[k];
      ScanEntriesProjectRoot(path, depth, es[1..], clean);
    }
  }

  /**
   * A directory without subdirectory entries is listed and left alone: it is
   * never cleaned, even when it holds the marker file.
   */
  lemma {:induction false} ScanNoSubdirs(path: string, depth: int, d: Dir, clean: string -> bool)
    requires d.readable && !HasSubdir(d.entries)
    ensures Scan(path, depth, d, clean) == [Listed(path, depth)]
  {
    ScanEntriesNoSubdirs(path, depth, d.marker, d.entries, clean);
  }

  lemma {:induction false} ScanEntriesNoSubdirs(path: string, depth: int, marker: Stat, es: seq<Entry>, clean: string -> bool)
    requires !HasSubdir(es)
    ensures ScanEntries(path, depth, marker, es, clean) == []
    decreases es
  {
    if es != [] {
      assert es[0].FileEntry?;
      assert !HasSubdir(es[1..]) by {
        forall k | 0 <= k < |es[1..]| ensures es[1..][k].FileEntry? {
          assert es[1..][k] == es[k + 1];
        }
      }
      ScanEntriesNoSubdirs(path, depth, marker, es[1..], clean);
    }
  }

  /**
   * When the marker stat fails other than not-exist, each subdirectory entry
   * reports that failure once and is skipped: nothing is cleaned and nothing
   * is entered.
   */
  lemma {:induction false} ScanMarkerError(path: string, depth: int, d: Dir, clean: string -> bool)
    requires d.readable && d.marker == StatErr(false)
    ensures var t := Scan(path, depth, d, clean);
      && |t| == 1 + CountSubdirs(d.entries)
      && t[0] == Listed(path, depth)
      && forall k :: 1 <= k < |t| ==> t[k] == StatFailed(path)
  {
    ScanEntriesMarkerError(path, depth, d.entries, clean);
  }

  lemma {:induction false} ScanEntriesMarkerError(path: string, depth: int, es: seq<Entry>, clean: string -> bool)
    ensures var t := ScanEntries(path, depth, StatErr(false), es, clean);
      && |t| == CountSubdirs(es)
      && forall k :: 0 <= k < |t| ==> t[k] == StatFailed(path)
    decreases es
  {
    if es != [] {
      ScanEntriesMarkerError(path, depth, es[1..], clean);
    }
  }

  // ---------------------------------------------------------------------------
  // Where events can come from: paths, exclusion and depth.

  /**
   * An event of the frame for `path` at `depth`: either about `path` itself
   * (a listing there records `depth`), or about a path strictly below it, which
   * requires `depth != 0`, contains no excluded substring and was listed with
   * less depth left, never negative when `depth` was not. Every Cleaner outcome
   * is the Cleaner's answer for that path.
   */
  ghost predicate InFrame(e: Event, path: string, depth: int, clean: string -> bool) {
    && (e.Cleaned? ==> e.ok == clean(e.path))
    && if e.path == path then
         e.Listed? ==> e.depth == depth
       else
         && depth != 0
         && IsPrefix(path + "/", e.path)
         && !Contains(e.path, Excluded)
         && (e.Listed? ==> e.depth < depth && (depth >= 0 ==> e.depth >= 0))
  }

  lemma PrefixTransitive(a: string, b: string, c: string)
    requires IsPrefix(a, b) && IsPrefix(b, c)
    ensures IsPrefix(a, c)
  {
  }

  /** Every event of a scan belongs to its frame in the sense of `InFrame`. */
  lemma {:induction false} ScanEventsInFrame(path: string, depth: int, d: Dir, clean: string -> bool)
    ensures forall e :: e in Scan(path, depth, d, clean) ==> InFrame(e, path, depth, clean)
    decreases d
  {
    if d.readable {
      ScanEntriesEventsInFrame(path, depth, d.marker, d.entries, clean);
    }
  }

  lemma {:induction false} ScanEntriesEventsInFrame(path: string, depth: int, marker: Stat, es: seq<Entry>, clean: string -> bool)
    ensures forall e :: e in ScanEntries(path, depth, marker, es, clean) ==> InFrame(e, path, depth, clean)
    decreases es
  {
    if es != [] {
      ScanEntriesEventsInFrame(path, depth, marker, es[1..], clean);
      if es[0].DirEntry? {
        DescendEventsInFrame(path, depth, es[0], clean);
      }
    }
  }

  lemma {:induction false} DescendEventsInFrame(path: string, depth: int, e: Entry, clean: string -> bool)
    requires e.DirEntry?
    ensures forall ev :: ev in Descend(path, depth, e, clean) ==> InFrame(ev, path, depth, clean)
    decreases e
  {
    var next := Join(path, e.dir.name);
    if depth != 0 && !Contains(next, Excluded) {
      ScanEventsInFrame(next, depth - 1, e.dir, clean);
      assert IsPrefix(path + "/", next);
      forall ev | ev in Scan(next, depth - 1, e.dir, clean)
        ensures InFrame(ev, path, depth, clean)
      {
        assert InFrame(ev, next, depth - 1, clean);
        if ev.path != next {
          PrefixTransitive(path + "/", next + "/", ev.path);
        }
      }
    }
  }

  /**
   * A path that contains an excluded substring is never listed, checked or
   * cleaned, at any depth, unless it is the starting path itself.
   */
  lemma ScanAvoidsExcluded(path: string, depth: int, d: Dir, clean: string -> bool)
    ensures forall e :: e in Scan(path, depth, d, clean) && Contains(e.path, Excluded) ==> e.path == path
  {
    ScanEventsInFrame(path, depth, d, clean);
  }

  /**
   * Exclusion is substring matching on the whole path: when the starting path
   * already contains an excluded substring, the scan never leaves it.
   */
  lemma ScanExcludedRoot(path: string, depth: int, d: Dir, clean: string -> bool)
    requires Contains(path, Excluded)
    ensures forall e :: e in Scan(path, depth, d, clean) ==> e.path == path
  {
    ScanEventsInFrame(path, depth, d, clean);
    forall e | e in Scan(path, depth, d, clean) && e.path != path ensures false {
      assert InFrame(e, path, depth, clean);
      ExcludedBelow(path, e.path);
    }
  }

  /** A path below an excluded path is excluded too. */
  lemma ExcludedBelow(path: string, p: string)
    requires Contains(path, Excluded) && IsPrefix(path + "/", p)
    ensures Contains(p, Excluded)
  {
    assert p == path + p[|path|..] by {
      assert p[..|path|] == (path + "/")[..|path|];
    }
    ContainsExtend(path, Excluded, p[|path|..]);
  }

  /** With depth 0 the scan looks at the starting directory only. */
  lemma ScanDepthZero(path: string, d: Dir, clean: string -> bool)
    ensures forall e :: e in Scan(path, 0, d, clean) ==> e.path == path
  {
    ScanEventsInFrame(path, 0, d, clean);
  }

  /**
   * From a start depth D >= 0, every listing happens with between 0 and D
   * levels left, and with exactly D only at the starting path. (That each level
   * below costs exactly one is the contract of `Descend`; that nothing deeper
   * than D levels is ever read is `ScanDepthBound`.)
   */
  lemma ScanListedDepths(path: string, depth: int, d: Dir, clean: string -> bool)
    requires depth >= 0
    ensures forall e :: e in Scan(path, depth, d, clean) && e.Listed? ==>
      0 <= e.depth <= depth && (e.depth == depth <==> e.path == path)
  {
    ScanEventsInFrame(path, depth, d, clean);
  }

  // ---------------------------------------------------------------------------
  // Entering subdirectories, in entry order, and cleaning only where the marker is.

  /** In a directory that is not a project, the entries' traces follow one another in entry order. */
  lemma {:induction false} ScanEntriesAppend(path: string, depth: int, marker: Stat, es: seq<Entry>, fs: seq<Entry>, clean: string -> bool)
    requires marker != StatOk
    ensures ScanEntries(path, depth, marker, es + fs, clean)
      == ScanEntries(path, depth, marker, es, clean) + ScanEntries(path, depth, marker, fs, clean)
    decreases es
  {
    if es == [] {
      assert es + fs == fs;
    } else {
      assert (es + fs)[0] == es[0] && (es + fs)[1..] == es[1..] + fs;
      ScanEntriesAppend(path, depth, marker, es[1..], fs, clean);
      var e := es[0];
      var tail := ScanEntries(path, depth, marker, es[1..], clean);
      var rest := ScanEntries(path, depth, marker, fs, clean);
      if e.DirEntry? {
        var head := if FileExists(marker).Err? then [StatFailed(path)] else Descend(path, depth, e, clean);
        assert ScanEntries(path, depth, marker, es + fs, clean) == head + (tail + rest);
        assert ScanEntries(path, depth, marker, es, clean) == head + tail;
        Assoc(head, tail, rest);
      }
    }
  }

  /** Regrouping of concatenations, stated on plain sequences so that the proofs using it stay cheap. */
  lemma Assoc(a: seq<Event>, b: seq<Event>, c: seq<Event>)
    ensures a + (b + c) == a + b + c
  {
  }

  /**
   * In a directory whose marker is absent, the loop's trace splits around any
   * subdirectory entry `i`: the entries before it, then its own part, then the
   * entries after it.
   */
  lemma ScanEntriesSplit(path: string, depth: int, es: seq<Entry>, clean: string -> bool, i: nat)
    requires i < |es| && es[i].DirEntry?
    ensures ScanEntries(path, depth, StatErr(true), es, clean)
      == ScanEntries(path, depth, StatErr(true), es[..i], clean)
      + Descend(path, depth, es[i], clean)
      + ScanEntries(path, depth, StatErr(true), es[i + 1..], clean)
  {
    var m := StatErr(true);
    var one := [es[i]];
    assert es == es[..i] + (one + es[i + 1..]);
    ScanEntriesAppend(path, depth, m, es[..i], one + es[i + 1..], clean);
    ScanEntriesAppend(path, depth, m, one, es[i + 1..], clean);
    assert one[1..] == [];
    assert ScanEntries(path, depth, m, one, clean) == Descend(path, depth, es[i], clean);
    Assoc(ScanEntries(path, depth, m, es[..i], clean), Descend(path, depth, es[i], clean),
      ScanEntries(path, depth, m, es[i + 1..], clean));
  }

  /**
   * In a listed directory whose marker is absent, subdirectory entry `i` is
   * entered in its turn: after the listing and everything the entries before it
   * produce, and before anything the entries after it produce. When the depth is
   * not used up and its path is not excluded, its part is its own scan with
   * exactly one level less.
   */
  lemma ScanEntersChild(path: string, depth: int, d: Dir, clean: string -> bool, i: nat)
    requires d.readable && d.marker == StatErr(true)
    requires i < |d.entries| && d.entries[i].DirEntry?
    ensures Scan(path, depth, d, clean)
      == [Listed(path, depth)]
      + ScanEntries(path, depth, d.marker, d.entries[..i], clean)
      + Descend(path, depth, d.entries[i], clean)
      + ScanEntries(path, depth, d.marker, d.entries[i + 1..], clean)
    ensures depth != 0 && !Contains(Join(path, d.entries[i].dir.name), Excluded) ==>
      Scan(path, depth, d, clean)
      == [Listed(path, depth)]
      + ScanEntries(path, depth, d.marker, d.entries[..i], clean)
      + Scan(Join(path, d.entries[i].dir.name), depth - 1, d.entries[i].dir, clean)
      + ScanEntries(path, depth, d.marker, d.entries[i + 1..], clean)
  {
    assert Scan(path, depth, d, clean) == [Listed(path, depth)] + ScanEntries(path, depth, d.marker, d.entries, clean);
    ScanEntriesSplit(path, depth, d.entries, clean, i);
    var next := Join(path, d.entries[i].dir.name);
    if depth != 0 && !Contains(next, Excluded) {
      assert Descend(path, depth, d.entries[i], clean) == Scan(next, depth - 1, d.entries[i].dir, clean);
    }
  }

  /** The same split around two subdirectory entries `i < j`, in that order. */
  lemma ScanEntriesInOrder(path: string, depth: int, es: seq<Entry>, clean: string -> bool, i: nat, j: nat)
    requires i < j < |es| && es[i].DirEntry? && es[j].DirEntry?
    ensures ScanEntries(path, depth, StatErr(true), es, clean)
      == ScanEntries(path, depth, StatErr(true), es[..i], clean)
      + Descend(path, depth, es[i], clean)
      + ScanEntries(path, depth, StatErr(true), es[i + 1..j], clean)
      + Descend(path, depth, es[j], clean)
      + ScanEntries(path, depth, StatErr(true), es[j + 1..], clean)
  {
    var rest := es[i + 1..];
    var k := j - i - 1;
    assert rest[..k] == es[i + 1..j];
    assert rest[k] == es[j];
    assert rest[k + 1..] == es[j + 1..];
    var m := StatErr(true);
    var a := ScanEntries(path, depth, m, es[..i], clean);
    var di := Descend(path, depth, es[i], clean);
    var b := ScanEntries(path, depth, m, es[i + 1..j], clean);
    var dj := Descend(path, depth, es[j], clean);
    var c := ScanEntries(path, depth, m, es[j + 1..], clean);
    ScanEntriesSplit(path, depth, es, clean, i);
    ScanEntriesSplit(path, depth, rest, clean, k);
    assert ScanEntries(path, depth, m, rest, clean) == b + dj + c;
    assert ScanEntries(path, depth, m, es, clean) == a + di + (b + dj + c);
    Assoc(a + di, b + dj, c);
    Assoc(a + di, b, dj);
  }

  /**
   * In a listed directory whose marker is absent, two subdirectory entries
   * `i < j` are handled in that order: everything entry `i` produces comes
   * before everything entry `j` produces.
   */
  lemma ScanChildrenInOrder(path: string, depth: int, d: Dir, clean: string -> bool, i: nat, j: nat)
    requires d.readable && d.marker == StatErr(true)
    requires i < j < |d.entries| && d.entries[i].DirEntry? && d.entries[j].DirEntry?
    ensures Scan(path, depth, d, clean)
      == [Listed(path, depth)]
      + ScanEntries(path, depth, d.marker, d.entries[..i], clean)
      + Descend(path, depth, d.entries[i], clean)
      + ScanEntries(path, depth, d.marker, d.entries[i + 1..j], clean)
      + Descend(path, depth, d.entries[j], clean)
      + ScanEntries(path, depth, d.marker, d.entries[j + 1..], clean)
  {
    var es := d.entries;
    var m := StatErr(true);
    var a := ScanEntries(path, depth, m, es[..i], clean);
    var di := Descend(path, depth, es[i], clean);
    var b := ScanEntries(path, depth, m, es[i + 1..j], clean);
    var dj := Descend(path, depth, es[j], clean);
    var c := ScanEntries(path, depth, m, es[j + 1..], clean);
    ScanEntriesInOrder(path, depth, es, clean, i, j);
    var l := [Listed(path, depth)];
    assert Scan(path, depth, d, clean) == l + (a + di + b + dj + c);
    Regroup(l, a, di, b, dj, c);
  }

  /** Regrouping of concatenations, stated on plain sequences so that the proofs using it stay cheap. */
  lemma Regroup(l: seq<Event>, a: seq<Event>, b: seq<Event>, c: seq<Event>, d: seq<Event>, e: seq<Event>)
    ensures l + (a + b + c + d + e) == l + a + b + c + d + e
  {
  }

  /** Everything a subdirectory entry produces is about a path strictly below `path`. */
  lemma DescendBelow(path: string, depth: int, e: Entry, clean: string -> bool)
    requires e.DirEntry?
    ensures forall ev :: ev in Descend(path, depth, e, clean) ==> IsPrefix(path + "/", ev.path)
  {
    var next := Join(path, e.dir.name);
    if depth != 0 && !Contains(next, Excluded) {
      ScanEventsInFrame(next, depth - 1, e.dir, clean);
      forall ev | ev in Scan(next, depth - 1, e.dir, clean)
        ensures IsPrefix(path + "/", ev.path)
      {
        assert InFrame(ev, next, depth - 1, clean);
        if ev.path != next {
          PrefixTransitive(path + "/", next + "/", ev.path);
        }
      }
    }
  }

  /** In a directory that is not a project, the loop's only events about the directory itself are failed marker stats. */
  lemma {:induction false} ScanEntriesOwnEvents(path: string, depth: int, marker: Stat, es: seq<Entry>, clean: string -> bool)
    requires marker != StatOk
    ensures forall ev :: ev in ScanEntries(path, depth, marker, es, clean) && ev.path == path ==> ev == StatFailed(path)
    decreases es
  {
    if es != [] {
      ScanEntriesOwnEvents(path, depth, marker, es[1..], clean);
      if es[0].DirEntry? {
        DescendBelow(path, depth, es[0], clean);
      }
    }
  }

  /**
   * A frame whose marker stat does not succeed never cleans its own directory:
   * its only events about it are the listing outcome and failed marker stats.
   */
  lemma ScanNotProject(path: string, depth: int, d: Dir, clean: string -> bool)
    requires d.marker != StatOk
    ensures forall ev :: ev in Scan(path, depth, d, clean) && ev.path == path ==>
      ev == ReadFailed(path) || ev == Listed(path, depth) || ev == StatFailed(path)
  {
    if d.readable {
      ScanEntriesOwnEvents(path, depth, d.marker, d.entries, clean);
    }
  }

  /**
   * A scan cleans its starting directory if and only if that directory can be
   * listed, its marker stat succeeds and it has a subdirectory entry.
   */
  lemma ScanCleansSelfIff(path: string, depth: int, d: Dir, clean: string -> bool)
    ensures (exists ev :: ev in Scan(path, depth, d, clean) && ev.Cleaned? && ev.path == path)
      <==> d.readable && d.marker == StatOk && HasSubdir(d.entries)
  {
    if d.readable && d.marker == StatOk && HasSubdir(d.entries) {
      ScanProjectRoot(path, depth, d, clean);
      assert Cleaned(path, clean(path)) in Scan(path, depth, d, clean);
    } else if !d.readable {
      ScanUnreadable(path, depth, d, clean);
    } else if d.marker != StatOk {
      ScanNotProject(path, depth, d, clean);
    } else {
      ScanNoSubdirs(path, depth, d, clean);
    }
  }

  // ---------------------------------------------------------------------------
  // The depth bound: nothing deeper than `depth` levels is ever examined.

  /**
   * `a` and `b` agree on everything a scan with `n` levels to go may look at:
   * their marker stats, readability and entry lists (kinds and names), and,
   * while `n != 0`, the same for each pair of subdirectories with `n - 1`.
   */
  ghost predicate SameUpTo(a: Dir, b: Dir, n: int)
    decreases a
  {
    a.marker == b.marker && a.readable == b.readable && SameEntriesUpTo(a.entries, b.entries, n)
  }

  ghost predicate SameEntriesUpTo(es: seq<Entry>, fs: seq<Entry>, n: int)
    decreases es
  {
    |es| == |fs| && (es != [] ==> SameEntryUpTo(es[0], fs[0], n) && SameEntriesUpTo(es[1..], fs[1..], n))
  }

  ghost predicate SameEntryUpTo(e: Entry, f: Entry, n: int)
    decreases e
  {
    match e
    case FileEntry(_) => f.FileEntry?
    case DirEntry(c) => f.DirEntry? && c.name == f.dir.name && (n != 0 ==> SameUpTo(c, f.dir, n - 1))
  }

  /**
   * Two trees that agree down to `depth` levels give the same trace: the scan
   * never reads anything deeper (for a negative depth the trees must agree
   * everywhere).
   */
  lemma {:induction false} ScanDepthBound(path: string, depth: int, a: Dir, b: Dir, clean: string -> bool)
    requires SameUpTo(a, b, depth)
    ensures Scan(path, depth, a, clean) == Scan(path, depth, b, clean)
    decreases a
  {
    if a.readable {
      ScanEntriesDepthBound(path, depth, a.marker, a.entries, b.entries, clean);
    }
  }

  lemma {:induction false} ScanEntriesDepthBound(path: string, depth: int, marker: Stat, es: seq<Entry>, fs: seq<Entry>, clean: string -> bool)
    requires SameEntriesUpTo(es, fs, depth)
    ensures ScanEntries(path, depth, marker, es, clean) == ScanEntries(path, depth, marker, fs, clean)
    decreases es
  {
    if es != [] {
      ScanEntriesDepthBound(path, depth, marker, es[1..], fs[1..], clean);
      if es[0].DirEntry? {
        DescendDepthBound(path, depth, es[0], fs[0], clean);
      }
    }
  }

  lemma {:induction false} DescendDepthBound(path: string, depth: int, e: Entry, f: Entry, clean: string -> bool)
    requires e.DirEntry? && SameEntryUpTo(e, f, depth)
    ensures f.DirEntry? && Descend(path, depth, e, clean) == Descend(path, depth, f, clean)
    decreases e
  {
    if depth != 0 {
      ScanDepthBound(Join(path, e.dir.name), depth - 1, e.dir, f.dir, clean);
    }
  }

  /** No directory within `n` levels (counted as the scan counts depth) has its marker stat succeed. */
  ghost predicate NoProjectWithin(d: Dir, n: int)
    decreases d
  {
    d.marker != StatOk && NoProjectInEntries(d.entries, n)
  }

  ghost predicate NoProjectInEntries(es: seq<Entry>, n: int)
    decreases es
  {
    es != [] ==> NoProjectInEntry(es[0], n) && NoProjectInEntries(es[1..], n)
  }

  ghost predicate NoProjectInEntry(e: Entry, n: int)
    decreases e
  {
    e.DirEntry? && n != 0 ==> NoProjectWithin(e.dir, n - 1)
  }

  /**
   * Without a marker within `depth` levels, nothing is cleaned: a project
   * deeper than the bound is never found.
   */
  lemma {:induction false} ScanNoProjectWithin(path: string, depth: int, d: Dir, clean: string -> bool)
    requires NoProjectWithin(d, depth)
    ensures forall e :: e in Scan(path, depth, d, clean) ==> !e.Cleaned?
    decreases d
  {
    if d.readable {
      ScanEntriesNoProject(path, depth, d.marker, d.entries, clean);
    }
  }

  lemma {:induction false} ScanEntriesNoProject(path: string, depth: int, marker: Stat, es: seq<Entry>, clean: string -> bool)
    requires marker != StatOk && NoProjectInEntries(es, depth)
    ensures forall e :: e in ScanEntries(path, depth, marker, es, clean) ==> !e.Cleaned?
    decreases es
  {
    if es != [] {
      ScanEntriesNoProject(path, depth, marker, es[1..], clean);
      if es[0].DirEntry? {
        DescendNoProject(path, depth, es[0], clean);
      }
    }
  }

  lemma {:induction false} DescendNoProject(path: string, depth: int, e: Entry, clean: string -> bool)
    requires e.DirEntry? && NoProjectInEntry(e, depth)
    ensures forall ev :: ev in Descend(path, depth, e, clean) ==> !ev.Cleaned?
    decreases e
  {
    if depth != 0 {
      ScanNoProjectWithin(Join(path, e.dir.name), depth - 1, e.dir, clean);
    }
  }
}
