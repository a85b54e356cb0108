# Flutter project cleanup scanner, modelled in Dafny

The program walks a directory tree down to a fixed depth, looking for Flutter
projects. A project is a directory whose `pubspec.yaml` can be stat'ed. It runs
`flutter clean` in each project it finds and does not descend into that
project. This model covers the part with real control flow: `scan` in main.go
and its helpers `contains` and `fileExists`.

- **The filesystem** is a finite tree: `FileSystem.Dir` and `FileSystem.Entry`.
  Each directory carries three things: the result of stat'ing its `pubspec.yaml`
  (`StatOk`, or `StatErr` that is or is not "does not exist"), whether `os.ReadDir`
  succeeds, and the entries that call lists, in their order. The tree does not
  change during a scan.
- **The Cleaner** (`flutter clean` run in a directory) is a parameter
  `clean: string -> bool`. It gives the outcome for each path.
- **Progress output** is a trace of `Scanner.Event`s. `ReadFailed` stands for the
  "cannot read given directory" report. `StatFailed` stands for a failed marker
  stat. `Cleaned(path, ok)` stands for "project found", followed by the outcome of
  the clean. `Listed(path, depth)` records a successful listing and the depth
  left at that point; the program prints nothing there.
- `Scanner.Scan` defines the trace by recursion on the tree. `Scanner.ScanDir` is
  `scan` written the way the program does it: one loop over the entries, with
  `continue` and early `return`, calling itself for subdirectories. It is proved
  to produce exactly `Scan`'s trace. The lemmas in `ScanProperties` state what a
  scan promises in terms of `Scan`.
- Termination comes from the tree, not from the depth. In the model, a
  negative start depth never reaches 0, so it imposes no depth bound. The scan
  still stops at excluded paths, at projects and at unreadable directories.

Three behaviours of the code are easy to miss, and the model keeps them:

- A directory that holds `pubspec.yaml` but has no subdirectory entry is never
  cleaned. The marker check sits inside the loop over directory entries
  (`ScanNoSubdirs`).
- The depth is any integer, not only a non-negative one. A negative depth
  imposes no depth bound.
- An unreadable start directory is reported and the scan just returns. Nothing
  in `scan` makes this fatal.

## Model

| member | source | states |
|---|---|---|
| `Strings.StringContains` | main.go:114 | Go's `strings.Contains`: true exactly when the needle occurs at some position of the haystack |
| `Strings.Contains` | main.go:112-120 | `contains` is true exactly when some needle is a substring of the haystack; with no needles it is false |
| `Strings.ContainsExtend` | main.go:104-105 | a path that contains an excluded substring still contains one after anything is appended to it |
| `FileSystem.Join` | main.go:104 | joining gives `path`, then `/`, then the entry name |
| `FileSystem.FileExists` | main.go:131-142 | a successful stat means present, a not-exist error means absent without error, and any other stat error is reported as an error |
| `Scanner.Scan` | main.go:61-110 | the trace of one scan frame always starts with an event about the frame's own path |
| `Scanner.ScanDir` | main.go:61-110 | the loop with `continue` and early `return`, recursing into subdirectories, produces exactly the trace `Scan` defines |
| `ScanProperties.ScanIgnoresFiles` | main.go:68-71 | removing every non-directory entry, at every level, leaves the trace unchanged: such entries cause no marker check, cleanup or recursion |
| `ScanProperties.ScanUnreadable` | main.go:62-66 | a directory that cannot be listed gives one failure event and nothing else: no cleanup, nothing listed below it |
| `ScanProperties.ScanProjectRoot` | main.go:73-101 | a readable directory whose marker stat succeeds and that has a subdirectory entry is listed, then cleaned once, in place, and nothing else happens in that frame, whether or not the clean succeeds |
| `ScanProperties.ScanNoSubdirs` | main.go:68-80 | a readable directory with no subdirectory entry is only listed: never cleaned, even when it holds `pubspec.yaml` |
| `ScanProperties.ScanMarkerError` | main.go:74-78 | when the marker stat fails other than not-exist, the frame reports that failure once per subdirectory entry and does nothing else |
| `ScanProperties.ScanEntriesAppend` | main.go:68-109 | in a directory that is not a project, the loop handles the entries one after another: the trace of two lists of entries in a row is the first list's trace followed by the second's |
| `ScanProperties.ScanEntriesSplit` | main.go:68-109 | in a directory whose marker is absent, the loop's trace is the trace of the entries before subdirectory `i`, then entry `i`'s part, then the trace of the entries after it |
| `ScanProperties.ScanEntersChild` | main.go:104-107 | in a listed directory whose marker is absent, subdirectory entry `i` is handled after the listing and the earlier entries and before the later ones; when depth is not 0 and its path is not excluded, its part is its own scan with exactly depth one less |
| `ScanProperties.ScanEntriesInOrder` | main.go:68-109 | in a directory whose marker is absent, the parts of subdirectory entries `i < j` come in that order in the loop's trace |
| `ScanProperties.ScanChildrenInOrder` | main.go:68-109 | in a listed directory whose marker is absent, everything subdirectory entry `i` produces comes before everything a later subdirectory entry `j` produces |
| `ScanProperties.DescendBelow` | main.go:104-107 | everything a subdirectory entry produces is about a path strictly below the current one |
| `ScanProperties.ScanEntriesOwnEvents` | main.go:73-80 | in a directory whose marker stat does not succeed, the loop's only events about the directory itself are failed marker stats |
| `ScanProperties.ScanNotProject` | main.go:73-80 | a frame whose marker stat does not succeed never cleans its own directory: its only events about it are the listing outcome and failed marker stats |
| `ScanProperties.ScanCleansSelfIff` | main.go:61-101 | a scan cleans its starting directory if and only if the directory can be listed, its marker stat succeeds and it has a subdirectory entry |
| `ScanProperties.ScanEventsInFrame` | main.go:61-110 | every event is about the frame's path or about a path below it (prefix `path/`); the latter only when depth is not 0, never with an excluded substring, and listed with less depth left, never negative from a non-negative start; every cleanup outcome is the Cleaner's answer for that path |
| `ScanProperties.ScanAvoidsExcluded` | main.go:104-107 | no path other than the start that contains an excluded substring is ever listed, checked or cleaned |
| `ScanProperties.ExcludedBelow` | main.go:104-105 | a path below an excluded path is excluded too |
| `ScanProperties.ScanExcludedRoot` | main.go:104-107 | when the start path contains an excluded substring, every event is about the start path: nothing is entered |
| `ScanProperties.ScanDepthZero` | main.go:106-107 | with depth 0 every event is about the start directory |
| `ScanProperties.ScanListedDepths` | main.go:106-107 | from a start depth D >= 0, every listing has between 0 and D levels left, and exactly D only at the start path |
| `ScanProperties.ScanDepthBound` | main.go:106-107 | two trees that agree down to `depth` levels give the same trace: nothing deeper is ever read |
| `ScanProperties.ScanNoProjectWithin` | main.go:73-107 | when no directory within the depth bound has a marker, nothing is cleaned |

## Left out

- Flag parsing, the `DEV_PATH` fallback and the exit on a missing path (main.go:18-37): configuration I/O, not part of the scan.
- `main`, `fileSize` and the size reports (main.go:39-59, 83-88, 122-129): printing only; they do not affect which directories are scanned or cleaned.
- The `flutter clean` process (main.go:92-94): it is the `clean` parameter. The model has no process semantics and no timeouts. The outcome depends only on the path.
- The text of the progress messages: each message is one abstract event. The "project found" message and the clean's outcome are one `Cleaned` event.
- `filepath.Join`'s path cleaning (`..`, doubled separators): a join is plain concatenation with `/`.
- Symbolic links, cycles and a filesystem that changes during the scan: the tree is finite and fixed. In particular, the marker stat gives the same answer on every iteration of a frame.
- Go's 64-bit `int` for the depth: the model's depth is an unbounded integer, and `depth - 1` never wraps. In Go, a start depth of exactly -2^63 wraps to 2^63 - 1 at the first descent, and that count reaches 0 only 2^63 - 1 levels further down. So for that start value, the depth that `Listed` records and `InFrame`'s "less depth left" differ from Go's `depth` from the first level below the start. Which directories are listed, checked and cleaned is the same unless the tree is more than 2^63 levels deep.
- `Scanner.Scan`: its own contract only says the trace starts at the frame's path. What a frame does is stated by the lemmas in `ScanProperties`, by case: it cannot be listed, it is a project, the marker stat failed, or the marker is absent. `ScanEntersChild` and `DescendBelow` state the step into a child. `ScanDir` is proved equal to `Scan`.
- `Strings.StringContains`: Go's `strings.Contains` compares bytes, and the model compares characters. The two agree here because every excluded pattern is ASCII.
