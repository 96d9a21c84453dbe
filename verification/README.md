# crawler — a Dafny model of the walk collector

`crawler` walks a directory tree and keeps the files whose extension is in a
configured list. It numbers the files it keeps 0, 1, 2, … and, when copying
is on, plans one copy per kept file into a target directory under the name
`<uid>_<Name>`. This project models the program's decision logic as pure
functions and proves properties about it:

- **`FileTypes`** (`file_types.dfy`) models `ParseFileTypes`. It splits the
  `-FileType` flag on a separator, lower-cases every piece and stores it as a
  key of a `map<string, bool>` whose values are all `true`. An extension is a
  target when its lower-cased form is a key.
- **`Crawler`** (`crawler.dfy`) models the callback that `main` passes to
  `filepath.Walk`, together with the variables it closes over (`Count`,
  `AllMetadata`, `CopyJobs`). The walk is a left fold over a sequence of
  callback invocations (`WalkEvent`s) given as input. For each entry the fold
  snapshots a `FileMetadata`. It keeps the entry when the entry is not a
  directory and its extension is a target. A kept entry gets the current count
  as its uid, and the count advances only then. When copying is on, a
  `CopyJob` is built for each kept entry. The first error the walk reports
  ends the walk, and `filepath.Walk` returns that error. `Crawl` wires the
  two parts together as `main` does: it splits the flag on `","` and walks.
- Supporting modules model the library calls the core depends on:
  - `Strings` (`strings.dfy`): Go's `strings.Split`, including the
    empty-separator case, and `strings.ToLower` on ASCII. `strings.Join` is
    modelled only as the inverse of `Split`, for the round trip.
  - `Paths` (`paths.dfy`): `filepath.Ext` for `/`-separated paths.
  - `Decimal` (`decimal.dfy`): `fmt.Sprint` of a non-negative uid, and the
    parse that reads it back.

Each operation is tied to an independent characterisation:

- The collector fold is tied to an independent reference definition. That
  reference is the filter of the matching visits before the first failure,
  numbered from 0 (`WalkCollectsMatchesBeforeFailure`).
- `Split` is tied to `Join` by a round trip.
- `Lower` is tied to an independent case-insensitive equality, `EqualFold`.
- `Digits` is tied to `ParseDigits`.
- `Ext` is characterised by the suffix it returns.

Two behaviours of the source are kept deliberately:

- **The empty key.** An empty flag value, or a leading, trailing or doubled
  separator, puts `""` into the target set. A non-directory whose last path
  element has no dot then matches.
- **Split on `""`.** `strings.Split("", "")` returns no pieces at all. So
  `ParseFileTypes("", "")` is the empty set, and nothing matches.

For a separator longer than one character, a trailing or doubled separator
does not always yield an empty piece: `Split("baaa", "aa") == ["b", "a"]`,
and `Split("xababaabay", "aba") == ["x", "ba", "y"]` although `"abaaba"`
occurs at index 3. So `SplitTrailingSep`, `SplitDoubledSep`,
`TrailingSepHasEmptyKey` and `DoubledSepHasEmptyKey` are stated for
one-character separators, which covers the `","` that `main` uses.

## Model

| member | source | states |
|---|---|---|
| `FileTypes.ParseFileTypes` | main.go:66-73 | every lower-cased piece of the split flag is a key; every key is the lower-cased form of some piece; every value is `true` |
| `FileTypes.InsertAll` | main.go:68-71 | the insertion loop leaves exactly the lower-cased pieces as keys, all mapped to `true` |
| `FileTypes.IsTargetFileType` | main.go:149 | the lookup of the lower-cased extension; `TargetIffSomePieceEqualFold` and `MatchIgnoresCase` state what it accepts |
| `FileTypes.TargetIffSomePieceEqualFold` | main.go:149 | an extension is a target iff it equals some configured piece up to ASCII case |
| `FileTypes.InsertedIffEqualFold` | main.go:69-71 | a lower-cased extension is a key iff some inserted piece equals the extension up to case |
| `FileTypes.MatchIgnoresCase` | main.go:149 | two extensions equal up to case are both targets or both not |
| `FileTypes.EmptyFlagHasEmptyKey` | main.go:67-70 | with a non-empty separator, an empty flag value makes `""` a key |
| `FileTypes.LeadingSepHasEmptyKey` | main.go:67-70 | a flag that starts with the separator makes `""` a key |
| `FileTypes.TrailingSepHasEmptyKey` | main.go:67-70 | a flag that ends with a one-character separator makes `""` a key |
| `FileTypes.DoubledSepHasEmptyKey` | main.go:67-70 | two adjacent one-character separators make `""` a key |
| `FileTypes.EmptyFlagEmptySepHasNoKey` | main.go:67-70 | splitting `""` on `""` gives no piece, so the set is empty and no extension is a target |
| `FileTypes.DefaultFlagMatchesUpperCase` | main.go:100 | the default flag `.py` parses to the single key `.py`, accepts `.PY` and rejects the empty extension |
| `Strings.Lower` | main.go:70 | `strings.ToLower` on ASCII; what it means is stated by `LowerEqualIffEqualFold` and `LowerNormalizes` |
| `Strings.Split` | main.go:67 | a non-empty separator yields at least one piece; the empty separator yields as many pieces as characters |
| `Strings.SplitEmptySep` | main.go:67 | the empty separator yields one piece per character, piece i being the one-character string of character i |
| `Strings.IndexFrom` | main.go:67 | the search result is -1 or a start position where the whole separator fits; which position is stated by `IndexFromSpec` |
| `Strings.IndexFromSpec` | main.go:67 | the result is the leftmost occurrence of the separator at or after the start, or -1 when there is none |
| `Strings.SplitAt` | main.go:67 | the leftmost occurrence of the separator cuts off the first piece, and the rest is split on |
| `Strings.SplitJoin` | main.go:67 | joining the pieces with the separator gives back the flag string |
| `Strings.SplitJoinNonEmptySep` | main.go:67 | the same round trip for a non-empty separator |
| `Strings.JoinExplode` | main.go:67 | the one-character pieces of the empty-separator split concatenate back to the string |
| `Strings.SplitNonEmptySep` | main.go:67 | a non-empty separator yields at least one piece, and no piece contains the separator |
| `Strings.SplitEmpty` | main.go:67 | the empty string splits into the single piece `""` |
| `Strings.SplitLeadingSep` | main.go:67 | a leading separator makes the first piece empty |
| `Strings.SplitTrailingSep` | main.go:67 | with a one-character separator, a trailing separator makes the last piece empty |
| `Strings.SplitDoubledSep` | main.go:67 | with a one-character separator, two adjacent separators produce an empty piece |
| `Strings.MultiCharSeparatorOverlap` | main.go:67 | for a two-character separator, a trailing separator need not leave an empty piece |
| `Strings.MultiCharDoubledSeparator` | main.go:67 | for a three-character separator, a doubled separator need not leave an empty piece |
| `Strings.LowerEqualIffEqualFold` | main.go:149 | two strings lower-case to the same string iff they are equal up to ASCII case |
| `Strings.LowerNormalizes` | main.go:70 | lower-casing keeps the length, leaves no upper-case letter, is idempotent, and preserves equality up to case |
| `Paths.Ext` | main.go:139 | `filepath.Ext`; its result is characterised by `ExtSpec` and `ExtOfSuffix` |
| `Paths.ExtSpec` | main.go:139 | the extension is `""` or a suffix of the path that starts with `.` and has no `/` and no further `.`; it is `""` iff every `.` in the path is followed by a `/` |
| `Paths.ExtScanSpec` | main.go:139 | the backward scan returns the suffix from the last dot of the final element, or `""` when that element has no dot |
| `Paths.ExtOfSuffix` | main.go:139 | a path that ends in a dot followed by neither `.` nor `/` has that ending as its extension |
| `Decimal.Digits` | main.go:168 | the uid is rendered as at least one decimal digit, with no leading zero unless the uid is 0 |
| `Decimal.ParseDigitsRoundTrip` | main.go:168 | parsing the rendered uid gives the uid back |
| `Decimal.DigitsInjective` | main.go:168 | two uids render the same iff they are equal |
| `Crawler.Snapshot` | main.go:136-145 | the `FileMetadata` of a visited entry; `Walk` and `WalkCollectsMatchesBeforeFailure` state which snapshots end up recorded and with which uid |
| `Crawler.IsMatch` | main.go:149-150 | the keep test; `MatchIffPieceEqualFold` states it against the flag's pieces and `DirectoryNeverMatches` excludes directories |
| `Crawler.DestinationBase` | main.go:168 | the copy's base name `<uid>_<Name>`; `UidRecoverable` and `DestinationBaseInjective` state that the uid is recoverable from it and that it is unique per uid |
| `Crawler.JobFor` | main.go:165-169 | the copy job of a record; `Walk` states one job per record with the record's path as source and `ToDir` with `<i>_<Name>` as destination |
| `Crawler.Callback` | main.go:136-173 | one callback keeps the collector consistent (count equals records, uids 0..n-1, no directory, one job per record or none), never alters records or jobs already collected, and adds one record exactly when the entry matches |
| `Crawler.WalkFrom` | main.go:131-176 | the fold of the callback over the walk's invocations; `WalkFromCollectsMatches`, `WalkFromStopsAtFailure` and `WalkCollectsMatchesBeforeFailure` state its result |
| `Crawler.Crawl` | main.go:122-131 | the flag split on `,` followed by the walk from empty collector state; `SampleTreeCrawl` states its result on a sample tree |
| `Crawler.Walk` | main.go:128-176 | after the walk, `Count` equals the number of records; record i has uid i, is not a directory and has a target extension; with copying on there is one job per record, in order, whose source is the record's path and whose destination is `ToDir` joined with `<i>_<Name>`; with copying off there is no job |
| `Crawler.WalkFromPreservesConsistent` | main.go:131-176 | every callback keeps count, uids, directory exclusion and jobs consistent |
| `Crawler.MatchesMembers` | main.go:150-151 | the reference filter contains exactly the matching visited entries |
| `Crawler.WalkFromCollectsMatches` | main.go:149-173 | without a failure, the fold appends exactly the records of the matching visits, in walk order, numbered on from the current count, and returns no error |
| `Crawler.WalkFromStopsAtFailure` | main.go:132-134 | the walk's result is the collector built from the events before the first failure, together with that failure's error |
| `Crawler.WalkCollectsMatchesBeforeFailure` | main.go:128-176 | the records are exactly the matching visits before the first failure, in walk order, with uids 0, 1, 2, …; `Count` is their number; the error returned is the first failure's, or none |
| `Crawler.WalkIgnoresEventsAfterFailure` | main.go:131-134 | events after a reported failure do not change the result |
| `Crawler.UidRecoverable` | main.go:168 | the digits before the first `_` of a destination base name parse back to the uid |
| `Crawler.DestinationBaseInjective` | main.go:168 | different uids give different destination base names, whatever the file names |
| `Crawler.WalkDestinationsDistinct` | main.go:165-171 | the copy jobs of one walk have pairwise distinct destination base names, and job i's name carries uid i |
| `Crawler.MatchIffPieceEqualFold` | main.go:149-150 | an entry matches iff it is not a directory and its extension equals a configured piece up to case |
| `Crawler.TrailingCommaKeepsExtensionless` | main.go:149-150 | with a trailing `,` in the flag, a non-directory whose last element has no dot is kept |
| `Crawler.DirectoryNeverMatches` | main.go:150 | in any walk, no directory is among the matching entries, whatever its extension and the targets |
| `CrawlerScenario.SampleMatches` | main.go:149-150 | in the sample tree only `a.py` and `sub/c.py` match `.py`; `b.txt` and the directories do not |
| `CrawlerScenario.SampleNames` | main.go:168 | uid 0 with `a.py` gives `0_a.py`, and uid 1 with `c.py` gives `1_c.py` |
| `CrawlerScenario.SampleWalk` | main.go:131-176 | walking the sample tree for `.py` with copying on yields two records with uids 0 and 1, two jobs, and no error |
| `CrawlerScenario.SampleTreeCrawl` | main.go:122-176 | the same result when starting from the flag string `.py` split on `,` |
| `CrawlerScenario.UpperCaseExtensionKept` | main.go:149-150 | `a.PY` is kept under the flag `.py`, and a directory named `x.py` is not |

## Left out

- `CopyFile` (main.go:40-64) is left out. It stats, opens, creates and `io.Copy`s files, all of which is I/O.
- The worker pool is left out: `CopyFileWorker`, the job and error channels, the `sync.WaitGroup` and the error-draining goroutine (main.go:75-84, main.go:178-200). This is concurrency. The model ends at the ordered list of planned copy jobs. The `wg.Add(1)` after the send (main.go:188-189) can race with a worker's `wg.Done()`, which a sequential model cannot express.
- `filepath.Walk`'s traversal is not modelled: its lexical order, its `lstat`/`readdir` calls and the one call carrying the `readdir` error of an unreadable directory. The walk is an input sequence of callback invocations.
- `filepath.Join`'s path cleaning is not modelled. A destination is kept as the pair (`ToDir`, base name). The properties are stated about the base name.
- `Paths.Ext`, `Paths.ExtSpec`: follows `filepath.Ext` for `/`-separated paths only. The Windows separator `\` is not modelled.
- `Strings.Lower`, `Strings.LowerEqualIffEqualFold`: lower-casing is restricted to ASCII `A`–`Z`. Go's `strings.ToLower` also folds non-ASCII letters.
- `Strings.Split`: one Dafny `char` stands for one rune. The empty-separator split of invalid UTF-8 is not modelled.
- `Crawler.Walk`: the uid is an unbounded `nat`. The source's `int64(Count)` cannot overflow for any real directory tree.
- `GetHomeDir`, flag parsing, log-file setup, the stdout report and the CSV writer are left out (main.go:32-38, main.go:86-126, main.go:153-162, main.go:203-229). This is glue and formatting. `EchoFilesFlag` only affects printing, so it is not part of `Config`.
- `ModDate`, `Size` and `IsReg` are carried through as opaque fields. `ModDate` is a `Timestamp` wrapper, and `Size` is an unbounded integer.
- `Path` is stored exactly as `filepath.Walk` passes it (main.go:143), which is relative when the root is relative; the model does the same.
