/**
 The collector that `main` passes to `filepath.Walk`, as a pure fold over the
 sequence of callback invocations the walk makes. For each visited entry it
 snapshots the metadata, keeps the entry when it is not a directory and its
 lower-cased extension is a target, numbers the kept entries 0, 1, 2, … and,
 when copying is on, plans one copy job per kept entry named `<uid>_<Name>`.
 The first error the walk reports ends the walk.
 */
module Crawler {
  import opened Strings
  import opened Decimal
  import opened Paths
  import opened FileTypes

  datatype Option<T> = None | Some(value: T)

  /** A `time.Time`, carried through unchanged. */
  datatype Timestamp = Timestamp(unixNanos: int)

  /** What `os.FileInfo` reports about one entry. */
  datatype FileInfo = FileInfo(name: string, modTime: Timestamp, isDir: bool, size: int, isRegular: bool)

  /** An error reported by the walk (an `lstat` or `readdir` failure). */
  datatype WalkError = WalkError(message: string)

  /** A visited entry: the `path` and `info` arguments of the callback. */
  datatype Entry = Entry(path: string, info: FileInfo)

  /** One invocation of the callback: `(path, info, nil)` or `(path, _, err)`. */
  datatype WalkEvent =
    | Visit(entry: Entry)
    | Failure(path: string, err: WalkError)

  /** `FileMetadata`. */
  datatype FileMetadata = FileMetadata(
    uid: nat,
    name: string,
    ext: string,
    modDate: Timestamp,
    isDir: bool,
    size: int,
    path: string,
    isReg: bool)

  /** `CopyJob`: the destination is `filepath.Join(ToDir, base)`, kept as its two arguments. */
  datatype CopyJob = CopyJob(source: string, destination: JoinedPath)

  /** The flags the callback reads: the parsed target set, `-CopyFilesFlag` and `-ToDir`. */
  datatype Config = Config(targets: map<string, bool>, copyFiles: bool, toDir: string)

  /** The variables the callback closes over: `Count`, `AllMetadata` and `CopyJobs`. */
  datatype Collector = Collector(count: nat, allMetadata: seq<FileMetadata>, copyJobs: seq<CopyJob>)

  /** The collector after the walk, and the error `filepath.Walk` returned, if any. */
  datatype WalkResult = WalkResult(collector: Collector, err: Option<WalkError>)

  const Start := Collector(0, [], [])

  /** The `FileMetadata` the callback builds for a visited entry, numbered `uid`. */
  function Snapshot(uid: nat, e: Entry): FileMetadata {
    FileMetadata(uid, e.info.name, Ext(e.path), e.info.modTime, e.info.isDir, e.info.size, e.path, e.info.isRegular)
  }

  /** The callback's test: not a directory, and the lower-cased extension is a target. */
  predicate IsMatch(targets: map<string, bool>, e: Entry) {
    !e.info.isDir && IsTargetFileType(targets, Ext(e.path))
  }

  /** The base name of a copy: `fmt.Sprint(uid) + "_" + Name`. */
  function DestinationBase(uid: nat, name: string): string {
    Digits(uid) + "_" + name
  }

  function JobFor(toDir: string, data: FileMetadata): CopyJob {
    CopyJob(data.path, JoinedPath(toDir, DestinationBase(data.uid, data.name)))
  }

  /**
   The callback on a visited entry (the `err == nil` path). One step keeps
   the collector consistent, never changes what was already collected, and
   adds at most one record, exactly when the entry matches.
   */
  function Callback(cfg: Config, c: Collector, e: Entry): (c': Collector)
    ensures Consistent(cfg, c) ==> Consistent(cfg, c')
    ensures c.allMetadata <= c'.allMetadata && c.copyJobs <= c'.copyJobs
    ensures |c'.allMetadata| == |c.allMetadata| + (if IsMatch(cfg.targets, e) then 1 else 0)
  {
    var data := Snapshot(c.count, e);
    if IsMatch(cfg.targets, e) then
      Collector(
        c.count + 1,
        c.allMetadata + [data],
        if cfg.copyFiles then c.copyJobs + [JobFor(cfg.toDir, data)] else c.copyJobs)
    else
      c
  }

  /** `filepath.Walk` driving the callback over the events, from collector state `c`. */
  function WalkFrom(cfg: Config, c: Collector, events: seq<WalkEvent>): WalkResult
    decreases |events|
  {
    if |events| == 0 then WalkResult(c, None)
    else
      match events[0]
      case Failure(_, err) => WalkResult(c, Some(err))
      case Visit(e) => WalkFrom(cfg, Callback(cfg, c, e), events[1..])
  }

  /**
   What the collector variables satisfy between callbacks: `Count` is the
   number of records, record `i` has uid `i`, no record is a directory, and
   the copy jobs are one per record in the same order, or none.
   */
  ghost predicate Consistent(cfg: Config, c: Collector) {
    && c.count == |c.allMetadata|
    && (forall i :: 0 <= i < |c.allMetadata| ==> c.allMetadata[i].uid == i && !c.allMetadata[i].isDir)
    && (forall i :: 0 <= i < |c.allMetadata| ==> IsTargetFileType(cfg.targets, c.allMetadata[i].ext))
    && (if cfg.copyFiles then
          && |c.copyJobs| == |c.allMetadata|
          && forall i :: 0 <= i < |c.copyJobs| ==> c.copyJobs[i] == JobFor(cfg.toDir, c.allMetadata[i])
        else
          c.copyJobs == [])
  }

  /** The whole walk, from empty collector state. */
  function Walk(cfg: Config, events: seq<WalkEvent>): (r: WalkResult)
    ensures r.collector.count == |r.collector.allMetadata|
    ensures forall i :: 0 <= i < |r.collector.allMetadata| ==>
              && r.collector.allMetadata[i].uid == i
              && !r.collector.allMetadata[i].isDir
              && IsTargetFileType(cfg.targets, r.collector.allMetadata[i].ext)
    ensures cfg.copyFiles ==> |r.collector.copyJobs| == |r.collector.allMetadata|
    ensures cfg.copyFiles ==> forall i :: 0 <= i < |r.collector.copyJobs| ==>
              && r.collector.copyJobs[i].source == r.collector.allMetadata[i].path
              && r.collector.copyJobs[i].destination.dir == cfg.toDir
              && r.collector.copyJobs[i].destination.base == DestinationBase(i, r.collector.allMetadata[i].name)
    ensures !cfg.copyFiles ==> r.collector.copyJobs == []
  {
    WalkFromPreservesConsistent(cfg, Start, events);
    WalkFrom(cfg, Start, events)
  }

  /** `main` (lines 122-176): the `-FileType` flag split on "," and the walk. */
  function Crawl(fileTypes: string, copyFiles: bool, toDir: string, events: seq<WalkEvent>): WalkResult {
    Walk(Config(ParseFileTypes(fileTypes, ","), copyFiles, toDir), events)
  }

  lemma {:induction false} WalkFromPreservesConsistent(cfg: Config, c: Collector, events: seq<WalkEvent>)
    requires Consistent(cfg, c)
    ensures Consistent(cfg, WalkFrom(cfg, c, events).collector)
    decreases |events|
  {
    if |events| > 0 && events[0].Visit? {
      var c' := Callback(cfg, c, events[0].entry);
      assert Consistent(cfg, c');
      WalkFromPreservesConsistent(cfg, c', events[1..]);
    }
  }

  // ---------------------------------------------------------------------------
  // Reference definitions, independent of the fold

  /** The index of the first failure, or `|events|` when the walk reports none. */
  function FirstFailure(events: seq<WalkEvent>): (k: nat)
    ensures k <= |events|
    ensures k < |events| ==> events[k].Failure?
    ensures forall j :: 0 <= j < k ==> events[j].Visit?
    decreases |events|
  {
    if |events| == 0 || events[0].Failure? then 0 else 1 + FirstFailure(events[1..])
  }

  /** The matching visits, in walk order. */
  function Matches(targets: map<string, bool>, events: seq<WalkEvent>): (m: seq<Entry>)
    decreases |events|
  {
    if |events| == 0 then []
    else
      var ev := events[0];
      (if ev.Visit? && IsMatch(targets, ev.entry) then [ev.entry] else []) + Matches(targets, events[1..])
  }

  /** `Matches` keeps exactly the matching visited entries. */
  lemma {:induction false} MatchesMembers(targets: map<string, bool>, events: seq<WalkEvent>)
    ensures forall e :: e in Matches(targets, events) <==> Visit(e) in events && IsMatch(targets, e)
    decreases |events|
  {
    if |events| > 0 {
      MatchesMembers(targets, events[1..]);
      assert events == [events[0]] + events[1..];
    }
  }

  /** The records for the entries `m`, numbered from `first`. */
  function Records(first: nat, m: seq<Entry>): (rs: seq<FileMetadata>) {
    seq(|m|, i requires 0 <= i < |m| => Snapshot(first + i, m[i]))
  }

  lemma RecordsCons(first: nat, e: Entry, m: seq<Entry>)
    ensures Records(first, [e] + m) == [Snapshot(first, e)] + Records(first + 1, m)
  {
    var lhs := Records(first, [e] + m);
    var rhs := [Snapshot(first, e)] + Records(first + 1, m);
    assert |lhs| == |rhs|;
    forall i | 0 <= i < |lhs|
      ensures lhs[i] == rhs[i]
    {
      if i > 0 {
        assert ([e] + m)[i] == m[i - 1];
      }
    }
  }

  lemma AppendRecord(prefix: seq<FileMetadata>, first: nat, e: Entry, m: seq<Entry>)
    ensures (prefix + [Snapshot(first, e)]) + Records(first + 1, m) == prefix + Records(first, [e] + m)
  {
    RecordsCons(first, e, m);
  }

  /** Without failures, the fold appends exactly the records of the matching visits, numbered on. */
  lemma {:induction false} WalkFromCollectsMatches(cfg: Config, c: Collector, events: seq<WalkEvent>)
    requires forall j :: 0 <= j < |events| ==> events[j].Visit?
    ensures WalkFrom(cfg, c, events).err == None
    ensures WalkFrom(cfg, c, events).collector.allMetadata ==
              c.allMetadata + Records(c.count, Matches(cfg.targets, events))
    ensures WalkFrom(cfg, c, events).collector.count == c.count + |Matches(cfg.targets, events)|
    decreases |events|
  {
    if |events| > 0 {
      var e := events[0].entry;
      var c' := Callback(cfg, c, e);
      var rest := Matches(cfg.targets, events[1..]);
      assert WalkFrom(cfg, c, events) == WalkFrom(cfg, c', events[1..]);
      WalkFromCollectsMatches(cfg, c', events[1..]);
      if IsMatch(cfg.targets, e) {
        assert Matches(cfg.targets, events) == [e] + rest;
        AppendRecord(c.allMetadata, c.count, e, rest);
      } else {
        assert Matches(cfg.targets, events) == rest;
      }
    }
  }

  /**
   The walk stops at the first failure: the result is the collector built
   from the events before it, together with that failure's error.
   */
  lemma {:induction false} WalkFromStopsAtFailure(cfg: Config, c: Collector, events: seq<WalkEvent>, k: nat)
    requires k < |events| && events[k].Failure?
    requires forall j :: 0 <= j < k ==> events[j].Visit?
    ensures WalkFrom(cfg, c, events) == WalkResult(WalkFrom(cfg, c, events[..k]).collector, Some(events[k].err))
    decreases k
  {
    if k > 0 {
      var c' := Callback(cfg, c, events[0].entry);
      WalkFromStopsAtFailure(cfg, c', events[1..], k - 1);
      assert events[..k][1..] == events[1..][..k - 1];
    }
  }

  /**
   The walk's records are exactly the matching visits before the first
   failure, in walk order, numbered 0, 1, 2, …; `Count` is their number; and
   the error returned is the first failure's, if there is one.
   */
  lemma WalkCollectsMatchesBeforeFailure(cfg: Config, events: seq<WalkEvent>)
    ensures var k := FirstFailure(events);
            var m := Matches(cfg.targets, events[..k]);
            && Walk(cfg, events).collector.allMetadata == Records(0, m)
            && Walk(cfg, events).collector.count == |m|
            && Walk(cfg, events).err == (if k < |events| then Some(events[k].err) else None)
  {
    var k := FirstFailure(events);
    WalkFromCollectsMatches(cfg, Start, events[..k]);
    if k < |events| {
      WalkFromStopsAtFailure(cfg, Start, events, k);
    } else {
      assert events[..k] == events;
    }
  }

  /** Stopping at a failure: walking on past it changes nothing. */
  lemma WalkIgnoresEventsAfterFailure(cfg: Config, events: seq<WalkEvent>, k: nat, more: seq<WalkEvent>)
    requires k < |events| && events[k].Failure?
    requires forall j :: 0 <= j < k ==> events[j].Visit?
    ensures Walk(cfg, events + more) == Walk(cfg, events)
  {
    WalkFromStopsAtFailure(cfg, Start, events, k);
    WalkFromStopsAtFailure(cfg, Start, events + more, k);
    assert (events + more)[..k] == events[..k];
  }

  // ---------------------------------------------------------------------------
  // Destination names

  /** The uid read back from a destination base name: the decimal digits before the first '_'. */
  function UidOfDestination(base: string): Option<nat> {
    var p := Index(base, "_");
    if p < 0 || !AllDigits(base[..p]) then None else Some(ParseDigits(base[..p]))
  }

  /** The uid prefix has no '_', so the uid is recovered from the destination base name. */
  lemma UidRecoverable(uid: nat, name: string)
    ensures UidOfDestination(DestinationBase(uid, name)) == Some(uid)
  {
    var d := Digits(uid);
    var base := DestinationBase(uid, name);
    assert base[..|d|] == d;
    assert OccursAt(base, "_", |d|) by { assert base[|d|..|d| + 1] == "_"; }
    IndexFromSpec(base, "_", 0);
    assert Index(base, "_") == |d|;
    ParseDigitsRoundTrip(uid);
  }

  /** Different uids give different destination base names, whatever the file names. */
  lemma DestinationBaseInjective(u: nat, v: nat, a: string, b: string)
    requires u != v
    ensures DestinationBase(u, a) != DestinationBase(v, b)
  {
    UidRecoverable(u, a);
    UidRecoverable(v, b);
  }

  /** The copy jobs of one walk have pairwise distinct destination base names, each naming its record's uid. */
  lemma WalkDestinationsDistinct(cfg: Config, events: seq<WalkEvent>)
    requires cfg.copyFiles
    ensures var jobs := Walk(cfg, events).collector.copyJobs;
            forall i, j :: 0 <= i < j < |jobs| ==> jobs[i].destination.base != jobs[j].destination.base
    ensures var jobs := Walk(cfg, events).collector.copyJobs;
            forall i :: 0 <= i < |jobs| ==> UidOfDestination(jobs[i].destination.base) == Some(i)
  {
    var r := Walk(cfg, events).collector;
    forall i, j | 0 <= i < j < |r.copyJobs|
      ensures r.copyJobs[i].destination.base != r.copyJobs[j].destination.base
    {
      DestinationBaseInjective(i, j, r.allMetadata[i].name, r.allMetadata[j].name);
    }
    forall i | 0 <= i < |r.copyJobs|
      ensures UidOfDestination(r.copyJobs[i].destination.base) == Some(i)
    {
      UidRecoverable(i, r.allMetadata[i].name);
    }
  }

  // ---------------------------------------------------------------------------
  // Matching

  /** An entry matches the parsed flag iff it is not a directory and its extension equals a piece up to case. */
  lemma MatchIffPieceEqualFold(fileTypes: string, sep: string, e: Entry)
    ensures IsMatch(ParseFileTypes(fileTypes, sep), e) <==>
            && !e.info.isDir
            && exists i :: 0 <= i < |Split(fileTypes, sep)| && EqualFold(Split(fileTypes, sep)[i], Ext(e.path))
  {
    TargetIffSomePieceEqualFold(fileTypes, sep, Ext(e.path));
  }

  /**
   A trailing "," in the flag puts "" among the targets, so a non-directory
   whose last path element has no dot is kept.
   */
  lemma TrailingCommaKeepsExtensionless(fileTypes: string, e: Entry)
    requires |fileTypes| > 0 && fileTypes[|fileTypes| - 1] == ','
    requires !e.info.isDir && NoDotInLastElement(e.path, |e.path|)
    ensures Ext(e.path) == ""
    ensures IsMatch(ParseFileTypes(fileTypes, ","), e)
  {
    ExtSpec(e.path);
    TrailingSepHasEmptyKey(fileTypes, ',');
    assert Lower("") == "";
  }

  /** In any walk, no directory is among the matching entries, whatever its extension and the targets. */
  lemma {:induction false} DirectoryNeverMatches(targets: map<string, bool>, events: seq<WalkEvent>)
    ensures forall x :: x in Matches(targets, events) ==> !x.info.isDir
  {
    MatchesMembers(targets, events);
  }
}

/**
 A worked walk: a root holding `a.py` (10 bytes), `b.txt` (5 bytes) and a
 directory `sub` holding `c.py` (3 bytes), crawled for ".py" with copying
 into "/tmp/out".
 */
module CrawlerScenario {
  import opened Strings
  import opened Decimal
  import opened Paths
  import opened FileTypes
  import opened Crawler

  function Dir(name: string): FileInfo {
    FileInfo(name, Timestamp(0), true, 4096, false)
  }

  function File(name: string, size: int): FileInfo {
    FileInfo(name, Timestamp(0), false, size, true)
  }

  function SampleTree(): seq<WalkEvent> {
    [ Visit(Entry("/r", Dir("r"))),
      Visit(Entry("/r/a.py", File("a.py", 10))),
      Visit(Entry("/r/b.txt", File("b.txt", 5))),
      Visit(Entry("/r/sub", Dir("sub"))),
      Visit(Entry("/r/sub/c.py", File("c.py", 3))) ]
  }

  const PyOnly := Config(map[".py" := true], true, "/tmp/out")

  /** Only the two ".py" files of the sample tree match. */
  lemma SampleMatches()
    ensures IsMatch(PyOnly.targets, SampleTree()[1].entry)
    ensures !IsMatch(PyOnly.targets, SampleTree()[2].entry)
    ensures IsMatch(PyOnly.targets, SampleTree()[4].entry)
    ensures SampleTree()[0].entry.info.isDir && SampleTree()[3].entry.info.isDir
    ensures Ext(SampleTree()[1].entry.path) == ".py" && Ext(SampleTree()[4].entry.path) == ".py"
  {
    ExtOfSuffix("/r/a.py", ".py");
    ExtOfSuffix("/r/sub/c.py", ".py");
    ExtOfSuffix("/r/b.txt", ".txt");
    assert Lower(".py") == ".py";
    assert Lower(".txt") == ".txt";
  }

  lemma SampleNames()
    ensures DestinationBase(0, "a.py") == "0_a.py" && DestinationBase(1, "c.py") == "1_c.py"
  {
    assert Digits(0) == "0" && Digits(1) == "1";
  }

  const SampleRecords := [
    FileMetadata(0, "a.py", ".py", Timestamp(0), false, 10, "/r/a.py", true),
    FileMetadata(1, "c.py", ".py", Timestamp(0), false, 3, "/r/sub/c.py", true)]

  const SampleJobs := [
    CopyJob("/r/a.py", JoinedPath("/tmp/out", "0_a.py")),
    CopyJob("/r/sub/c.py", JoinedPath("/tmp/out", "1_c.py"))]

  lemma SampleWalk()
    ensures WalkFrom(PyOnly, Start, SampleTree()) == WalkResult(Collector(2, SampleRecords, SampleJobs), None)
  {
    SampleMatches();
    SampleNames();
    var ev := SampleTree();
    var c2 := Callback(PyOnly, Start, ev[1].entry);
    assert c2 == Collector(1, SampleRecords[..1], SampleJobs[..1]);
    var c5 := Callback(PyOnly, c2, ev[4].entry);
    assert c5 == Collector(2, SampleRecords, SampleJobs);
    assert WalkFrom(PyOnly, Start, ev) == WalkFrom(PyOnly, Start, ev[1..]);
    assert WalkFrom(PyOnly, Start, ev[1..]) == WalkFrom(PyOnly, c2, ev[2..]);
    assert WalkFrom(PyOnly, c2, ev[2..]) == WalkFrom(PyOnly, c2, ev[3..]);
    assert WalkFrom(PyOnly, c2, ev[3..]) == WalkFrom(PyOnly, c2, ev[4..]);
    assert WalkFrom(PyOnly, c2, ev[4..]) == WalkFrom(PyOnly, c5, ev[5..]);
    assert ev[5..] == [];
  }

  /** `a.py` gets uid 0 and `sub/c.py` uid 1; `b.txt` and the directories are skipped; copies go to `0_a.py` and `1_c.py`. */
  lemma SampleTreeCrawl()
    ensures Crawl(".py", true, "/tmp/out", SampleTree()) == WalkResult(Collector(2, SampleRecords, SampleJobs), None)
  {
    DefaultFlagMatchesUpperCase();
    SampleWalk();
  }

  /** Matching ignores case: `a.PY` is kept under the default flag ".py"; a directory named `x.py` is not. */
  lemma UpperCaseExtensionKept()
    ensures IsMatch(ParseFileTypes(".py", ","), Entry("/r/a.PY", File("a.PY", 1)))
    ensures !IsMatch(ParseFileTypes(".py", ","), Entry("/r/x.py", Dir("x.py")))
  {
    DefaultFlagMatchesUpperCase();
    ExtOfSuffix("/r/a.PY", ".PY");
  }
}
