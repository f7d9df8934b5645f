/**
 `MergeJUnit`: scan the source directories for report files, fold their
 matching cases through the dedup map, write the merged suite, and remove the
 source files only when nothing went wrong.

 The filesystem is a snapshot (`Env`): what listing each directory gives, what
 reading each file gives, whether encoding or writing the result fails, and
 whether removing each file fails. The outcome says whether the destination
 was written and with which cases, which removals were attempted, and which
 error, if any, was returned. Report files are decoded with a `SkipCodec`, so
 the merge can be stated for the program as written and for the corrected one.
 */
module MergeJUnit {
  import opened Wrappers
  import opened JUnitReport
  import opened Dedup

  /** A report file: its directory and its name within it (the source joins the two into one path). */
  datatype FilePath = FilePath(dir: string, file: string)

  /** The result of listing a directory. */
  datatype Listing = ReadDirFailed(msg: string) | Entries(names: seq<string>)

  /** The result of reading one file and decoding it as a report. */
  datatype FileRead = ReadFailed(msg: string) | Unparsable(msg: string) | Parsed(doc: Document)

  datatype Env = Env(
    listing: string -> Listing,
    read: FilePath -> FileRead,
    marshalErr: Option<string>,
    writeErr: Option<string>,
    removeErr: FilePath -> Option<string>)

  datatype MergeError =
    | ReadFileError(path: FilePath, msg: string)   // a report file could not be read
    | UnmarshalError(path: FilePath, msg: string)  // a report file is not a well-formed report
    | MarshalError(msg: string)                    // the merged suite could not be encoded
    | WriteError(msg: string)                      // the destination could not be written
    | PartialMerge(dirErrors: seq<string>)         // written, but some directories could not be listed
    | RemoveErrors(removeErrors: seq<string>)      // written, but some source files could not be removed

  datatype Outcome = Outcome(written: Option<set<TestCase>>, removeAttempts: seq<FilePath>, err: Option<MergeError>)

  // ---------------------------------------------------------------------------
  // Which files are reports
  // ---------------------------------------------------------------------------

  const ReportSuffix: string := ".xml"

  /** The name of the merged report itself, which is never read back in. */
  const RunnerReport: string := "junit_runner.xml"

  predicate EndsWith(s: string, suffix: string) {
    |s| >= |suffix| && s[|s| - |suffix|..] == suffix
  }

  /** A directory entry is read only if it ends in `.xml` and is not the runner's own report. */
  predicate IsReportFile(name: string) {
    EndsWith(name, ReportSuffix) && name != RunnerReport
  }

  /** Report files are exactly the names `<base>.xml` other than the runner's report. */
  lemma ReportFileShape(name: string)
    ensures IsReportFile(name) <==> name != RunnerReport && exists base :: name == base + ReportSuffix
  {
    if base :| name == base + ReportSuffix {
      assert name[|name| - |ReportSuffix|..] == ReportSuffix;
    }
    if IsReportFile(name) {
      var base := name[..|name| - |ReportSuffix|];
      assert name == base + ReportSuffix;
    }
  }

  // ---------------------------------------------------------------------------
  // The scan, as the source's loops perform it
  // ---------------------------------------------------------------------------

  datatype ScanState = ScanState(filtered: CaseMap, mergeErrors: seq<string>, filesToDelete: seq<FilePath>)

  datatype ScanResult = Fatal(err: MergeError) | Scanned(state: ScanState)

  /** The loop over one directory's entries; the first unreadable or malformed report ends the whole merge. */
  function ScanFiles(env: Env, codec: SkipCodec, matches: string -> bool, dir: string, names: seq<string>, st: ScanState): (r: ScanResult)
    ensures r.Fatal? ==> IsFileFailure(env, r.err) && r.err.path.dir == dir && r.err.path.file in names
    ensures r.Scanned? ==> r.state.mergeErrors == st.mergeErrors
    ensures r.Scanned? ==> r.state.filesToDelete == st.filesToDelete + ReportPaths(dir, names)
    decreases |names|
  {
    if |names| == 0 then Scanned(st)
    else if !IsReportFile(names[0]) then ScanFiles(env, codec, matches, dir, names[1..], st)
    else
      var path := FilePath(dir, names[0]);
      var toDelete := st.filesToDelete + [path];
      assert toDelete + ReportPaths(dir, names[1..]) == st.filesToDelete + ReportPaths(dir, names);
      match env.read(path)
      case ReadFailed(msg) => Fatal(ReadFileError(path, msg))
      case Unparsable(msg) => Fatal(UnmarshalError(path, msg))
      case Parsed(doc) =>
        var filtered := MergeSuites(st.filtered, DecodeDocument(codec, doc).suites, matches);
        ScanFiles(env, codec, matches, dir, names[1..], ScanState(filtered, st.mergeErrors, toDelete))
  }

  /** The loop over the source directories; a directory that cannot be listed is recorded and skipped. */
  function ScanDirs(env: Env, codec: SkipCodec, matches: string -> bool, dirs: seq<string>, st: ScanState): (r: ScanResult)
    ensures r.Fatal? ==> IsFileFailure(env, r.err) && r.err.path.dir in dirs
    ensures r.Scanned? ==> r.state.mergeErrors == st.mergeErrors + DirErrors(env, dirs)
    ensures r.Scanned? ==> r.state.filesToDelete == st.filesToDelete + ReportFiles(env, dirs)
    decreases |dirs|
  {
    if |dirs| == 0 then Scanned(st)
    else
      assert forall d :: d in dirs[1..] ==> d in dirs;
      match env.listing(dirs[0])
      case ReadDirFailed(msg) =>
        assert st.mergeErrors + [msg] + DirErrors(env, dirs[1..]) == st.mergeErrors + DirErrors(env, dirs);
        ScanDirs(env, codec, matches, dirs[1..], st.(mergeErrors := st.mergeErrors + [msg]))
      case Entries(names) =>
        assert DirErrors(env, dirs) == DirErrors(env, dirs[1..]);
        assert ReportFiles(env, dirs) == ReportPaths(dirs[0], names) + ReportFiles(env, dirs[1..]);
        match ScanFiles(env, codec, matches, dirs[0], names, st)
        case Fatal(e) => Fatal(e)
        case Scanned(st') => ScanDirs(env, codec, matches, dirs[1..], st')
  }

  /** The loop over the files to delete, collecting the messages of the removals that fail. */
  function RemoveFailures(env: Env, files: seq<FilePath>): (errs: seq<string>)
    ensures errs == [] <==> forall p :: p in files ==> env.removeErr(p).None?
    ensures forall e :: e in errs ==> exists p :: p in files && env.removeErr(p) == Some(e)
    decreases |files|
  {
    if |files| == 0 then []
    else
      var rest := RemoveFailures(env, files[1..]);
      assert forall p :: p in files <==> p == files[0] || p in files[1..];
      match env.removeErr(files[0])
      case None => rest
      case Some(msg) => [msg] + rest
  }

  // ---------------------------------------------------------------------------
  // The same scan, stated without the loops
  // ---------------------------------------------------------------------------

  /** The report files among a directory's entries, in listing order. */
  function ReportPaths(dir: string, names: seq<string>): (files: seq<FilePath>)
    ensures forall p :: p in files <==> p.dir == dir && p.file in names && IsReportFile(p.file)
    decreases |names|
  {
    if |names| == 0 then []
    else if IsReportFile(names[0]) then [FilePath(dir, names[0])] + ReportPaths(dir, names[1..])
    else ReportPaths(dir, names[1..])
  }

  /** Every report file of every directory that can be listed, in scanning order. */
  function ReportFiles(env: Env, dirs: seq<string>): seq<FilePath>
    decreases |dirs|
  {
    if |dirs| == 0 then []
    else
      var here := match env.listing(dirs[0]) case ReadDirFailed(_) => [] case Entries(names) => ReportPaths(dirs[0], names);
      here + ReportFiles(env, dirs[1..])
  }

  /** The messages of the directories that cannot be listed, in order. */
  function DirErrors(env: Env, dirs: seq<string>): seq<string>
    decreases |dirs|
  {
    if |dirs| == 0 then []
    else
      var here := match env.listing(dirs[0]) case ReadDirFailed(msg) => [msg] case Entries(_) => [];
      here + DirErrors(env, dirs[1..])
  }

  predicate AllParsed(env: Env, files: seq<FilePath>) {
    forall i :: 0 <= i < |files| ==> env.read(files[i]).Parsed?
  }

  /** Every case of every readable report among `files`, in order. */
  function CasesOf(env: Env, codec: SkipCodec, files: seq<FilePath>): seq<TestCase>
    decreases |files|
  {
    if |files| == 0 then []
    else
      var here := match env.read(files[0]) case Parsed(doc) => AllCases(DecodeDocument(codec, doc).suites) case _ => [];
      here + CasesOf(env, codec, files[1..])
  }

  /** The error is the failure the snapshot reports for a file. */
  predicate IsFileFailure(env: Env, e: MergeError) {
    || (e.ReadFileError? && env.read(e.path) == ReadFailed(e.msg))
    || (e.UnmarshalError? && env.read(e.path) == Unparsable(e.msg))
  }

  /** `e` is the failure of the first report among `files` that cannot be read or decoded. */
  predicate FirstFailure(env: Env, files: seq<FilePath>, e: MergeError) {
    && IsFileFailure(env, e)
    && exists i :: 0 <= i < |files| && files[i] == e.path && AllParsed(env, files[..i])
  }

  /** `r` is what scanning `files` (and meeting `dirErrors`) from state `st` should give. */
  ghost predicate ScanAgrees(env: Env, codec: SkipCodec, matches: string -> bool, st: ScanState, files: seq<FilePath>, dirErrors: seq<string>, r: ScanResult) {
    && (r.Scanned? <==> AllParsed(env, files))
    && (r.Scanned? ==> r.state == ScanState(MergeAll(st.filtered, Keep(CasesOf(env, codec, files), matches)),
                                            st.mergeErrors + dirErrors,
                                            st.filesToDelete + files))
    && (r.Fatal? ==> FirstFailure(env, files, r.err))
  }

  lemma {:induction false} ScanFilesAgrees(env: Env, codec: SkipCodec, matches: string -> bool, dir: string, names: seq<string>, st: ScanState)
    ensures ScanAgrees(env, codec, matches, st, ReportPaths(dir, names), [], ScanFiles(env, codec, matches, dir, names, st))
    decreases |names|
  {
    var r := ScanFiles(env, codec, matches, dir, names, st);
    var files := ReportPaths(dir, names);
    if |names| == 0 {
      assert st.mergeErrors + [] == st.mergeErrors && st.filesToDelete + [] == st.filesToDelete;
    } else if !IsReportFile(names[0]) {
      ScanFilesAgrees(env, codec, matches, dir, names[1..], st);
    } else {
      var path := FilePath(dir, names[0]);
      var rest := ReportPaths(dir, names[1..]);
      assert files == [path] + rest;
      assert files[0] == path;
      match env.read(path)
      case ReadFailed(msg) =>
        assert files[..0] == [];
      case Unparsable(msg) =>
        assert files[..0] == [];
      case Parsed(doc) =>
        var filtered := MergeSuites(st.filtered, DecodeDocument(codec, doc).suites, matches);
        var st' := ScanState(filtered, st.mergeErrors, st.filesToDelete + [path]);
        ScanFilesAgrees(env, codec, matches, dir, names[1..], st');
        assert r == ScanFiles(env, codec, matches, dir, names[1..], st');
        ScanFilesParsedStep(env, codec, matches, path, doc, rest, st, r);
    }
  }

  /** A first report that decodes is folded in, recorded for removal, and does not change how the rest can abort. */
  lemma ScanFilesParsedStep(env: Env, codec: SkipCodec, matches: string -> bool, path: FilePath, doc: Document,
                            rest: seq<FilePath>, st: ScanState, r: ScanResult)
    requires env.read(path) == Parsed(doc)
    requires ScanAgrees(env, codec, matches,
                        ScanState(MergeSuites(st.filtered, DecodeDocument(codec, doc).suites, matches), st.mergeErrors, st.filesToDelete + [path]),
                        rest, [], r)
    ensures ScanAgrees(env, codec, matches, st, [path] + rest, [], r)
  {
    var files := [path] + rest;
    assert AllParsed(env, [path]);
    AllParsedAppend(env, [path], rest);
    if r.Fatal? {
      FirstFailureAppend(env, [path], rest, r.err);
    }
    if r.Scanned? {
      var cases := AllCases(DecodeDocument(codec, doc).suites);
      MergeSuitesIsMergeAll(st.filtered, DecodeDocument(codec, doc).suites, matches);
      assert files[0] == path && files[1..] == rest;
      assert CasesOf(env, codec, files) == cases + CasesOf(env, codec, rest);
      KeepAppend(cases, CasesOf(env, codec, rest), matches);
      MergeAllAppend(st.filtered, Keep(cases, matches), Keep(CasesOf(env, codec, rest), matches));
      assert st.filesToDelete + [path] + rest == st.filesToDelete + files;
    }
  }

  lemma {:induction false} ScanDirsAgrees(env: Env, codec: SkipCodec, matches: string -> bool, dirs: seq<string>, st: ScanState)
    ensures ScanAgrees(env, codec, matches, st, ReportFiles(env, dirs), DirErrors(env, dirs), ScanDirs(env, codec, matches, dirs, st))
    decreases |dirs|
  {
    if |dirs| == 0 {
      assert st.mergeErrors + [] == st.mergeErrors && st.filesToDelete + [] == st.filesToDelete;
    } else {
      match env.listing(dirs[0])
      case ReadDirFailed(msg) =>
        var st' := st.(mergeErrors := st.mergeErrors + [msg]);
        ScanDirsAgrees(env, codec, matches, dirs[1..], st');
        ScanDirsUnlistedStep(env, codec, matches, dirs, msg, st);
      case Entries(names) =>
        ScanFilesAgrees(env, codec, matches, dirs[0], names, st);
        match ScanFiles(env, codec, matches, dirs[0], names, st)
        case Fatal(e) =>
          ScanDirsAbortStep(env, codec, matches, dirs, names, st, e);
        case Scanned(st') =>
          ScanDirsAgrees(env, codec, matches, dirs[1..], st');
          ScanDirsListedStep(env, codec, matches, dirs, names, st, st');
    }
  }

  /** A directory that cannot be listed adds its message and nothing else. */
  lemma ScanDirsUnlistedStep(env: Env, codec: SkipCodec, matches: string -> bool, dirs: seq<string>, msg: string, st: ScanState)
    requires |dirs| > 0 && env.listing(dirs[0]) == ReadDirFailed(msg)
    requires var st' := st.(mergeErrors := st.mergeErrors + [msg]);
             ScanAgrees(env, codec, matches, st', ReportFiles(env, dirs[1..]), DirErrors(env, dirs[1..]), ScanDirs(env, codec, matches, dirs[1..], st'))
    ensures ScanAgrees(env, codec, matches, st, ReportFiles(env, dirs), DirErrors(env, dirs), ScanDirs(env, codec, matches, dirs, st))
  {
    var st' := st.(mergeErrors := st.mergeErrors + [msg]);
    var files, errors := ReportFiles(env, dirs[1..]), DirErrors(env, dirs[1..]);
    var r := ScanDirs(env, codec, matches, dirs[1..], st');
    assert ReportFiles(env, dirs) == [] + files == files;
    assert DirErrors(env, dirs) == [msg] + errors;
    assert ScanDirs(env, codec, matches, dirs, st) == r;
    assert st'.mergeErrors + errors == st.mergeErrors + ([msg] + errors);
    assert ScanAgrees(env, codec, matches, st, files, [msg] + errors, r);
  }

  /** A failing report in the first listed directory aborts the whole scan with its own failure. */
  lemma ScanDirsAbortStep(env: Env, codec: SkipCodec, matches: string -> bool, dirs: seq<string>, names: seq<string>, st: ScanState, e: MergeError)
    requires |dirs| > 0 && env.listing(dirs[0]) == Entries(names)
    requires ScanFiles(env, codec, matches, dirs[0], names, st) == Fatal(e)
    requires ScanAgrees(env, codec, matches, st, ReportPaths(dirs[0], names), [], Fatal(e))
    ensures ScanAgrees(env, codec, matches, st, ReportFiles(env, dirs), DirErrors(env, dirs), ScanDirs(env, codec, matches, dirs, st))
  {
    var here, rest := ReportPaths(dirs[0], names), ReportFiles(env, dirs[1..]);
    assert ReportFiles(env, dirs) == here + rest;
    assert ScanDirs(env, codec, matches, dirs, st) == Fatal(e);
    AllParsedAppend(env, here, rest);
    FirstFailureAppend(env, here, rest, e);
  }

  /** Composes the scan of the first directory's files with the scan of the remaining directories. */
  lemma ScanDirsListedStep(env: Env, codec: SkipCodec, matches: string -> bool, dirs: seq<string>, names: seq<string>, st: ScanState, st': ScanState)
    requires |dirs| > 0 && env.listing(dirs[0]) == Entries(names)
    requires ScanFiles(env, codec, matches, dirs[0], names, st) == Scanned(st')
    requires ScanAgrees(env, codec, matches, st, ReportPaths(dirs[0], names), [], Scanned(st'))
    requires ScanAgrees(env, codec, matches, st', ReportFiles(env, dirs[1..]), DirErrors(env, dirs[1..]), ScanDirs(env, codec, matches, dirs[1..], st'))
    ensures ScanAgrees(env, codec, matches, st, ReportFiles(env, dirs), DirErrors(env, dirs), ScanDirs(env, codec, matches, dirs, st))
  {
    var here, restFiles := ReportPaths(dirs[0], names), ReportFiles(env, dirs[1..]);
    var restErrors := DirErrors(env, dirs[1..]);
    var files := ReportFiles(env, dirs);
    assert files == here + restFiles;
    assert DirErrors(env, dirs) == restErrors;
    AllParsedAppend(env, here, restFiles);
    var r := ScanDirs(env, codec, matches, dirs, st);
    assert r == ScanDirs(env, codec, matches, dirs[1..], st');
    if r.Fatal? {
      FirstFailureAppend(env, here, restFiles, r.err);
    }
    if r.Scanned? {
      ComposeScans(env, codec, matches, st, st', r.state, here, restFiles, restErrors);
    }
  }

  /** Scanning `a` and then `b` is scanning `a + b`. */
  lemma ComposeScans(env: Env, codec: SkipCodec, matches: string -> bool, st: ScanState, st': ScanState, st'': ScanState,
                     a: seq<FilePath>, b: seq<FilePath>, errors: seq<string>)
    requires st' == ScanState(MergeAll(st.filtered, Keep(CasesOf(env, codec, a), matches)), st.mergeErrors + [], st.filesToDelete + a)
    requires st'' == ScanState(MergeAll(st'.filtered, Keep(CasesOf(env, codec, b), matches)), st'.mergeErrors + errors, st'.filesToDelete + b)
    ensures st'' == ScanState(MergeAll(st.filtered, Keep(CasesOf(env, codec, a + b), matches)), st.mergeErrors + errors, st.filesToDelete + (a + b))
  {
    assert st''.filtered == MergeAll(st.filtered, Keep(CasesOf(env, codec, a + b), matches)) by {
      ComposeMerges(env, codec, matches, st.filtered, a, b);
    }
    assert st'.mergeErrors == st.mergeErrors;
    assert st''.mergeErrors == st.mergeErrors + errors;
    assert st''.filesToDelete == st.filesToDelete + a + b == st.filesToDelete + (a + b);
  }

  lemma ComposeMerges(env: Env, codec: SkipCodec, matches: string -> bool, m: CaseMap, a: seq<FilePath>, b: seq<FilePath>)
    ensures MergeAll(MergeAll(m, Keep(CasesOf(env, codec, a), matches)), Keep(CasesOf(env, codec, b), matches))
         == MergeAll(m, Keep(CasesOf(env, codec, a + b), matches))
  {
    CasesOfAppend(env, codec, a, b);
    KeepAppend(CasesOf(env, codec, a), CasesOf(env, codec, b), matches);
    MergeAllAppend(m, Keep(CasesOf(env, codec, a), matches), Keep(CasesOf(env, codec, b), matches));
  }

  lemma AllParsedAppend(env: Env, a: seq<FilePath>, b: seq<FilePath>)
    ensures AllParsed(env, a + b) <==> AllParsed(env, a) && AllParsed(env, b)
  {
    assert forall i :: 0 <= i < |a| ==> (a + b)[i] == a[i];
    assert forall i :: 0 <= i < |b| ==> (a + b)[|a| + i] == b[i];
  }

  /** The first failure of `a` is the first failure of `a + b`; so is that of `b` when all of `a` decodes. */
  lemma FirstFailureAppend(env: Env, a: seq<FilePath>, b: seq<FilePath>, e: MergeError)
    ensures FirstFailure(env, a, e) ==> FirstFailure(env, a + b, e)
    ensures AllParsed(env, a) && FirstFailure(env, b, e) ==> FirstFailure(env, a + b, e)
  {
    if FirstFailure(env, a, e) {
      var i :| 0 <= i < |a| && a[i] == e.path && AllParsed(env, a[..i]);
      assert (a + b)[..i] == a[..i];
      assert (a + b)[i] == a[i];
    }
    if AllParsed(env, a) && FirstFailure(env, b, e) {
      var i :| 0 <= i < |b| && b[i] == e.path && AllParsed(env, b[..i]);
      assert (a + b)[..|a| + i] == a + b[..i];
      AllParsedAppend(env, a, b[..i]);
      assert (a + b)[|a| + i] == b[i];
    }
  }

  lemma {:induction false} CasesOfAppend(env: Env, codec: SkipCodec, a: seq<FilePath>, b: seq<FilePath>)
    ensures CasesOf(env, codec, a + b) == CasesOf(env, codec, a) + CasesOf(env, codec, b)
    decreases |a|
  {
    if |a| > 0 {
      assert (a + b)[0] == a[0];
      assert (a + b)[1..] == a[1..] + b;
      CasesOfAppend(env, codec, a[1..], b);
    } else {
      assert a + b == b;
    }
  }

  // ---------------------------------------------------------------------------
  // MergeJUnit
  // ---------------------------------------------------------------------------

  /**
   The whole merge. A file that cannot be read or decoded aborts before anything is
   written; an encoding or write failure aborts before anything is removed; a
   directory that could not be listed leaves the sources in place and reports a
   partial merge; otherwise every report file is removed and the failed removals
   are reported together.
   */
  function MergeJUnit(env: Env, codec: SkipCodec, matches: string -> bool, dirs: seq<string>): (o: Outcome)
    ensures var files := ReportFiles(env, dirs);
            o.written.Some? <==> AllParsed(env, files) && env.marshalErr.None? && env.writeErr.None?
    ensures var files := ReportFiles(env, dirs);
            !AllParsed(env, files) ==> o.err.Some? && FirstFailure(env, files, o.err.value) && o.written.None?
    ensures o.removeAttempts != [] ==> o.written.Some? && DirErrors(env, dirs) == []
    ensures o.written.Some? && DirErrors(env, dirs) != [] ==>
              o.err == Some(PartialMerge(DirErrors(env, dirs))) && o.removeAttempts == []
    ensures var files := ReportFiles(env, dirs);
            o.written.Some? && DirErrors(env, dirs) == [] ==>
              && o.removeAttempts == files
              && (o.err.None? <==> forall p :: p in files ==> env.removeErr(p).None?)
    ensures var files := ReportFiles(env, dirs);
            o.err.None? <==> && AllParsed(env, files) && env.marshalErr.None? && env.writeErr.None?
                             && DirErrors(env, dirs) == []
                             && forall p :: p in files ==> env.removeErr(p).None?
    ensures var files := ReportFiles(env, dirs);
            AllParsed(env, files) && env.marshalErr.Some? ==> o.err == Some(MarshalError(env.marshalErr.value))
    ensures var files := ReportFiles(env, dirs);
            AllParsed(env, files) && env.marshalErr.None? && env.writeErr.Some? ==> o.err == Some(WriteError(env.writeErr.value))
    ensures var files := ReportFiles(env, dirs);
            o.written.Some? && DirErrors(env, dirs) == [] && !(forall p :: p in files ==> env.removeErr(p).None?) ==>
              o.err == Some(RemoveErrors(RemoveFailures(env, files)))
    ensures var files := ReportFiles(env, dirs);
            o.written.Some? ==> o.written.value == Output(MergeAll(map[], Keep(CasesOf(env, codec, files), matches)))
  {
    var start := ScanState(map[], [], []);
    ScanDirsAgrees(env, codec, matches, dirs, start);
    match ScanDirs(env, codec, matches, dirs, start)
    case Fatal(e) => Outcome(None, [], Some(e))
    case Scanned(st) =>
      var cases := Output(st.filtered);
      if env.marshalErr.Some? then Outcome(None, [], Some(MarshalError(env.marshalErr.value)))
      else if env.writeErr.Some? then Outcome(None, [], Some(WriteError(env.writeErr.value)))
      else if st.mergeErrors != [] then
        assert st.mergeErrors == DirErrors(env, dirs);
        Outcome(Some(cases), [], Some(PartialMerge(st.mergeErrors)))
      else
        var errs := RemoveFailures(env, st.filesToDelete);
        Outcome(Some(cases), st.filesToDelete, if errs == [] then None else Some(RemoveErrors(errs)))
  }

  /**
   The written report holds exactly one case per distinct matched name over all
   readable report files, no case whose name fails the filter, and for each name
   the first case that ran, or the first case when none ran.
   */
  lemma MergeJUnitDedup(env: Env, codec: SkipCodec, matches: string -> bool, dirs: seq<string>)
    requires AllParsed(env, ReportFiles(env, dirs)) && env.marshalErr.None? && env.writeErr.None?
    ensures MergeJUnit(env, codec, matches, dirs).written.Some?
    ensures var out := MergeJUnit(env, codec, matches, dirs).written.value;
            var kept := Keep(CasesOf(env, codec, ReportFiles(env, dirs)), matches);
            && (forall c :: c in out ==> matches(c.name) && Preferred(kept, c.name, c))
            && (set c | c in out :: c.name) == Names(kept)
            && (forall a, b :: a in out && b in out && a.name == b.name ==> a == b)
  {
    var out := MergeJUnit(env, codec, matches, dirs).written.value;
    var kept := Keep(CasesOf(env, codec, ReportFiles(env, dirs)), matches);
    var m := MergeAll(map[], kept);
    MergeAllSummarizes(kept);
    MergeAllKeyedByName(map[], kept);
    OutputOnePerName(m);
    forall c | c in out
      ensures matches(c.name) && Preferred(kept, c.name, c)
    {
      var k :| k in m && m[k] == c;
      PreferredIsInput(kept, k, c);
    }
  }

  /** The readable directories still contribute when another directory cannot be listed. */
  lemma UnreadableDirectoryIsPartial(env: Env, codec: SkipCodec, matches: string -> bool, bad: string, good: string, msg: string, names: seq<string>)
    requires env.listing(bad) == ReadDirFailed(msg) && env.listing(good) == Entries(names)
    requires AllParsed(env, ReportPaths(good, names)) && env.marshalErr.None? && env.writeErr.None?
    ensures var o := MergeJUnit(env, codec, matches, [bad, good]);
            && o.written == Some(Output(MergeAll(map[], Keep(CasesOf(env, codec, ReportPaths(good, names)), matches))))
            && o.err == Some(PartialMerge([msg]))
            && o.removeAttempts == []
  {
    assert [bad, good][1..] == [good];
    assert [good][1..] == [];
    assert ReportFiles(env, [bad, good]) == ReportPaths(good, names) by {
      assert ReportFiles(env, [good]) == ReportPaths(good, names) + ReportFiles(env, []);
    }
    assert DirErrors(env, [bad, good]) == [msg] by {
      assert DirErrors(env, [good]) == [];
    }
  }

  /**
   A report in the first directory has `name` with an empty `<skipped/>`; a
   report in the second has `name` that ran. As written, the library reads the
   empty element as a run, so the first record is kept and written as a pass
   with no output. With the marker's codec the real run is kept.
   */
  lemma EmptySkipThenRun(env: Env, codec: SkipCodec, matches: string -> bool,
                         d1: string, f1: string, d2: string, f2: string, name: string, out: string)
    requires env.listing(d1) == Entries([f1]) && IsReportFile(f1)
    requires env.listing(d2) == Entries([f2]) && IsReportFile(f2)
    requires env.read(FilePath(d1, f1)) == Parsed(Document([SuiteElement([CaseElement(name, "", "", "", Present(""))])]))
    requires env.read(FilePath(d2, f2)) == Parsed(Document([SuiteElement([CaseElement(name, "", out, "", Absent)])]))
    requires matches(name) && env.marshalErr.None? && env.writeErr.None?
    ensures codec.Library? ==> MergeJUnit(env, codec, matches, [d1, d2]).written == Some({TestCase(name, "", "", "", "")})
    ensures codec.Marker? ==> MergeJUnit(env, codec, matches, [d1, d2]).written == Some({TestCase(name, "", out, "", "")})
  {
    var p1, p2 := FilePath(d1, f1), FilePath(d2, f2);
    var e1, e2 := CaseElement(name, "", "", "", Present("")), CaseElement(name, "", out, "", Absent);
    var c1, c2 := DecodeCase(codec, e1), DecodeCase(codec, e2);
    TwoReports(env, d1, f1, d2, f2);
    var files := ReportFiles(env, [d1, d2]);
    assert AllParsed(env, files);
    CasesOfTwo(env, codec, p1, p2);
    OneCaseDocument(codec, e1);
    OneCaseDocument(codec, e2);
    assert CasesOf(env, codec, files) == [c1, c2];
    var kept := SkipThenRunMerge(codec, matches, name, out);
    OutputSingleton(name, kept);
  }

  /** The fold over the two decoded cases keeps the first as written and the second with the marker's codec. */
  lemma SkipThenRunMerge(codec: SkipCodec, matches: string -> bool, name: string, out: string) returns (kept: TestCase)
    requires matches(name)
    ensures kept == (if codec.Library? then TestCase(name, "", "", "", "") else TestCase(name, "", out, "", ""))
    ensures MergeAll(map[], Keep([DecodeCase(codec, CaseElement(name, "", "", "", Present(""))),
                                  DecodeCase(codec, CaseElement(name, "", out, "", Absent))], matches))
            == map[name := kept]
  {
    var c1 := DecodeCase(codec, CaseElement(name, "", "", "", Present("")));
    var c2 := DecodeCase(codec, CaseElement(name, "", out, "", Absent));
    assert Keep([c1, c2], matches) == [c1, c2] by {
      assert [c1, c2][1..] == [c2];
      assert Keep([c2], matches) == [c2] + Keep([], matches);
    }
    MergeTwo(c1, c2);
    kept := if codec.Library? then c1 else c2;
  }

  /** Two directories that each list one report file. */
  lemma TwoReports(env: Env, d1: string, f1: string, d2: string, f2: string)
    requires env.listing(d1) == Entries([f1]) && IsReportFile(f1)
    requires env.listing(d2) == Entries([f2]) && IsReportFile(f2)
    ensures ReportFiles(env, [d1, d2]) == [FilePath(d1, f1), FilePath(d2, f2)]
  {
    assert [d1, d2][1..] == [d2];
    assert [d2][1..] == [];
    assert [f1][1..] == [] && [f2][1..] == [];
    assert ReportPaths(d1, [f1]) == [FilePath(d1, f1)];
    assert ReportPaths(d2, [f2]) == [FilePath(d2, f2)];
    assert ReportFiles(env, [d2]) == [FilePath(d2, f2)] + ReportFiles(env, []);
  }

  /** The cases of two files that decode are those of the first followed by those of the second. */
  lemma CasesOfTwo(env: Env, codec: SkipCodec, p1: FilePath, p2: FilePath)
    requires env.read(p1).Parsed? && env.read(p2).Parsed?
    ensures CasesOf(env, codec, [p1, p2]) == AllCases(DecodeDocument(codec, env.read(p1).doc).suites)
                                              + AllCases(DecodeDocument(codec, env.read(p2).doc).suites)
  {
    assert [p1, p2][1..] == [p2];
    assert [p2][1..] == [];
    assert CasesOf(env, codec, [p2]) == AllCases(DecodeDocument(codec, env.read(p2).doc).suites) + CasesOf(env, codec, []);
  }

  /** A document with one suite holding one case decodes to that one case. */
  lemma OneCaseDocument(codec: SkipCodec, e: CaseElement)
    ensures AllCases(DecodeDocument(codec, Document([SuiteElement([e])])).suites) == [DecodeCase(codec, e)]
  {
    var t := DecodeDocument(codec, Document([SuiteElement([e])]));
    assert |t.suites| == 1 && |t.suites[0].cases| == 1;
    assert t.suites[0].cases == [DecodeCase(codec, e)];
  }
}
