/** `main`: every configuration file in turn, every document of a file in turn, and the URL
    file written for each configuration file that produced job URLs. */
module Driver {
  import opened Results
  import opened Values
  import opened Diagnostics
  import opened Loader
  import opened Validation
  import opened Execution
  import opened IsoMode
  import opened CloneMode

  /** What the model takes from outside: the tools being run, JSON decoding of an ISO post's
      reply, and Python's representation of a list. */
  datatype Tools = Tools(exec: Executor, read: IdReader, renderList: seq<Scalar> -> string)

  /** The command-line options after argument parsing: `-o/--output` and `--dry-run`. */
  datatype Options = Options(output: Option<string>, dryRun: bool)

  /** A configuration file named on the command line: its documents as the parser delivers
      them, or `None` when the path is not a regular file. */
  datatype SourceFile = SourceFile(path: string, content: Option<seq<RawDoc>>)

  /** A URL file: where it is written and its lines. */
  datatype Report = Report(file: string, urls: seq<string>)

  /** Validation first, then clone mode when there are jobs to clone, ISO mode otherwise. */
  function ProcessDocument(doc: Document, tools: Tools, dryRun: bool): (r: Result<Outcome, Error>)
    ensures ValidateVariables(doc.variables).Some? ==> r == Err(ValidateVariables(doc.variables).value)
    ensures ValidateVariables(doc.variables).None? && doc.jobsToClone != [] ==>
      r == Ok(Clone(doc, tools.renderList, tools.exec, dryRun))
    ensures ValidateVariables(doc.variables).None? && doc.jobsToClone == [] ==>
      r == IsoPost(doc, tools.exec, dryRun, tools.read)
  {
    match ValidateVariables(doc.variables)
    case Some(e) => Err(e)
    case None =>
      if doc.jobsToClone != [] then Ok(Clone(doc, tools.renderList, tools.exec, dryRun))
      else IsoPost(doc, tools.exec, dryRun, tools.read)
  }

  /** What a run of documents (or files) did so far and the error that stopped it, if any. */
  datatype Progress = Progress(outcome: Outcome, failure: Option<Error>)

  /** Running `q` after `p`: nothing runs after a failure. */
  function AndThen(p: Progress, q: Progress): Progress {
    if p.failure.Some? then p else Progress(Join(p.outcome, q.outcome), q.failure)
  }

  function Single(r: Result<Outcome, Error>): Progress {
    match r
    case Ok(o) => Progress(o, None)
    case Err(e) => Progress(Nothing, Some(e))
  }

  /** The documents of one file in order; the first error ends the whole run. */
  function ProcessDocuments(docs: seq<Document>, tools: Tools, dryRun: bool): Progress {
    if docs == [] then Progress(Nothing, None)
    else AndThen(Single(ProcessDocument(docs[0], tools, dryRun)), ProcessDocuments(docs[1..], tools, dryRun))
  }

  /** One file: the path check, loading, then the documents. */
  function FileProgress(f: SourceFile, tools: Tools, dryRun: bool): Progress {
    if f.content.None? then Progress(Nothing, Some(NotAFile(f.path)))
    else
      match Load(f.path, f.content.value)
      case Err(e) => Progress(Nothing, Some(e))
      case Ok(docs) => ProcessDocuments(docs, tools, dryRun)
  }

  /** The position of the last `c` in `s`, or -1. */
  function LastIndex(s: string, c: char): (r: int)
    ensures -1 <= r < |s|
    ensures r >= 0 ==> s[r] == c
    ensures forall j :: r < j < |s| ==> s[j] != c
  {
    if s == [] then -1 else if s[|s| - 1] == c then |s| - 1 else LastIndex(s[..|s| - 1], c)
  }

  /** `PurePath.stem`: the name without its last suffix; a leading dot or a trailing dot does
      not start a suffix. */
  function Stem(name: string): string {
    var i := LastIndex(name, '.');
    if 0 < i < |name| - 1 then name[..i] else name
  }

  /** `config_path.with_name(f"{config_path.stem}.urls.txt")`. */
  function UrlsFileName(path: string): string {
    var slash := LastIndex(path, '/');
    var dir, name := path[..slash + 1], path[slash + 1..];
    dir + Stem(name) + ".urls.txt"
  }

  /** `-o` names the URL file only when a single configuration file is given. */
  function OutputPath(path: string, output: Option<string>, fileCount: nat): string {
    if output.Some? && fileCount == 1 then output.value else UrlsFileName(path)
  }

  /** A character absent from the end of a string leaves its last position in the front. */
  lemma LastIndexSkip(a: string, b: string, c: char)
    requires c !in b
    ensures LastIndex(a + b, c) == LastIndex(a, c)
  {
    var s := a + b;
    var r, q := LastIndex(s, c), LastIndex(a, c);
    assert forall j :: |a| <= j < |s| ==> s[j] == b[j - |a|];
    assert forall j :: |a| <= j < |s| ==> s[j] != c;
    assert forall j :: 0 <= j < |a| ==> s[j] == a[j];
    assert q >= 0 ==> s[q] == c;
    assert 0 <= r < |a| ==> a[r] == c;
  }

  /** The URL file next to a configuration file replaces the last suffix of its name, in the
      same directory. */
  lemma UrlsFileNameOf(dir: string, stem: string, ext: string)
    requires dir == "" || dir[|dir| - 1] == '/'
    requires stem != "" && ext != "" && '/' !in stem && '/' !in ext && '.' !in ext
    ensures UrlsFileName(dir + (stem + "." + ext)) == dir + stem + ".urls.txt"
  {
    assert '/' !in stem + "." + ext;
    UrlsFileNameIn(dir, stem + "." + ext);
    StemOf(stem, ext);
  }

  /** The URL file of `dir/name` is in `dir`. */
  lemma UrlsFileNameIn(dir: string, name: string)
    requires dir == "" || dir[|dir| - 1] == '/'
    requires '/' !in name
    ensures UrlsFileName(dir + name) == dir + Stem(name) + ".urls.txt"
  {
    var path := dir + name;
    LastIndexSkip(dir, name, '/');
    assert LastIndex(dir, '/') == |dir| - 1;
    assert path[..|dir|] == dir && path[|dir|..] == name;
  }

  lemma StemOf(stem: string, ext: string)
    requires stem != "" && ext != "" && '.' !in ext
    ensures Stem(stem + "." + ext) == stem
  {
    var name := stem + "." + ext;
    LastIndexSkip(stem + ".", ext, '.');
    assert LastIndex(stem + ".", '.') == |stem|;
    assert name[..|stem|] == stem;
  }

  /** The URL file a finished file leaves: only when nothing failed, this is not a dry run, and
      the file's documents produced at least one URL. */
  function FileReport(f: SourceFile, p: Progress, opts: Options, fileCount: nat): seq<Report> {
    if p.failure.None? && !opts.dryRun && p.outcome.urls != [] then
      [Report(OutputPath(f.path, opts.output, fileCount), p.outcome.urls)]
    else []
  }

  /** Everything that was run, the URL files written (in order), and the error that ended the
      run, if any. */
  datatype RunResult = RunResult(outcome: Outcome, reports: seq<Report>, failure: Option<Error>)

  const Fresh: RunResult := RunResult(Nothing, [], None)

  /** `b` after `a`, when `a` did not fail. */
  function Combine(a: RunResult, b: RunResult): RunResult {
    RunResult(Join(a.outcome, b.outcome), a.reports + b.reports, b.failure)
  }

  function RunFiles(files: seq<SourceFile>, fileCount: nat, tools: Tools, opts: Options): RunResult {
    if files == [] then Fresh
    else
      var p := FileProgress(files[0], tools, opts.dryRun);
      if p.failure.Some? then RunResult(p.outcome, [], p.failure)
      else Combine(RunResult(p.outcome, FileReport(files[0], p, opts, fileCount), None), RunFiles(files[1..], fileCount, tools, opts))
  }

  /** The whole run over the files named on the command line. */
  function RunAll(files: seq<SourceFile>, tools: Tools, opts: Options): RunResult {
    RunFiles(files, |files|, tools, opts)
  }

  lemma JoinAssoc(a: Outcome, b: Outcome, c: Outcome)
    ensures Join(Join(a, b), c) == Join(a, Join(b, c))
  {
    assert (a.commands + b.commands) + c.commands == a.commands + (b.commands + c.commands);
    assert (a.urls + b.urls) + c.urls == a.urls + (b.urls + c.urls);
    assert (a.warnings + b.warnings) + c.warnings == a.warnings + (b.warnings + c.warnings);
  }

  lemma JoinNothing(a: Outcome)
    ensures Join(Nothing, a) == a && Join(a, Nothing) == a
  {
    assert [] + a.commands == a.commands && a.commands + [] == a.commands;
    assert [] + a.urls == a.urls && a.urls + [] == a.urls;
    assert [] + a.warnings == a.warnings && a.warnings + [] == a.warnings;
  }

  lemma CombineAssoc(a: RunResult, b: RunResult, c: RunResult)
    ensures Combine(Combine(a, b), c) == Combine(a, Combine(b, c))
  {
    JoinAssoc(a.outcome, b.outcome, c.outcome);
    assert (a.reports + b.reports) + c.reports == a.reports + (b.reports + c.reports);
  }

  lemma CombineFresh(a: RunResult)
    ensures Combine(Fresh, a) == a
  {
    JoinNothing(a.outcome);
    assert [] + a.reports == a.reports;
  }

  /** Files are independent: running `a + b` is running `a` and then, unless `a` failed,
      running `b` on its own; after a failure nothing of `b` runs or is written. */
  lemma {:induction false} RunFilesConcat(a: seq<SourceFile>, b: seq<SourceFile>, fileCount: nat, tools: Tools, opts: Options)
    ensures RunFiles(a + b, fileCount, tools, opts) ==
      if RunFiles(a, fileCount, tools, opts).failure.Some? then RunFiles(a, fileCount, tools, opts)
      else Combine(RunFiles(a, fileCount, tools, opts), RunFiles(b, fileCount, tools, opts))
  {
    if a == [] {
      assert a + b == b;
      CombineFresh(RunFiles(b, fileCount, tools, opts));
    } else {
      assert (a + b)[0] == a[0] && (a + b)[1..] == a[1..] + b;
      RunFilesConcat(a[1..], b, fileCount, tools, opts);
      var p := FileProgress(a[0], tools, opts.dryRun);
      if p.failure.None? {
        var head := RunResult(p.outcome, FileReport(a[0], p, opts, fileCount), None);
        CombineAssoc(head, RunFiles(a[1..], fileCount, tools, opts), RunFiles(b, fileCount, tools, opts));
      }
    }
  }

  /** The URL file of one configuration file, from its own documents alone. */
  function ReportFor(f: SourceFile, fileCount: nat, tools: Tools, opts: Options): Report {
    Report(OutputPath(f.path, opts.output, fileCount), FileProgress(f, tools, opts.dryRun).outcome.urls)
  }

  /** Each URL file holds the URLs of exactly one configuration file's documents, is written
      where that file's name says, and is never empty; a dry run writes nothing. */
  lemma {:induction false} RunFilesReports(files: seq<SourceFile>, fileCount: nat, tools: Tools, opts: Options)
    ensures forall r :: r in RunFiles(files, fileCount, tools, opts).reports ==>
      r.urls != [] && exists i :: 0 <= i < |files| && r == ReportFor(files[i], fileCount, tools, opts)
    ensures opts.dryRun ==> RunFiles(files, fileCount, tools, opts).reports == []
  {
    if files != [] {
      RunFilesReports(files[1..], fileCount, tools, opts);
      var p := FileProgress(files[0], tools, opts.dryRun);
      if p.failure.None? {
        var rest := RunFiles(files[1..], fileCount, tools, opts);
        forall r | r in rest.reports
          ensures exists i :: 0 <= i < |files| && r == ReportFor(files[i], fileCount, tools, opts)
        {
          var i :| 0 <= i < |files[1..]| && r == ReportFor(files[1..][i], fileCount, tools, opts);
          assert files[1..][i] == files[i + 1];
        }
        if opts.dryRun {
          assert [] + rest.reports == rest.reports;
        }
      }
    }
  }

  /** The progress of each file run on its own, in file order. */
  function Progresses(files: seq<SourceFile>, tools: Tools, dryRun: bool): (ps: seq<Progress>)
    ensures |ps| == |files|
  {
    if files == [] then [] else [FileProgress(files[0], tools, dryRun)] + Progresses(files[1..], tools, dryRun)
  }

  /** The URL file each file would leave, from its own documents, in file order. */
  function Candidates(files: seq<SourceFile>, fileCount: nat, tools: Tools, opts: Options): (rs: seq<Report>)
    ensures |rs| == |files|
  {
    if files == [] then [] else [ReportFor(files[0], fileCount, tools, opts)] + Candidates(files[1..], fileCount, tools, opts)
  }

  /** Entry `i` of the progresses is file `i` run on its own. */
  lemma {:induction false} ProgressAt(files: seq<SourceFile>, tools: Tools, dryRun: bool, i: nat)
    requires i < |files|
    ensures Progresses(files, tools, dryRun)[i] == FileProgress(files[i], tools, dryRun)
  {
    if i > 0 {
      ProgressAt(files[1..], tools, dryRun, i - 1);
    }
  }

  /** Entry `i` of the candidates is the URL file of file `i`. */
  lemma {:induction false} CandidateAt(files: seq<SourceFile>, fileCount: nat, tools: Tools, opts: Options, i: nat)
    requires i < |files|
    ensures Candidates(files, fileCount, tools, opts)[i] == ReportFor(files[i], fileCount, tools, opts)
  {
    if i > 0 {
      CandidateAt(files[1..], fileCount, tools, opts, i - 1);
    }
  }

  /** The URL file of file `i` is written: no dry run, neither file `i` nor any file before it
      failed, and file `i`'s documents produced job URLs. */
  predicate Writes(ps: seq<Progress>, i: nat, dryRun: bool)
    requires i < |ps|
  {
    !dryRun && (forall j :: 0 <= j <= i ==> ps[j].failure.None?) && ps[i].outcome.urls != []
  }

  /** The candidates from `from` on whose file is written, in file order. */
  function WrittenFrom(ps: seq<Progress>, rs: seq<Report>, from: nat, dryRun: bool): seq<Report>
    requires |rs| == |ps| && from <= |ps|
    decreases |ps| - from
  {
    if from == |ps| then []
    else (if Writes(ps, from, dryRun) then [rs[from]] else []) + WrittenFrom(ps, rs, from + 1, dryRun)
  }

  /** When the first file fails, no file is written. */
  lemma {:induction false} WrittenNone(ps: seq<Progress>, rs: seq<Report>, from: nat, dryRun: bool)
    requires |rs| == |ps| && from <= |ps| && |ps| > 0 && ps[0].failure.Some?
    ensures WrittenFrom(ps, rs, from, dryRun) == []
    decreases |ps| - from
  {
    if from < |ps| {
      assert !Writes(ps, from, dryRun);
      WrittenNone(ps, rs, from + 1, dryRun);
    }
  }

  /** Past a first file that does not fail, file `i` is written iff it is as file `i - 1` of
      the rest. */
  lemma WritesShift(ps: seq<Progress>, i: nat, dryRun: bool)
    requires 1 <= i < |ps| && ps[0].failure.None?
    ensures Writes(ps, i, dryRun) <==> Writes(ps[1..], i - 1, dryRun)
  {
    var tail := ps[1..];
    assert forall j :: 1 <= j <= i ==> ps[j] == tail[j - 1];
  }

  /** Past a first file that does not fail, the files written are those of the rest. */
  lemma {:induction false} WrittenShift(ps: seq<Progress>, rs: seq<Report>, from: nat, dryRun: bool)
    requires |rs| == |ps| && 1 <= from <= |ps| && ps[0].failure.None?
    ensures WrittenFrom(ps, rs, from, dryRun) == WrittenFrom(ps[1..], rs[1..], from - 1, dryRun)
    decreases |ps| - from
  {
    if from < |ps| {
      var tail, rtail := ps[1..], rs[1..];
      WritesShift(ps, from, dryRun);
      assert rs[from] == rtail[from - 1];
      WrittenShift(ps, rs, from + 1, dryRun);
    }
  }

  /** A candidate is written exactly when its file, at or after `from`, is written. */
  lemma {:induction false} WrittenMembers(ps: seq<Progress>, rs: seq<Report>, from: nat, dryRun: bool)
    requires |rs| == |ps| && from <= |ps|
    ensures forall r :: r in WrittenFrom(ps, rs, from, dryRun) <==>
      exists i :: from <= i < |ps| && Writes(ps, i, dryRun) && r == rs[i]
    decreases |ps| - from
  {
    if from < |ps| {
      WrittenMembers(ps, rs, from + 1, dryRun);
    }
  }

  /** The URL files of a run are, in file order, exactly those of the files that finish before
      any failure, outside a dry run, with job URLs: every such file gets its URL file. */
  lemma {:induction false} RunFilesWritten(files: seq<SourceFile>, fileCount: nat, tools: Tools, opts: Options)
    ensures var ps, rs := Progresses(files, tools, opts.dryRun), Candidates(files, fileCount, tools, opts);
      RunFiles(files, fileCount, tools, opts).reports == WrittenFrom(ps, rs, 0, opts.dryRun)
    ensures var ps := Progresses(files, tools, opts.dryRun);
      forall r :: r in RunFiles(files, fileCount, tools, opts).reports <==>
        exists i :: 0 <= i < |files| && Writes(ps, i, opts.dryRun) && r == ReportFor(files[i], fileCount, tools, opts)
  {
    var ps, rs := Progresses(files, tools, opts.dryRun), Candidates(files, fileCount, tools, opts);
    WrittenMembers(ps, rs, 0, opts.dryRun);
    forall i | 0 <= i < |files|
      ensures rs[i] == ReportFor(files[i], fileCount, tools, opts)
    {
      CandidateAt(files, fileCount, tools, opts, i);
    }
    if files != [] {
      var p := FileProgress(files[0], tools, opts.dryRun);
      assert ps[0] == p;
      if p.failure.Some? {
        WrittenNone(ps, rs, 0, opts.dryRun);
      } else {
        RunFilesWritten(files[1..], fileCount, tools, opts);
        assert ps[1..] == Progresses(files[1..], tools, opts.dryRun);
        assert rs[1..] == Candidates(files[1..], fileCount, tools, opts);
        WrittenShift(ps, rs, 1, opts.dryRun);
        assert Writes(ps, 0, opts.dryRun) <==> !opts.dryRun && p.outcome.urls != [];
      }
    }
  }

  /** The documents of a file are a run of their own, like the files of a run. */
  lemma {:induction false} ProcessDocumentsConcat(a: seq<Document>, b: seq<Document>, tools: Tools, dryRun: bool)
    ensures ProcessDocuments(a + b, tools, dryRun) == AndThen(ProcessDocuments(a, tools, dryRun), ProcessDocuments(b, tools, dryRun))
  {
    if a == [] {
      assert a + b == b;
      JoinNothing(ProcessDocuments(b, tools, dryRun).outcome);
    } else {
      assert (a + b)[0] == a[0] && (a + b)[1..] == a[1..] + b;
      ProcessDocumentsConcat(a[1..], b, tools, dryRun);
      var first := Single(ProcessDocument(a[0], tools, dryRun));
      if first.failure.None? {
        var r1 := ProcessDocuments(a[1..], tools, dryRun);
        var r2 := ProcessDocuments(b, tools, dryRun);
        JoinAssoc(first.outcome, r1.outcome, r2.outcome);
      }
    }
  }

  /** Whether a document fails, and with which error, is settled before any tool runs: it does
      not depend on the tools, on their output, or on the dry-run flag. */
  lemma ErrorBeforeTools(doc: Document, t1: Tools, d1: bool, t2: Tools, d2: bool)
    ensures ProcessDocument(doc, t1, d1).Err? <==> ProcessDocument(doc, t2, d2).Err?
    ensures ProcessDocument(doc, t1, d1).Err? ==> ProcessDocument(doc, t1, d1).error == ProcessDocument(doc, t2, d2).error
  {
    if ValidateVariables(doc.variables).None? && doc.jobsToClone == [] {
      var p1, p2 := IsoPost(doc, t1.exec, d1, t1.read), IsoPost(doc, t2.exec, d2, t2.read);
      if p1.Err? {
        IsoPostErrorEarly(doc, t1.exec, d1, t1.read, t2.exec, d2, t2.read);
      } else if p2.Err? {
        IsoPostErrorEarly(doc, t2.exec, d2, t2.read, t1.exec, d1, t1.read);
      }
    }
  }

  /** `run_clone_jobs` or `run_iso_post` for one document, after its validation. */
  method RunDocument(doc: Document, tools: Tools, dryRun: bool) returns (r: Result<Outcome, Error>)
    ensures r == ProcessDocument(doc, tools, dryRun)
  {
    var problem := ValidateVariables(doc.variables);
    if problem.Some? {
      return Err(problem.value);
    }
    if doc.jobsToClone != [] {
      var o := RunCloneJobs(doc, tools.renderList, tools.exec, dryRun);
      return Ok(o);
    }
    r := RunIsoPost(doc, tools.exec, dryRun, tools.read);
  }

  /** The per-document loop of `main` for one file. */
  method RunFile(f: SourceFile, tools: Tools, dryRun: bool) returns (p: Progress)
    ensures p == FileProgress(f, tools, dryRun)
  {
    if f.content.None? {
      return Progress(Nothing, Some(NotAFile(f.path)));
    }
    var loaded := LoadConfigs(f.path, f.content.value);
    if loaded.Err? {
      return Progress(Nothing, Some(loaded.error));
    }
    var docs := loaded.value;
    var acc := Nothing;
    var i := 0;
    assert docs[0..] == docs;
    JoinNothing(ProcessDocuments(docs, tools, dryRun).outcome);
    while i < |docs|
      invariant 0 <= i <= |docs|
      invariant ProcessDocuments(docs, tools, dryRun) == AndThen(Progress(acc, None), ProcessDocuments(docs[i..], tools, dryRun))
    {
      assert docs[i..][1..] == docs[i + 1..];
      var r := RunDocument(docs[i], tools, dryRun);
      if r.Err? {
        JoinNothing(acc);
        return Progress(acc, Some(r.error));
      }
      JoinAssoc(acc, r.value, ProcessDocuments(docs[i + 1..], tools, dryRun).outcome);
      acc := Join(acc, r.value);
      i := i + 1;
    }
    JoinNothing(acc);
    return Progress(acc, None);
  }

  /** The per-file loop of `main`. */
  method Run(files: seq<SourceFile>, tools: Tools, opts: Options) returns (result: RunResult)
    ensures result == RunAll(files, tools, opts)
  {
    var acc := Fresh;
    var i := 0;
    assert files[0..] == files;
    CombineFresh(RunAll(files, tools, opts));
    while i < |files|
      invariant 0 <= i <= |files|
      invariant acc.failure.None?
      invariant RunAll(files, tools, opts) == Combine(acc, RunFiles(files[i..], |files|, tools, opts))
    {
      assert files[i..][1..] == files[i + 1..];
      var p := RunFile(files[i], tools, opts.dryRun);
      if p.failure.Some? {
        return Combine(acc, RunResult(p.outcome, [], p.failure));
      }
      var written := [];
      if !opts.dryRun && p.outcome.urls != [] {
        written := [Report(OutputPath(files[i].path, opts.output, |files|), p.outcome.urls)];
      }
      var head := RunResult(p.outcome, written, None);
      CombineAssoc(acc, head, RunFiles(files[i + 1..], |files|, tools, opts));
      acc := Combine(acc, head);
      i := i + 1;
    }
    assert RunFiles(files[i..], |files|, tools, opts) == Fresh;
    JoinNothing(acc.outcome);
    assert acc.reports + [] == acc.reports;
    return acc;
  }
}
