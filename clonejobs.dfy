/** `run_clone_jobs`: one `openqa-clone-job --within-instance` per job URL, with the job URLs
    printed by the tool collected from its output. */
module CloneMode {
  import opened Results
  import opened Values
  import opened Diagnostics
  import opened Validation
  import opened Commands
  import opened Execution
  import opened Output
  import IsoMode

  /** The variables clone mode passes on, as written: a null `variables:` section reaches
      `variables.items()` and raises. An absent one reads as `{}`. */
  function CloneVariablesAsWritten(f: Field<Dict<Value>>): (r: Result<Dict<Value>, Error>)
    ensures r.Err? <==> f.Null?
  {
    match f
    case Absent => Ok([])
    case Null => Err(NullVariables)
    case Given(m) => Ok(m)
  }

  /** The variables clone mode passes on, with a null section read as an empty mapping, as
      validation and ISO mode read it. */
  function CloneVariables(f: Field<Dict<Value>>): (r: Dict<Value>)
    ensures CloneVariablesAsWritten(f).Ok? ==> r == CloneVariablesAsWritten(f).value
    ensures r == IsoMode.VariablesOf(f)
  {
    if f.Given? then f.value else []
  }

  /** A document with a null `variables:` section and one job to clone passes validation and
      would post ISOs with no variables, yet clone mode as written fails before running
      anything; the corrected reading clones the job with no variable arguments. */
  lemma NullVariablesInCloneMode()
    ensures var f: Field<Dict<Value>> := Field.Null;
      ValidateVariables(f).None?
      && IsoMode.VariablesOf(f) == []
      && CloneVariablesAsWritten(f) == Err(NullVariables)
      && CloneVariables(f) == []
      && CloneCommand("https://openqa.suse.de/tests/1", [], CloneVariables(f), _ => "")
         == ["openqa-clone-job", "--within-instance", "https://openqa.suse.de/tests/1"]
  {
    var f: Field<Dict<Value>> := Field.Null;
    assert CloneArguments(CloneVariables(f), _ => "") == [];
  }

  /** What the runner takes from one clone: the URLs in its output. */
  function CloneOne(url: string, flags: seq<string>, vars: Dict<Value>, renderList: seq<Scalar> -> string, exec: Executor, dryRun: bool): Step {
    var command := CloneCommand(url, flags, vars, renderList);
    var out := Execute(exec, dryRun, command);
    Step(command, if HasOutput(out) then ExtractUrls(out.value) else [], [])
  }

  function CloneSteps(jobs: seq<string>, flags: seq<string>, vars: Dict<Value>, renderList: seq<Scalar> -> string, exec: Executor, dryRun: bool): (r: seq<Step>)
    ensures |r| == |jobs|
  {
    seq(|jobs|, j requires 0 <= j < |jobs| => CloneOne(jobs[j], flags, vars, renderList, exec, dryRun))
  }

  /** The clone run of one document. */
  function Clone(doc: Document, renderList: seq<Scalar> -> string, exec: Executor, dryRun: bool): Outcome {
    Collect(CloneSteps(doc.jobsToClone, doc.flags, CloneVariables(doc.variables), renderList, exec, dryRun))
  }

  lemma CloneOneParts(url: string, flags: seq<string>, vars: Dict<Value>, renderList: seq<Scalar> -> string, exec: Executor, dryRun: bool)
    ensures var s := CloneOne(url, flags, vars, renderList, exec, dryRun);
      s.command == CloneCommand(url, flags, vars, renderList)
      && s.warnings == []
      && (forall u :: u in s.urls ==> WellFormedUrl(u))
      && (dryRun ==> s.urls == [])
  {
    var command := CloneCommand(url, flags, vars, renderList);
    var out := Execute(exec, dryRun, command);
    if HasOutput(out) {
      ExtractWellFormed(out.value);
    }
  }

  /** The output of the clone of job `j` of a document. */
  function CloneOutput(doc: Document, renderList: seq<Scalar> -> string, exec: Executor, dryRun: bool, j: nat): Option<string>
    requires j < |doc.jobsToClone|
  {
    Execute(exec, dryRun, CloneCommand(doc.jobsToClone[j], doc.flags, CloneVariables(doc.variables), renderList))
  }

  /** One clone per job URL, in order, each passing the document's flags and its non-null
      variables. A URL is collected iff `extract_urls` finds it in the non-empty output of
      some clone; every such URL is one the output pattern accepts, a clone never warns, and
      a dry run collects nothing. */
  lemma CloneRuns(doc: Document, renderList: seq<Scalar> -> string, exec: Executor, dryRun: bool)
    ensures var o := Clone(doc, renderList, exec, dryRun);
      |o.commands| == |doc.jobsToClone|
      && (forall j :: 0 <= j < |o.commands| ==>
            o.commands[j] == CloneCommand(doc.jobsToClone[j], doc.flags, CloneVariables(doc.variables), renderList))
      && (forall u :: u in o.urls ==> WellFormedUrl(u))
      && o.warnings == []
      && (dryRun ==> o.urls == [])
    ensures forall u :: u in Clone(doc, renderList, exec, dryRun).urls <==>
      exists j :: 0 <= j < |doc.jobsToClone| && HasOutput(CloneOutput(doc, renderList, exec, dryRun, j))
        && u in ExtractUrls(CloneOutput(doc, renderList, exec, dryRun, j).value)
  {
    var vars := CloneVariables(doc.variables);
    var steps := CloneSteps(doc.jobsToClone, doc.flags, vars, renderList, exec, dryRun);
    forall j | 0 <= j < |steps|
      ensures steps[j].command == CloneCommand(doc.jobsToClone[j], doc.flags, vars, renderList)
      ensures steps[j].warnings == []
      ensures forall u :: u in steps[j].urls ==> WellFormedUrl(u)
      ensures dryRun ==> steps[j].urls == []
      ensures var out := CloneOutput(doc, renderList, exec, dryRun, j);
        steps[j].urls == if HasOutput(out) then ExtractUrls(out.value) else []
    {
      CloneOneParts(doc.jobsToClone[j], doc.flags, vars, renderList, exec, dryRun);
    }
    CollectSpec(steps);
    if dryRun {
      CollectNoUrls(steps);
    }
    CollectNoWarnings(steps);
  }

  /** The job loop of `run_clone_jobs`. */
  method RunCloneJobs(doc: Document, renderList: seq<Scalar> -> string, exec: Executor, dryRun: bool) returns (o: Outcome)
    ensures o == Clone(doc, renderList, exec, dryRun)
  {
    var vars := CloneVariables(doc.variables);
    ghost var steps := CloneSteps(doc.jobsToClone, doc.flags, vars, renderList, exec, dryRun);
    o := Nothing;
    var j := 0;
    while j < |doc.jobsToClone|
      invariant 0 <= j <= |doc.jobsToClone|
      invariant o == Collect(steps[..j])
    {
      var url := doc.jobsToClone[j];
      var command := BuildCloneCommand(url, doc.flags, vars, renderList);
      var out := Execute(exec, dryRun, command);
      var urls := [];
      if HasOutput(out) {
        urls := ExtractUrls(out.value);
      }
      assert Step(command, urls, []) == steps[j];
      assert steps[..j + 1][..j] == steps[..j];
      o := Then(o, Step(command, urls, []));
      j := j + 1;
    }
    assert steps[..j] == steps;
  }
}
