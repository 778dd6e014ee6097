/** `run_iso_post`: one `openqa-cli api -X post isos` per combination of the list variables,
    with the job ids of each reply turned into job URLs. */
module IsoMode {
  import opened Results
  import opened Values
  import opened Diagnostics
  import opened Expansion
  import opened Combinations
  import opened Hosts
  import opened Commands
  import opened Execution

  /** The variables an ISO post cannot do without, in the order they are reported. */
  const RequiredVars: seq<string> := ["DISTRI", "VERSION", "FLAVOR", "ARCH", "_GROUP_ID"]

  /** `json.loads(output).get('ids', [])`: `None` when the output is not JSON, the ids otherwise
      (none when the reply has no `ids`). JSON decoding is outside the model. */
  type IdReader = string -> Option<seq<Scalar>>

  /** `config.get('variables') or {}`. */
  function VariablesOf(f: Field<Dict<Value>>): (r: Dict<Value>)
    ensures f.Given? ==> r == f.value
    ensures !f.Given? ==> r == []
  {
    if f.Given? then f.value else []
  }

  /** The names of `names` that are not keys, in the order of `names`. */
  function MissingFrom(names: seq<string>, keys: seq<string>): (r: seq<string>)
    ensures forall n :: n in r <==> n in names && n !in keys
  {
    if names == [] then []
    else (if names[0] in keys then [] else [names[0]]) + MissingFrom(names[1..], keys)
  }

  /** The required variables the mapping lacks. A key with a null value is present. */
  function Missing(vars: Dict<Value>): seq<string> {
    MissingFrom(RequiredVars, KeysOf(vars))
  }

  function JobUrls(host: string, ids: seq<Scalar>): (r: seq<string>)
    ensures |r| == |ids|
    ensures forall k :: 0 <= k < |ids| ==> r[k] == JobUrl(host, ids[k])
  {
    seq(|ids|, k requires 0 <= k < |ids| => JobUrl(host, ids[k]))
  }

  /** What the runner takes from the reply to one post: the job URLs, or a warning when the
      output is not JSON, or nothing when there is no output. */
  function ReplyStep(command: seq<string>, out: Option<string>, host: string, read: IdReader, warnings: seq<Warning>): Step {
    if !HasOutput(out) then Step(command, [], warnings)
    else match read(out.value)
      case None => Step(command, [], warnings + [NotJson])
      case Some(ids) => Step(command, JobUrls(host, ids), warnings)
  }

  /** Expanding one merged mapping, posting it, and reading the reply. */
  function PostOne(combo: Dict<Scalar>, flags: seq<string>, host: string, exec: Executor, dryRun: bool, read: IdReader): Step {
    var ex := Expand(combo);
    var command := IsoCommand(flags, ex.0);
    ReplyStep(command, Execute(exec, dryRun, command), host, read, ex.1)
  }

  function PostSteps(combos: seq<Dict<Scalar>>, flags: seq<string>, host: string, exec: Executor, dryRun: bool, read: IdReader): (r: seq<Step>)
    ensures |r| == |combos|
  {
    seq(|combos|, j requires 0 <= j < |combos| => PostOne(combos[j], flags, host, exec, dryRun, read))
  }

  /** The whole ISO post of one document. The missing-variable check comes first, then the
      host check, and both come before any command runs. */
  function IsoPost(doc: Document, exec: Executor, dryRun: bool, read: IdReader): Result<Outcome, Error> {
    var vars := VariablesOf(doc.variables);
    var missing := Missing(vars);
    if missing != [] then Err(MissingRequired(missing))
    else
      match ResolveHost(doc.host, doc.flags)
      case Err(e) => Err(e)
      case Ok(host) => Ok(Collect(PostSteps(CombinationsOf(vars), doc.flags, host, exec, dryRun, read)))
  }

  /** The post fails exactly when a required variable is missing, naming all of them in the
      required order, or else when the host contradicts a flag. */
  lemma IsoPostErrors(doc: Document, exec: Executor, dryRun: bool, read: IdReader)
    ensures var vars := VariablesOf(doc.variables);
      IsoPost(doc, exec, dryRun, read).Err? <==> Missing(vars) != [] || ResolveHost(doc.host, doc.flags).Err?
    ensures var vars := VariablesOf(doc.variables);
      Missing(vars) != [] ==> IsoPost(doc, exec, dryRun, read) == Err(MissingRequired(Missing(vars)))
    ensures var vars := VariablesOf(doc.variables);
      Missing(vars) == [] && ResolveHost(doc.host, doc.flags).Err? ==>
        IsoPost(doc, exec, dryRun, read) == Err(ResolveHost(doc.host, doc.flags).error)
    ensures var vars := VariablesOf(doc.variables);
      forall n :: n in Missing(vars) <==> n in RequiredVars && n !in KeysOf(vars)
  {
  }

  /** A failing post fails the same way whatever the executor, the reply reader and the
      dry-run flag: the checks come before any command runs. */
  lemma IsoPostErrorEarly(doc: Document, e1: Executor, d1: bool, r1: IdReader, e2: Executor, d2: bool, r2: IdReader)
    requires IsoPost(doc, e1, d1, r1).Err?
    ensures IsoPost(doc, e2, d2, r2) == IsoPost(doc, e1, d1, r1)
  {
  }

  lemma IsoPostValue(doc: Document, exec: Executor, dryRun: bool, read: IdReader)
    requires IsoPost(doc, exec, dryRun, read).Ok?
    ensures ResolveHost(doc.host, doc.flags).Ok?
    ensures IsoPost(doc, exec, dryRun, read).value
      == Collect(PostSteps(CombinationsOf(VariablesOf(doc.variables)), doc.flags, ResolveHost(doc.host, doc.flags).value, exec, dryRun, read))
  {
  }

  /** Every URL taken from a reply is a job URL on the host. */
  lemma ReplyUrls(command: seq<string>, out: Option<string>, host: string, read: IdReader, warnings: seq<Warning>)
    ensures forall u :: u in ReplyStep(command, out, host, read, warnings).urls ==> exists id :: u == JobUrl(host, id)
  {
    if HasOutput(out) && read(out.value).Some? {
      var ids := read(out.value).value;
      forall u | u in JobUrls(host, ids) ensures exists id :: u == JobUrl(host, id) {
        var k :| 0 <= k < |ids| && JobUrls(host, ids)[k] == u;
        assert u == JobUrl(host, ids[k]);
      }
    }
  }

  lemma PostOneParts(combo: Dict<Scalar>, flags: seq<string>, host: string, exec: Executor, dryRun: bool, read: IdReader)
    ensures PostOne(combo, flags, host, exec, dryRun, read).command == IsoCommand(flags, Expand(combo).0)
    ensures forall u :: u in PostOne(combo, flags, host, exec, dryRun, read).urls ==> exists id :: u == JobUrl(host, id)
  {
    var ex := Expand(combo);
    var command := IsoCommand(flags, ex.0);
    ReplyUrls(command, Execute(exec, dryRun, command), host, read, ex.1);
  }

  /** The reply to the post of one merged mapping. */
  function PostOutput(combo: Dict<Scalar>, flags: seq<string>, exec: Executor, dryRun: bool): Option<string> {
    Execute(exec, dryRun, IsoCommand(flags, Expand(combo).0))
  }

  /** A post collects the job URLs of the ids of a non-empty reply the reader accepts, and
      nothing otherwise; it warns about JSON iff the reply is non-empty and the reader rejects
      it. */
  lemma PostOneReply(combo: Dict<Scalar>, flags: seq<string>, host: string, exec: Executor, dryRun: bool, read: IdReader)
    ensures var out := PostOutput(combo, flags, exec, dryRun);
      PostOne(combo, flags, host, exec, dryRun, read).urls
        == if HasOutput(out) && read(out.value).Some? then JobUrls(host, read(out.value).value) else []
    ensures var out := PostOutput(combo, flags, exec, dryRun);
      NotJson in PostOne(combo, flags, host, exec, dryRun, read).warnings <==> HasOutput(out) && read(out.value).None?
  {
    ExpandWarnings(combo);
  }

  /** One post per combination, in product order: post `j` is the command built from the
      expansion of merged mapping `j`, so there are as many posts as the product of the list
      lengths; every URL is a job URL on the resolved host. */
  lemma IsoPostRuns(doc: Document, exec: Executor, dryRun: bool, read: IdReader)
    requires IsoPost(doc, exec, dryRun, read).Ok?
    ensures var vars := VariablesOf(doc.variables);
      var o := IsoPost(doc, exec, dryRun, read).value;
      |o.commands| == |CombinationsOf(vars)| == Size(ListValues(ListsOf(vars)))
      && forall j :: 0 <= j < |o.commands| ==> o.commands[j] == IsoCommand(doc.flags, Expand(CombinationsOf(vars)[j]).0)
    ensures var o := IsoPost(doc, exec, dryRun, read).value;
      var host := ResolveHost(doc.host, doc.flags).value;
      forall u :: u in o.urls ==> exists id :: u == JobUrl(host, id)
    ensures var vars := VariablesOf(doc.variables);
      var combos, host := CombinationsOf(vars), ResolveHost(doc.host, doc.flags).value;
      forall u :: u in IsoPost(doc, exec, dryRun, read).value.urls <==>
        exists j :: 0 <= j < |combos| && HasOutput(PostOutput(combos[j], doc.flags, exec, dryRun))
          && read(PostOutput(combos[j], doc.flags, exec, dryRun).value).Some?
          && u in JobUrls(host, read(PostOutput(combos[j], doc.flags, exec, dryRun).value).value)
    ensures var combos := CombinationsOf(VariablesOf(doc.variables));
      NotJson in IsoPost(doc, exec, dryRun, read).value.warnings <==>
        exists j :: 0 <= j < |combos| && HasOutput(PostOutput(combos[j], doc.flags, exec, dryRun))
          && read(PostOutput(combos[j], doc.flags, exec, dryRun).value).None?
  {
    var vars := VariablesOf(doc.variables);
    IsoPostValue(doc, exec, dryRun, read);
    var host := ResolveHost(doc.host, doc.flags).value;
    var steps := PostSteps(CombinationsOf(vars), doc.flags, host, exec, dryRun, read);
    CollectSpec(steps);
    CombinationsCount(vars);
    forall j | 0 <= j < |steps|
      ensures steps[j].command == IsoCommand(doc.flags, Expand(CombinationsOf(vars)[j]).0)
      ensures forall u :: u in steps[j].urls ==> exists id :: u == JobUrl(host, id)
      ensures var out := PostOutput(CombinationsOf(vars)[j], doc.flags, exec, dryRun);
        steps[j].urls == if HasOutput(out) && read(out.value).Some? then JobUrls(host, read(out.value).value) else []
      ensures var out := PostOutput(CombinationsOf(vars)[j], doc.flags, exec, dryRun);
        NotJson in steps[j].warnings <==> HasOutput(out) && read(out.value).None?
    {
      PostOneParts(CombinationsOf(vars)[j], doc.flags, host, exec, dryRun, read);
      PostOneReply(CombinationsOf(vars)[j], doc.flags, host, exec, dryRun, read);
    }
  }

  lemma PostOneDry(combo: Dict<Scalar>, flags: seq<string>, host: string, exec: Executor, read: IdReader)
    ensures PostOne(combo, flags, host, exec, true, read).urls == []
    ensures NotJson !in PostOne(combo, flags, host, exec, true, read).warnings
  {
    ExpandWarnings(combo);
  }

  /** A dry run posts every combination but collects no URL and warns about no reply. */
  lemma IsoPostDryRun(doc: Document, exec: Executor, read: IdReader)
    requires IsoPost(doc, exec, true, read).Ok?
    ensures IsoPost(doc, exec, true, read).value.urls == []
    ensures NotJson !in IsoPost(doc, exec, true, read).value.warnings
  {
    var vars := VariablesOf(doc.variables);
    IsoPostValue(doc, exec, true, read);
    var host := ResolveHost(doc.host, doc.flags).value;
    var steps := PostSteps(CombinationsOf(vars), doc.flags, host, exec, true, read);
    forall j | 0 <= j < |steps| ensures steps[j].urls == [] && NotJson !in steps[j].warnings {
      PostOneDry(CombinationsOf(vars)[j], doc.flags, host, exec, read);
    }
    CollectNoUrls(steps);
    CollectSpec(steps);
  }

  /** The merged mapping of each pick, in order. */
  function Merged(scalars: Dict<Scalar>, keys: seq<string>, picks: seq<seq<Scalar>>): (r: seq<Dict<Scalar>>)
    requires forall j :: 0 <= j < |picks| ==> |picks[j]| == |keys|
    ensures |r| == |picks|
  {
    seq(|picks|, j requires 0 <= j < |picks| => Bind(scalars, keys, picks[j]))
  }

  /** The loop's picks, merged, are the combinations of the specification. */
  lemma MergedIsCombinations(vars: Dict<Value>)
    ensures var picks := Product(ListValues(ListsOf(vars)));
      DistinctKeys(ScalarsOf(vars))
      && (forall j :: 0 <= j < |picks| ==> |picks[j]| == |KeysOf(ListsOf(vars))|)
      && Merged(ScalarsOf(vars), KeysOf(ListsOf(vars)), picks) == CombinationsOf(vars)
  {
    var picks := Product(ListValues(ListsOf(vars)));
    SplitDisjoint(vars);
    ProductMembers(ListValues(ListsOf(vars)));
    assert forall j :: 0 <= j < |picks| ==> picks[j] in picks;
  }

  lemma CollectSnoc(steps: seq<Step>, j: nat)
    requires j < |steps|
    ensures Collect(steps[..j + 1]) == Then(Collect(steps[..j]), steps[j])
  {
    assert steps[..j + 1][..j] == steps[..j];
  }

  /** The combination loop of `run_iso_post`: merge, expand, build and post each pick in turn. */
  method RunPosts(scalars: Dict<Scalar>, keys: seq<string>, picks: seq<seq<Scalar>>, flags: seq<string>,
                  host: string, exec: Executor, dryRun: bool, read: IdReader) returns (outcome: Outcome)
    requires forall j :: 0 <= j < |picks| ==> |picks[j]| == |keys|
    ensures outcome == Collect(PostSteps(Merged(scalars, keys, picks), flags, host, exec, dryRun, read))
  {
    ghost var steps := PostSteps(Merged(scalars, keys, picks), flags, host, exec, dryRun, read);
    outcome := Nothing;
    var j := 0;
    while j < |picks|
      invariant 0 <= j <= |picks|
      invariant outcome == Collect(steps[..j])
    {
      var current := MergeCombination(scalars, keys, picks[j]);
      var expanded, warnings := ExpandVariables(current);
      var command := BuildIsoCommand(flags, expanded);
      var out := Execute(exec, dryRun, command);
      var step := ReplyStep(command, out, host, read, warnings);
      assert step == steps[j];
      CollectSnoc(steps, j);
      outcome := Then(outcome, step);
      j := j + 1;
    }
    assert steps[..j] == steps;
  }

  /** `run_iso_post`: the required-variable check, split, product and host, then the loop. */
  method RunIsoPost(doc: Document, exec: Executor, dryRun: bool, read: IdReader) returns (r: Result<Outcome, Error>)
    ensures r == IsoPost(doc, exec, dryRun, read)
  {
    var vars := VariablesOf(doc.variables);
    var missing := Missing(vars);
    if missing != [] {
      return Err(MissingRequired(missing));
    }
    var scalars, lists := Split(vars);
    var listKeys := KeysOf(lists);
    var picks := Product(ListValues(lists));
    var resolved := ResolveHost(doc.host, doc.flags);
    if resolved.Err? {
      return Err(resolved.error);
    }
    MergedIsCombinations(vars);
    var outcome := RunPosts(scalars, listKeys, picks, doc.flags, resolved.value, exec, dryRun, read);
    return Ok(outcome);
  }
}
