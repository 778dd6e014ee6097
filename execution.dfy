/** `execute_command` and what the runner keeps of the commands it runs. The tools themselves
    are outside the model: an executor function stands for them. */
module Execution {
  import opened Results
  import opened Diagnostics

  /** The captured standard output of a command that succeeded, or `None` when it failed. */
  type Executor = seq<string> -> Option<string>

  /** `execute_command`: a dry run executes nothing and yields nothing. */
  function Execute(exec: Executor, dryRun: bool, command: seq<string>): (r: Option<string>)
    ensures dryRun ==> r.None?
  {
    if dryRun then None else exec(command)
  }

  /** `if output:` — an empty output counts as none. */
  predicate HasOutput(o: Option<string>) {
    o.Some? && o.value != ""
  }

  /** One executed command and what the runner took from it. */
  datatype Step = Step(command: seq<string>, urls: seq<string>, warnings: seq<Warning>)

  /** The commands run so far, in order, the URLs collected and the warnings printed. */
  datatype Outcome = Outcome(commands: seq<seq<string>>, urls: seq<string>, warnings: seq<Warning>)

  const Nothing: Outcome := Outcome([], [], [])

  function Then(o: Outcome, s: Step): Outcome {
    Outcome(o.commands + [s.command], o.urls + s.urls, o.warnings + s.warnings)
  }

  function Join(o: Outcome, p: Outcome): Outcome {
    Outcome(o.commands + p.commands, o.urls + p.urls, o.warnings + p.warnings)
  }

  /** The outcome of running the steps one after the other. */
  function Collect(steps: seq<Step>): Outcome {
    if steps == [] then Nothing else Then(Collect(steps[..|steps| - 1]), steps[|steps| - 1])
  }

  /** Running steps in order keeps every command in order, concatenates the URLs and keeps
      every warning: command `j` is step `j`'s, and a URL or warning comes from some step. */
  lemma {:induction false} CollectSpec(steps: seq<Step>)
    ensures |Collect(steps).commands| == |steps|
    ensures forall j :: 0 <= j < |steps| ==> Collect(steps).commands[j] == steps[j].command
    ensures forall u :: u in Collect(steps).urls <==> exists j :: 0 <= j < |steps| && u in steps[j].urls
    ensures forall w :: w in Collect(steps).warnings <==> exists j :: 0 <= j < |steps| && w in steps[j].warnings
  {
    if steps != [] {
      var n := |steps| - 1;
      CollectSpec(steps[..n]);
      assert forall j :: 0 <= j < n ==> steps[..n][j] == steps[j];
      forall u | u in Collect(steps).urls ensures exists j :: 0 <= j < |steps| && u in steps[j].urls {
        if u !in steps[n].urls {
          var j :| 0 <= j < n && u in steps[..n][j].urls;
        }
      }
      forall w | w in Collect(steps).warnings ensures exists j :: 0 <= j < |steps| && w in steps[j].warnings {
        if w !in steps[n].warnings {
          var j :| 0 <= j < n && w in steps[..n][j].warnings;
        }
      }
    }
  }

  /** Collecting two runs of steps is joining their outcomes. */
  lemma {:induction false} CollectConcat(a: seq<Step>, b: seq<Step>)
    ensures Collect(a + b) == Join(Collect(a), Collect(b))
  {
    if b == [] {
      assert a + b == a;
    } else {
      var n := |b| - 1;
      assert (a + b)[..|a + b| - 1] == a + b[..n];
      CollectConcat(a, b[..n]);
    }
  }

  /** Steps that yield no URL collect none. */
  lemma {:induction false} CollectNoUrls(steps: seq<Step>)
    requires forall j :: 0 <= j < |steps| ==> steps[j].urls == []
    ensures Collect(steps).urls == []
  {
    if steps != [] {
      CollectNoUrls(steps[..|steps| - 1]);
    }
  }

  /** Steps that warn about nothing collect no warning. */
  lemma {:induction false} CollectNoWarnings(steps: seq<Step>)
    requires forall j :: 0 <= j < |steps| ==> steps[j].warnings == []
    ensures Collect(steps).warnings == []
  {
    if steps != [] {
      CollectNoWarnings(steps[..|steps| - 1]);
    }
  }
}
