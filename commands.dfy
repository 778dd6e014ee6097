/** The argument vectors the runner hands to `openqa-cli` and `openqa-clone-job`, and the job
    URLs it builds from the ids an ISO post returns. */
module Commands {
  import opened Text
  import opened Values

  /** A `KEY=value` argument. */
  function Assignment(key: string, text: string): string {
    key + "=" + text
  }

  /** The position of the first `=` of an argument, or its length when there is none. */
  function FirstEquals(a: string): (r: nat)
    ensures r <= |a|
    ensures r < |a| ==> a[r] == '='
    ensures forall j :: 0 <= j < r ==> a[j] != '='
  {
    if a == [] then 0 else if a[0] == '=' then 0 else 1 + FirstEquals(a[1..])
  }

  /** Splitting an argument at its first `=` gives back the key and the text, so the tools see
      every variable as it was meant whenever the key itself holds no `=`. */
  lemma AssignmentReadBack(key: string, text: string)
    requires '=' !in key
    ensures var a := Assignment(key, text);
      FirstEquals(a) == |key| && a[..|key|] == key && a[|key| + 1..] == text
  {
    var a := Assignment(key, text);
    assert forall j :: 0 <= j < |key| ==> a[j] == key[j];
    assert a[|key|] == '=';
    assert a[|key| + 1..] == text;
  }

  const IsoHead: seq<string> := ["openqa-cli", "api", "-X", "post", "isos"]

  /** One `KEY=value` argument per variable, in mapping order. */
  function IsoArguments(vars: seq<Entry<Scalar>>): (r: seq<string>)
    ensures |r| == |vars|
  {
    seq(|vars|, i requires 0 <= i < |vars| => Assignment(vars[i].key, Show(vars[i].val)))
  }

  /** The ISO post command for one expanded combination. */
  function IsoCommand(flags: seq<string>, vars: seq<Entry<Scalar>>): seq<string> {
    IsoHead + flags + IsoArguments(vars)
  }

  /** The command is the fixed head, the flags untouched, and then every variable with its
      rendered value, in order; each argument splits back into its key and its value. */
  lemma IsoCommandShape(flags: seq<string>, vars: seq<Entry<Scalar>>)
    ensures var c := IsoCommand(flags, vars);
      |c| == |IsoHead| + |flags| + |vars|
      && c[..|IsoHead|] == IsoHead
      && c[|IsoHead|..|IsoHead| + |flags|] == flags
      && forall i :: 0 <= i < |vars| ==> c[|IsoHead| + |flags| + i] == Assignment(vars[i].key, Show(vars[i].val))
    ensures forall i :: 0 <= i < |vars| && '=' !in vars[i].key ==>
      var a := IsoArguments(vars)[i];
      a[..FirstEquals(a)] == vars[i].key && a[FirstEquals(a) + 1..] == Show(vars[i].val)
  {
    var c := IsoCommand(flags, vars);
    assert c[..|IsoHead|] == IsoHead;
    assert c[|IsoHead|..|IsoHead| + |flags|] == flags;
    forall i | 0 <= i < |vars| && '=' !in vars[i].key
      ensures var a := IsoArguments(vars)[i];
        a[..FirstEquals(a)] == vars[i].key && a[FirstEquals(a) + 1..] == Show(vars[i].val)
    {
      AssignmentReadBack(vars[i].key, Show(vars[i].val));
    }
  }

  /** The append loop of `run_iso_post` that builds one command. */
  method BuildIsoCommand(flags: seq<string>, vars: seq<Entry<Scalar>>) returns (command: seq<string>)
    ensures command == IsoCommand(flags, vars)
  {
    command := IsoHead + flags;
    var i := 0;
    while i < |vars|
      invariant 0 <= i <= |vars|
      invariant command == IsoHead + flags + IsoArguments(vars[..i])
    {
      assert IsoArguments(vars[..i + 1]) == IsoArguments(vars[..i]) + [Assignment(vars[i].key, Show(vars[i].val))];
      command := command + [Assignment(vars[i].key, Show(vars[i].val))];
      i := i + 1;
    }
    assert vars[..i] == vars;
  }

  /** The f-string rendering of a raw variable in clone mode: a scalar as `str()` gives it, a
      list as its Python representation (`['a', 'b']`), which `renderList` stands for. */
  function RenderValue(v: Value, renderList: seq<Scalar> -> string): string {
    match v
    case One(s) => Show(s)
    case Many(items) => renderList(items)
  }

  /** A clone-mode variable is passed on unless its value is null. */
  predicate Passed(e: Entry<Value>) {
    e.val != One(Scalar.Null)
  }

  /** One `KEY=value` argument per non-null variable, in mapping order. */
  function CloneArguments(vars: seq<Entry<Value>>, renderList: seq<Scalar> -> string): seq<string> {
    if vars == [] then []
    else
      var init, last := vars[..|vars| - 1], vars[|vars| - 1];
      CloneArguments(init, renderList)
        + (if Passed(last) then [Assignment(last.key, RenderValue(last.val, renderList))] else [])
  }

  function CloneHead(url: string): seq<string> {
    ["openqa-clone-job", "--within-instance", url]
  }

  /** The clone command for one job URL. */
  function CloneCommand(url: string, flags: seq<string>, vars: seq<Entry<Value>>, renderList: seq<Scalar> -> string): seq<string> {
    CloneHead(url) + flags + CloneArguments(vars, renderList)
  }

  /** The clone arguments are exactly the non-null variables, rendered as given (no `%NAME%`
      expansion happens in clone mode), and they keep the mapping order. */
  lemma {:induction false} CloneArgumentsMembers(vars: seq<Entry<Value>>, renderList: seq<Scalar> -> string)
    ensures forall a :: a in CloneArguments(vars, renderList) <==>
      exists e :: e in vars && Passed(e) && a == Assignment(e.key, RenderValue(e.val, renderList))
  {
    if vars != [] {
      var init := vars[..|vars| - 1];
      CloneArgumentsMembers(init, renderList);
      assert vars == init + [vars[|vars| - 1]];
      forall a | a in CloneArguments(vars, renderList)
        ensures exists e :: e in vars && Passed(e) && a == Assignment(e.key, RenderValue(e.val, renderList))
      {
        if a in CloneArguments(init, renderList) {
          var e :| e in init && Passed(e) && a == Assignment(e.key, RenderValue(e.val, renderList));
          assert e in vars;
        }
      }
    }
  }

  lemma {:induction false} CloneArgumentsConcat(a: seq<Entry<Value>>, b: seq<Entry<Value>>, renderList: seq<Scalar> -> string)
    ensures CloneArguments(a + b, renderList) == CloneArguments(a, renderList) + CloneArguments(b, renderList)
  {
    if b != [] {
      var n := |b| - 1;
      assert (a + b)[..|a + b| - 1] == a + b[..n];
      CloneArgumentsConcat(a, b[..n], renderList);
    } else {
      assert a + b == a;
    }
  }

  /** The append loop of `run_clone_jobs` that builds one command. */
  method BuildCloneCommand(url: string, flags: seq<string>, vars: seq<Entry<Value>>, renderList: seq<Scalar> -> string)
    returns (command: seq<string>)
    ensures command == CloneCommand(url, flags, vars, renderList)
  {
    command := CloneHead(url) + flags;
    var i := 0;
    while i < |vars|
      invariant 0 <= i <= |vars|
      invariant command == CloneHead(url) + flags + CloneArguments(vars[..i], renderList)
    {
      assert vars[..i + 1][..i] == vars[..i];
      if vars[i].val != One(Scalar.Null) {
        command := command + [Assignment(vars[i].key, RenderValue(vars[i].val, renderList))];
      }
      i := i + 1;
    }
    assert vars[..i] == vars;
  }

  /** `f"{host}/t{jid}"`. */
  function JobUrl(host: string, id: Scalar): string {
    host + "/t" + Show(id)
  }

  /** A numeric job id can be read back from its URL, behind the host and `/t`. */
  lemma JobUrlReadBack(host: string, n: nat)
    ensures var u := JobUrl(host, Int(n));
      u[..|host|] == host && u[|host|..|host| + 2] == "/t"
      && (forall i :: |host| + 2 <= i < |u| ==> '0' <= u[i] <= '9')
      && ParseNat(u[|host| + 2..]) == n
  {
    var u := JobUrl(host, Int(n));
    assert u[|host| + 2..] == NatToString(n);
    NatToStringRoundTrip(n);
  }
}
