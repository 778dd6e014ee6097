/** `expand_variables`: up to five passes of in-place placeholder substitution over one ordered
    variable mapping, then the undefined-name scan. */
module Expansion {
  import opened Results
  import opened Values
  import opened Diagnostics
  import opened Placeholders

  const MaxPasses: nat := 5

  /** The values a pass looks at: strings that contain a `%`. */
  predicate Expandable(v: Scalar) {
    v.Str? && '%' in v.s
  }

  /** One iteration of the inner loop: the entry at `i` is rewritten against the current state;
      every token of its value reads that state. Returns whether the value changed. */
  function Step(env: Dict<Scalar>, i: nat): (r: (Dict<Scalar>, bool))
    requires i < |env|
    ensures |r.0| == |env| && KeysOf(r.0) == KeysOf(env)
    ensures forall j :: 0 <= j < |env| && j != i ==> r.0[j] == env[j]
    ensures r.1 <==> r.0[i] != env[i]
    ensures !r.1 ==> r.0 == env
    ensures !Expandable(env[i].val) ==> !r.1
  {
    var e := env[i];
    if e.val.Str? && '%' in e.val.s then
      var n := Substitute(e.val.s, env);
      if n != e.val.s then
        var next := env[i := Entry(e.key, Str(n))];
        assert KeysOf(next) == KeysOf(env);
        (next, true)
      else (env, false)
    else (env, false)
  }

  /** The rest of one pass, from entry `i` on, with the number of values it changed. */
  function PassFrom(env: Dict<Scalar>, i: nat): (r: (Dict<Scalar>, nat))
    requires i <= |env|
    ensures |r.0| == |env| && KeysOf(r.0) == KeysOf(env)
    ensures forall j :: 0 <= j < i ==> r.0[j] == env[j]
    ensures forall j :: i <= j < |env| && !Expandable(env[j].val) ==> r.0[j] == env[j]
    ensures r.1 == 0 <==> r.0 == env
    decreases |env| - i
  {
    if i == |env| then (env, 0)
    else
      var step := Step(env, i);
      var rest := PassFrom(step.0, i + 1);
      assert step.1 ==> rest.0[i] == step.0[i] != env[i];
      (rest.0, rest.1 + if step.1 then 1 else 0)
  }

  lemma PassFromUnfold(env: Dict<Scalar>, i: nat)
    requires i < |env|
    ensures PassFrom(env, i).0 == PassFrom(Step(env, i).0, i + 1).0
    ensures PassFrom(env, i).1 == PassFrom(Step(env, i).0, i + 1).1 + if Step(env, i).1 then 1 else 0
  {
  }

  /** One pass of the outer loop: the new state and the `changes` counter. */
  function Pass(env: Dict<Scalar>): (Dict<Scalar>, nat) {
    PassFrom(env, 0)
  }

  /** The outer loop with `budget` passes left: stops after the first pass without changes;
      the flag is `limit_hit`. */
  function Iterate(env: Dict<Scalar>, budget: nat): (r: (Dict<Scalar>, bool))
    decreases budget
  {
    if budget == 0 then (env, true)
    else
      var next := Pass(env);
      if next.1 == 0 then (next.0, false) else Iterate(next.0, budget - 1)
  }

  /** The state after `j` unconditional passes. */
  function After(env: Dict<Scalar>, j: nat): Dict<Scalar>
    decreases j
  {
    if j == 0 then env else After(Pass(env).0, j - 1)
  }

  function Changes(env: Dict<Scalar>): nat {
    Pass(env).1
  }

  /** Pass `j` (counting from 0) is the first one that changes nothing. */
  predicate FirstQuietPass(env: Dict<Scalar>, j: nat) {
    Changes(After(env, j)) == 0 && forall k :: 0 <= k < j ==> Changes(After(env, k)) > 0
  }

  lemma AfterShift(env: Dict<Scalar>, j: nat)
    ensures After(env, j + 1) == After(Pass(env).0, j)
  {
  }

  /** Each of the first `budget` passes changes something. */
  predicate AllPassesChange(env: Dict<Scalar>, budget: nat) {
    forall j :: 0 <= j < budget ==> Changes(After(env, j)) > 0
  }

  lemma AllPassesChangeShift(env: Dict<Scalar>, budget: nat)
    requires budget > 0
    ensures AllPassesChange(env, budget) <==> Changes(env) > 0 && AllPassesChange(Pass(env).0, budget - 1)
  {
    var next := Pass(env).0;
    assert After(env, 0) == env;
    forall j | 0 <= j < budget - 1 ensures After(env, j + 1) == After(next, j) {
      AfterShift(env, j);
    }
    if Changes(env) > 0 && AllPassesChange(next, budget - 1) {
      forall j | 0 <= j < budget ensures Changes(After(env, j)) > 0 {
        if j > 0 { assert After(env, j) == After(next, j - 1); }
      }
    }
  }

  lemma IterateUnfold(env: Dict<Scalar>, budget: nat)
    requires budget > 0
    ensures Iterate(env, budget).0 == if Changes(env) == 0 then Pass(env).0 else Iterate(Pass(env).0, budget - 1).0
    ensures Iterate(env, budget).1 == (Changes(env) != 0 && Iterate(Pass(env).0, budget - 1).1)
  {
  }

  /** The limit flag is raised exactly when every pass changed something, and then the state
      is the one after all the passes. */
  lemma {:induction false} IterateLimit(env: Dict<Scalar>, budget: nat)
    ensures Iterate(env, budget).1 <==> AllPassesChange(env, budget)
    ensures Iterate(env, budget).1 ==> Iterate(env, budget).0 == After(env, budget)
    decreases budget
  {
    if budget > 0 {
      var next := Pass(env).0;
      AllPassesChangeShift(env, budget);
      IterateUnfold(env, budget);
      if Changes(env) > 0 {
        IterateLimit(next, budget - 1);
        AfterShift(env, budget - 1);
      }
    }
  }

  /** Otherwise the loop stopped at the first pass that changed nothing, and its state is a
      fixed point: a further pass would change nothing either. */
  lemma {:induction false} IterateStops(env: Dict<Scalar>, budget: nat)
    ensures !Iterate(env, budget).1 ==>
      exists j :: 0 <= j < budget && FirstQuietPass(env, j) && Iterate(env, budget).0 == After(env, j)
    ensures !Iterate(env, budget).1 ==> Pass(Iterate(env, budget).0).0 == Iterate(env, budget).0 && Pass(Iterate(env, budget).0).1 == 0
    decreases budget
  {
    if budget > 0 {
      var next := Pass(env).0;
      IterateUnfold(env, budget);
      assert After(env, 0) == env;
      if Changes(env) == 0 {
        assert next == env;
        assert FirstQuietPass(env, 0);
      } else {
        IterateStops(next, budget - 1);
        if !Iterate(next, budget - 1).1 {
          var j :| 0 <= j < budget - 1 && FirstQuietPass(next, j) && Iterate(next, budget - 1).0 == After(next, j);
          FirstQuietShift(env, j);
        }
      }
    }
  }

  /** A first quiet pass after one busy pass is the next one of the original state. */
  lemma FirstQuietShift(env: Dict<Scalar>, j: nat)
    requires Changes(env) > 0 && FirstQuietPass(Pass(env).0, j)
    ensures FirstQuietPass(env, j + 1) && After(env, j + 1) == After(Pass(env).0, j)
  {
    var next := Pass(env).0;
    AfterShift(env, j);
    forall k | 0 <= k < j ensures After(env, k + 1) == After(next, k) {
      AfterShift(env, k);
    }
    assert After(env, 0) == env;
    forall k | 0 <= k < j + 1 ensures Changes(After(env, k)) > 0 {
      if k > 0 { assert After(env, k) == After(next, k - 1); }
    }
  }

  /** Passes rewrite values in place: the keys and their order never change, and a value that
      is not a string holding `%` is never touched. */
  lemma {:induction false} IterateFrame(env: Dict<Scalar>, budget: nat)
    ensures KeysOf(Iterate(env, budget).0) == KeysOf(env)
    ensures forall i :: 0 <= i < |env| && !Expandable(env[i].val) ==> Iterate(env, budget).0[i] == env[i]
    decreases budget
  {
    if budget > 0 {
      var next := Pass(env).0;
      IterateUnfold(env, budget);
      if Changes(env) != 0 {
        IterateFrame(next, budget - 1);
      }
    }
  }

  /** The names of `s` that are not keys, each once, in order of first occurrence. (Python
      iterates a `set` here, whose order is unspecified; only membership is relied upon.) */
  function UndefinedNames(ns: seq<string>, keys: seq<string>, seen: set<string>): (r: seq<string>)
    ensures forall n :: n in r <==> n in ns && n !in keys && n !in seen
    ensures forall a, b :: 0 <= a < b < |r| ==> r[a] != r[b]
  {
    if ns == [] then []
    else if ns[0] in keys || ns[0] in seen then UndefinedNames(ns[1..], keys, seen)
    else [ns[0]] + UndefinedNames(ns[1..], keys, seen + {ns[0]})
  }

  /** The value of key `k` in `m` is a string with a token named `n`. */
  predicate Mentions(m: seq<Entry<Scalar>>, k: string, n: string) {
    exists i :: 0 <= i < |m| && m[i].key == k && m[i].val.Str? && n in TokenNames(m[i].val.s)
  }

  predicate NoRepeats(ws: seq<Warning>) {
    forall a, b :: 0 <= a < b < |ws| ==> ws[a] != ws[b]
  }

  /** The "not defined" warnings of one entry of the final state. */
  function EntryWarnings(e: Entry<Scalar>, env: Dict<Scalar>): (ws: seq<Warning>)
    ensures forall w :: w in ws <==>
      w.Undefined? && w.key == e.key && e.val.Str? && w.name in TokenNames(e.val.s) && w.name !in KeysOf(env)
    ensures NoRepeats(ws)
  {
    if e.val.Str? && '%' in e.val.s then
      var ns := UndefinedNames(TokenNames(e.val.s), KeysOf(env), {});
      var ws := seq(|ns|, k requires 0 <= k < |ns| => Undefined(ns[k], e.key));
      assert forall w :: w in ws <==> w.Undefined? && w.key == e.key && w.name in ns by {
        forall w ensures w in ws <==> w.Undefined? && w.key == e.key && w.name in ns {
          if w.Undefined? && w.key == e.key && w.name in ns {
            var k :| 0 <= k < |ns| && ns[k] == w.name;
            assert ws[k] == w;
          }
        }
      }
      ws
    else
      assert e.val.Str? ==> TokenNames(e.val.s) == [] by {
        if e.val.Str? { NoPercentNoTokens(e.val.s); }
      }
      []
  }

  /** The warnings of the entries `m`, in mapping order. */
  function UndefinedWarnings(m: seq<Entry<Scalar>>, env: Dict<Scalar>): seq<Warning> {
    if m == [] then [] else UndefinedWarnings(m[..|m| - 1], env) + EntryWarnings(m[|m| - 1], env)
  }

  /** `expand_variables`: the final state and the warnings, the iteration-limit one first. */
  function Expand(vars: Dict<Scalar>): (Dict<Scalar>, seq<Warning>) {
    var (r, hit) := Iterate(vars, MaxPasses);
    (r, (if hit then [IterationLimit] else []) + UndefinedWarnings(r, r))
  }

  lemma {:induction false} UndefinedWarningsMembers(m: seq<Entry<Scalar>>, env: Dict<Scalar>)
    ensures forall w :: w in UndefinedWarnings(m, env) <==>
      w.Undefined? && w.name !in KeysOf(env) && Mentions(m, w.key, w.name)
  {
    if m != [] {
      var init, last := m[..|m| - 1], m[|m| - 1];
      UndefinedWarningsMembers(init, env);
      forall w ensures w in UndefinedWarnings(m, env) <==>
        w.Undefined? && w.name !in KeysOf(env) && Mentions(m, w.key, w.name)
      {
        if w.Undefined? && Mentions(m, w.key, w.name) {
          var i :| 0 <= i < |m| && m[i].key == w.key && m[i].val.Str? && w.name in TokenNames(m[i].val.s);
          if i < |m| - 1 { assert init[i] == m[i]; }
        }
        if w.Undefined? && Mentions(init, w.key, w.name) {
          var i :| 0 <= i < |init| && init[i].key == w.key && init[i].val.Str? && w.name in TokenNames(init[i].val.s);
          assert m[i] == init[i];
        }
      }
    }
  }

  lemma {:induction false} UndefinedWarningsNoRepeats(m: seq<Entry<Scalar>>, env: Dict<Scalar>)
    requires DistinctKeys(m)
    ensures NoRepeats(UndefinedWarnings(m, env))
  {
    if m != [] {
      var init, last := m[..|m| - 1], m[|m| - 1];
      UndefinedWarningsNoRepeats(init, env);
      UndefinedWarningsMembers(init, env);
      var ws1, ws2 := UndefinedWarnings(init, env), EntryWarnings(last, env);
      forall a, b | 0 <= a < b < |ws1 + ws2| ensures (ws1 + ws2)[a] != (ws1 + ws2)[b] {
        if a < |ws1| && b >= |ws1| {
          var w := (ws1 + ws2)[a];
          assert w in ws1;
          assert (ws1 + ws2)[b] in ws2;
          var i :| 0 <= i < |init| && init[i].key == w.key && init[i].val.Str? && w.name in TokenNames(init[i].val.s);
          assert init[i] == m[i];
        }
      }
    }
  }

  /** What `expand_variables` promises about the mapping: the same keys in the same order, and
      values that are not strings holding `%` come back unchanged. */
  lemma ExpandKeepsShape(vars: Dict<Scalar>)
    ensures KeysOf(Expand(vars).0) == KeysOf(vars)
    ensures forall i :: 0 <= i < |vars| && !Expandable(vars[i].val) ==> Expand(vars).0[i] == vars[i]
  {
    IterateFrame(vars, MaxPasses);
  }

  /** The iteration-limit warning is given exactly when all five passes changed something;
      otherwise the result is a fixed point: one more pass would change nothing. */
  lemma ExpandLimit(vars: Dict<Scalar>)
    ensures IterationLimit in Expand(vars).1 <==> AllPassesChange(vars, MaxPasses)
    ensures IterationLimit !in Expand(vars).1 ==>
      exists j :: 0 <= j < MaxPasses && FirstQuietPass(vars, j) && Expand(vars).0 == After(vars, j)
    ensures IterationLimit !in Expand(vars).1 ==> Pass(Expand(vars).0).0 == Expand(vars).0 && Pass(Expand(vars).0).1 == 0
  {
    IterateLimit(vars, MaxPasses);
    IterateStops(vars, MaxPasses);
    var r := Iterate(vars, MaxPasses).0;
    UndefinedWarningsMembers(r, r);
  }

  /** One "not defined" warning per variable and distinct NAME still in its value that is not a
      key; none for a NAME that is a key, and no warning twice. */
  lemma ExpandWarnings(vars: Dict<Scalar>)
    ensures var (r, ws) := Expand(vars);
      forall n, k :: Undefined(n, k) in ws <==> n !in KeysOf(r) && Mentions(r, k, n)
    ensures forall w :: w in Expand(vars).1 ==> w == IterationLimit || w.Undefined?
    ensures NoRepeats(Expand(vars).1)
  {
    var (r, hit) := Iterate(vars, MaxPasses);
    UndefinedWarningsMembers(r, r);
    UndefinedWarningsNoRepeats(r, r);
    var ws := UndefinedWarnings(r, r);
    var all := (if hit then [IterationLimit] else []) + ws;
    forall a, b | 0 <= a < b < |all| ensures all[a] != all[b] {
      if hit && a == 0 { assert all[b] in ws; }
    }
  }

  /** With no token naming a key, expansion is the identity and stops after one pass. */
  lemma {:induction false} PassFromNoReferences(env: Dict<Scalar>, i: nat)
    requires i <= |env|
    requires forall j, n :: 0 <= j < |env| && env[j].val.Str? && n in TokenNames(env[j].val.s) ==> n !in KeysOf(env)
    ensures PassFrom(env, i).0 == env && PassFrom(env, i).1 == 0
    decreases |env| - i
  {
    if i < |env| {
      if env[i].val.Str? {
        SubstituteUndefined(env[i].val.s, env);
      }
      PassFromNoReferences(env, i + 1);
    }
  }

  lemma ExpandNoReferences(vars: Dict<Scalar>)
    requires forall j, n :: 0 <= j < |vars| && vars[j].val.Str? && n in TokenNames(vars[j].val.s) ==> n !in KeysOf(vars)
    ensures Expand(vars).0 == vars
    ensures IterationLimit !in Expand(vars).1
  {
    PassFromNoReferences(vars, 0);
    UndefinedWarningsMembers(vars, vars);
  }

  /** One pass of the inner loop, rewriting the working copy entry by entry. */
  method RunPass(env: Dict<Scalar>) returns (next: Dict<Scalar>, changes: nat)
    ensures next == Pass(env).0 && changes == Pass(env).1
  {
    next := env;
    changes := 0;
    var i := 0;
    while i < |next|
      invariant PassSoFar(env, next, i, changes)
      decreases |next| - i
    {
      var stepped, changed := RewriteEntry(next, i);
      PassAdvance(env, next, i, changes);
      next := stepped;
      if changed {
        changes := changes + 1;
      }
      i := i + 1;
    }
    PassDone(env, next, changes);
  }

  /** The inner loop at entry `i`: what is left of the pass, run on the working copy, gives the
      pass's result, and `changes` counts what was already rewritten. */
  predicate PassSoFar(env: Dict<Scalar>, next: Dict<Scalar>, i: nat, changes: nat) {
    i <= |next| == |env| && PassFrom(next, i).0 == Pass(env).0 && PassFrom(next, i).1 + changes == Pass(env).1
  }

  lemma PassAdvance(env: Dict<Scalar>, next: Dict<Scalar>, i: nat, changes: nat)
    requires PassSoFar(env, next, i, changes) && i < |next|
    ensures PassSoFar(env, Step(next, i).0, i + 1, changes + if Step(next, i).1 then 1 else 0)
  {
    PassFromUnfold(next, i);
  }

  lemma PassDone(env: Dict<Scalar>, next: Dict<Scalar>, changes: nat)
    requires PassSoFar(env, next, |next|, changes)
    ensures next == Pass(env).0 && changes == Pass(env).1
  {
  }

  /** The body of the inner loop for the entry at `i`: a string holding `%` is substituted
      against the current state and written back when it changed. */
  method RewriteEntry(env: Dict<Scalar>, i: nat) returns (next: Dict<Scalar>, changed: bool)
    requires i < |env|
    ensures next == Step(env, i).0 && changed == Step(env, i).1
  {
    next, changed := env, false;
    var e := env[i];
    StepPut(env, i);
    if e.val.Str? && '%' in e.val.s {
      var n := Substitute(e.val.s, env);
      if n != e.val.s {
        next := Put(env, e.key, Str(n));
        changed := true;
      }
    }
  }

  /** A step that changes the value writes it back under the same key; writing an existing key
      keeps its position in the dictionary. */
  lemma StepPut(env: Dict<Scalar>, i: nat)
    requires i < |env|
    ensures var e := env[i];
      Step(env, i) == if e.val.Str? && '%' in e.val.s && Substitute(e.val.s, env) != e.val.s
        then (Put(env, e.key, Str(Substitute(e.val.s, env))), true) else (env, false)
  {
    if env[i].val.Str? {
      PutAt(env, i, Str(Substitute(env[i].val.s, env)));
    }
  }

  /** `expand_variables`: works on a copy, runs at most five passes, then collects the
      iteration-limit warning and the undefined-name warnings as values. */
  method ExpandVariables(vars: Dict<Scalar>) returns (expanded: Dict<Scalar>, warnings: seq<Warning>)
    ensures expanded == Expand(vars).0 && warnings == Expand(vars).1
  {
    expanded := vars;
    var limitHit := true;
    var pass := 0;
    while pass < MaxPasses
      invariant 0 <= pass <= MaxPasses
      invariant Iterate(expanded, MaxPasses - pass) == Iterate(vars, MaxPasses)
    {
      var next, changes := RunPass(expanded);
      expanded := next;
      if changes == 0 {
        limitHit := false;
        break;
      }
      pass := pass + 1;
    }
    assert expanded == Iterate(vars, MaxPasses).0 && limitHit == Iterate(vars, MaxPasses).1;
    var undefined := CollectUndefined(expanded);
    warnings := (if limitHit then [IterationLimit] else []) + undefined;
  }

  /** The scan for undefined names that follows the pass loop. */
  method CollectUndefined(env: Dict<Scalar>) returns (warnings: seq<Warning>)
    ensures warnings == UndefinedWarnings(env, env)
  {
    warnings := [];
    var i := 0;
    while i < |env|
      invariant 0 <= i <= |env|
      invariant warnings == UndefinedWarnings(env[..i], env)
    {
      assert env[..i + 1][..i] == env[..i];
      var e := env[i];
      if e.val.Str? && '%' in e.val.s {
        warnings := warnings + EntryWarnings(e, env);
      } else {
        assert EntryWarnings(e, env) == [];
      }
      i := i + 1;
    }
    assert env[..i] == env;
  }
}
