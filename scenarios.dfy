/** Worked examples: the cases of the source's unit tests for `validate_variables`, and
    concrete runs of expansion, the product, host resolution and URL extraction. */
module Scenarios {
  import opened Results
  import opened Text
  import opened Values
  import opened Diagnostics
  import opened Validation
  import opened Placeholders
  import opened Expansion
  import opened Combinations
  import opened Hosts
  import opened Output

  // ---- validate_variables -------------------------------------------------------------

  /** An entry under a key without lower-case letters whose value is neither `""` nor a list
      holding `""` passes. */
  predicate NoLower(k: string) {
    forall i :: 0 <= i < |k| ==> !IsLowerAscii(k[i])
  }

  lemma UpperEntry(k: string, v: Value)
    requires NoLower(k)
    requires v != One(Str("")) && !(v.Many? && Str("") in v.items)
    ensures EntryProblem(Entry(k, v)).None?
  {
    UpperFixedIff(k);
  }

  predicate Acceptable(e: Entry<Value>) {
    NoLower(e.key) && e.val != One(Str("")) && !(e.val.Many? && Str("") in e.val.items)
  }

  lemma AllAcceptable(m: seq<Entry<Value>>)
    requires forall i :: 0 <= i < |m| ==> Acceptable(m[i])
    ensures FirstProblem(m).None?
  {
    forall i | 0 <= i < |m| ensures EntryProblem(m[i]).None? {
      UpperEntry(m[i].key, m[i].val);
    }
  }

  /** Upper-case keys with strings, a list of strings and an int all pass. */
  lemma ValidVariablesPass()
    ensures FirstProblem([
      Entry("ARCH", One(Str("x86_64"))),
      Entry("VERSION", One(Str("15-SP4"))),
      Entry("FLAVORS", Many([Str("DVD"), Str("NET")])),
      Entry("BUILD", One(Int(123)))]).None?
  {
    AllAcceptable([
      Entry("ARCH", One(Str("x86_64"))),
      Entry("VERSION", One(Str("15-SP4"))),
      Entry("FLAVORS", Many([Str("DVD"), Str("NET")])),
      Entry("BUILD", One(Int(123)))]);
  }

  /** An empty mapping passes. */
  lemma EmptyVariablesPass()
    ensures ValidateVariables(Given([])).None?
  {
  }

  /** A lower-case key is refused with the message the tests look for. */
  lemma LowercaseKeyRefused()
    ensures ValidateVariables(Given([Entry("arch", One(Str("x86_64")))])) == Some(NotUppercase("arch"))
  {
    assert Upper("arch")[0] == 'A';
  }

  /** An empty string value is refused. */
  lemma EmptyStringRefused()
    ensures FirstProblem([Entry("ARCH", One(Str("")))]) == Some(EmptyString("ARCH"))
  {
    assert EntryProblem(Entry("ARCH", One(Str("")))) == Some(EmptyString("ARCH")) by {
      UpperFixedIff("ARCH");
    }
  }

  /** A list holding `""` under a key without lower-case letters is refused for that. */
  lemma EmptyInListEntry(k: string, items: seq<Scalar>)
    requires NoLower(k) && Str("") in items
    ensures EntryProblem(Entry(k, Many(items))) == Some(EmptyInList(k))
  {
    UpperFixedIff(k);
  }

  /** An empty string inside a list is refused. */
  lemma EmptyInListRefused()
    ensures FirstProblem([Entry("FLAVORS", Many([Str("DVD"), Str("")]))]) == Some(EmptyInList("FLAVORS"))
  {
    var items := [Str("DVD"), Str("")];
    assert items[1] == Str("");
    EmptyInListEntry("FLAVORS", items);
  }

  /** Ints, booleans and floats are accepted. */
  lemma NonStringValuesPass()
    ensures FirstProblem([
      Entry("BUILD_ID", One(Int(12345))),
      Entry("ENABLE_FEATURE", One(Bool(true))),
      Entry("TIMEOUT", One(Other("30.5")))]).None?
  {
    var m := [
      Entry("BUILD_ID", One(Int(12345))),
      Entry("ENABLE_FEATURE", One(Bool(true))),
      Entry("TIMEOUT", One(Other("30.5")))];
    assert Acceptable(m[0]) && Acceptable(m[1]) && Acceptable(m[2]);
    AllAcceptable(m);
  }

  // ---- expand_variables --------------------------------------------------------------

  /** The text of a lone token. */
  function Ref(n: string): string {
    "%" + n + "%"
  }

  lemma RefSubstitute(n: string, env: seq<Entry<Scalar>>)
    requires ValidName(n)
    ensures Substitute(Ref(n), env) == match Get(env, n) case Some(v) => Show(v) case None => Ref(n)
  {
    var s := Ref(n);
    assert Scan(s) == [Token(n)] by {
      ScanTokenPrefix(n, "");
      assert s + "" == s;
      assert Scan("") == [];
    }
    assert Fill([Token(n)], env) == FillPiece(Token(n), env) by {
      assert [Token(n)][1..] == [];
    }
  }

  lemma RefNames(n: string)
    requires ValidName(n)
    ensures TokenNames(Ref(n)) == [n]
  {
    ScanTokenPrefix(n, "");
    assert Ref(n) == "%" + n + "%" + "";
    assert Scan("") == [];
    assert [Token(n)] + [] == [Token(n)];
    assert [Token(n)][1..] == [];
    assert Names([Token(n)]) == [n] + Names([]);
  }

  /** An entry whose only token names a key of `env` gives no warning. */
  lemma RefDefined(k: string, n: string, env: Dict<Scalar>)
    requires ValidName(n) && n in KeysOf(env)
    ensures EntryWarnings(Entry(k, Str(Ref(n))), env) == []
  {
    RefNames(n);
    assert Ref(n)[0] == '%';
    assert [n][1..] == [];
    assert UndefinedNames([n], KeysOf(env), {}) == [];
  }

  /** The single entry `K: '%K%'`. */
  function SelfRef(k: string): Dict<Scalar> {
    [Entry(k, Str(Ref(k)))]
  }

  lemma SelfRefPass(k: string)
    requires ValidName(k)
    ensures Pass(SelfRef(k)).0 == SelfRef(k) && Pass(SelfRef(k)).1 == 0
  {
    var env := SelfRef(k);
    RefSubstitute(k, env);
    GetAt(env, 0);
    assert Ref(k)[0] == '%';
    assert Step(env, 0).0 == env && !Step(env, 0).1;
  }

  lemma SelfRefWarnings(k: string)
    requires ValidName(k)
    ensures UndefinedWarnings(SelfRef(k), SelfRef(k)) == []
  {
    var env := SelfRef(k);
    assert KeysOf(env)[0] == k;
    RefDefined(k, k, env);
    assert env[..0] == [];
    assert UndefinedWarnings(env, env) == EntryWarnings(env[0], env);
  }

  /** A self-reference `A: '%A%'` reads itself back: the first pass changes nothing, so the
      mapping comes back as it was, with no warning at all. */
  lemma SelfReference(k: string)
    requires ValidName(k)
    ensures Expand(SelfRef(k)).0 == SelfRef(k) && Expand(SelfRef(k)).1 == []
  {
    SelfRefPass(k);
    assert Iterate(SelfRef(k), MaxPasses).0 == SelfRef(k) && !Iterate(SelfRef(k), MaxPasses).1;
    SelfRefWarnings(k);
  }

  function Mutual(a: string, b: string): Dict<Scalar>
    requires a != b
  {
    [Entry(a, Str(Ref(b))), Entry(b, Str(Ref(a)))]
  }

  function MutualSettled(a: string, b: string): Dict<Scalar>
    requires a != b
  {
    [Entry(a, Str(Ref(a))), Entry(b, Str(Ref(a)))]
  }

  lemma RefInjective(a: string, b: string)
    requires a != b
    ensures Ref(a) != Ref(b)
  {
    assert Ref(a)[1..|Ref(a)| - 1] == a && Ref(b)[1..|Ref(b)| - 1] == b;
  }

  /** The first entry takes the value of the second. */
  lemma MutualStep(a: string, b: string)
    requires ValidName(a) && ValidName(b) && a != b
    ensures Step(Mutual(a, b), 0).0 == MutualSettled(a, b) && Step(Mutual(a, b), 0).1
  {
    var env := Mutual(a, b);
    RefInjective(a, b);
    RefSubstitute(b, env);
    GetAt(env, 1);
    assert Ref(b)[0] == '%';
    assert env[0 := Entry(a, Str(Ref(a)))] == MutualSettled(a, b);
  }

  /** In the settled mapping neither entry changes any more. */
  lemma SettledSteps(a: string, b: string)
    requires ValidName(a) && ValidName(b) && a != b
    ensures Step(MutualSettled(a, b), 0).0 == MutualSettled(a, b) && !Step(MutualSettled(a, b), 0).1
    ensures Step(MutualSettled(a, b), 1).0 == MutualSettled(a, b) && !Step(MutualSettled(a, b), 1).1
  {
    var env1 := MutualSettled(a, b);
    RefSubstitute(a, env1);
    GetAt(env1, 0);
    assert Ref(a)[0] == '%';
  }

  lemma MutualFirstPass(a: string, b: string)
    requires ValidName(a) && ValidName(b) && a != b
    ensures Pass(Mutual(a, b)).0 == MutualSettled(a, b) && Pass(Mutual(a, b)).1 == 1
  {
    var env1 := MutualSettled(a, b);
    MutualStep(a, b);
    SettledSteps(a, b);
    assert PassFrom(env1, 1).0 == env1 && PassFrom(env1, 1).1 == 0;
  }

  lemma MutualSecondPass(a: string, b: string)
    requires ValidName(a) && ValidName(b) && a != b
    ensures Pass(MutualSettled(a, b)).0 == MutualSettled(a, b) && Pass(MutualSettled(a, b)).1 == 0
  {
    var env1 := MutualSettled(a, b);
    SettledSteps(a, b);
    assert PassFrom(env1, 1).0 == env1 && PassFrom(env1, 1).1 == 0;
  }

  lemma MutualWarnings(a: string, b: string)
    requires ValidName(a) && ValidName(b) && a != b
    ensures UndefinedWarnings(MutualSettled(a, b), MutualSettled(a, b)) == []
  {
    var env1 := MutualSettled(a, b);
    assert KeysOf(env1)[0] == a;
    RefDefined(a, a, env1);
    RefDefined(b, a, env1);
    assert env1[..1] == [env1[0]] && env1[..1][..0] == [];
    assert UndefinedWarnings(env1[..1], env1) == [];
  }

  /** `A: '%B%', B: '%A%'`: the first pass rewrites A to B's value `%A%`, and B then reads
      the new A, which is `%A%` again; the second pass changes nothing, and no warning is
      given. */
  lemma MutualReference(a: string, b: string)
    requires ValidName(a) && ValidName(b) && a != b
    ensures Expand(Mutual(a, b)).0 == MutualSettled(a, b) && Expand(Mutual(a, b)).1 == []
  {
    MutualFirstPass(a, b);
    MutualSecondPass(a, b);
    assert Iterate(Mutual(a, b), MaxPasses).0 == MutualSettled(a, b) && !Iterate(Mutual(a, b), MaxPasses).1;
    MutualWarnings(a, b);
  }

  /** The growing mapping `K: p + '%K%'`. */
  function Growing(k: string, p: string): Dict<Scalar> {
    [Entry(k, Str(p + Ref(k)))]
  }

  /** One pass replaces the token by the whole value: the prefix doubles. */
  lemma GrowingPass(k: string, p: string)
    requires ValidName(k) && p != [] && '%' !in p
    ensures Pass(Growing(k, p)).0 == Growing(k, p + p) && Pass(Growing(k, p)).1 == 1
  {
    var env := Growing(k, p);
    SubstituteSingle(p, k, "", env);
    assert p + "%" + k + "%" + "" == p + Ref(k);
    GetAt(env, 0);
    var n := Substitute(p + Ref(k), env);
    assert n == p + (p + Ref(k));
    assert n == (p + p) + Ref(k);
    assert |n| > |p + Ref(k)|;
    assert (p + Ref(k))[|p|] == '%';
    assert env[0 := Entry(k, Str(n))] == Growing(k, p + p);
    assert Step(env, 0).0 == Growing(k, p + p) && Step(env, 0).1;
  }

  /** Every pass of `K: p + '%K%'` changes the value, so any budget runs out. */
  lemma {:induction false} GrowingHitsLimit(k: string, p: string, budget: nat)
    requires ValidName(k) && p != [] && '%' !in p
    ensures Iterate(Growing(k, p), budget).1
    decreases budget
  {
    if budget > 0 {
      var q := p + p;
      assert '%' !in q;
      assert Iterate(Growing(k, q), budget - 1).1 by { GrowingHitsLimit(k, q, budget - 1); }
      assert Iterate(Growing(k, p), budget).1 == Iterate(Growing(k, q), budget - 1).1 by {
        GrowingStep(k, p, budget);
      }
    }
  }

  lemma GrowingStep(k: string, p: string, budget: nat)
    requires ValidName(k) && p != [] && '%' !in p && budget > 0
    ensures Iterate(Growing(k, p), budget).1 == Iterate(Growing(k, p + p), budget - 1).1
  {
    GrowingPass(k, p);
    IterateUnfold(Growing(k, p), budget);
  }

  /** `A: 'x%A%'` grows on every pass and hits the iteration limit. */
  lemma GrowingWarns(k: string)
    requires ValidName(k)
    ensures IterationLimit in Expand(Growing(k, "x")).1
  {
    GrowingHitsLimit(k, "x", MaxPasses);
  }

  // ---- host resolution ----------------------------------------------------------------

  lemma NotContainsMissingChar(s: string, t: string, c: char)
    requires c in t && c !in s
    ensures !Contains(s, t)
  {
    ContainsIff(s, t);
    var k :| 0 <= k < |t| && t[k] == c;
    forall i: nat ensures !OccursAt(s, t, i) {
      if i + |t| <= |s| {
        assert s[i..i + |t|][k] == s[i + k];
        assert s[i + k] in s;
      }
    }
  }

  /** The same address under `--osd` conflicts: it does not contain `suse.de`. */
  lemma O3HostUnderOsdRefused(h: string)
    requires h == "https://openqa.opensuse.org/"
    ensures ResolveHost(Some(h), ["--osd"]) == Err(HostConflict(h, "--osd"))
  {
    assert "suse.de"[5] == 'd';
    assert !Contains(h, "suse.de") by {
      NotContainsMissingChar(h, "suse.de", 'd');
    }
    assert OsdConflict(h, ["--osd"]) && HostGiven(Some(h));
  }

  /** No host and only `--o3`: the public instance. */
  lemma O3Default()
    ensures ResolveHost(None, ["--o3"]) == Ok(O3Host)
  {
    ResolveHostDefault(None, ["--o3"]);
  }

  // ---- itertools.product --------------------------------------------------------------

  lemma PrependPair(x: Scalar, y: Scalar, tails: seq<seq<Scalar>>)
    ensures PrependAll([x, y], tails) == seq(|tails|, k requires 0 <= k < |tails| => [x] + tails[k])
                                         + seq(|tails|, k requires 0 <= k < |tails| => [y] + tails[k])
  {
    assert [x, y][1..] == [y];
    assert [y][1..] == [];
  }

  /** Two lists of two: four picks, the first list varying slowest. */
  lemma ProductOfTwoPairs(a: Scalar, b: Scalar, c: Scalar, d: Scalar)
    ensures Product([[a, b], [c, d]]) == [[a, c], [a, d], [b, c], [b, d]]
  {
    var ls := [[a, b], [c, d]];
    assert ls[1..] == [[c, d]] && [[c, d]][1..] == [];
    var one: seq<seq<Scalar>> := [[]];
    assert Product([]) == one;
    PrependPair(c, d, one);
    var two: seq<seq<Scalar>> := [[c], [d]];
    var sc := seq(1, k requires 0 <= k < 1 => [c] + one[k]);
    var sd := seq(1, k requires 0 <= k < 1 => [d] + one[k]);
    assert sc[0] == [c] + [] == [c];
    assert sd[0] == [d] + [] == [d];
    assert sc + sd == two;
    assert Product([[c, d]]) == two;
    PrependPair(a, b, two);
    var sa := seq(2, k requires 0 <= k < 2 => [a] + two[k]);
    var sb := seq(2, k requires 0 <= k < 2 => [b] + two[k]);
    assert sa[0] == [a, c] && sa[1] == [a, d];
    assert sb[0] == [b, c] && sb[1] == [b, d];
    assert sa + sb == [[a, c], [a, d], [b, c], [b, d]];
  }

  // ---- extract_urls -------------------------------------------------------------------

  lemma NoSpaceIn(u: string)
    requires forall i :: 0 <= i < |u| ==> ' ' < u[i] <= '~'
    ensures forall i :: 0 <= i < |u| ==> !IsSpace(u[i])
  {
  }

  /** A line of `openqa-clone-job` output names the new job. */
  lemma CloneOutputLine(p: string, u: string)
    requires p == "Created job #21: sle-15-SP5 " && u == "https://openqa.suse.de/t21"
    ensures ExtractUrls(p + ("->" + (" " + (u + "\n")))) == [u]
  {
    assert "https://" <= u;
    NoSpaceIn(u);
    ExtractArrow(p, " ", u, "\n");
    var nl := "\n";
    assert ExtractUrls(nl) == ExtractUrls(nl[1..]);
  }
}
