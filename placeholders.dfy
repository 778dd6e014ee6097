/** `%NAME%` placeholders: the scan of `re.sub(r'%(\w+)%', ...)` / `re.findall`, left to right and
    without overlap, and the substitution `expand_variables` performs with it. */
module Placeholders {
  import opened Results
  import opened Text
  import opened Values

  /** A string cut into literal characters and `%NAME%` tokens. */
  datatype Piece = Lit(c: char) | Token(name: string)

  predicate ValidName(n: string) {
    |n| > 0 && forall i :: 0 <= i < |n| ==> IsWordChar(n[i])
  }

  predicate WellFormed(ps: seq<Piece>) {
    forall i :: 0 <= i < |ps| && ps[i].Token? ==> ValidName(ps[i].name)
  }

  /** The length of the run of word characters that starts `s`. */
  function WordRun(s: string): (n: nat)
    ensures n <= |s|
    ensures forall i :: 0 <= i < n ==> IsWordChar(s[i])
    ensures n < |s| ==> !IsWordChar(s[n])
  {
    if s != [] && IsWordChar(s[0]) then 1 + WordRun(s[1..]) else 0
  }

  /** The length of the NAME of a token matched at the start of `s`, or 0 when none matches.
      `\w+` is greedy and `%` is no word character, so only the maximal run can be followed by
      the closing `%`. */
  function TokenAt(s: string): (n: nat)
    ensures n > 0 ==> n + 2 <= |s| && s[0] == '%' && s[n + 1] == '%' && ValidName(s[1..n + 1])
    ensures s != [] && s[0] != '%' ==> n == 0
  {
    if |s| > 0 && s[0] == '%' then
      var n := WordRun(s[1..]);
      if n > 0 && n + 1 < |s| && s[n + 1] == '%' then n else 0
    else 0
  }

  lemma TokenAtRendered(n: string, rest: string)
    requires ValidName(n)
    ensures TokenAt("%" + n + "%" + rest) == |n|
  {
    var s := "%" + n + "%" + rest;
    assert s[1..] == n + ("%" + rest);
    WordRunOf(n, "%" + rest);
    assert s[|n| + 1] == '%';
  }

  lemma {:induction false} WordRunOf(n: string, rest: string)
    requires forall i :: 0 <= i < |n| ==> IsWordChar(n[i])
    requires rest == [] || !IsWordChar(rest[0])
    ensures WordRun(n + rest) == |n|
    decreases |n|
  {
    if n != [] {
      assert (n + rest)[1..] == n[1..] + rest;
      WordRunOf(n[1..], rest);
    } else {
      assert n + rest == rest;
    }
  }

  /** The scan: at each position a token if one matches there, else one literal character. */
  function Scan(s: string): (ps: seq<Piece>)
    ensures WellFormed(ps)
    decreases |s|
  {
    if s == [] then []
    else
      var n := TokenAt(s);
      if n > 0 then [Token(s[1..n + 1])] + Scan(s[n + 2..])
      else [Lit(s[0])] + Scan(s[1..])
  }

  function RenderPiece(p: Piece): string {
    match p
    case Lit(c) => [c]
    case Token(n) => "%" + n + "%"
  }

  function Render(ps: seq<Piece>): string {
    if ps == [] then "" else RenderPiece(ps[0]) + Render(ps[1..])
  }

  lemma RenderCons(p: Piece, ps: seq<Piece>)
    ensures Render([p] + ps) == RenderPiece(p) + Render(ps)
  {
    assert ([p] + ps)[1..] == ps;
  }

  /** A matched token is `%`, its name, `%`, then the rest of the string. */
  lemma TokenSplit(s: string)
    requires TokenAt(s) > 0
    ensures s == "%" + s[1..TokenAt(s) + 1] + "%" + s[TokenAt(s) + 2..]
  {
    var n := TokenAt(s);
    var t := "%" + s[1..n + 1] + "%" + s[n + 2..];
    assert |t| == |s|;
    forall i | 0 <= i < |s| ensures t[i] == s[i] {
      if i == 0 || i == n + 1 {
      } else if i <= n {
        assert t[i] == s[1..n + 1][i - 1];
      } else {
        assert t[i] == s[n + 2..][i - n - 2];
      }
    }
  }

  /** Rendering the scan gives back the string: the scan loses and adds nothing. */
  lemma {:induction false} ScanRender(s: string)
    ensures Render(Scan(s)) == s
    decreases |s|
  {
    if s != [] {
      var n := TokenAt(s);
      if n > 0 {
        var name, rest := s[1..n + 1], s[n + 2..];
        assert Scan(s) == [Token(name)] + Scan(rest);
        assert Render(Scan(rest)) == rest by { ScanRender(rest); }
        assert Render(Scan(s)) == RenderPiece(Token(name)) + Render(Scan(rest)) by {
          RenderCons(Token(name), Scan(rest));
        }
        TokenSplit(s);
      } else {
        assert Scan(s) == [Lit(s[0])] + Scan(s[1..]);
        assert Render(Scan(s[1..])) == s[1..] by { ScanRender(s[1..]); }
        assert Render(Scan(s)) == [s[0]] + Render(Scan(s[1..])) by {
          RenderCons(Lit(s[0]), Scan(s[1..]));
        }
        assert s == [s[0]] + s[1..];
      }
    }
  }

  /** No literal `%` stands where a token could have been matched: the scan is greedy. */
  predicate Greedy(ps: seq<Piece>) {
    forall k :: 0 <= k < |ps| && ps[k] == Lit('%') ==> TokenAt(Render(ps[k..])) == 0
  }

  lemma {:induction false} ScanGreedy(s: string)
    ensures Greedy(Scan(s))
    decreases |s|
  {
    if s != [] {
      var ps := Scan(s);
      var n := TokenAt(s);
      var rest := if n > 0 then s[n + 2..] else s[1..];
      ScanGreedy(rest);
      ScanRender(s);
      forall k | 0 <= k < |ps| && ps[k] == Lit('%') ensures TokenAt(Render(ps[k..])) == 0 {
        if k == 0 {
          assert ps[0..] == ps;
        } else {
          assert ps[k..] == Scan(rest)[k - 1..];
        }
      }
    }
  }

  /** The scan is the only well-formed, greedy cutting of a string into pieces. */
  lemma {:induction false} ScanUnique(s: string, ps: seq<Piece>)
    requires Render(ps) == s && WellFormed(ps) && Greedy(ps)
    ensures ps == Scan(s)
    decreases |ps|
  {
    if ps != [] {
      var tail := ps[1..];
      TailKeeps(ps);
      assert Scan(Render(tail)) == tail by { ScanUnique(Render(tail), tail); }
      assert ps == [ps[0]] + tail;
      match ps[0]
      case Token(n) =>
        ScanToken(n, tail);
      case Lit(c) =>
        assert c == '%' ==> TokenAt(Render(ps)) == 0 by { assert ps[0..] == ps; }
        ScanLit(c, tail);
    }
  }

  /** Dropping the first piece keeps a cutting well-formed and greedy. */
  lemma TailKeeps(ps: seq<Piece>)
    requires ps != [] && WellFormed(ps) && Greedy(ps)
    ensures WellFormed(ps[1..]) && Greedy(ps[1..])
  {
    var tail := ps[1..];
    forall i | 0 <= i < |tail| && tail[i].Token? ensures ValidName(tail[i].name) {
      assert tail[i] == ps[i + 1];
    }
    forall k | 0 <= k < |tail| && tail[k] == Lit('%') ensures TokenAt(Render(tail[k..])) == 0 {
      assert tail[k..] == ps[k + 1..];
    }
  }

  lemma ScanToken(n: string, tail: seq<Piece>)
    requires ValidName(n) && Scan(Render(tail)) == tail
    ensures Scan(Render([Token(n)] + tail)) == [Token(n)] + tail
  {
    var s := Render([Token(n)] + tail);
    assert s == "%" + n + "%" + Render(tail) by { RenderCons(Token(n), tail); }
    ScanTokenPrefix(n, Render(tail));
  }

  lemma ScanLit(c: char, tail: seq<Piece>)
    requires Scan(Render(tail)) == tail
    requires c == '%' ==> TokenAt(Render([Lit(c)] + tail)) == 0
    ensures Scan(Render([Lit(c)] + tail)) == [Lit(c)] + tail
  {
    var s := Render([Lit(c)] + tail);
    assert s == [c] + Render(tail) by { RenderCons(Lit(c), tail); }
    assert TokenAt(s) == 0;
    assert s[1..] == Render(tail);
  }

  /** The names `re.findall(r'%(\w+)%', s)` returns, in order. */
  function Names(ps: seq<Piece>): (ns: seq<string>)
    ensures forall n :: n in ns <==> Token(n) in ps
  {
    if ps == [] then []
    else if ps[0].Token? then [ps[0].name] + Names(ps[1..])
    else Names(ps[1..])
  }

  function TokenNames(s: string): seq<string> {
    Names(Scan(s))
  }

  /** A string with no `%` holds no token. */
  lemma {:induction false} NoPercentNoTokens(s: string)
    requires '%' !in s
    ensures forall i :: 0 <= i < |Scan(s)| ==> Scan(s)[i].Lit?
    ensures TokenNames(s) == []
    decreases |s|
  {
    if s != [] {
      assert '%' !in s[1..] by {
        assert forall i :: 0 <= i < |s[1..]| ==> s[1..][i] == s[i + 1];
      }
      NoPercentNoTokens(s[1..]);
    }
  }

  /** The replacement of one piece: a token whose NAME is a key becomes `str()` of its value;
      any other token stays verbatim. */
  function FillPiece(p: Piece, env: seq<Entry<Scalar>>): string {
    match p
    case Lit(c) => [c]
    case Token(n) =>
      match Get(env, n)
      case Some(v) => Show(v)
      case None => "%" + n + "%"
  }

  function Fill(ps: seq<Piece>, env: seq<Entry<Scalar>>): string {
    if ps == [] then "" else FillPiece(ps[0], env) + Fill(ps[1..], env)
  }

  /** `re.sub(r'%(\w+)%', lambda m: str(env.get(m.group(1), m.group(0))), s)`. */
  function Substitute(s: string, env: seq<Entry<Scalar>>): string {
    Fill(Scan(s), env)
  }

  lemma {:induction false} FillUndefined(ps: seq<Piece>, env: seq<Entry<Scalar>>)
    requires forall n :: n in Names(ps) ==> n !in KeysOf(env)
    ensures Fill(ps, env) == Render(ps)
  {
    if ps != [] {
      FillUndefined(ps[1..], env);
    }
  }

  /** When no token names a key, in particular when the string has no `%`, substitution gives
      back the string unchanged: undefined tokens stay verbatim. */
  lemma SubstituteUndefined(s: string, env: seq<Entry<Scalar>>)
    requires forall n :: n in TokenNames(s) ==> n !in KeysOf(env)
    ensures Substitute(s, env) == s
  {
    FillUndefined(Scan(s), env);
    ScanRender(s);
  }

  lemma SubstituteNoPercent(s: string, env: seq<Entry<Scalar>>)
    requires '%' !in s
    ensures Substitute(s, env) == s
  {
    NoPercentNoTokens(s);
    SubstituteUndefined(s, env);
  }

  lemma {:induction false} ScanNoPercentPrefix(p: string, rest: string)
    requires '%' !in p
    ensures Scan(p + rest) == seq(|p|, i requires 0 <= i < |p| => Lit(p[i])) + Scan(rest)
    decreases |p|
  {
    if p != [] {
      assert (p + rest)[1..] == p[1..] + rest;
      assert '%' !in p[1..] by {
        assert forall i :: 0 <= i < |p[1..]| ==> p[1..][i] == p[i + 1];
      }
      ScanNoPercentPrefix(p[1..], rest);
    } else {
      assert p + rest == rest;
    }
  }

  lemma ScanTokenPrefix(n: string, rest: string)
    requires ValidName(n)
    ensures Scan("%" + n + "%" + rest) == [Token(n)] + Scan(rest)
  {
    var s := "%" + n + "%" + rest;
    TokenAtRendered(n, rest);
    assert s[1..|n| + 1] == n;
    assert s[|n| + 2..] == rest;
  }

  lemma {:induction false} FillConcat(a: seq<Piece>, b: seq<Piece>, env: seq<Entry<Scalar>>)
    ensures Fill(a + b, env) == Fill(a, env) + Fill(b, env)
  {
    if a != [] {
      assert (a + b)[1..] == a[1..] + b;
      FillConcat(a[1..], b, env);
    } else {
      assert a + b == b;
    }
  }

  lemma {:induction false} FillLits(p: string, env: seq<Entry<Scalar>>)
    ensures Fill(seq(|p|, i requires 0 <= i < |p| => Lit(p[i])), env) == p
    decreases |p|
  {
    if p != [] {
      var lits := seq(|p|, i requires 0 <= i < |p| => Lit(p[i]));
      assert lits[1..] == seq(|p[1..]|, i requires 0 <= i < |p[1..]| => Lit(p[1..][i]));
      FillLits(p[1..], env);
      assert p == [p[0]] + p[1..];
    }
  }

  /** Substitution in a string with a single token: the token alone is replaced, by `str()` of
      the value when its NAME is a key and by itself otherwise. */
  lemma SubstituteSingle(p: string, n: string, q: string, env: seq<Entry<Scalar>>)
    requires '%' !in p && '%' !in q && ValidName(n)
    ensures Substitute(p + "%" + n + "%" + q, env) ==
      p + (match Get(env, n) case Some(v) => Show(v) case None => "%" + n + "%") + q
  {
    var lits := seq(|p|, i requires 0 <= i < |p| => Lit(p[i]));
    assert p + "%" + n + "%" + q == p + ("%" + n + "%" + q);
    ScanNoPercentPrefix(p, "%" + n + "%" + q);
    ScanTokenPrefix(n, q);
    NoPercentNoTokens(q);
    SubstituteNoPercent(q, env);
    FillConcat(lits, [Token(n)] + Scan(q), env);
    FillConcat([Token(n)], Scan(q), env);
    FillLits(p, env);
  }

  /** Substitution reads only the values of the names the string's tokens mention. */
  lemma {:induction false} FillDependsOnNames(ps: seq<Piece>, env1: seq<Entry<Scalar>>, env2: seq<Entry<Scalar>>)
    requires forall n :: n in Names(ps) ==> Get(env1, n) == Get(env2, n)
    ensures Fill(ps, env1) == Fill(ps, env2)
  {
    if ps != [] {
      FillDependsOnNames(ps[1..], env1, env2);
    }
  }
}
