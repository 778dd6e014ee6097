/** `extract_urls`: the job URLs `openqa-clone-job` prints, found with the pattern
    `->\s+(https?://\S+)` the way `re.findall` scans (left to right, matches never overlap). */
module Output {
  import opened Results
  import opened Text

  /** The length of the run of whitespace at the front of `s`. */
  function SpaceRun(s: string): (n: nat)
    ensures n <= |s|
    ensures forall i :: 0 <= i < n ==> IsSpace(s[i])
    ensures n < |s| ==> !IsSpace(s[n])
  {
    if s != [] && IsSpace(s[0]) then 1 + SpaceRun(s[1..]) else 0
  }

  /** The length of the run of non-whitespace at the front of `s`. */
  function NonSpaceRun(s: string): (n: nat)
    ensures n <= |s|
    ensures forall i :: 0 <= i < n ==> !IsSpace(s[i])
    ensures n < |s| ==> IsSpace(s[n])
  {
    if s != [] && !IsSpace(s[0]) then 1 + NonSpaceRun(s[1..]) else 0
  }

  /** The length of `https://` or `http://` at the front of `s`, or 0. */
  function SchemeLength(s: string): nat {
    if "https://" <= s then 8 else if "http://" <= s then 7 else 0
  }

  /** A match found at the front of the text: how much it consumes and the captured URL. */
  datatype Match = Match(length: nat, url: string)

  /** The length of `https?://\S+` matched at the front of `t`, or 0 when it does not match.
      `\S+` is greedy and what follows the scheme cannot be whitespace, so no backtracking is
      ever needed. */
  function UrlRun(t: string): (n: nat)
    ensures n <= |t|
  {
    var scheme := SchemeLength(t);
    if scheme == 0 then 0
    else
      var body := NonSpaceRun(t[scheme..]);
      if body == 0 then 0 else scheme + body
  }

  /** The pattern `->\s+(https?://\S+)` matched at the front of `s`. `\s+` is greedy and a
      URL cannot start with whitespace, so again no backtracking is needed. */
  function MatchAt(s: string): (r: Option<Match>)
    ensures r.Some? ==> 0 < r.value.length <= |s|
  {
    if |s| < 2 || s[0] != '-' || s[1] != '>' then None
    else
      var sp := SpaceRun(s[2..]);
      var n := UrlRun(s[2 + sp..]);
      if sp == 0 || n == 0 then None else Some(Match(2 + sp + n, s[2 + sp..][..n]))
  }

  /** Every URL in the output, in the order printed. */
  function ExtractUrls(s: string): seq<string>
    decreases |s|
  {
    if s == [] then []
    else
      match MatchAt(s)
      case Some(m) => [m.url] + ExtractUrls(s[m.length..])
      case None => ExtractUrls(s[1..])
  }

  /** A URL as the pattern captures it: a scheme, at least one character, no whitespace. */
  predicate WellFormedUrl(u: string) {
    SchemeLength(u) > 0 && |u| > SchemeLength(u) && forall i :: 0 <= i < |u| ==> !IsSpace(u[i])
  }

  /** Cutting a text after its scheme keeps the scheme. */
  lemma SchemeKept(t: string, n: nat)
    requires 0 < SchemeLength(t) <= n <= |t|
    ensures SchemeLength(t[..n]) == SchemeLength(t)
  {
    if SchemeLength(t) == 7 {
      assert "http://" <= t[..n];
    } else {
      assert "https://" <= t[..n];
    }
  }

  /** A scheme holds no whitespace. */
  lemma SchemeNoSpace(t: string)
    requires SchemeLength(t) > 0
    ensures forall i :: 0 <= i < SchemeLength(t) ==> !IsSpace(t[i])
  {
    if SchemeLength(t) == 8 { assert t[..8] == "https://"; } else { assert t[..7] == "http://"; }
  }

  /** What `UrlRun` measures is a well-formed URL. */
  lemma UrlRunWellFormed(t: string)
    requires UrlRun(t) > 0
    ensures WellFormedUrl(t[..UrlRun(t)])
  {
    var scheme := SchemeLength(t);
    var n := UrlRun(t);
    var w := t[scheme..];
    assert n == scheme + NonSpaceRun(w);
    var u := t[..n];
    SchemeKept(t, n);
    SchemeNoSpace(t);
    assert forall i :: scheme <= i < n ==> u[i] == w[i - scheme];
  }

  lemma MatchWellFormed(s: string)
    requires MatchAt(s).Some?
    ensures WellFormedUrl(MatchAt(s).value.url)
  {
    var t := s[2 + SpaceRun(s[2..])..];
    assert MatchAt(s).value.url == t[..UrlRun(t)];
    UrlRunWellFormed(t);
  }

  /** One step of the scan past a match. */
  lemma ExtractMatch(s: string, m: Match)
    requires MatchAt(s) == Some(m)
    ensures ExtractUrls(s) == [m.url] + ExtractUrls(s[m.length..])
  {
  }

  /** Where no match starts, the scan moves on by one character. */
  lemma ExtractSkip(s: string)
    requires s != [] && MatchAt(s).None?
    ensures ExtractUrls(s) == ExtractUrls(s[1..])
  {
  }

  /** No match of the pattern starts at positions `i` to `k - 1` of `s`. */
  predicate NoMatchBetween(s: string, i: nat, k: nat)
    requires i <= k <= |s|
  {
    forall j :: i <= j < k ==> MatchAt(s[j..]).None?
  }

  /** The leftmost match at or after position `i` is extracted first, and the scan resumes
      right after it: a match that does not overlap an earlier one is never missed. */
  lemma {:induction false} ExtractFirst(s: string, i: nat, k: nat, m: Match)
    requires i <= k <= |s| && NoMatchBetween(s, i, k) && MatchAt(s[k..]) == Some(m)
    ensures ExtractUrls(s[i..]) == [m.url] + ExtractUrls(s[k + m.length..])
    decreases k - i
  {
    if i == k {
      ExtractMatch(s[k..], m);
      assert s[k..][m.length..] == s[k + m.length..];
    } else {
      assert MatchAt(s[i..]).None?;
      ExtractSkip(s[i..]);
      assert s[i..][1..] == s[i + 1..];
      ExtractFirst(s, i + 1, k, m);
    }
  }

  /** A text where the pattern matches nowhere yields no URL. */
  lemma {:induction false} ExtractNone(s: string)
    requires forall j :: 0 <= j < |s| ==> MatchAt(s[j..]).None?
    ensures ExtractUrls(s) == []
    decreases |s|
  {
    if s != [] {
      assert s[0..] == s;
      var t := s[1..];
      forall j | 0 <= j < |t|
        ensures MatchAt(t[j..]).None?
      {
        assert t[j..] == s[j + 1..];
      }
      ExtractNone(t);
    }
  }

  /** Everything extracted is a well-formed URL. */
  lemma {:induction false} ExtractWellFormed(s: string)
    ensures forall u :: u in ExtractUrls(s) ==> WellFormedUrl(u)
    decreases |s|
  {
    if s != [] {
      match MatchAt(s)
      case Some(m) =>
        MatchWellFormed(s);
        ExtractWellFormed(s[m.length..]);
      case None =>
        ExtractWellFormed(s[1..]);
    }
  }

  /** Text without `>`, and not ending in `-`, holds no match and hides none behind it. */
  predicate NoArrow(p: string) {
    '>' !in p && (p == [] || p[|p| - 1] != '-')
  }

  lemma {:induction false} ExtractSkips(p: string, s: string)
    requires NoArrow(p)
    ensures ExtractUrls(p + s) == ExtractUrls(s)
  {
    if p != [] {
      assert (p + s)[0] == p[0];
      if p[0] == '-' {
        assert |p| > 1 && (p + s)[1] == p[1] && p[1] != '>';
      }
      assert MatchAt(p + s) == None;
      assert (p + s)[1..] == p[1..] + s;
      assert NoArrow(p[1..]) by {
        if p[1..] != [] { assert p[1..][|p[1..]| - 1] == p[|p| - 1]; }
      }
      ExtractSkips(p[1..], s);
    } else {
      assert p + s == s;
    }
  }

  /** Text with no arrow in it, then `->`, whitespace and a URL followed by whitespace (or the
      end) yields that URL and then whatever the rest of the output yields. */
  lemma ExtractArrow(p: string, spaces: string, u: string, rest: string)
    requires NoArrow(p) && spaces != [] && forall i :: 0 <= i < |spaces| ==> IsSpace(spaces[i])
    requires WellFormedUrl(u) && (rest == [] || IsSpace(rest[0]))
    ensures ExtractUrls(p + ("->" + (spaces + (u + rest)))) == [u] + ExtractUrls(rest)
  {
    ExtractSkips(p, "->" + (spaces + (u + rest)));
    ExtractAfterArrow(spaces, u, rest);
  }

  lemma ExtractAfterArrow(spaces: string, u: string, rest: string)
    requires spaces != [] && forall i :: 0 <= i < |spaces| ==> IsSpace(spaces[i])
    requires WellFormedUrl(u) && (rest == [] || IsSpace(rest[0]))
    ensures ExtractUrls("->" + (spaces + (u + rest))) == [u] + ExtractUrls(rest)
  {
    var s := "->" + (spaces + (u + rest));
    var m := Match(2 + |spaces| + |u|, u);
    assert MatchAt(s) == Some(m) by { MatchArrow(spaces, u, rest); }
    assert s[m.length..] == rest by { ArrowDrop(spaces, u, rest); }
    ExtractMatch(s, m);
  }

  lemma ArrowDrop(spaces: string, u: string, rest: string)
    ensures ("->" + (spaces + (u + rest)))[2..] == spaces + (u + rest)
    ensures ("->" + (spaces + (u + rest)))[2 + |spaces|..] == u + rest
    ensures ("->" + (spaces + (u + rest)))[2 + |spaces| + |u|..] == rest
  {
    var s := "->" + (spaces + (u + rest));
    assert s[2..] == spaces + (u + rest);
    assert s[2 + |spaces|..] == s[2..][|spaces|..];
    assert s[2 + |spaces| + |u|..] == s[2 + |spaces|..][|u|..];
  }

  /** After the arrow, the whitespace run is exactly `spaces`. */
  lemma ArrowSpaces(spaces: string, u: string, rest: string)
    requires forall i :: 0 <= i < |spaces| ==> IsSpace(spaces[i])
    requires WellFormedUrl(u)
    ensures SpaceRun(("->" + (spaces + (u + rest)))[2..]) == |spaces|
  {
    ArrowDrop(spaces, u, rest);
    var t := u + rest;
    assert t[0] == u[0];
    SpaceRunOver(spaces, t);
  }

  /** The pattern matches `->`, the whitespace and a well-formed URL ending at whitespace. */
  lemma MatchArrow(spaces: string, u: string, rest: string)
    requires spaces != [] && forall i :: 0 <= i < |spaces| ==> IsSpace(spaces[i])
    requires WellFormedUrl(u) && (rest == [] || IsSpace(rest[0]))
    ensures MatchAt("->" + (spaces + (u + rest))) == Some(Match(2 + |spaces| + |u|, u))
  {
    var s := "->" + (spaces + (u + rest));
    assert SpaceRun(s[2..]) == |spaces| by { ArrowSpaces(spaces, u, rest); }
    assert 0 < |u| && |s| >= 2 && s[0] == '-' && s[1] == '>' && UrlRun(s[2 + |spaces|..]) == |u| && s[2 + |spaces|..][..|u|] == u by {
      ArrowUrl(spaces, u, rest);
    }
    MatchAtRuns(s, |spaces|, |u|, u);
  }

  /** After the arrow and the whitespace, the URL run is exactly `u`. */
  lemma ArrowUrl(spaces: string, u: string, rest: string)
    requires WellFormedUrl(u) && (rest == [] || IsSpace(rest[0]))
    ensures var s := "->" + (spaces + (u + rest));
      0 < |u| && |s| >= 2 && s[0] == '-' && s[1] == '>' && UrlRun(s[2 + |spaces|..]) == |u| && s[2 + |spaces|..][..|u|] == u
  {
    var s := "->" + (spaces + (u + rest));
    var t := u + rest;
    assert s[0] == '-' && s[1] == '>';
    assert s[2 + |spaces|..] == t by { ArrowDrop(spaces, u, rest); }
    assert UrlRun(t) == |u| by { UrlRunOver(u, rest); }
    assert t[..|u|] == u;
  }

  /** An arrow, a whitespace run of `sp` and a URL run of `n` after it make a match. */
  lemma MatchAtRuns(s: string, sp: nat, n: nat, url: string)
    requires |s| >= 2 && s[0] == '-' && s[1] == '>' && 0 < sp && 0 < n
    requires SpaceRun(s[2..]) == sp && UrlRun(s[2 + sp..]) == n && s[2 + sp..][..n] == url
    ensures MatchAt(s) == Some(Match(2 + sp + n, url))
  {
  }

  /** A well-formed URL followed by whitespace (or the end) is matched whole. */
  lemma UrlRunOver(u: string, rest: string)
    requires WellFormedUrl(u) && (rest == [] || IsSpace(rest[0]))
    ensures UrlRun(u + rest) == |u|
  {
    var t := u + rest;
    var scheme := SchemeLength(u);
    SchemeExtends(u, t);
    var w := u[scheme..];
    assert t[scheme..] == w + rest;
    assert forall i :: 0 <= i < |w| ==> w[i] == u[scheme + i];
    NonSpaceRunOver(w, rest);
  }

  /** A text that starts with a URL has that URL's scheme. */
  lemma SchemeExtends(u: string, t: string)
    requires SchemeLength(u) > 0 && u <= t
    ensures SchemeLength(t) == SchemeLength(u)
  {
    if SchemeLength(u) == 8 {
      assert u[..8] == t[..8];
    } else {
      assert u[..7] == t[..7];
      assert u[4] == ':' && t[4] == ':';
    }
  }

  /** Whitespace followed by a non-whitespace character is a whitespace run of its own length. */
  lemma SpaceRunOver(spaces: string, t: string)
    requires forall i :: 0 <= i < |spaces| ==> IsSpace(spaces[i])
    requires t != [] && !IsSpace(t[0])
    ensures SpaceRun(spaces + t) == |spaces|
  {
    var s := spaces + t;
    assert forall i :: 0 <= i < |spaces| ==> s[i] == spaces[i];
    assert s[|spaces|] == t[0];
  }

  /** Non-whitespace followed by whitespace (or the end) is a non-whitespace run of its own
      length. */
  lemma NonSpaceRunOver(w: string, rest: string)
    requires forall i :: 0 <= i < |w| ==> !IsSpace(w[i])
    requires rest == [] || IsSpace(rest[0])
    ensures NonSpaceRun(w + rest) == |w|
  {
    var s := w + rest;
    assert forall i :: 0 <= i < |w| ==> s[i] == w[i];
    assert rest != [] ==> s[|w|] == rest[0];
  }
}
