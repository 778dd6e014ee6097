/** The openQA instance whose job URLs an ISO post reports: the document's `host`, checked
    against the `--osd` and `--o3` flags, or a default. */
module Hosts {
  import opened Results
  import opened Text
  import opened Diagnostics

  /** The internal SUSE instance, the default. */
  const OsdHost: string := "https://openqa.suse.de"
  /** The public openSUSE instance. */
  const O3Host: string := "https://openqa.opensuse.org"

  /** A `host` setting counts when it is present and not empty (Python truthiness). */
  predicate HostGiven(host: Option<string>) {
    host.Some? && host.value != ""
  }

  predicate OsdConflict(h: string, flags: seq<string>) {
    "--osd" in flags && !Contains(h, "suse.de")
  }

  predicate O3Conflict(h: string, flags: seq<string>) {
    "--o3" in flags && !Contains(h, "opensuse.org")
  }

  /** The host resolution of `run_iso_post`: a given host must contain `suse.de` under `--osd`
      (checked first) and `opensuse.org` under `--o3`; without one the default is the SUSE
      instance unless only `--o3` is given. Trailing slashes are removed. */
  function ResolveHost(host: Option<string>, flags: seq<string>): (r: Result<string, Error>)
    ensures r.Ok? ==> |r.value| > 0 ==> r.value[|r.value| - 1] != '/'
  {
    if HostGiven(host) then
      var h := host.value;
      if OsdConflict(h, flags) then Err(HostConflict(h, "--osd"))
      else if O3Conflict(h, flags) then Err(HostConflict(h, "--o3"))
      else Ok(RStrip(h, '/'))
    else
      var d := if "--osd" in flags then OsdHost else if "--o3" in flags then O3Host else OsdHost;
      Ok(RStrip(d, '/'))
  }

  /** Resolution fails exactly when a given host contradicts a flag, and the `--osd` check wins
      when both flags contradict it. */
  lemma ResolveHostConflict(host: Option<string>, flags: seq<string>)
    ensures ResolveHost(host, flags).Err? <==>
      HostGiven(host) && (OsdConflict(host.value, flags) || O3Conflict(host.value, flags))
    ensures ResolveHost(host, flags).Err? ==>
      ResolveHost(host, flags).error == HostConflict(host.value, if OsdConflict(host.value, flags) then "--osd" else "--o3")
  {
  }

  /** A given host that passes the checks is kept up to its trailing slashes: the result is a
      prefix of it followed only by slashes in the original. */
  lemma ResolveHostGiven(host: Option<string>, flags: seq<string>)
    requires HostGiven(host)
    requires !OsdConflict(host.value, flags) && !O3Conflict(host.value, flags)
    ensures var r := ResolveHost(host, flags);
      r.Ok? && r.value <= host.value
      && forall i :: |r.value| <= i < |host.value| ==> host.value[i] == '/'
  {
  }

  /** Without a host the flags only choose the default, and never conflict. */
  lemma {:induction false} ResolveHostDefault(host: Option<string>, flags: seq<string>)
    requires !HostGiven(host)
    ensures ResolveHost(host, flags) == Ok(if "--o3" in flags && "--osd" !in flags then O3Host else OsdHost)
  {
    assert RStrip(OsdHost, '/') == OsdHost by {
      assert OsdHost[|OsdHost| - 1] == 'e';
    }
    assert RStrip(O3Host, '/') == O3Host by {
      assert O3Host[|O3Host| - 1] == 'g';
    }
  }
}
