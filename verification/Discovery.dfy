/** Bounded candidate expansion and the manual discovery list kept by the remote system. */
module Discovery {
  import opened Options

  const MAX_CANDIDATES: nat := 4096

  function Clamp(requested: int): nat {
    if requested < 0 then 0 else if requested > MAX_CANDIDATES then MAX_CANDIDATES else requested
  }

  // ------------------------------------------------------------------- expansion

  function Take<T>(s: seq<T>, n: nat): seq<T> {
    if n <= |s| then s[..n] else s
  }

  lemma TakeMore<T>(a: seq<T>, b: seq<T>, n: nat)
    requires |Take(a, n)| < n
    ensures Take(a + b, n) == Take(a, n) + Take(b, n - |Take(a, n)|)
  {
  }

  lemma TakeAll<T>(a: seq<T>, b: seq<T>, n: nat)
    requires a <= b && |Take(a, n)| == n
    ensures Take(b, n) == Take(a, n)
  {
  }

  /** The hosts of all valid ranges, one after the other; `hosts` is `None` for invalid notation. */
  function AllHosts(cidrs: seq<string>, hosts: string -> Option<seq<string>>): seq<string> {
    if cidrs == [] then []
    else
      var n := |cidrs| - 1;
      AllHosts(cidrs[..n], hosts) + match hosts(cidrs[n]) case Some(h) => h case None => []
  }

  lemma {:induction false} AllHostsGrows(cidrs: seq<string>, i: nat, hosts: string -> Option<seq<string>>)
    requires i <= |cidrs|
    ensures AllHosts(cidrs[..i], hosts) <= AllHosts(cidrs, hosts)
    decreases |cidrs| - i
  {
    if i == |cidrs| {
      assert cidrs[..i] == cidrs;
    } else {
      AllHostsGrows(cidrs, i + 1, hosts);
      assert cidrs[..i + 1][..i] == cidrs[..i];
    }
  }

  lemma OneMoreRange(cidrs: seq<string>, i: nat, hosts: string -> Option<seq<string>>)
    requires i < |cidrs|
    ensures AllHosts(cidrs[..i + 1], hosts)
         == AllHosts(cidrs[..i], hosts) + match hosts(cidrs[i]) case Some(h) => h case None => []
  {
    assert cidrs[..i + 1][..i] == cidrs[..i];
  }

  /** A prefix: the requested number, at most 4096, or all there is. */
  lemma TakenExactly<T>(s: seq<T>, requested: int)
    ensures var out := Take(s, Clamp(requested));
            && out <= s && |out| <= 4096 && (requested <= 0 ==> out == []) && (requested > 0 ==> |out| <= requested)
            && (requested > 0 && |out| < |s| ==> |out| == requested || (|out| == 4096 && requested > 4096))
  {
  }

  lemma OneMoreHosts(cidrs: seq<string>, cidr: string, hosts: string -> Option<seq<string>>)
    ensures AllHosts(cidrs + [cidr], hosts)
         == AllHosts(cidrs, hosts) + match hosts(cidr) case Some(h) => h case None => []
    ensures AllHosts([], hosts) == []
  {
    assert (cidrs + [cidr])[..|cidrs|] == cidrs;
  }

  /** The ranges follow each other... */
  lemma {:induction false} AllHostsAppend(a: seq<string>, b: seq<string>, hosts: string -> Option<seq<string>>)
    ensures AllHosts(a + b, hosts) == AllHosts(a, hosts) + AllHosts(b, hosts)
  {
    hide AllHosts;
    if b == [] {
      assert a + b == a;
      OneMoreHosts([], "", hosts);
    } else {
      var front, last := b[..|b| - 1], b[|b| - 1];
      AllHostsAppend(a, front, hosts);
      assert a + b == (a + front) + [last] && b == front + [last];
      OneMoreHosts(a + front, last, hosts);
      OneMoreHosts(front, last, hosts);
    }
  }

  /** ... and invalid notation gives no host. */
  lemma HostsOfOne(cidr: string, hosts: string -> Option<seq<string>>)
    ensures AllHosts([cidr], hosts) == if hosts(cidr).Some? then hosts(cidr).value else []
  {
    assert [cidr][..0] == [] && AllHosts([], hosts) == [];
  }

  /** `expand_cidrs`: the first candidates of the whole enumeration, whatever the ranges' sizes. */
  method ExpandCidrs(cidrs: seq<string>, maxHosts: int, hosts: string -> Option<seq<string>>) returns (out: seq<string>)
    ensures out == Take(AllHosts(cidrs, hosts), Clamp(maxHosts))
  {
    out := [];
    assert AllHosts([], hosts) == [];
    hide AllHosts, Clamp, Take;
    var remaining := Clamp(maxHosts);
    if remaining == 0 {
      return;
    }
    assert cidrs[..0] == [];
    for i := 0 to |cidrs|
      invariant out == Take(AllHosts(cidrs[..i], hosts), Clamp(maxHosts))
      invariant 0 < remaining == Clamp(maxHosts) - |out|
    {
      OneMoreRange(cidrs, i, hosts);
      var network := hosts(cidrs[i]);
      TakeMore(AllHosts(cidrs[..i], hosts), if network.Some? then network.value else [], Clamp(maxHosts));
      if network.None? {
        assert AllHosts(cidrs[..i], hosts) + [] == AllHosts(cidrs[..i], hosts);
        continue;
      }
      var slice := Take(network.value, remaining);
      ghost var before := out;
      for k := 0 to |slice|
        invariant out == before + slice[..k] && remaining == Clamp(maxHosts) - |out|
      {
        out := out + [slice[k]];
        remaining := remaining - 1;
      }
      assert slice[..|slice|] == slice;
      if remaining == 0 {
        AllHostsGrows(cidrs, i + 1, hosts);
        TakeAll(AllHosts(cidrs[..i + 1], hosts), AllHosts(cidrs, hosts), Clamp(maxHosts));
        return;
      }
    }
    assert cidrs[..|cidrs|] == cidrs;
  }

  // --------------------------------------------------------------------- merging

  function Filter(s: seq<string>, valid: string -> bool): seq<string> {
    if s == [] then []
    else
      var n := |s| - 1;
      if valid(s[n]) then Filter(s[..n], valid) + [s[n]] else Filter(s[..n], valid)
  }

  /** `list(dict.fromkeys(s))`: first occurrences, in order. */
  function Dedup(s: seq<string>): (r: seq<string>)
    ensures forall x :: x in r <==> x in s
    ensures forall i, j :: 0 <= i < j < |r| ==> r[i] != r[j]
  {
    if s == [] then []
    else
      var n := |s| - 1;
      var front := Dedup(s[..n]);
      assert s == s[..n] + [s[n]];
      if s[n] in front then front else front + [s[n]]
  }

  /** Merging in two steps is merging at once. */
  lemma {:induction false} DedupTwice(a: seq<string>, b: seq<string>)
    ensures Dedup(Dedup(a) + b) == Dedup(a + b)
    ensures Dedup(a) <= Dedup(a + b)
  {
    if b == [] {
      assert Dedup(a) + b == Dedup(a) && a + b == a;
      DistinctStays(Dedup(a));
    } else {
      var n := |b| - 1;
      DedupTwice(a, b[..n]);
      assert (a + b)[..|a + b| - 1] == a + b[..n];
      assert (Dedup(a) + b)[..|Dedup(a) + b| - 1] == Dedup(a) + b[..n];
    }
  }

  lemma {:induction false} DistinctStays(s: seq<string>)
    requires forall i, j :: 0 <= i < j < |s| ==> s[i] != s[j]
    ensures Dedup(s) == s
  {
    if s != [] {
      DistinctStays(s[..|s| - 1]);
    }
  }

  /** Adding what is already there changes nothing. */
  lemma {:induction false} DedupAbsorbs(a: seq<string>, b: seq<string>)
    requires forall x :: x in b ==> x in a
    ensures Dedup(a + b) == Dedup(a)
  {
    if b == [] {
      assert a + b == a;
    } else {
      DedupAbsorbs(a, b[..|b| - 1]);
      assert (a + b)[..|a + b| - 1] == a + b[..|b| - 1];
      assert b[|b| - 1] in a;
    }
  }

  lemma {:induction false} FilterFacts(s: seq<string>, valid: string -> bool)
    ensures forall x :: x in Filter(s, valid) <==> x in s && valid(x)
    ensures (forall x :: x in s ==> valid(x)) ==> Filter(s, valid) == s
  {
    if s != [] {
      FilterFacts(s[..|s| - 1], valid);
      assert s == s[..|s| - 1] + [s[|s| - 1]];
    }
  }

  lemma {:induction false} FilterAppend(a: seq<string>, b: seq<string>, valid: string -> bool)
    ensures Filter(a + b, valid) == Filter(a, valid) + Filter(b, valid)
  {
    if b == [] {
      assert a + b == a;
    } else {
      FilterAppend(a, b[..|b| - 1], valid);
      assert (a + b)[..|a + b| - 1] == a + b[..|b| - 1];
    }
  }

  // ------------------------------------------------------------- the remote list

  /** The answer to reading the list: an API error, an empty or unexpected body, or a body with or without a list. */
  datatype Reading = Failed | NoBody | Body(ips: Option<seq<string>>)

  /** What the call makes of its input and the reading: the list to send, or `None` to give up. */
  function Combined(ips: seq<string>, reading: Reading, valid: string -> bool): Option<seq<string>> {
    var added := Filter(ips, valid);
    if |ips| > MAX_CANDIDATES || added == [] then None
    else if reading.Body? && (reading.ips.None? || |reading.ips.value| > MAX_CANDIDATES) then None
    else
      var existing := if reading.Body? then Filter(reading.ips.value, valid) else [];
      var combined := Dedup(existing + added);
      if |combined| > MAX_CANDIDATES then None else Some(combined)
  }

  lemma {:induction false} DistinctSize(s: seq<string>)
    requires forall i, j :: 0 <= i < j < |s| ==> s[i] != s[j]
    ensures |set x | x in s| == |s|
  {
    if s != [] {
      var n := |s| - 1;
      DistinctSize(s[..n]);
      assert s == s[..n] + [s[n]];
      assert (set x | x in s) == (set x | x in s[..n]) + {s[n]};
    }
  }

  /** The valid addresses among some texts. */
  function ValidAmong(s: seq<string>, valid: string -> bool): set<string> {
    set x | x in s && valid(x)
  }

  lemma MergedSize(stored: seq<string>, ips: seq<string>, valid: string -> bool)
    ensures |Dedup(Filter(stored, valid) + Filter(ips, valid))| == |ValidAmong(stored + ips, valid)|
    ensures Filter(ips, valid) == [] <==> ValidAmong(ips, valid) == {}
  {
    FilterFacts(stored, valid);
    FilterFacts(ips, valid);
    hide Filter, Dedup;
    var added := Filter(ips, valid);
    assert added != [] ==> added[0] in added && added[0] in ValidAmong(ips, valid);
    assert added == [] ==> forall x :: x in ips ==> !valid(x);
    var combined := Dedup(Filter(stored, valid) + added);
    DistinctSize(combined);
    assert (set x | x in combined) == ValidAmong(stored + ips, valid);
  }

  /** The entries that a reading brings. */
  function Read(reading: Reading): seq<string> {
    if reading.Body? && reading.ips.Some? then reading.ips.value else []
  }

  /** An add is given up exactly for too many or no valid inputs, an unusable reading, or too many in all. */
  lemma GivenUpExactly(ips: seq<string>, reading: Reading, valid: string -> bool)
    ensures Combined(ips, reading, valid).None? <==>
              || |ips| > 4096 || ValidAmong(ips, valid) == {}
              || (reading.Body? && (reading.ips.None? || |Read(reading)| > 4096))
              || |ValidAmong(Read(reading) + ips, valid)| > 4096
  {
    assert Filter([], valid) == [];
    hide Filter, Dedup, ValidAmong;
    MergedSize(Read(reading), ips, valid);
  }

  class RemoteSystem {
    var ips: seq<string>

    constructor (ips: seq<string>)
      ensures this.ips == ips
    {
      this.ips := ips;
    }

    /** The PUT request; `reached` is false when it fails. */
    method Replace(list: seq<string>, reached: bool) returns (ok: bool)
      modifies this
      ensures ok == reached && ips == if reached then list else old(ips)
    {
      ok := reached;
      if reached {
        ips := list;
      }
    }
  }

  method AddDiscoveryIps(remote: RemoteSystem, ips: seq<string>, reading: Reading, reached: bool, valid: string -> bool)
    returns (accepted: bool)
    modifies remote
    ensures accepted <==> Combined(ips, reading, valid).Some? && reached
    ensures remote.ips == if accepted then Combined(ips, reading, valid).value else old(remote.ips)
  {
    var bounded := Take(ips, MAX_CANDIDATES + 1);
    if |bounded| > MAX_CANDIDATES {
      return false;
    }
    var validIps := Filter(bounded, valid);
    if validIps == [] {
      return false;
    }
    var existing := [];
    if reading.Body? {
      if reading.ips.None? || |reading.ips.value| > MAX_CANDIDATES {
        return false;
      }
      existing := Filter(reading.ips.value, valid);
    }
    var combined := Dedup(existing + validIps);
    if |combined| > MAX_CANDIDATES {
      return false;
    }
    accepted := remote.Replace(combined, reached);
  }

  /** One add against a list that is read as it is stored. */
  function After(stored: seq<string>, ips: seq<string>, valid: string -> bool): seq<string> {
    match Combined(ips, Body(Some(stored)), valid)
    case Some(list) => list
    case None => stored
  }

  /** An accepted add keeps the valid old entries first, holds no duplicate, stays within the limit, adds the input. */
  lemma AddKeepsList(stored: seq<string>, ips: seq<string>, valid: string -> bool)
    requires Combined(ips, Body(Some(stored)), valid).Some?
    ensures var list := After(stored, ips, valid);
            && Dedup(Filter(stored, valid)) <= list && |list| <= MAX_CANDIDATES
            && (forall i, j :: 0 <= i < j < |list| ==> list[i] != list[j])
            && (forall x :: x in list <==> (x in stored || x in ips) && valid(x))
  {
    FilterFacts(stored, valid);
    FilterFacts(ips, valid);
    DedupTwice(Filter(stored, valid), Filter(ips, valid));
  }

  /** So every old entry survives exactly when all are valid; then the whole old list stands first. */
  lemma AddKeepsAllExactly(stored: seq<string>, ips: seq<string>, valid: string -> bool)
    requires Combined(ips, Body(Some(stored)), valid).Some?
    ensures (forall x :: x in stored ==> x in After(stored, ips, valid)) <==> forall x :: x in stored ==> valid(x)
    ensures (forall x :: x in stored ==> valid(x)) ==> Dedup(stored) <= After(stored, ips, valid)
  {
    AddKeepsList(stored, ips, valid);
    FilterFacts(stored, valid);
    hide Combined, Dedup, Filter, After;
  }

  /** Repeating an accepted add is accepted and changes nothing. */
  lemma AddIsIdempotent(stored: seq<string>, ips: seq<string>, valid: string -> bool)
    requires Combined(ips, Body(Some(stored)), valid).Some?
    ensures var list := After(stored, ips, valid);
            Combined(ips, Body(Some(list)), valid) == Some(list)
  {
    var added, list := Filter(ips, valid), After(stored, ips, valid);
    FilterFacts(stored, valid);
    FilterFacts(ips, valid);
    FilterFacts(list, valid);
    DistinctStays(list);
    DedupAbsorbs(list, added);
  }

  /** When the reading fails the call starts afresh: the old entries stay exactly when they are all added again. */
  lemma FailedReadingForgets(stored: seq<string>, ips: seq<string>, valid: string -> bool)
    requires Combined(ips, Failed, valid).Some?
    ensures (forall x :: x in stored ==> x in Combined(ips, Failed, valid).value)
            <==> (forall x :: x in stored ==> x in ips && valid(x))
  {
    FilterFacts(ips, valid);
  }

  /** One valid entry is stored, another is added while the list cannot be read: the first is gone. */
  lemma FailedReadingLosesEntry() returns (stored: seq<string>, ips: seq<string>, valid: string -> bool)
    ensures forall x :: x in stored ==> valid(x)
    ensures Combined(ips, Failed, valid).Some? && stored != []
    ensures forall x :: x in stored ==> x !in Combined(ips, Failed, valid).value
  {
    stored, ips, valid := ["10.0.0.1"], ["10.0.0.2"], _ => true;
    assert ips[0] in ips && |ips[0]| == |stored[0]| && ips[0][7] != stored[0][7];
    FilterFacts(ips, valid);
    assert ips[..0] == [];
  }

  /** Two accepted adds leave what one add of both inputs would. */
  lemma AddsCombine(stored: seq<string>, first: seq<string>, second: seq<string>, valid: string -> bool)
    requires Combined(first, Body(Some(stored)), valid).Some?
    requires Combined(second, Body(Some(After(stored, first, valid))), valid).Some?
    ensures After(After(stored, first, valid), second, valid)
            == Dedup(Filter(stored, valid) + Filter(first, valid) + Filter(second, valid))
  {
    var list := After(stored, first, valid);
    FilterFacts(stored, valid);
    FilterFacts(first, valid);
    FilterFacts(list, valid);
    DedupTwice(Filter(stored, valid) + Filter(first, valid), Filter(second, valid));
  }
}
