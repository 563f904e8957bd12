/**
 One address family of the scanner firewall: the live, staging and legacy ipsets and the rules that use them.
 Every command may fail, and then changes nothing; every state between two commands is kept in a ghost trace.
 */
module ScannerFirewall {
  import opened Options

  /** The members of an ipset with their timeouts. */
  type IpSet = map<nat, nat>

  /** Legacy rules of IPv6 may also stand, by an old mistake, in the IPv4 table, where they block nothing. */
  datatype Kernel = Kernel(
    live: Option<IpSet>, staging: Option<IpSet>, legacy: Option<IpSet>,
    liveRules: nat, legacyRules: nat, strayRules: nat)

  predicate Has(s: Option<IpSet>, ip: nat) { s.Some? && ip in s.value }

  predicate Blocks(k: Kernel, ip: nat) {
    (Has(k.live, ip) && k.liveRules > 0) || (Has(k.legacy, ip) && k.legacyRules > 0)
  }

  /** No address of this set that k0 blocked is let through by k. */
  ghost predicate KeepsBlocked(k0: Kernel, k: Kernel, ips: set<nat>) {
    forall ip :: ip in ips && Blocks(k0, ip) ==> Blocks(k, ip)
  }

  /** Nothing in the trace since this point lets through what k0 blocked of these addresses. */
  ghost predicate GapFree(k0: Kernel, trace: seq<Kernel>, from: nat, ips: set<nat>) {
    from <= |trace| && forall i :: from <= i < |trace| ==> KeepsBlocked(k0, trace[i], ips)
  }

  lemma GapFreeThen(k0: Kernel, k1: Kernel, before: seq<Kernel>, trace: seq<Kernel>, from: nat, ips: set<nat>)
    requires GapFree(k0, before, from, ips) && before <= trace
    requires KeepsBlocked(k0, k1, ips) && GapFree(k1, trace, |before|, ips)
    ensures GapFree(k0, trace, from, ips)
  {
    forall i | from <= i < |trace| ensures KeepsBlocked(k0, trace[i], ips) {
      if i < |before| {
        assert trace[i] == before[i];
      }
    }
  }

  /** The live set carries all these addresses and its rule stands. */
  ghost predicate Carries(k: Kernel, ips: set<nat>) {
    k.live.Some? && ips <= k.live.value.Keys && k.liveRules > 0
  }

  /** The two states differ in the staging set at most. */
  predicate SameAside(k0: Kernel, k: Kernel) {
    k.(staging := None) == k0.(staging := None)
  }

  datatype Target = Live | Staging | Legacy

  function SetOf(k: Kernel, t: Target): Option<IpSet> {
    match t case Live => k.live case Staging => k.staging case Legacy => k.legacy
  }

  function WithSet(k: Kernel, t: Target, s: Option<IpSet>): Kernel {
    match t case Live => k.(live := s) case Staging => k.(staging := s) case Legacy => k.(legacy := s)
  }

  function Dropped(s: Option<IpSet>, ip: nat): Option<IpSet> { if s.Some? then Some(s.value - {ip}) else None }

  /** The state after an address was taken out of the live set, the legacy set, or both. */
  function Removed(k: Kernel, ip: nat, live: bool, legacy: bool): Kernel {
    k.(live := if live then Dropped(k.live, ip) else k.live,
       legacy := if legacy then Dropped(k.legacy, ip) else k.legacy)
  }

  /** Taking an address out of a set that is listed, and then perhaps is not there; and the next command's number. */
  function RemovalWorks(s: Option<IpSet>, works: nat -> bool, n: nat): (bool, nat) {
    if !works(n) then (false, n + 1) else if s.None? then (true, n + 1) else (works(n + 1), n + 2)
  }

  function SetFromEntries(entries: seq<(nat, nat)>): IpSet {
    if entries == [] then map[]
    else SetFromEntries(entries[..|entries| - 1])[entries[|entries| - 1].0 := entries[|entries| - 1].1]
  }

  class FamilyFirewall {
    const v6: bool
    // Does the n-th command work?
    const works: nat -> bool
    var n: nat
    var k: Kernel
    ghost var trace: seq<Kernel>

    constructor (v6: bool, works: nat -> bool, k: Kernel)
      ensures this.v6 == v6 && this.works == works && this.k == k && trace == []
    {
      this.v6, this.works, this.k, n := v6, works, k, 0;
      trace := [];
    }

    /** Every command works. */
    ghost predicate AllWork() {
      forall i :: works(i)
    }

    /******* Commands *******/

    method Run(k': Kernel) returns (ok: bool)
      modifies this
      ensures ok == works(old(n)) && n == old(n) + 1
      ensures k == if ok then k' else old(k)
      ensures trace == old(trace) + [k]
    {
      ok := works(n);
      n := n + 1;
      if ok { k := k'; }
      trace := trace + [k];
    }

    /** ipset list -name: None when the command itself fails. */
    method IpsetExists(t: Target) returns (r: Option<bool>)
      modifies this
      ensures n == old(n) + 1
      ensures k == old(k) && trace == old(trace) + [k]
      ensures r.Some? ==> r.value == SetOf(k, t).Some?
      ensures r.Some? == works(old(n))
    {
      var ok := Run(k);
      return if ok then Some(SetOf(k, t).Some?) else None;
    }

    method Create(t: Target) returns (ok: bool)
      modifies this
      ensures ok == works(old(n))
      ensures ok ==> k == if SetOf(old(k), t).Some? then old(k) else WithSet(old(k), t, Some(map[]))
      ensures !ok ==> k == old(k)
      ensures trace == old(trace) + [k]
    {
      ok := Run(if SetOf(k, t).Some? then k else WithSet(k, t, Some(map[])));
    }

    /** ipset destroy: refused for a missing set and for one that a rule still uses. */
    method Destroy(t: Target) returns (ok: bool)
      modifies this
      ensures ok == (works(old(n)) && SetOf(old(k), t).Some? && !InUse(old(k), t))
      ensures ok ==> k == WithSet(old(k), t, None)
      ensures !ok ==> k == old(k)
      ensures trace == old(trace) + [k]
    {
      var possible := SetOf(k, t).Some? && !InUse(k, t);
      ok := Run(if possible then WithSet(k, t, None) else k);
      ok := ok && possible;
    }

    method AddTo(t: Target, ip: nat, timeout: nat) returns (ok: bool)
      modifies this
      ensures ok == (works(old(n)) && SetOf(old(k), t).Some?)
      ensures ok ==> k == WithSet(old(k), t, Some(SetOf(old(k), t).value[ip := timeout]))
      ensures !ok ==> k == old(k)
      ensures trace == old(trace) + [k]
    {
      var possible := SetOf(k, t).Some?;
      ok := Run(if possible then WithSet(k, t, Some(SetOf(k, t).value[ip := timeout])) else k);
      ok := ok && possible;
    }

    method DeleteFrom(t: Target, ip: nat) returns (ok: bool)
      modifies this
      ensures n == old(n) + 1
      ensures ok == (works(old(n)) && SetOf(old(k), t).Some?)
      ensures ok ==> k == WithSet(old(k), t, Some(SetOf(old(k), t).value - {ip}))
      ensures !ok ==> k == old(k)
      ensures trace == old(trace) + [k]
    {
      var possible := SetOf(k, t).Some?;
      ok := Run(if possible then WithSet(k, t, Some(SetOf(k, t).value - {ip})) else k);
      ok := ok && possible;
    }

    method Flush(t: Target) returns (ok: bool)
      modifies this
      ensures ok == (works(old(n)) && SetOf(old(k), t).Some?)
      ensures ok ==> k == WithSet(old(k), t, Some(map[]))
      ensures !ok ==> k == old(k)
      ensures trace == old(trace) + [k]
    {
      var possible := SetOf(k, t).Some?;
      ok := Run(if possible then WithSet(k, t, Some(map[])) else k);
      ok := ok && possible;
    }

    method SwapStagingAndLive() returns (ok: bool)
      modifies this
      ensures ok == (works(old(n)) && old(k).staging.Some? && old(k).live.Some?)
      ensures ok ==> k == old(k).(live := old(k).staging, staging := old(k).live)
      ensures !ok ==> k == old(k)
      ensures trace == old(trace) + [k]
    {
      var possible := k.staging.Some? && k.live.Some?;
      ok := Run(if possible then k.(live := k.staging, staging := k.live) else k);
      ok := ok && possible;
    }

    method TestMember(t: Target, ip: nat) returns (found: bool)
      modifies this
      ensures k == old(k) && trace == old(trace) + [k]
      ensures found == (works(old(n)) && Has(SetOf(k, t), ip))
    {
      var ok := Run(k);
      found := ok && Has(SetOf(k, t), ip);
    }

    /** iptables -C on the table of the family, or, for stray, on the IPv4 table. */
    method CheckRule(t: Target, stray: bool) returns (found: bool)
      modifies this
      ensures k == old(k) && trace == old(trace) + [k]
      ensures found == (works(old(n)) && RulesOf(k, t, stray) > 0)
    {
      var ok := Run(k);
      found := ok && RulesOf(k, t, stray) > 0;
    }

    method InsertLiveRule() returns (ok: bool)
      modifies this
      ensures ok == (works(old(n)) && old(k).live.Some?)
      ensures ok ==> k == old(k).(liveRules := old(k).liveRules + 1)
      ensures !ok ==> k == old(k)
      ensures trace == old(trace) + [k]
    {
      var possible := k.live.Some?;
      ok := Run(if possible then k.(liveRules := k.liveRules + 1) else k);
      ok := ok && possible;
    }

    method DeleteLegacyRule(stray: bool) returns (ok: bool)
      modifies this
      ensures ok == (works(old(n)) && RulesOf(old(k), Legacy, stray) > 0)
      ensures ok ==> k == if stray then old(k).(strayRules := old(k).strayRules - 1)
                          else old(k).(legacyRules := old(k).legacyRules - 1)
      ensures !ok ==> k == old(k)
      ensures trace == old(trace) + [k]
    {
      var possible := RulesOf(k, Legacy, stray) > 0;
      ok := Run(if !possible then k
                else if stray then k.(strayRules := k.strayRules - 1)
                else k.(legacyRules := k.legacyRules - 1));
      ok := ok && possible;
    }

    /******* Procedures *******/

    /** _ensure_family_infrastructure: the live set and its rule; success means both are there. */
    method EnsureInfrastructure() returns (ok: bool)
      modifies this
      ensures ok ==> k.live.Some? && k.liveRules > 0
      ensures AllWork() ==> ok
      ensures k.legacy == old(k).legacy && k.legacyRules == old(k).legacyRules && k.strayRules == old(k).strayRules
      ensures k.staging == old(k).staging
      ensures k.live == old(k).live || (old(k).live.None? && k.live == Some(map[]))
      ensures k.liveRules >= old(k).liveRules
      ensures old(trace) <= trace
      ensures forall ip :: Blocks(old(k), ip) ==> Blocks(k, ip)
      ensures forall ips :: GapFree(old(k), trace, |old(trace)|, ips)
    {
      ok := Create(Live);
      if !ok {
        return;
      }
      ok := CheckRule(Live, false);
      if !ok {
        ok := InsertLiveRule();
      }
    }

    /**
     _sync_family_ipset: build aside, swap, drop the old content. Whether it succeeds or fails, and at every command on
     the way, nothing blocked before that is among the entries is let through.
     */
    method SyncFamilyIpset(entries: seq<(nat, nat)>) returns (ok: bool)
      requires k.live.Some? && k.liveRules > 0
      modifies this
      ensures k.(live := None, staging := None) == old(k).(live := None, staging := None)
      ensures k.live in {old(k).live, Some(SetFromEntries(entries))}
      ensures ok ==> k.live == Some(SetFromEntries(entries)) && k.staging.None?
      ensures AllWork() ==> ok
      ensures old(trace) <= trace
      ensures KeepsBlocked(old(k), k, SetFromEntries(entries).Keys)
      ensures GapFree(old(k), trace, |old(trace)|, SetFromEntries(entries).Keys)
    {
      ok := BuildStaging(entries);
      if ok {
        ok := SwapIn(SetFromEntries(entries));
      }
    }

    /** The live set is replaced in one command; then the old content, now aside, is dropped. */
    method SwapIn(ghost content: IpSet) returns (ok: bool)
      requires k.live.Some? && k.liveRules > 0 && k.staging == Some(content)
      modifies this
      ensures k.(live := None, staging := None) == old(k).(live := None, staging := None)
      ensures k.live in {old(k).live, Some(content)}
      ensures ok ==> k.live == Some(content) && k.staging.None?
      ensures AllWork() ==> ok
      ensures old(trace) <= trace
      ensures forall i :: |old(trace)| <= i < |trace| ==> SameAside(old(k), trace[i]) || Carries(trace[i], content.Keys)
    {
      ok := SwapStagingAndLive();
      if !ok {
        var _ := Destroy(Staging);
        return;
      }
      ok := Destroy(Staging);
    }

    /** A fresh staging set with every entry, or a failure that leaves no partial one behind when it can be removed. */
    method BuildStaging(entries: seq<(nat, nat)>) returns (ok: bool)
      modifies this
      ensures SameAside(old(k), k)
      ensures ok ==> k.staging == Some(SetFromEntries(entries))
      ensures AllWork() ==> ok
      ensures old(trace) <= trace
      ensures forall i :: |old(trace)| <= i < |trace| ==> SameAside(old(k), trace[i])
    {
      ok := false;
      var present := IpsetExists(Staging);
      if present.None? {
        return;
      }
      if present.value {
        var destroyed := Destroy(Staging);
        if !destroyed {
          return;
        }
      }
      var created := Create(Staging);
      if !created {
        return;
      }
      ok := Populate(entries);
      if !ok {
        var _ := Destroy(Staging);
      }
    }

    /** Every entry is tried even after one has failed. */
    method Populate(entries: seq<(nat, nat)>) returns (populated: bool)
      requires k.staging == Some(map[])
      modifies this
      ensures SameAside(old(k), k) && k.staging.Some?
      ensures populated ==> k.staging == Some(SetFromEntries(entries))
      ensures AllWork() ==> populated
      ensures old(trace) <= trace
      ensures forall i :: |old(trace)| <= i < |trace| ==> SameAside(old(k), trace[i])
    {
      populated := true;
      for i := 0 to |entries|
        invariant SameAside(old(k), k) && k.staging.Some?
        invariant populated ==> k.staging == Some(SetFromEntries(entries[..i]))
        invariant AllWork() ==> populated
        invariant old(trace) <= trace
        invariant forall j :: |old(trace)| <= j < |trace| ==> SameAside(old(k), trace[j])
      {
        assert entries[..i + 1][..i] == entries[..i];
        var added := AddTo(Staging, entries[i].0, entries[i].1);
        populated := added && populated;
      }
      assert entries[..|entries|] == entries;
    }

    /** _remove_legacy_family: rules first, then the set. What the live set carries stays blocked throughout. */
    method RemoveLegacyFamily(ghost ips: set<nat>) returns (ok: bool)
      modifies this
      ensures k.live == old(k).live && k.staging == old(k).staging && k.liveRules == old(k).liveRules
      ensures ok ==> k.legacy.None?
      // Only more rules than one run deletes, or a failing command, can keep the legacy set alive.
      ensures AllWork() && old(k).legacyRules <= 32 && old(k).strayRules <= (if v6 then 32 else 0) ==> ok
      ensures old(trace) <= trace
      ensures Carries(old(k), ips) ==> forall i :: |old(trace)| <= i < |trace| ==> Carries(trace[i], ips)
    {
      var present := IpsetExists(Legacy);
      if present.None? {
        return false;
      }
      if !present.value {
        return true;
      }
      ok := RemoveLegacyRules(false, ips);
      if ok && v6 {
        ok := RemoveLegacyRules(true, ips);
      }
      if !ok {
        return;
      }
      ok := Flush(Legacy);
      if !ok {
        return;
      }
      ok := Destroy(Legacy);
    }

    method RemoveLegacyRules(stray: bool, ghost ips: set<nat>) returns (ok: bool)
      modifies this
      ensures k.live == old(k).live && k.staging == old(k).staging && k.liveRules == old(k).liveRules &&
        k.legacy == old(k).legacy
      ensures RulesOf(k, Legacy, !stray) == RulesOf(old(k), Legacy, !stray)
      ensures AllWork() && RulesOf(old(k), Legacy, stray) <= 32 ==> ok && RulesOf(k, Legacy, stray) == 0
      ensures old(trace) <= trace
      ensures Carries(old(k), ips) ==> forall i :: |old(trace)| <= i < |trace| ==> Carries(trace[i], ips)
    {
      for attempt := 0 to 32
        invariant k.live == old(k).live && k.staging == old(k).staging
        invariant k.liveRules == old(k).liveRules && k.legacy == old(k).legacy
        invariant RulesOf(k, Legacy, !stray) == RulesOf(old(k), Legacy, !stray)
        invariant RulesOf(k, Legacy, stray) == RulesOf(old(k), Legacy, stray) - attempt
        invariant old(trace) <= trace
        invariant Carries(old(k), ips) ==> forall i :: |old(trace)| <= i < |trace| ==> Carries(trace[i], ips)
      {
        var present := CheckRule(Legacy, stray);
        if !present {
          return true;
        }
        var deleted := DeleteLegacyRule(stray);
        if !deleted {
          return false;
        }
      }
      return true;
    }

    /** _firewall_contains: a positive answer means the address is really blocked. */
    method Contains(ip: nat) returns (found: bool)
      modifies this
      ensures k == old(k)
      ensures found ==> Blocks(k, ip)
      ensures AllWork() ==> (found <==> Blocks(k, ip))
      ensures old(trace) <= trace && forall i :: |old(trace)| <= i < |trace| ==> trace[i] == k
    {
      var inLive := TestMember(Live, ip);
      if inLive {
        var rule := CheckRule(Live, false);
        if rule {
          return true;
        }
      }
      var inLegacy := TestMember(Legacy, ip);
      if inLegacy {
        found := CheckRule(Legacy, false);
      } else {
        found := false;
      }
    }

    /** _firewall_add of one address: success means it is blocked now. */
    method Add(ip: nat, timeout: nat) returns (ok: bool)
      modifies this
      ensures ok ==> Blocks(k, ip) && k.live.Some? && ip in k.live.value && k.live.value[ip] == timeout
      ensures AllWork() ==> ok
      ensures forall other :: Blocks(old(k), other) ==> Blocks(k, other)
    {
      ok := EnsureInfrastructure();
      if ok {
        ok := AddTo(Live, ip, timeout);
      }
    }

    /** Whether a removal starting now takes its address out of the live set and out of the legacy set. */
    ghost function Removals(): (bool, bool)
      reads this
    {
      var (live, next) := RemovalWorks(k.live, works, n);
      (live, RemovalWorks(k.legacy, works, next).0)
    }

    /** _firewall_remove: success means the address is in neither set, and no other address was let through. */
    method Remove(ip: nat) returns (ok: bool)
      modifies this
      ensures
        var (live, legacy) := old(Removals());
        ok == (live && legacy) && k == Removed(old(k), ip, live, legacy)
      ensures ok ==> !Has(k.live, ip) && !Has(k.legacy, ip)
      ensures AllWork() ==> ok
      ensures forall other :: other != ip ==> (Blocks(k, other) <==> Blocks(old(k), other))
    {
      var a := RemoveFrom(Live, ip);
      var b := RemoveFrom(Legacy, ip);
      ok := a && b;
    }

    method RemoveFrom(t: Target, ip: nat) returns (ok: bool)
      requires t != Staging
      modifies this
      ensures (ok, n) == RemovalWorks(SetOf(old(k), t), works, old(n))
      ensures k == if ok then WithSet(old(k), t, Dropped(SetOf(old(k), t), ip)) else old(k)
    {
      var present := IpsetExists(t);
      if present.None? {
        return false;
      }
      if !present.value {
        return true;
      }
      ok := DeleteFrom(t, ip);
    }
  }

  /** A set that a rule still uses cannot be destroyed. */
  predicate InUse(k: Kernel, t: Target) {
    (t == Live && k.liveRules > 0) || (t == Legacy && k.legacyRules + k.strayRules > 0)
  }

  function RulesOf(k: Kernel, t: Target, stray: bool): nat {
    if t == Live then k.liveRules else if stray then k.strayRules else k.legacyRules
  }
}
