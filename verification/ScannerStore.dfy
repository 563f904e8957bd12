/** The scanner ban store of scanner_firewall_store.py: the records of all addresses over the two firewall families. */
module ScannerStore {
  import opened Options
  import opened ScannerRecords
  import opened ScannerFirewall
  import opened ScannerRuns

  lemma PutTwice(entries: map<Ip, Record>, ip: Ip, first: Record, second: Record)
    ensures entries[ip := first][ip := second] == entries[ip := second]
  {
  }

  /** The active bans of one family among these addresses, with the seconds each has left. */
  function ActiveAmong(entries: map<Ip, Record>, keys: set<Ip>, v6: bool, now: int): IpSet {
    map ip | ip in keys && ip in entries && ip.v6 == v6 && entries[ip].banUntil > now ::
      ip.address := entries[ip].banUntil - now
  }

  function ActiveBans(entries: map<Ip, Record>, v6: bool, now: int): IpSet {
    ActiveAmong(entries, entries.Keys, v6, now)
  }

  /** Nothing but the flags of one family differs. */
  ghost predicate OnlyFlags(entries: map<Ip, Record>, entries': map<Ip, Record>, v6: bool) {
    && entries'.Keys == entries.Keys
    && forall ip :: ip in entries ==>
         && entries'[ip].(applied := entries[ip].applied) == entries[ip]
         && (ip.v6 != v6 ==> entries'[ip] == entries[ip])
  }

  /** Of all addresses only this one may be treated differently. */
  ghost predicate OthersBlockedAlike(k0: Kernel, k: Kernel, ip: nat) {
    forall other :: other != ip ==> (Blocks(k, other) <==> Blocks(k0, other))
  }

  class ScannerFirewallStore {
    const cfg: Settings
    const fw4: FamilyFirewall
    const fw6: FamilyFirewall
    var entries: map<Ip, Record>

    ghost predicate Valid() {
      fw4 != fw6 && !fw4.v6 && fw6.v6
    }

    ghost function View(): Store
      reads this, fw4, fw6
    {
      Store(entries, fw4.k, fw6.k)
    }

    constructor (cfg: Settings, fw4: FamilyFirewall, fw6: FamilyFirewall)
      requires !fw4.v6 && fw6.v6
      ensures Valid() && this.cfg == cfg && this.fw4 == fw4 && this.fw6 == fw6 && entries == map[]
    {
      this.cfg, this.fw4, this.fw6, entries := cfg, fw4, fw6, map[];
    }

    function Firewall(v6: bool): FamilyFirewall { if v6 then fw6 else fw4 }

    /******* One address *******/

    method RecordAttempt(ip: Ip, window: nat, now: int) returns (count: nat)
      modifies this`entries
      ensures Next(old(View()), Tried(ip, now, window), cfg, View())
      ensures count == |entries[ip].recent|
    {
      ghost var before, record := entries, RecordAt(entries, ip);
      var attempts := PruneAttempts(ip, window, now);
      ghost var pruned := record.(recent := attempts);
      attempts := attempts + [now];
      PutTwice(before, ip, pruned, pruned.(recent := attempts));
      entries := entries[ip := entries[ip].(recent := attempts)];
      count := |attempts|;
    }

    /** The attempts at or after the cutoff, in order; the record keeps just these. */
    method PruneAttempts(ip: Ip, window: nat, now: int) returns (attempts: seq<int>)
      modifies this`entries
      ensures attempts == Recent(RecordAt(old(entries), ip).recent, now - window)
      ensures entries == old(entries)[ip := RecordAt(old(entries), ip).(recent := attempts)]
    {
      var record := RecordAt(entries, ip);
      attempts := [];
      for i := 0 to |record.recent|
        invariant attempts == Recent(record.recent[..i], now - window)
      {
        assert record.recent[..i + 1][..i] == record.recent[..i];
        if record.recent[i] >= now - window {
          attempts := attempts + [record.recent[i]];
        }
      }
      assert record.recent[..|record.recent|] == record.recent;
      entries := entries[ip := record.(recent := attempts)];
    }

    /** A ban refused by the grace period changes nothing; one that reports the firewall really blocks. */
    method RegisterBan(ip: Ip, shortSeconds: int, now: int) returns (banned: bool, applied: bool)
      requires Valid()
      modifies this`entries, fw4, fw6
      ensures Next(old(View()), BanAsked(ip, shortSeconds, now, applied), cfg, View())
      ensures banned == (RecordAt(old(entries), ip).graceUntil <= now)
      ensures banned ==>
        entries == old(entries)[ip := Step(RecordAt(old(entries), ip), Ban(now, shortSeconds, applied), cfg)]
      ensures !banned ==> entries == old(entries)[ip := RecordAt(old(entries), ip)] && !applied
      ensures applied ==>
        && Blocks(Firewall(ip.v6).k, ip.address)
        && Has(Firewall(ip.v6).k.live, ip.address)
        && Firewall(ip.v6).k.live.value[ip.address] == entries[ip].banUntil - now
      ensures banned && Firewall(ip.v6).AllWork() ==> applied
      ensures forall other :: Blocks(old(Firewall(ip.v6).k), other) ==> Blocks(Firewall(ip.v6).k, other)
      ensures Firewall(!ip.v6).k == old(Firewall(!ip.v6).k)
    {
      var record := RecordAt(entries, ip);
      if record.graceUntil > now {
        entries := entries[ip := record];
        return false, false;
      }
      var strikes := record.strikes + 1;
      var longTerm := strikes >= cfg.strikesForYear;
      var seconds: int := if longTerm then cfg.yearBanSeconds else if 60 < shortSeconds then shortSeconds else 60;
      applied := Firewall(ip.v6).Add(ip.address, seconds);
      var events := record.events + [BanEvent(now, seconds, strikes, longTerm, applied)];
      if |events| > KEPT_EVENTS {
        events := events[|events| - KEPT_EVENTS..];
      }
      entries := entries[ip := Record(strikes, now + seconds, longTerm, [], None, record.graceUntil, applied, events)];
      banned := true;
    }

    method IsBanned(ip: Ip, now: int) returns (banned: bool)
      requires Valid()
      modifies this`entries, fw4, fw6
      ensures
        var (live, legacy) := old(Firewall(ip.v6).Removals());
        Next(old(View()), Checked(ip, now, live, legacy), cfg, View())
      ensures banned == (RecordAt(old(entries), ip).banUntil > now && ip in old(entries))
      ensures entries ==
        if ip in old(entries) then old(entries)[ip := Step(old(entries)[ip], Check(now), cfg)] else old(entries)
      ensures OthersBlockedAlike(old(Firewall(ip.v6).k), Firewall(ip.v6).k, ip.address)
      ensures banned || RecordAt(old(entries), ip).banUntil <= 0 ==> Firewall(ip.v6).k == old(Firewall(ip.v6).k)
      // An expired ban leaves the firewall, unless a command fails.
      ensures !banned && RecordAt(old(entries), ip).banUntil > 0 && Firewall(ip.v6).AllWork() ==>
        !Blocks(Firewall(ip.v6).k, ip.address)
      ensures Firewall(!ip.v6).k == old(Firewall(!ip.v6).k)
    {
      if ip !in entries {
        return false;
      }
      var record := entries[ip];
      if record.banUntil > now {
        return true;
      }
      if record.banUntil > 0 {
        entries := entries[ip := record.(banUntil := 0, applied := false)];
        var _ := Firewall(ip.v6).Remove(ip.address);
      }
      return false;
    }

    method UnbanIp(ip: Ip, clearStrikes: bool, graceSeconds: Option<int>, now: int) returns (ok: bool)
      requires Valid()
      modifies this`entries, fw4, fw6
      ensures
        var (live, legacy) := old(Firewall(ip.v6).Removals());
        && ok == (live && legacy)
        && Next(old(View()), Unbanned(ip, now, graceSeconds, clearStrikes, live, legacy), cfg, View())
      // The grace lasts for the seconds asked for, or else configured, and at least a minute.
      ensures ok ==>
        var asked: int := if graceSeconds.Some? then graceSeconds.value else cfg.unbanGraceSeconds;
        ip in entries && entries[ip].graceUntil == now + (if asked < 60 then 60 else asked)
      ensures ok ==> !Blocks(Firewall(ip.v6).k, ip.address)
      ensures Firewall(ip.v6).AllWork() ==> ok
      ensures OthersBlockedAlike(old(Firewall(ip.v6).k), Firewall(ip.v6).k, ip.address)
      ensures Firewall(!ip.v6).k == old(Firewall(!ip.v6).k)
    {
      var grace: int := if graceSeconds.Some? then graceSeconds.value else cfg.unbanGraceSeconds;
      var graceUntil := now + if 60 < grace then grace else 60;
      ok := Firewall(ip.v6).Remove(ip.address);
      if ok {
        var record := RecordAt(entries, ip);
        record := record.(banUntil := 0, longTerm := false, recent := [], since := None, graceUntil := graceUntil,
          applied := false);
        if clearStrikes {
          record := record.(strikes := 0, events := []);
        }
        entries := entries[ip := record];
      }
    }

    method ReleaseFirewallOnly(ip: Ip, now: int) returns (ok: bool)
      requires Valid()
      modifies this`entries, fw4, fw6
      ensures
        var (live, legacy) := old(Firewall(ip.v6).Removals());
        && ok == (live && legacy)
        && Next(old(View()), Released(ip, now, live, legacy), cfg, View())
      ensures ok ==> !Blocks(Firewall(ip.v6).k, ip.address)
      ensures Firewall(ip.v6).AllWork() ==> ok
      ensures OthersBlockedAlike(old(Firewall(ip.v6).k), Firewall(ip.v6).k, ip.address)
      ensures Firewall(!ip.v6).k == old(Firewall(!ip.v6).k)
    {
      ok := Firewall(ip.v6).Remove(ip.address);
      if ok && ip in entries {
        entries := entries[ip := entries[ip].(banUntil := 0, longTerm := false, recent := [], since := None,
          applied := false)];
      }
    }

    /******* Synchronisation *******/

    /** The first loop over the records of one family: expired flags are lowered, active bans are listed. */
    method CollectActive(v6: bool, now: int) returns (active: set<Ip>, list: seq<(nat, nat)>)
      modifies this`entries
      ensures active == ActiveIps(old(entries), v6, now)
      ensures SetFromEntries(list) == ActiveBans(old(entries), v6, now)
      ensures FlagsSet(old(entries), entries, OfFamily(old(entries).Keys, v6) - active, {})
    {
      active, list := {}, [];
      ghost var e0 := entries;
      var left := entries.Keys;
      while left != {}
        invariant left <= e0.Keys
        invariant Collected(e0, entries, e0.Keys - left, v6, now, active, list)
      {
        var ip :| ip in left;
        assert e0.Keys - left + {ip} == e0.Keys - (left - {ip});
        active, list := CollectRecord(ip, v6, now, active, list, e0, e0.Keys - left);
        left := left - {ip};
      }
      assert e0.Keys - left == e0.Keys;
    }

    /** The body of that loop, for one record. */
    method CollectRecord(
      ip: Ip, v6: bool, now: int, active: set<Ip>, list: seq<(nat, nat)>, ghost e0: map<Ip, Record>, ghost seen: set<Ip>
    )
      returns (active': set<Ip>, list': seq<(nat, nat)>)
      requires Collected(e0, entries, seen, v6, now, active, list) && ip in entries && ip !in seen
      modifies this`entries
      ensures Collected(e0, entries, seen + {ip}, v6, now, active', list')
    {
      active', list' := active, list;
      if ip.v6 != v6 {
        CollectOther(e0, entries, seen, v6, now, active, list, ip);
      } else if entries[ip].banUntil <= now {
        CollectExpired(e0, entries, seen, v6, now, active, list, ip);
        entries := entries[ip := entries[ip].(applied := false)];
      } else {
        CollectBan(e0, entries, seen, v6, now, active, list, ip);
        active', list' := active + {ip}, list + [(ip.address, entries[ip].banUntil - now)];
      }
    }

    /** The second loop: after a success every active ban is flagged, otherwise each is asked of the firewall. */
    method FlagActive(
      fw: FamilyFirewall, active: set<Ip>, familyOk: bool, ghost e0: map<Ip, Record>, ghost done: set<Ip>
    )
      returns (ghost flagged: set<Ip>)
      requires FlagsSet(e0, entries, done, {}) && active !! done && active <= e0.Keys
      requires familyOk ==> forall ip :: ip in active ==> Blocks(fw.k, ip.address)
      modifies this`entries, fw
      ensures FlagsSet(e0, entries, done + active, flagged)
      ensures flagged <= active && (familyOk ==> flagged == active)
      ensures forall ip :: ip in flagged ==> Blocks(fw.k, ip.address)
      ensures fw.k == old(fw.k) && old(fw.trace) <= fw.trace
      ensures forall i :: |old(fw.trace)| <= i < |fw.trace| ==> fw.trace[i] == fw.k
    {
      flagged := {};
      var left := active;
      while left != {}
        invariant left <= active && flagged <= active - left
        invariant FlagsSet(e0, entries, done + (active - left), flagged)
        invariant familyOk ==> flagged == active - left
        invariant forall ip :: ip in flagged ==> Blocks(fw.k, ip.address)
        invariant fw.k == old(fw.k) && old(fw.trace) <= fw.trace
        invariant forall j :: |old(fw.trace)| <= j < |fw.trace| ==> fw.trace[j] == fw.k
      {
        var ip :| ip in left;
        var applied := familyOk;
        if !familyOk {
          applied := fw.Contains(ip.address);
        }
        FlagsSetOneMore(e0, entries, done + (active - left), flagged, ip, applied);
        assert done + (active - left) + {ip} == done + (active - (left - {ip}));
        left := left - {ip};
        entries := entries[ip := entries[ip].(applied := applied)];
        flagged := if applied then flagged + {ip} else flagged;
      }
    }

    /**
     One family of sync_firewall_from_store. At every command, whether the sync succeeds or fails, an address that was
     blocked before and still has an active ban stays blocked; after success the live set is exactly the active bans;
     and a raised flag always means a real block.
     */
    method SyncFamily(fw: FamilyFirewall, v6: bool, now: int) returns (ok: bool)
      modifies this`entries, fw
      ensures OnlyFlags(old(entries), entries, v6)
      ensures old(fw.trace) <= fw.trace
      ensures GapFree(old(fw.k), fw.trace, |old(fw.trace)|, ActiveBans(old(entries), v6, now).Keys)
      ensures FlagsTrue(entries, v6, fw.k)
      ensures ok ==>
        && fw.k.live == Some(ActiveBans(old(entries), v6, now))
        && fw.k.legacy.None?
        && FlagsExact(entries, v6, now)
      ensures fw.AllWork() && old(fw.k).legacyRules <= 32 && old(fw.k).strayRules <= (if fw.v6 then 32 else 0) ==> ok
    {
      ghost var e0, bans, k0, t0 := entries, ActiveBans(entries, v6, now), fw.k, fw.trace;
      var ready := fw.EnsureInfrastructure();
      ghost var k1, t1 := fw.k, fw.trace;
      assert KeepsBlocked(k0, k1, bans.Keys) && GapFree(k0, t1, |t0|, bans.Keys);
      var active, list := CollectActive(v6, now);
      ok := RefreshLive(fw, ready, list);
      ghost var k2, t2 := fw.k, fw.trace;
      GapFreeThen(k0, k1, t1, t2, |t0|, bans.Keys);
      assert KeepsBlocked(k0, k2, bans.Keys);
      ActiveAddresses(e0, v6, now);
      ghost var flagged := FlagActive(fw, active, ok, e0, OfFamily(e0.Keys, v6) - active);
      ghost var t3 := fw.trace;
      GapFreeThen(k0, k2, t2, t3, |t0|, bans.Keys);
      if ok {
        ok := fw.RemoveLegacyFamily(bans.Keys);
        CarriedIsGapFree(k0, t3, fw.trace, |t0|, bans.Keys);
      }
      FlagsSettled(e0, entries, v6, now, active, flagged, fw.k);
    }

    /** The sync of the live set, run only when the infrastructure is there. */
    method RefreshLive(fw: FamilyFirewall, ready: bool, list: seq<(nat, nat)>) returns (ok: bool)
      requires ready ==> fw.k.live.Some? && fw.k.liveRules > 0
      modifies fw
      ensures old(fw.trace) <= fw.trace
      ensures KeepsBlocked(old(fw.k), fw.k, SetFromEntries(list).Keys)
      ensures GapFree(old(fw.k), fw.trace, |old(fw.trace)|, SetFromEntries(list).Keys)
      ensures ok ==> fw.k.live == Some(SetFromEntries(list)) && fw.k.liveRules > 0
      ensures ready && fw.AllWork() ==> ok
      ensures fw.k.legacyRules == old(fw.k).legacyRules && fw.k.strayRules == old(fw.k).strayRules
    {
      ok := false;
      if ready {
        ok := fw.SyncFamilyIpset(list);
      }
    }

    method SyncFirewallFromStore(now: int) returns (ok: bool)
      requires Valid()
      modifies this`entries, fw4, fw6
      ensures old(fw4.trace) <= fw4.trace && old(fw6.trace) <= fw6.trace
      ensures GapFree(old(fw4.k), fw4.trace, |old(fw4.trace)|, ActiveBans(old(entries), false, now).Keys)
      ensures GapFree(old(fw6.k), fw6.trace, |old(fw6.trace)|, ActiveBans(old(entries), true, now).Keys)
      ensures Next(old(View()), Synced(now), cfg, View())
      ensures ok ==>
        && fw4.k.live == Some(ActiveBans(old(entries), false, now)) && fw4.k.legacy.None?
        && fw6.k.live == Some(ActiveBans(old(entries), true, now)) && fw6.k.legacy.None?
        && FlagsExact(entries, false, now) && FlagsExact(entries, true, now)
      ensures
        && fw4.AllWork() && old(fw4.k).legacyRules <= 32 && old(fw4.k).strayRules == 0
        && fw6.AllWork() && old(fw6.k).legacyRules <= 32 && old(fw6.k).strayRules <= 32
        ==> ok
    {
      var ok4 := SyncFamily(fw4, false, now);
      OtherFamilyKept(old(entries), entries, now);
      ghost var between := entries;
      var ok6 := SyncFamily(fw6, true, now);
      FlagsCarryOver(between, entries, fw4.k, now);
      ok := ok4 && ok6;
    }
  }

  /******* Flags *******/

  function OfFamily(ips: set<Ip>, v6: bool): set<Ip> {
    set ip | ip in ips && ip.v6 == v6
  }

  ghost function ActiveIps(entries: map<Ip, Record>, v6: bool, now: int): set<Ip> {
    set ip | ip in entries && ip.v6 == v6 && entries[ip].banUntil > now
  }

  /** The records are the old ones with the flags of these addresses set, up for the flagged and down for the rest. */
  ghost predicate FlagsSet(e0: map<Ip, Record>, e: map<Ip, Record>, done: set<Ip>, flagged: set<Ip>) {
    && e.Keys == e0.Keys
    && forall ip :: ip in e ==> e[ip] == if ip in done then e0[ip].(applied := ip in flagged) else e0[ip]
  }

  /** After a successful sync a flag is up exactly for the active bans. */
  ghost predicate FlagsExact(entries: map<Ip, Record>, v6: bool, now: int) {
    forall ip :: ip in entries && ip.v6 == v6 ==> (entries[ip].applied <==> entries[ip].banUntil > now)
  }

  lemma FlagsSetOneMore(e0: map<Ip, Record>, e: map<Ip, Record>, done: set<Ip>, flagged: set<Ip>, ip: Ip, value: bool)
    requires FlagsSet(e0, e, done, flagged) && ip in e0 && ip !in done && flagged <= done
    ensures FlagsSet(e0, e[ip := e[ip].(applied := value)], done + {ip}, if value then flagged + {ip} else flagged)
  {
  }

  /** How far the first loop has come. */
  ghost predicate Collected(
    e0: map<Ip, Record>, e: map<Ip, Record>, seen: set<Ip>, v6: bool, now: int, active: set<Ip>, list: seq<(nat, nat)>
  ) {
    && active == ActiveIps(e0, v6, now) * seen
    && SetFromEntries(list) == ActiveAmong(e0, seen, v6, now)
    && FlagsSet(e0, e, OfFamily(seen, v6) - active, {})
  }

  /** An address of the other family, or one without an active ban, adds nothing to the list. */
  lemma NothingToCollect(entries: map<Ip, Record>, seen: set<Ip>, v6: bool, now: int, ip: Ip)
    requires ip in entries && (ip.v6 != v6 || entries[ip].banUntil <= now)
    ensures ActiveAmong(entries, seen + {ip}, v6, now) == ActiveAmong(entries, seen, v6, now)
    ensures ActiveIps(entries, v6, now) * (seen + {ip}) == ActiveIps(entries, v6, now) * seen
  {
  }

  lemma CollectOther(
    e0: map<Ip, Record>, e: map<Ip, Record>, seen: set<Ip>, v6: bool, now: int, active: set<Ip>, list: seq<(nat, nat)>,
    ip: Ip
  )
    requires Collected(e0, e, seen, v6, now, active, list) && ip in e && ip.v6 != v6
    ensures Collected(e0, e, seen + {ip}, v6, now, active, list)
  {
    NothingToCollect(e0, seen, v6, now, ip);
    assert OfFamily(seen + {ip}, v6) == OfFamily(seen, v6);
  }

  lemma CollectExpired(
    e0: map<Ip, Record>, e: map<Ip, Record>, seen: set<Ip>, v6: bool, now: int, active: set<Ip>, list: seq<(nat, nat)>,
    ip: Ip
  )
    requires Collected(e0, e, seen, v6, now, active, list) && ip in e && ip !in seen && ip.v6 == v6
    requires e[ip].banUntil <= now
    ensures Collected(e0, e[ip := e[ip].(applied := false)], seen + {ip}, v6, now, active, list)
  {
    NothingToCollect(e0, seen, v6, now, ip);
    assert OfFamily(seen + {ip}, v6) - active == OfFamily(seen, v6) - active + {ip};
    FlagsSetOneMore(e0, e, OfFamily(seen, v6) - active, {}, ip, false);
  }

  lemma CollectBan(
    e0: map<Ip, Record>, e: map<Ip, Record>, seen: set<Ip>, v6: bool, now: int, active: set<Ip>, list: seq<(nat, nat)>,
    ip: Ip
  )
    requires Collected(e0, e, seen, v6, now, active, list) && ip in e && ip !in seen && ip.v6 == v6
    requires e[ip].banUntil > now
    ensures Collected(e0, e, seen + {ip}, v6, now, active + {ip}, list + [(ip.address, e[ip].banUntil - now)])
  {
    var item := (ip.address, e0[ip].banUntil - now);
    AmongOneMore(e0, seen, v6, now, ip);
    assert (list + [item])[..|list|] == list;
    assert ActiveIps(e0, v6, now) * (seen + {ip}) == active + {ip};
    assert OfFamily(seen + {ip}, v6) - (active + {ip}) == OfFamily(seen, v6) - active;
  }

  lemma ActiveAddresses(entries: map<Ip, Record>, v6: bool, now: int)
    ensures forall ip :: ip in ActiveIps(entries, v6, now) ==> ip.address in ActiveBans(entries, v6, now)
  {
  }

  lemma CarriedIsGapFree(k0: Kernel, before: seq<Kernel>, trace: seq<Kernel>, from: nat, ips: set<nat>)
    requires GapFree(k0, before, from, ips) && before <= trace
    requires forall i :: |before| <= i < |trace| ==> Carries(trace[i], ips)
    ensures GapFree(k0, trace, from, ips)
  {
    forall i | from <= i < |trace| ensures KeepsBlocked(k0, trace[i], ips) {
      if i < |before| {
        assert trace[i] == before[i];
      }
    }
  }

  lemma AmongOneMore(entries: map<Ip, Record>, seen: set<Ip>, v6: bool, now: int, ip: Ip)
    requires ip in entries && ip.v6 == v6 && entries[ip].banUntil > now
    ensures ActiveAmong(entries, seen + {ip}, v6, now) ==
      ActiveAmong(entries, seen, v6, now)[ip.address := entries[ip].banUntil - now]
  {
    assert forall other: Ip :: other.v6 == ip.v6 && other.address == ip.address ==> other == ip;
  }

  lemma FlagsSettled(
    e0: map<Ip, Record>, e: map<Ip, Record>, v6: bool, now: int, active: set<Ip>, flagged: set<Ip>, k: Kernel
  )
    requires FlagsSet(e0, e, OfFamily(e0.Keys, v6) - active + active, flagged)
    requires active == ActiveIps(e0, v6, now) && flagged <= active
    requires forall ip :: ip in flagged ==> Blocks(k, ip.address)
    ensures OnlyFlags(e0, e, v6) && FlagsTrue(e, v6, k)
    ensures flagged == active ==> FlagsExact(e, v6, now)
  {
  }

  lemma OtherFamilyKept(e0: map<Ip, Record>, e: map<Ip, Record>, now: int)
    requires OnlyFlags(e0, e, false)
    ensures ActiveBans(e, true, now) == ActiveBans(e0, true, now) && SameButFlags(e0, e)
  {
  }

  lemma FlagsCarryOver(e0: map<Ip, Record>, e: map<Ip, Record>, k: Kernel, now: int)
    requires OnlyFlags(e0, e, true)
    ensures FlagsTrue(e0, false, k) ==> FlagsTrue(e, false, k)
    ensures FlagsExact(e0, false, now) ==> FlagsExact(e, false, now)
  {
  }
}
