/**
 Whole runs of the scanner ban store (scanner_firewall_store.py): the records of all addresses, the two families of the
 firewall, and when the flag of a record tells the truth.
 */
module ScannerRuns {
  import opened Options
  import opened ScannerRecords
  import opened ScannerFirewall

  datatype Ip = Ip(v6: bool, address: nat)

  datatype Store = Store(entries: map<Ip, Record>, k4: Kernel, k6: Kernel)

  function KernelOf(s: Store, v6: bool): Kernel { if v6 then s.k6 else s.k4 }

  function WithKernel(s: Store, v6: bool, k: Kernel): Store { if v6 then s.(k6 := k) else s.(k4 := k) }

  function RecordAt(entries: map<Ip, Record>, ip: Ip): Record {
    if ip in entries then entries[ip] else NEW_RECORD
  }

  /**
   One call; for a removal, whether the address is out of the live and of the legacy set as far as the code can tell.
   */
  datatype Op =
    | Tried(ip: Ip, now: int, window: nat)
    | BanAsked(ip: Ip, shortSeconds: int, now: int, applied: bool)
    | Checked(ip: Ip, now: int, live: bool, legacy: bool)
    | Unbanned(ip: Ip, now: int, graceSeconds: Option<int>, clearStrikes: bool, live: bool, legacy: bool)
    | Released(ip: Ip, now: int, live: bool, legacy: bool)
    | Synced(now: int)

  /** The flag is set only for addresses that are really blocked. */
  ghost predicate FlagsTrue(entries: map<Ip, Record>, v6: bool, k: Kernel) {
    forall ip :: ip in entries && ip.v6 == v6 && entries[ip].applied ==> Blocks(k, ip.address)
  }

  ghost predicate Truthful(s: Store) { FlagsTrue(s.entries, false, s.k4) && FlagsTrue(s.entries, true, s.k6) }

  ghost predicate SameButFlags(e0: map<Ip, Record>, e: map<Ip, Record>) {
    && e.Keys == e0.Keys
    && forall ip :: ip in e ==> e[ip].(applied := e0[ip].applied) == e0[ip]
  }

  function Stepped(s: Store, ip: Ip, e: Event, cfg: Settings): map<Ip, Record> {
    s.entries[ip := Step(RecordAt(s.entries, ip), e, cfg)]
  }

  function KernelWithout(s: Store, ip: Ip, live: bool, legacy: bool): Store {
    WithKernel(s, ip.v6, Removed(KernelOf(s, ip.v6), ip.address, live, legacy))
  }

  ghost predicate Next(s: Store, op: Op, cfg: Settings, s': Store) {
    match op
    case Tried(ip, now, window) => s' == s.(entries := Stepped(s, ip, Attempt(now, window), cfg))
    case BanAsked(ip, shortSeconds, now, applied) => BanNext(s, ip, shortSeconds, now, applied, cfg, s')
    case Checked(ip, now, live, legacy) =>
      if ip in s.entries && 0 < s.entries[ip].banUntil <= now
      then s' == KernelWithout(s, ip, live, legacy).(entries := Stepped(s, ip, Check(now), cfg))
      else s' == s
    case Unbanned(ip, now, graceSeconds, clearStrikes, live, legacy) =>
      s' == KernelWithout(s, ip, live, legacy).(
        entries := if live && legacy then Stepped(s, ip, Unban(now, graceSeconds, clearStrikes), cfg) else s.entries)
    case Released(ip, now, live, legacy) =>
      s' == KernelWithout(s, ip, live, legacy).(
        entries := if live && legacy && ip in s.entries then Stepped(s, ip, Release(now), cfg) else s.entries)
    case Synced(now) => SameButFlags(s.entries, s'.entries) && Truthful(s')
  }

  /**
   A ban refused by the grace period only makes the record; another one is applied or not, and lets nobody through.
   */
  ghost predicate BanNext(s: Store, ip: Ip, shortSeconds: int, now: int, applied: bool, cfg: Settings, s': Store) {
    if RecordAt(s.entries, ip).graceUntil > now
    then !applied && s' == s.(entries := s.entries[ip := RecordAt(s.entries, ip)])
    else
      && s'.entries == Stepped(s, ip, Ban(now, shortSeconds, applied), cfg)
      && (applied ==> Blocks(KernelOf(s', ip.v6), ip.address))
      && (forall other :: Blocks(KernelOf(s, ip.v6), other) ==> Blocks(KernelOf(s', ip.v6), other))
      && KernelOf(s', !ip.v6) == KernelOf(s, !ip.v6)
  }

  /**
   A removal that failed although the set that blocked its flagged address let it go: the record keeps the flag, and
   nothing blocks the address any more.
   */
  ghost predicate LeavesFlag(s: Store, op: Op) {
    && (op.Unbanned? || op.Released?) && !(op.live && op.legacy)
    && op.ip in s.entries && s.entries[op.ip].applied
    && var k := KernelOf(s, op.ip.v6);
       && (Has(k.live, op.ip.address) && k.liveRules > 0 ==> op.live)
       && (Has(k.legacy, op.ip.address) && k.legacyRules > 0 ==> op.legacy)
  }

  lemma RemovedBlocks(k: Kernel, ip: nat, live: bool, legacy: bool)
    ensures forall other :: other != ip ==> (Blocks(Removed(k, ip, live, legacy), other) <==> Blocks(k, other))
    ensures Blocks(Removed(k, ip, live, legacy), ip) <==>
      (!live && Has(k.live, ip) && k.liveRules > 0) || (!legacy && Has(k.legacy, ip) && k.legacyRules > 0)
  {
  }

  /** The flag of one address that a removal does not concern, or concerns. */
  lemma RemovalFlags(s: Store, ip: Ip, live: bool, legacy: bool, entries: map<Ip, Record>)
    requires Truthful(s)
    requires forall other :: other in entries && other != ip ==>
      other in s.entries && entries[other] == s.entries[other]
    ensures
      var s' := KernelWithout(s, ip, live, legacy).(entries := entries);
      Truthful(s') <==> !(ip in entries && entries[ip].applied) || Blocks(KernelOf(s', ip.v6), ip.address)
  {
    RemovedBlocks(KernelOf(s, ip.v6), ip.address, live, legacy);
    assert forall other: Ip :: other.v6 == ip.v6 && other != ip ==> other.address != ip.address;
  }

  /** A call keeps every flag true exactly unless it is such a removal. */
  lemma StepTruthfulIff(s: Store, op: Op, cfg: Settings, s': Store)
    requires Truthful(s) && Next(s, op, cfg, s')
    ensures Truthful(s') <==> !LeavesFlag(s, op)
  {
    match op {
      case Tried(ip, now, window) =>
      case BanAsked(ip, shortSeconds, now, applied) => BanKeepsTruth(s, ip, shortSeconds, now, applied, cfg, s');
      case Checked(ip, now, live, legacy) =>
        RemovalFlags(s, ip, live, legacy, Stepped(s, ip, Check(now), cfg));
      case Unbanned(ip, _, _, _, live, legacy) => RemovalTruthfulIff(s, op, cfg, s');
      case Released(ip, _, live, legacy) => RemovalTruthfulIff(s, op, cfg, s');
      case Synced(_) =>
    }
  }

  lemma RemovalTruthfulIff(s: Store, op: Op, cfg: Settings, s': Store)
    requires Truthful(s) && Next(s, op, cfg, s') && (op.Unbanned? || op.Released?)
    ensures Truthful(s') <==> !LeavesFlag(s, op)
  {
    RemovalFlags(s, op.ip, op.live, op.legacy, s'.entries);
    RemovedBlocks(KernelOf(s, op.ip.v6), op.ip.address, op.live, op.legacy);
  }

  lemma BanKeepsTruth(s: Store, ip: Ip, shortSeconds: int, now: int, applied: bool, cfg: Settings, s': Store)
    requires Truthful(s) && BanNext(s, ip, shortSeconds, now, applied, cfg, s')
    ensures Truthful(s')
  {
    forall other | other in s'.entries && s'.entries[other].applied
      ensures Blocks(KernelOf(s', other.v6), other.address)
    {
      if other != ip || RecordAt(s.entries, ip).graceUntil > now {
        assert other in s.entries && s.entries[other].applied;
        assert Blocks(KernelOf(s, other.v6), other.address);
      }
    }
    TruthfulEach(s');
  }

  lemma TruthfulEach(s: Store)
    ensures Truthful(s) <==>
      forall ip :: ip in s.entries && s.entries[ip].applied ==> Blocks(KernelOf(s, ip.v6), ip.address)
  {
    if forall ip :: ip in s.entries && s.entries[ip].applied ==> Blocks(KernelOf(s, ip.v6), ip.address) {
      forall ip | ip in s.entries && s.entries[ip].applied ensures Blocks(if ip.v6 then s.k6 else s.k4, ip.address) {
        assert Blocks(KernelOf(s, ip.v6), ip.address);
      }
    }
  }

  /******* Runs *******/

  datatype Run = Run(states: seq<Store>, ops: seq<Op>)

  ghost predicate IsRun(run: Run, cfg: Settings) {
    && |run.states| == |run.ops| + 1
    && Truthful(run.states[0])
    && forall i :: 0 <= i < |run.ops| ==> StepAt(run, cfg, i)
  }

  ghost predicate StepAt(run: Run, cfg: Settings, i: int)
    requires 0 <= i < |run.ops| && |run.states| == |run.ops| + 1
  {
    Next(run.states[i], run.ops[i], cfg, run.states[i + 1])
  }

  lemma {:induction false} NoFlagLeft(run: Run, cfg: Settings, i: nat)
    requires IsRun(run, cfg) && i < |run.states|
    requires forall k :: 0 <= k < i ==> !LeavesFlag(run.states[k], run.ops[k])
    ensures Truthful(run.states[i])
  {
    if i > 0 {
      NoFlagLeft(run, cfg, i - 1);
      assert StepAt(run, cfg, i - 1);
      StepTruthfulIff(run.states[i - 1], run.ops[i - 1], cfg, run.states[i]);
    }
  }

  ghost predicate AlwaysTruthful(run: Run) { forall i :: 0 <= i < |run.states| ==> Truthful(run.states[i]) }

  /**
   In every state of a run every raised flag means a real block exactly when no call of the run leaves a flag behind.
   */
  lemma RunTruthfulIff(run: Run, cfg: Settings)
    requires IsRun(run, cfg)
    ensures AlwaysTruthful(run) <==> forall i :: 0 <= i < |run.ops| ==> !LeavesFlag(run.states[i], run.ops[i])
  {
    if AlwaysTruthful(run) {
      forall i | 0 <= i < |run.ops| ensures !LeavesFlag(run.states[i], run.ops[i]) {
        assert StepAt(run, cfg, i);
        StepTruthfulIff(run.states[i], run.ops[i], cfg, run.states[i + 1]);
      }
    } else if forall i :: 0 <= i < |run.ops| ==> !LeavesFlag(run.states[i], run.ops[i]) {
      forall i: nat | i < |run.states| ensures Truthful(run.states[i]) {
        NoFlagLeft(run, cfg, i);
      }
    }
  }

  /** Whatever was left behind, the next synchronisation tells the truth again, successful or not. */
  lemma SyncHeals(s: Store, now: int, cfg: Settings, s': Store)
    requires Next(s, Synced(now), cfg, s')
    ensures Truthful(s')
  {
  }

  /** An unban whose live deletion works and whose look at the legacy set fails. */
  lemma UnbanLeavesFlag(cfg: Settings)
    ensures
      var ip := Ip(false, 7);
      var blocked := Kernel(Some(map[7 := 60]), None, None, 1, 0, 0);
      var s := Store(map[ip := NEW_RECORD.(banUntil := 60, applied := true)], blocked,
        Kernel(None, None, None, 0, 0, 0));
      var s' := KernelWithout(s, ip, true, false);
      && Truthful(s) && Next(s, Unbanned(ip, 0, None, true, true, false), cfg, s')
      && s'.entries[ip].applied && !Blocks(s'.k4, 7)
  {
    var blocked := Kernel(Some(map[7 := 60]), None, None, 1, 0, 0);
    RemovedBlocks(blocked, 7, true, false);
    assert Has(blocked.live, 7);
  }
}
