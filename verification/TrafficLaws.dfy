/**
 What holds of every history of traffic snapshots: conservation, activity, and the bound by the bytes really moved.
 */
module TrafficLaws {
  import opened TrafficModel

  datatype Direction = Received | Sent

  function AmountOf(e: Entry, d: Direction): nat { if d == Received then e.rx else e.tx }

  function TotalOf(s: Stat, d: Direction): int { if d == Received then s.rx else s.tx }

  function PartOf(s: Stat, n: Network, d: Direction): int {
    if d == Received then (if n == Vpn then s.rxVpn else s.rxAntizapret)
    else (if n == Vpn then s.txVpn else s.txAntizapret)
  }

  /******* Conservation *******/

  /** The stored samples of one client, protocol and network, in one direction. */
  function Sampled(samples: seq<Sample>, key: StatKey, n: Network, d: Direction): int {
    if samples == [] then 0
    else
      var s := samples[|samples| - 1];
      Sampled(samples[..|samples| - 1], key, n, d) +
      if (s.name, s.protocol) == key && s.network == n then (if d == Received then s.rx else s.tx) else 0
  }

  ghost predicate Balanced(stats: map<StatKey, Stat>, samples: seq<Sample>, key: StatKey, d: Direction) {
    var stat := StatAt(stats, key);
    && TotalOf(stat, d) == PartOf(stat, Vpn, d) + PartOf(stat, Antizapret, d)
    && PartOf(stat, Vpn, d) == Sampled(samples, key, Vpn, d)
    && PartOf(stat, Antizapret, d) == Sampled(samples, key, Antizapret, d)
  }

  lemma SampledOneMore(samples: seq<Sample>, e: Entry, key: StatKey, n: Network, d: Direction)
    ensures Sampled(samples + SampleOf(e), key, n, d) ==
      Sampled(samples, key, n, d) + if (e.name, e.protocol) == key && e.network == n then AmountOf(e, d) else 0
  {
    if e.rx > 0 || e.tx > 0 {
      assert (samples + SampleOf(e))[..|samples|] == samples;
    } else {
      assert samples + SampleOf(e) == samples;
    }
  }

  lemma OneEntryBalances(stats: map<StatKey, Stat>, samples: seq<Sample>, e: Entry, key: StatKey, d: Direction)
    requires Balanced(stats, samples, key, d)
    ensures Balanced(WithTotal(stats, e), samples + SampleOf(e), key, d)
  {
    SampledOneMore(samples, e, key, Vpn, d);
    SampledOneMore(samples, e, key, Antizapret, d);
  }

  lemma {:induction false} TotalsStayBalanced(
    stats: map<StatKey, Stat>, samples: seq<Sample>, entries: seq<Entry>, key: StatKey, d: Direction
  )
    requires Balanced(stats, samples, key, d)
    ensures Balanced(WithTotals(stats, entries), samples + SamplesOf(entries), key, d)
  {
    if entries == [] {
      assert samples + SamplesOf(entries) == samples;
    } else {
      var init, e := entries[..|entries| - 1], entries[|entries| - 1];
      TotalsStayBalanced(stats, samples, init, key, d);
      OneEntryBalances(WithTotals(stats, init), samples + SamplesOf(init), e, key, d);
      assert samples + SamplesOf(entries) == (samples + SamplesOf(init)) + SampleOf(e);
    }
  }

  /** The session rows that belong to one client and protocol. */
  ghost function RowsOf(sessions: map<string, Session>, key: StatKey): set<string> {
    set k | k in sessions && (sessions[k].commonName, ProtocolOf(sessions[k].profile)) == key
  }

  ghost predicate Counted(sessions: map<string, Session>, stats: map<StatKey, Stat>, key: StatKey) {
    StatAt(stats, key).sessions == |RowsOf(sessions, key)|
  }

  lemma {:induction false} ReadingKeys(sessions: map<string, Session>, firsts: seq<Observation>)
    ensures WithReadings(sessions, firsts).Keys == sessions.Keys + Keys(firsts)
  {
    if firsts != [] {
      var init, o := firsts[..|firsts| - 1], firsts[|firsts| - 1];
      ReadingKeys(sessions, init);
      KeysOneMore(init, o);
      assert firsts == init + [o];
    }
  }

  lemma {:induction false} ReadingsKeepOthers(sessions: map<string, Session>, firsts: seq<Observation>, key: string)
    requires key in sessions && key !in Keys(firsts)
    ensures key in WithReadings(sessions, firsts) && WithReadings(sessions, firsts)[key] == sessions[key]
  {
    if firsts != [] {
      var init, o := firsts[..|firsts| - 1], firsts[|firsts| - 1];
      assert firsts == init + [o];
      KeysOneMore(init, o);
      ReadingsKeepOthers(sessions, init, key);
    }
  }

  lemma LastKeyIsNew(firsts: seq<Observation>)
    requires firsts != [] && DistinctKeys(firsts)
    ensures firsts[|firsts| - 1].key !in Keys(firsts[..|firsts| - 1])
    ensures DistinctKeys(firsts[..|firsts| - 1])
  {
  }

  lemma OneRowCounted(
    sessions: map<string, Session>, before: map<string, Session>, stats: map<StatKey, Stat>, o: Observation,
    key: StatKey
  )
    requires o.key in sessions <==> o.key in before
    requires o.key in sessions ==> before[o.key] == sessions[o.key]
    requires Counted(before, stats, key)
    ensures Counted(before[o.key := Upserted(sessions, o)], WithTotal(stats, EntryOf(sessions, o)), key)
  {
    var after := before[o.key := Upserted(sessions, o)];
    if o.key !in sessions && StatKeyOf(o) == key {
      assert RowsOf(after, key) == RowsOf(before, key) + {o.key};
    } else {
      assert RowsOf(after, key) == RowsOf(before, key);
    }
  }

  lemma {:induction false} SessionsStayCounted(
    sessions: map<string, Session>, stats: map<StatKey, Stat>, firsts: seq<Observation>, key: StatKey
  )
    requires DistinctKeys(firsts) && Counted(sessions, stats, key)
    ensures Counted(WithReadings(sessions, firsts), WithTotals(stats, Entries(sessions, firsts)), key)
  {
    if firsts != [] {
      var init, o := firsts[..|firsts| - 1], firsts[|firsts| - 1];
      LastKeyIsNew(firsts);
      SessionsStayCounted(sessions, stats, init, key);
      EntriesOneMore(sessions, firsts);
      ReadingKeys(sessions, init);
      if o.key in sessions {
        ReadingsKeepOthers(sessions, init, o.key);
      }
      OneRowCounted(sessions, WithReadings(sessions, init), WithTotals(stats, Entries(sessions, init)), o, key);
    }
  }

  lemma EntriesOneMore(sessions: map<string, Session>, firsts: seq<Observation>)
    requires firsts != []
    ensures
      var entries := Entries(sessions, firsts);
      && |entries| == |firsts|
      && entries[..|entries| - 1] == Entries(sessions, firsts[..|firsts| - 1])
      && entries[|entries| - 1] == EntryOf(sessions, firsts[|firsts| - 1])
  {
  }

  lemma EndingKeepsRows(sessions: map<string, Session>, keys: set<string>, key: StatKey)
    ensures RowsOf(Ended(sessions, keys), key) == RowsOf(sessions, key)
  {
  }

  /**
   Conservation over any history from empty tables: in each direction a total is the sum of its two network parts,
   each part is the sum of the stored samples of its network, and total_sessions counts the session rows created.
   */
  lemma {:induction false} Conservation(history: seq<seq<StatusRow>>, key: StatKey, d: Direction)
    ensures Balanced(Replay(history).stats, Replay(history).samples, key, d)
    ensures Counted(Replay(history).sessions, Replay(history).stats, key)
  {
    if history == [] {
      assert RowsOf(map[], key) == {};
    } else {
      var before, rows := Replay(history[..|history| - 1]), history[|history| - 1];
      Conservation(history[..|history| - 1], key, d);
      var obs := Flatten(rows);
      FirstOnlyExact(obs);
      TotalsStayBalanced(before.stats, before.samples, Entries(before.sessions, FirstOnly(obs)), key, d);
      SessionsStayCounted(before.sessions, before.stats, FirstOnly(obs), key);
      EndingKeepsRows(WithReadings(before.sessions, FirstOnly(obs)), ActiveKeys(before.sessions) - Keys(obs), key);
    }
  }

  /******* Activity *******/

  lemma {:induction false} ReadingsActivate(sessions: map<string, Session>, firsts: seq<Observation>)
    ensures ActiveKeys(WithReadings(sessions, firsts)) == ActiveKeys(sessions) + Keys(firsts)
  {
    if firsts != [] {
      var init, o := firsts[..|firsts| - 1], firsts[|firsts| - 1];
      assert firsts == init + [o];
      KeysOneMore(init, o);
      ReadingsActivate(sessions, init);
      assert ActiveKeys(WithReadings(sessions, firsts)) == ActiveKeys(WithReadings(sessions, init)) + {o.key};
    }
  }

  lemma EndingDeactivates(sessions: map<string, Session>, keys: set<string>)
    ensures ActiveKeys(Ended(sessions, keys)) == ActiveKeys(sessions) - keys
  {
  }

  /** After a snapshot the active sessions are exactly the keys it saw, whatever was active before. */
  lemma ActiveIsSeen(db: Db, rows: seq<StatusRow>)
    ensures ActiveKeys(Snapshot(db, rows).sessions) == Keys(Flatten(rows))
  {
    FirstOnlyExact(Flatten(rows));
    var firsts := FirstOnly(Flatten(rows));
    ReadingsActivate(db.sessions, firsts);
    EndingDeactivates(WithReadings(db.sessions, firsts), ActiveKeys(db.sessions) - Keys(firsts));
  }

  /******* The ledger of a history *******/

  /** Every entry a history produced; totals, samples and per-session amounts are all read off it. */
  function Ledger(history: seq<seq<StatusRow>>): seq<Entry> {
    if history == [] then []
    else
      var init := history[..|history| - 1];
      Ledger(init) + Entries(Replay(init).sessions, FirstOnly(Flatten(history[|history| - 1])))
  }

  function ByStat(entries: seq<Entry>, key: StatKey, d: Direction): nat {
    if entries == [] then 0
    else
      var e := entries[|entries| - 1];
      ByStat(entries[..|entries| - 1], key, d) + if (e.name, e.protocol) == key then AmountOf(e, d) else 0
  }

  /** What was recorded for one session. */
  function BySession(entries: seq<Entry>, key: string, d: Direction): nat {
    if entries == [] then 0
    else
      var e := entries[|entries| - 1];
      BySession(entries[..|entries| - 1], key, d) + if e.key == key then AmountOf(e, d) else 0
  }

  lemma {:induction false} ByStatSplits(a: seq<Entry>, b: seq<Entry>, key: StatKey, d: Direction)
    ensures ByStat(a + b, key, d) == ByStat(a, key, d) + ByStat(b, key, d)
  {
    if b == [] {
      assert a + b == a;
    } else {
      assert (a + b)[..|a + b| - 1] == a + b[..|b| - 1];
      ByStatSplits(a, b[..|b| - 1], key, d);
    }
  }

  lemma {:induction false} BySessionSplits(a: seq<Entry>, b: seq<Entry>, key: string, d: Direction)
    ensures BySession(a + b, key, d) == BySession(a, key, d) + BySession(b, key, d)
  {
    if b == [] {
      assert a + b == a;
    } else {
      assert (a + b)[..|a + b| - 1] == a + b[..|b| - 1];
      BySessionSplits(a, b[..|b| - 1], key, d);
    }
  }

  lemma {:induction false} TotalsFromEntries(stats: map<StatKey, Stat>, entries: seq<Entry>, key: StatKey, d: Direction)
    ensures TotalOf(StatAt(WithTotals(stats, entries), key), d) ==
      TotalOf(StatAt(stats, key), d) + ByStat(entries, key, d)
  {
    if entries != [] {
      TotalsFromEntries(stats, entries[..|entries| - 1], key, d);
    }
  }

  /** A client's total is the sum, over all its sessions, of what was recorded for them. */
  lemma {:induction false} TotalsFromLedger(history: seq<seq<StatusRow>>, key: StatKey, d: Direction)
    ensures TotalOf(StatAt(Replay(history).stats, key), d) == ByStat(Ledger(history), key, d)
  {
    if history != [] {
      var init := history[..|history| - 1];
      TotalsFromLedger(init, key, d);
      var entries := Entries(Replay(init).sessions, FirstOnly(Flatten(history[|history| - 1])));
      TotalsFromEntries(Replay(init).stats, entries, key, d);
      ByStatSplits(Ledger(init), entries, key, d);
    }
  }

  /******* Which total and which part *******/

  /** Is this an observation of a client of this name, in a profile of this protocol and this network? */
  predicate Concerns(o: Observation, name: string, wireguard: bool, antizapret: bool) {
    && name == (if o.client.commonName == "" then "-" else o.client.commonName)
    && wireguard == (|o.profile| >= 3 && o.profile[|o.profile| - 3..] == "-wg")
    && antizapret == (|o.profile| >= 10 && o.profile[..10] == "antizapret")
  }

  function KeyOf(name: string, wireguard: bool): StatKey { (name, if wireguard then WireGuard else OpenVpn) }

  /** What one observation adds, to the total, the part and the sample that its name and profile say and to no other. */
  lemma BookedByProfile(
    sessions: map<string, Session>, stats: map<StatKey, Stat>, o: Observation, name: string, wireguard: bool,
    antizapret: bool, d: Direction
  )
    ensures
      var e, n := EntryOf(sessions, o), if antizapret then Antizapret else Vpn;
      var before, after := StatAt(stats, KeyOf(name, wireguard)), StatAt(WithTotal(stats, e), KeyOf(name, wireguard));
      && PartOf(after, n, d) == PartOf(before, n, d) +
        (if Concerns(o, name, wireguard, antizapret) then AmountOf(e, d) else 0)
      && Sampled(SampleOf(e), KeyOf(name, wireguard), n, d) ==
           (if Concerns(o, name, wireguard, antizapret) then AmountOf(e, d) else 0)
  {
    var e, n := EntryOf(sessions, o), if antizapret then Antizapret else Vpn;
    EntryConcerns(sessions, o, name, wireguard, antizapret);
    EntryBooked(stats, e, KeyOf(name, wireguard), n, d);
  }

  lemma EntryConcerns(sessions: map<string, Session>, o: Observation, name: string, wireguard: bool, antizapret: bool)
    ensures
      var e := EntryOf(sessions, o);
      Concerns(o, name, wireguard, antizapret) <==>
        (e.name, e.protocol) == KeyOf(name, wireguard) && e.network == if antizapret then Antizapret else Vpn
  {
    assert "antizapret" <= o.profile <==> |o.profile| >= 10 && o.profile[..10] == "antizapret";
  }

  lemma EntryBooked(stats: map<StatKey, Stat>, e: Entry, key: StatKey, n: Network, d: Direction)
    ensures
      var added := if (e.name, e.protocol) == key && e.network == n then AmountOf(e, d) else 0;
      && PartOf(StatAt(WithTotal(stats, e), key), n, d) == PartOf(StatAt(stats, key), n, d) + added
      && Sampled(SampleOf(e), key, n, d) == added
  {
    assert [] + SampleOf(e) == SampleOf(e);
    SampledOneMore([], e, key, n, d);
  }

  /** What a snapshot's observations of this kind add. */
  function BookedIn(
    sessions: map<string, Session>, firsts: seq<Observation>, name: string, wireguard: bool, antizapret: bool,
    d: Direction
  ): nat {
    if firsts == [] then 0
    else
      var o := firsts[|firsts| - 1];
      BookedIn(sessions, firsts[..|firsts| - 1], name, wireguard, antizapret, d) +
      if Concerns(o, name, wireguard, antizapret) then AmountOf(EntryOf(sessions, o), d) else 0
  }

  function Booked(history: seq<seq<StatusRow>>, name: string, wireguard: bool, antizapret: bool, d: Direction): nat {
    if history == [] then 0
    else
      var init := history[..|history| - 1];
      Booked(init, name, wireguard, antizapret, d) +
      BookedIn(Replay(init).sessions, FirstOnly(Flatten(history[|history| - 1])), name, wireguard, antizapret, d)
  }

  lemma {:induction false} SnapshotBooked(
    sessions: map<string, Session>, stats: map<StatKey, Stat>, firsts: seq<Observation>, name: string, wireguard: bool,
    antizapret: bool, d: Direction
  )
    ensures
      var n, key := if antizapret then Antizapret else Vpn, KeyOf(name, wireguard);
      PartOf(StatAt(WithTotals(stats, Entries(sessions, firsts)), key), n, d) ==
        PartOf(StatAt(stats, key), n, d) + BookedIn(sessions, firsts, name, wireguard, antizapret, d)
  {
    if firsts != [] {
      var init, o := firsts[..|firsts| - 1], firsts[|firsts| - 1];
      SnapshotBooked(sessions, stats, init, name, wireguard, antizapret, d);
      EntriesOneMore(sessions, firsts);
      BookedByProfile(sessions, WithTotals(stats, Entries(sessions, init)), o, name, wireguard, antizapret, d);
    }
  }

  /**
   Over any history each part of a client's total is the sum of what was recorded for the observations of its name whose
   profile begins, or does not begin, with "antizapret", and ends, or does not end, with "-wg".
   */
  lemma {:induction false} PartsByProfile(
    history: seq<seq<StatusRow>>, name: string, wireguard: bool, antizapret: bool, d: Direction
  )
    ensures
      PartOf(StatAt(Replay(history).stats, KeyOf(name, wireguard)), if antizapret then Antizapret else Vpn, d) ==
      Booked(history, name, wireguard, antizapret, d)
  {
    if history != [] {
      var init := history[..|history| - 1];
      PartsByProfile(init, name, wireguard, antizapret, d);
      SnapshotBooked(Replay(init).sessions, Replay(init).stats, FirstOnly(Flatten(history[|history| - 1])),
                     name, wireguard, antizapret, d);
    }
  }

  /******* Readings of one session *******/

  function WithKey(obs: seq<Observation>, key: string): seq<Observation> {
    if obs == [] then []
    else
      var o := obs[|obs| - 1];
      WithKey(obs[..|obs| - 1], key) + if o.key == key then [o] else []
  }

  /** The observations of one session over a history, one for each snapshot that saw it. */
  function SeenAs(history: seq<seq<StatusRow>>, key: string): seq<Observation> {
    if history == [] then []
    else SeenAs(history[..|history| - 1], key) + WithKey(FirstOnly(Flatten(history[|history| - 1])), key)
  }

  function Reading(o: Observation, d: Direction): int { if d == Received then o.client.rx else o.client.tx }

  function Readings(obs: seq<Observation>, d: Direction): seq<int> {
    seq(|obs|, i requires 0 <= i < |obs| => Reading(obs[i], d))
  }

  /** What the code records for a sequence of readings; a WireGuard counter starts as a baseline. */
  function Measured(readings: seq<int>, baseline: bool): nat {
    if readings == [] then 0
    else if |readings| == 1 then (if baseline then 0 else Max0(readings[0]))
    else Measured(readings[..|readings| - 1], baseline) + Delta(readings[|readings| - 1], readings[|readings| - 2])
  }

  function LastReading(s: Session, d: Direction): int { if d == Received then s.lastRx else s.lastTx }

  lemma {:induction false} WithKeyAbsent(obs: seq<Observation>, key: string)
    requires key !in Keys(obs)
    ensures WithKey(obs, key) == []
  {
    if obs != [] {
      assert obs == obs[..|obs| - 1] + [obs[|obs| - 1]];
      KeysOneMore(obs[..|obs| - 1], obs[|obs| - 1]);
      WithKeyAbsent(obs[..|obs| - 1], key);
    }
  }

  /** Within one snapshot a session is seen at most once, is recorded once, and its row keeps that reading. */
  lemma {:induction false} OneSnapshot(
    sessions: map<string, Session>, firsts: seq<Observation>, key: string, d: Direction
  )
    requires DistinctKeys(firsts)
    ensures |WithKey(firsts, key)| <= 1
    ensures WithKey(firsts, key) == [] ==>
      && BySession(Entries(sessions, firsts), key, d) == 0
      && (key in WithReadings(sessions, firsts) <==> key in sessions)
      && (key in sessions ==> WithReadings(sessions, firsts)[key] == sessions[key])
    ensures WithKey(firsts, key) != [] ==>
      var o := WithKey(firsts, key)[0];
      && o.key == key
      && BySession(Entries(sessions, firsts), key, d) == AmountOf(EntryOf(sessions, o), d)
      && key in WithReadings(sessions, firsts)
      && LastReading(WithReadings(sessions, firsts)[key], d) == Reading(o, d)
  {
    if firsts != [] {
      var init, o := firsts[..|firsts| - 1], firsts[|firsts| - 1];
      LastKeyIsNew(firsts);
      OneSnapshot(sessions, init, key, d);
      EntriesOneMore(sessions, firsts);
      if o.key == key {
        WithKeyAbsent(init, key);
      }
    }
  }

  lemma MeasuredOneMore(readings: seq<int>, r: int, baseline: bool)
    ensures Measured(readings + [r], baseline) ==
      Measured(readings, baseline) +
      if readings != [] then Delta(r, readings[|readings| - 1]) else if baseline then 0 else Max0(r)
  {
    assert (readings + [r])[..|readings|] == readings;
  }

  /** The row of a session, its sequence of sightings and what was recorded for it belong together. */
  ghost predicate Tracked(
    sessions: map<string, Session>, seen: seq<Observation>, recorded: nat, key: string, d: Direction
  ) {
    && (key in sessions <==> seen != [])
    && (seen != [] ==> LastReading(sessions[key], d) == Reading(seen[|seen| - 1], d))
    && recorded == Measured(Readings(seen, d), seen != [] && IsWireGuard(seen[0].profile))
  }

  lemma TrackedOneMore(
    sessions: map<string, Session>, seen: seq<Observation>, recorded: nat, o: Observation,
    sessions': map<string, Session>, d: Direction
  )
    requires Tracked(sessions, seen, recorded, o.key, d)
    requires o.key in sessions' && LastReading(sessions'[o.key], d) == Reading(o, d)
    ensures Tracked(sessions', seen + [o], recorded + AmountOf(EntryOf(sessions, o), d), o.key, d)
  {
    assert Readings(seen + [o], d) == Readings(seen, d) + [Reading(o, d)];
    MeasuredOneMore(Readings(seen, d), Reading(o, d), (seen + [o])[0].profile == o.profile && IsWireGuard(o.profile));
    MeasuredOneMore(Readings(seen, d), Reading(o, d), IsWireGuard((seen + [o])[0].profile));
  }

  /** At most one sighting in a snapshot that amounts to this much for the session. */
  lemma TrackedSighting(
    sessions: map<string, Session>, sessions': map<string, Session>, seen: seq<Observation>, recorded: nat,
    now: seq<Observation>, amount: nat, key: string, d: Direction
  )
    requires Tracked(sessions, seen, recorded, key, d) && |now| <= 1
    requires now == [] ==>
      amount == 0 && (key in sessions' <==> key in sessions) && (key in sessions ==> sessions'[key] == sessions[key])
    requires now != [] ==>
      && now[0].key == key && amount == AmountOf(EntryOf(sessions, now[0]), d)
      && key in sessions' && LastReading(sessions'[key], d) == Reading(now[0], d)
    ensures Tracked(sessions', seen + now, recorded + amount, key, d)
  {
    if now == [] {
      assert seen + now == seen;
    } else {
      assert now == [now[0]];
      TrackedOneMore(sessions, seen, recorded, now[0], sessions', d);
    }
  }

  lemma TrackedSnapshot(
    sessions: map<string, Session>, seen: seq<Observation>, recorded: nat, firsts: seq<Observation>, key: string,
    d: Direction
  )
    requires DistinctKeys(firsts)
    requires Tracked(sessions, seen, recorded, key, d)
    ensures Tracked(
      WithReadings(sessions, firsts), seen + WithKey(firsts, key),
        recorded + BySession(Entries(sessions, firsts), key, d), key, d)
  {
    OneSnapshot(sessions, firsts, key, d);
    var sessions', amount := WithReadings(sessions, firsts), BySession(Entries(sessions, firsts), key, d);
    TrackedSighting(sessions, sessions', seen, recorded, WithKey(firsts, key), amount, key, d);
  }

  lemma EndingKeepsTracked(
    sessions: map<string, Session>, keys: set<string>, seen: seq<Observation>, recorded: nat, key: string, d: Direction
  )
    requires Tracked(sessions, seen, recorded, key, d)
    ensures Tracked(Ended(sessions, keys), seen, recorded, key, d)
  {
  }

  lemma OneSnapshotMore(init: seq<seq<StatusRow>>, rows: seq<StatusRow>, key: string, d: Direction)
    requires Tracked(Replay(init).sessions, SeenAs(init, key), BySession(Ledger(init), key, d), key, d)
    ensures
      var sessions, firsts := Replay(init).sessions, FirstOnly(Flatten(rows));
      Tracked(
        Ended(WithReadings(sessions, firsts), ActiveKeys(sessions) - Keys(Flatten(rows))),
        SeenAs(init, key) + WithKey(firsts, key), BySession(Ledger(init) + Entries(sessions, firsts), key, d), key, d)
  {
    var sessions, firsts := Replay(init).sessions, FirstOnly(Flatten(rows));
    var seen, recorded := SeenAs(init, key), BySession(Ledger(init), key, d);
    FirstOnlyExact(Flatten(rows));
    BySessionSplits(Ledger(init), Entries(sessions, firsts), key, d);
    TrackedSnapshot(sessions, seen, recorded, firsts, key, d);
    EndingKeepsTracked(WithReadings(sessions, firsts), ActiveKeys(sessions) - Keys(Flatten(rows)),
      seen + WithKey(firsts, key), recorded + BySession(Entries(sessions, firsts), key, d), key, d);
  }

  /** What a history records for a session is what its sequence of readings measures. */
  lemma {:induction false} RecordedIsMeasured(history: seq<seq<StatusRow>>, key: string, d: Direction)
    ensures Tracked(Replay(history).sessions, SeenAs(history, key), BySession(Ledger(history), key, d), key, d)
  {
    if history != [] {
      var init, rows := history[..|history| - 1], history[|history| - 1];
      RecordedIsMeasured(init, key, d);
      OneSnapshotMore(init, rows, key, d);
      assert Replay(history).sessions ==
        Ended(WithReadings(Replay(init).sessions, FirstOnly(Flatten(rows))),
          ActiveKeys(Replay(init).sessions) - Keys(Flatten(rows)));
    }
  }

  /******* The counter itself *******/

  datatype Tick = Moved(bytes: nat) | Reset

  function Counter(start: nat, ticks: seq<Tick>): nat {
    if ticks == [] then start
    else
      match ticks[|ticks| - 1]
      case Moved(n) => Counter(start, ticks[..|ticks| - 1]) + n
      case Reset => 0
  }

  function Bytes(ticks: seq<Tick>): nat {
    if ticks == [] then 0
    else Bytes(ticks[..|ticks| - 1]) + match ticks[|ticks| - 1] case Moved(n) => n case Reset => 0
  }

  predicate HasReset(ticks: seq<Tick>) { Reset in ticks }

  /** Bytes moved before the last reset. */
  function BeforeReset(ticks: seq<Tick>): nat {
    if ticks == [] then 0
    else if ticks[|ticks| - 1] == Reset then Bytes(ticks[..|ticks| - 1])
    else BeforeReset(ticks[..|ticks| - 1])
  }

  /** A counter's life: what happened before each reading since the one before it. */
  type Life = seq<seq<Tick>>

  function CounterAfter(life: Life): nat {
    if life == [] then 0 else Counter(CounterAfter(life[..|life| - 1]), life[|life| - 1])
  }

  function ReadingsOf(life: Life): seq<int> {
    if life == [] then [] else ReadingsOf(life[..|life| - 1]) + [CounterAfter(life)]
  }

  function BytesOf(life: Life): nat {
    if life == [] then 0 else BytesOf(life[..|life| - 1]) + Bytes(life[|life| - 1])
  }

  /** What one interval loses: everything before its last reset, and the old reading when the reset does not show. */
  function Lost(start: nat, ticks: seq<Tick>): nat {
    if !HasReset(ticks) then 0
    else BeforeReset(ticks) + if Counter(start, ticks) >= start then start else 0
  }

  function LostOf(life: Life, baseline: bool): nat {
    if life == [] then 0
    else
      LostOf(life[..|life| - 1], baseline) +
      if |life| == 1 && baseline then Bytes(life[0]) else Lost(CounterAfter(life[..|life| - 1]), life[|life| - 1])
  }

  lemma {:induction false} CounterExact(start: nat, ticks: seq<Tick>)
    ensures !HasReset(ticks) ==> Counter(start, ticks) == start + Bytes(ticks)
    ensures HasReset(ticks) ==> Counter(start, ticks) + BeforeReset(ticks) == Bytes(ticks)
  {
    if ticks != [] {
      var init, last := ticks[..|ticks| - 1], ticks[|ticks| - 1];
      assert ticks == init + [last];
      CounterExact(start, init);
    }
  }

  lemma {:induction false} LifeExact(life: Life, baseline: bool)
    ensures |ReadingsOf(life)| == |life|
    ensures life != [] ==> ReadingsOf(life)[|life| - 1] == CounterAfter(life)
    ensures Measured(ReadingsOf(life), baseline) + LostOf(life, baseline) == BytesOf(life)
  {
    if life != [] {
      var init := life[..|life| - 1];
      LifeExact(init, baseline);
      CounterExact(CounterAfter(init), life[|life| - 1]);
      assert ReadingsOf(life)[..|life| - 1] == ReadingsOf(init);
    }
  }

  /**
   Soundness and exactness over any history: what is recorded for a session plus what resets (and, for WireGuard, the
   starting baseline) hide is exactly the number of bytes moved; so it never exceeds it.
   */
  lemma RecordedPlusLostIsMoved(history: seq<seq<StatusRow>>, key: string, d: Direction, life: Life)
    requires Readings(SeenAs(history, key), d) == ReadingsOf(life)
    ensures
      var seen := SeenAs(history, key);
      var baseline := seen != [] && IsWireGuard(seen[0].profile);
      && BySession(Ledger(history), key, d) + LostOf(life, baseline) == BytesOf(life)
      && BySession(Ledger(history), key, d) <= BytesOf(life)
  {
    var seen := SeenAs(history, key);
    RecordedIsMeasured(history, key, d);
    LifeExact(life, seen != [] && IsWireGuard(seen[0].profile));
  }

  /** An interval is harmless when it has no reset, or when nothing was moved before a reset that shows. */
  ghost predicate Harmless(start: nat, ticks: seq<Tick>) {
    HasReset(ticks) ==> BeforeReset(ticks) == 0 && (Counter(start, ticks) < start || start == 0)
  }

  /** Every interval that is measured is harmless: with a baseline the first one is not measured. */
  ghost predicate AllHarmless(life: Life, baseline: bool) {
    forall i :: (if baseline then 1 else 0) <= i < |life| ==> Harmless(CounterAfter(life[..i]), life[i])
  }

  /** What a baseline takes for granted: the bytes moved before the first reading. */
  function Granted(life: Life, baseline: bool): nat { if baseline && life != [] then Bytes(life[0]) else 0 }

  lemma AllHarmlessOneMore(init: Life, last: seq<Tick>, baseline: bool)
    ensures AllHarmless(init + [last], baseline) <==>
      AllHarmless(init, baseline) && ((baseline && init == []) || Harmless(CounterAfter(init), last))
  {
    var life := init + [last];
    assert forall i :: 0 <= i < |init| ==> init[..i] == life[..i] && init[i] == life[i];
    assert life[..|init|] == init && life[|init|] == last;
  }

  /** Nothing is lost beyond the baseline exactly when every measured interval is harmless. */
  lemma {:induction false} LostNothingIff(life: Life, baseline: bool)
    ensures LostOf(life, baseline) >= Granted(life, baseline)
    ensures LostOf(life, baseline) == Granted(life, baseline) <==> AllHarmless(life, baseline)
  {
    if life != [] {
      var init, last := life[..|life| - 1], life[|life| - 1];
      assert life == init + [last];
      LostNothingIff(init, baseline);
      AllHarmlessOneMore(init, last, baseline);
      assert init != [] ==> init[0] == life[0];
    }
  }

  /**
   Over any history a session's record is all that moved since its baseline exactly when its intervals were harmless.
   */
  lemma RecordedAllIff(history: seq<seq<StatusRow>>, key: string, d: Direction, life: Life)
    requires Readings(SeenAs(history, key), d) == ReadingsOf(life)
    ensures
      var seen := SeenAs(history, key);
      var baseline := seen != [] && IsWireGuard(seen[0].profile);
      BySession(Ledger(history), key, d) == BytesOf(life) - Granted(life, baseline) <==> AllHarmless(life, baseline)
  {
    var seen := SeenAs(history, key);
    RecordedPlusLostIsMoved(history, key, d, life);
    LostNothingIff(life, seen != [] && IsWireGuard(seen[0].profile));
  }

  /** A reset that shows as a lower reading can still hide bytes: those moved between the last reading and the reset. */
  lemma VisibleResetStillLoses()
    ensures
      var life := [[Moved(5)], [Moved(3), Reset, Moved(1)]];
      ReadingsOf(life) == [5, 1] && BytesOf(life) == 9 && Measured(ReadingsOf(life), false) == 6
  {
    var life := [[Moved(5)], [Moved(3), Reset, Moved(1)]];
    var second := life[1];
    assert life[..1] == [life[0]] && life[..1][..0] == [] && life[0][..0] == [];
    assert second[..2] == [Moved(3), Reset] && second[..2][..1] == [Moved(3)] && second[..2][..1][..0] == [];
    assert Bytes(life[0]) == 5 && Bytes(second[..2]) == 3 && Bytes(second) == 4;
    assert CounterAfter(life[..1]) == 5 && CounterAfter(life) == 1;
    assert ReadingsOf(life[..1]) == [5];
    assert ReadingsOf(life)[..1] == [5];
  }
}
