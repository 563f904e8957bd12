/** The tables of traffic_sync.py as an object, with the loops of persist_traffic_snapshot over its in-memory caches. */
module TrafficDb {
  import opened TrafficModel

  /** The counters of a run: sessions created and updated, rows of totals created, and samples inserted. */
  datatype Tally = Tally(created: nat, updated: nat, statsCreated: nat, inserted: nat)
  datatype Summary = Summary(seen: nat, inactive: nat, tally: Tally)

  /** The cache read at the start still tells the truth about every session not seen yet. */
  ghost predicate CacheValid(cache: map<string, Session>, sessions: map<string, Session>, seen: set<string>) {
    forall k :: k !in seen ==> (k in cache <==> k in sessions) && (k in sessions ==> cache[k] == sessions[k])
  }

  lemma EntriesOfMore(sessions: map<string, Session>, firsts: seq<Observation>, o: Observation)
    ensures Entries(sessions, firsts + [o]) == Entries(sessions, firsts) + [EntryOf(sessions, o)]
  {
  }

  lemma FirstOnlyNew(obs: seq<Observation>, o: Observation)
    requires o.key !in Keys(obs)
    ensures FirstOnly(obs + [o]) == FirstOnly(obs) + [o]
  {
    assert (obs + [o])[..|obs|] == obs;
  }

  /** The tables after the first observations of a run. */
  ghost predicate Tables(db: Db, firsts: seq<Observation>, now: Db) {
    && now.sessions == WithReadings(db.sessions, firsts)
    && now.stats == WithTotals(db.stats, Entries(db.sessions, firsts))
    && now.samples == db.samples + SamplesOf(Entries(db.sessions, firsts))
  }

  lemma TablesOneMore(db: Db, firsts: seq<Observation>, o: Observation, now: Db, now': Db)
    requires Tables(db, firsts, now)
    requires now'.sessions == now.sessions[o.key := Upserted(db.sessions, o)]
    requires now'.stats == WithTotal(now.stats, EntryOf(db.sessions, o))
    requires now'.samples == now.samples + SampleOf(EntryOf(db.sessions, o))
    ensures Tables(db, firsts + [o], now')
  {
    assert (firsts + [o])[..|firsts|] == firsts;
    var entries, e := Entries(db.sessions, firsts), EntryOf(db.sessions, o);
    EntriesOfMore(db.sessions, firsts, o);
    TotalsOneMore(db.stats, entries, e);
    assert db.samples + SamplesOf(entries) + SampleOf(e) == db.samples + (SamplesOf(entries) + SampleOf(e));
  }

  /** One more client counted: its session was known or not, its total had a row or not, and it gave so many samples. */
  function Counted(t: Tally, known: bool, hasRow: bool, samples: nat): Tally {
    Tally(
      t.created + (if known then 0 else 1), t.updated + (if known then 1 else 0),
      t.statsCreated + (if hasRow then 0 else 1), t.inserted + samples)
  }

  function CountedIn(db: Db, init: seq<Observation>, o: Observation, t: Tally): Tally {
    Counted(t, o.key in db.sessions, StatKeyOf(o) in WithTotals(db.stats, Entries(db.sessions, init)),
            |SampleOf(EntryOf(db.sessions, o))|)
  }

  function TallyOf(db: Db, firsts: seq<Observation>): Tally {
    if firsts == [] then Tally(0, 0, 0, 0)
    else
      var init := firsts[..|firsts| - 1];
      CountedIn(db, init, firsts[|firsts| - 1], TallyOf(db, init))
  }

  lemma TallyOneMore(db: Db, firsts: seq<Observation>, o: Observation, now: Db)
    requires Tables(db, firsts, now)
    ensures TallyOf(db, firsts + [o]) ==
      Counted(TallyOf(db, firsts), o.key in db.sessions, StatKeyOf(o) in now.stats, |SampleOf(EntryOf(db.sessions, o))|)
  {
    assert (firsts + [o])[..|firsts|] == firsts;
  }

  /** The counters are the sizes they stand for. */
  ghost predicate CountsKeys(t: Tally, keys: set<string>, known: set<string>) {
    t.created == |keys - known| && t.updated == |keys * known|
  }

  ghost predicate CountsRows(t: Tally, rows: set<StatKey>, start: set<StatKey>) {
    start <= rows && t.statsCreated == |rows - start|
  }

  lemma OneMoreKey(t: Tally, keys: set<string>, known: set<string>, key: string, hasRow: bool, samples: nat)
    requires CountsKeys(t, keys, known) && key !in keys
    ensures CountsKeys(Counted(t, key in known, hasRow, samples), keys + {key}, known)
  {
    if key in known {
      assert keys + {key} - known == keys - known;
      assert (keys + {key}) * known == keys * known + {key};
    } else {
      assert keys + {key} - known == keys - known + {key};
      assert (keys + {key}) * known == keys * known;
    }
  }

  lemma OneMoreRow(t: Tally, rows: set<StatKey>, start: set<StatKey>, key: StatKey, known: bool, samples: nat)
    requires CountsRows(t, rows, start)
    ensures CountsRows(Counted(t, known, key in rows, samples), rows + {key}, start)
  {
    if key in rows {
      assert rows + {key} == rows;
    } else {
      assert rows + {key} - start == rows - start + {key};
    }
  }

  lemma {:induction false} TallyKeys(db: Db, firsts: seq<Observation>)
    requires DistinctKeys(firsts)
    ensures CountsKeys(TallyOf(db, firsts), Keys(firsts), db.sessions.Keys)
  {
    if firsts == [] {
      assert Keys(firsts) == {};
    } else {
      var init, o := firsts[..|firsts| - 1], firsts[|firsts| - 1];
      assert firsts == init + [o];
      TallyKeys(db, init);
      KeysOneMore(init, o);
      var hasRow := StatKeyOf(o) in WithTotals(db.stats, Entries(db.sessions, init));
      OneMoreKey(TallyOf(db, init), Keys(init), db.sessions.Keys, o.key, hasRow, |SampleOf(EntryOf(db.sessions, o))|);
    }
  }

  lemma WithTotalKeys(stats: map<StatKey, Stat>, e: Entry)
    ensures WithTotal(stats, e).Keys == stats.Keys + {(e.name, e.protocol)}
  {
  }

  lemma {:induction false} TallyRows(db: Db, firsts: seq<Observation>)
    ensures CountsRows(TallyOf(db, firsts), WithTotals(db.stats, Entries(db.sessions, firsts)).Keys, db.stats.Keys)
  {
    if firsts == [] {
      assert db.stats.Keys - db.stats.Keys == {};
    } else {
      var init, o := firsts[..|firsts| - 1], firsts[|firsts| - 1];
      assert firsts == init + [o];
      TallyRows(db, init);
      var rows, e := WithTotals(db.stats, Entries(db.sessions, init)), EntryOf(db.sessions, o);
      EntriesOfMore(db.sessions, init, o);
      TotalsOneMore(db.stats, Entries(db.sessions, init), e);
      WithTotalKeys(rows, e);
      OneMoreRow(TallyOf(db, init), rows.Keys, db.stats.Keys, StatKeyOf(o), o.key in db.sessions, |SampleOf(e)|);
    }
  }

  lemma {:induction false} TallySamples(db: Db, firsts: seq<Observation>)
    ensures TallyOf(db, firsts).inserted == |SamplesOf(Entries(db.sessions, firsts))|
  {
    if firsts != [] {
      var init, o := firsts[..|firsts| - 1], firsts[|firsts| - 1];
      assert firsts == init + [o];
      TallySamples(db, init);
      EntriesOfMore(db.sessions, init, o);
      TotalsOneMore(db.stats, Entries(db.sessions, init), EntryOf(db.sessions, o));
    }
  }

  /** The summary counts the snapshot's keys by what the run found and left. */
  ghost predicate Sums(summary: Summary, db: Db, keys: set<string>, now: Db) {
    && summary.seen == |keys| && summary.inactive == |ActiveKeys(db.sessions) - keys|
    && CountsKeys(summary.tally, keys, db.sessions.Keys)
    && CountsRows(summary.tally, now.stats.Keys, db.stats.Keys)
    && |now.samples| == |db.samples| + summary.tally.inserted
  }

  lemma Summed(db: Db, rows: seq<StatusRow>, now: Db, t: Tally)
    requires Tables(db, FirstOnly(Flatten(rows)), now) && t == TallyOf(db, FirstOnly(Flatten(rows)))
    ensures
      var keys := Keys(Flatten(rows));
      && Snapshot(db, rows) == now.(sessions := Ended(now.sessions, ActiveKeys(db.sessions) - keys))
      && Sums(Summary(|keys|, |ActiveKeys(db.sessions) - keys|, t), db, keys, Snapshot(db, rows))
  {
    var firsts := FirstOnly(Flatten(rows));
    FirstOnlyExact(Flatten(rows));
    TallyKeys(db, firsts);
    TallyRows(db, firsts);
    TallySamples(db, firsts);
  }

  lemma TotalsOneMore(stats: map<StatKey, Stat>, entries: seq<Entry>, e: Entry)
    ensures WithTotals(stats, entries + [e]) == WithTotal(WithTotals(stats, entries), e)
    ensures SamplesOf(entries + [e]) == SamplesOf(entries) + SampleOf(e)
  {
    assert (entries + [e])[..|entries|] == entries;
  }

  lemma SeenKeyStep(obs: seq<Observation>, o: Observation)
    requires o.key in Keys(obs)
    ensures FirstOnly(obs + [o]) == FirstOnly(obs) && Keys(obs + [o]) == Keys(obs)
  {
    assert (obs + [o])[..|obs|] == obs;
    KeysOneMore(obs, o);
  }

  class TrafficTables {
    var sessions: map<string, Session>
    var stats: map<StatKey, Stat>
    var samples: seq<Sample>

    ghost function View(): Db
      reads this
    {
      Db(sessions, stats, samples)
    }

    constructor ()
      ensures View() == EMPTY
    {
      sessions, stats, samples := map[], map[], [];
    }

    method InsertSessionState(o: Observation)
      modifies this`sessions
      ensures sessions == old(sessions)[o.key := Session(o.profile, NameOf(o), o.client.rx, o.client.tx, true)]
    {
      sessions := sessions[o.key := Session(o.profile, NameOf(o), o.client.rx, o.client.tx, true)];
    }

    method UpdateSessionState(o: Observation)
      requires o.key in sessions
      modifies this`sessions
      ensures sessions == old(sessions)[o.key := old(sessions)[o.key].(lastRx := o.client.rx, lastTx := o.client.tx,
        active := true)]
    {
      sessions := sessions[o.key := sessions[o.key].(lastRx := o.client.rx, lastTx := o.client.tx, active := true)];
    }

    /** insert_stat_protocol when the row is missing, then update_stat_protocol. */
    method UpdateStatProtocol(e: Entry) returns (made: bool)
      modifies this`stats
      ensures stats == WithTotal(old(stats), e) && made == ((e.name, e.protocol) !in old(stats))
    {
      var key := (e.name, e.protocol);
      made := key !in stats;
      if made {
        stats := stats[key := NO_TRAFFIC];
      }
      var s, n := stats[key], if e.isNew then 1 else 0;
      if e.network == Antizapret {
        stats := stats[key := s.(rx := s.rx + e.rx, tx := s.tx + e.tx,
                                 rxAntizapret := s.rxAntizapret + e.rx, txAntizapret := s.txAntizapret + e.tx,
                                 sessions := s.sessions + n)];
      } else {
        stats := stats[key := s.(rx := s.rx + e.rx, tx := s.tx + e.tx,
                                 rxVpn := s.rxVpn + e.rx, txVpn := s.txVpn + e.tx, sessions := s.sessions + n)];
      }
    }

    method InsertTrafficSample(e: Entry)
      modifies this`samples
      ensures samples == old(samples) + [Sample(e.name, e.network, e.protocol, e.rx, e.tx)]
    {
      samples := samples + [Sample(e.name, e.network, e.protocol, e.rx, e.tx)];
    }

    /** The body of the loop for a key not seen before in this run; the cache gains the row of a new session. */
    method RecordClient(o: Observation, cache: map<string, Session>, t: Tally)
      returns (cache': map<string, Session>, t': Tally)
      requires o.key in cache ==> o.key in sessions && sessions[o.key] == cache[o.key]
      modifies this
      ensures sessions == old(sessions)[o.key := Upserted(cache, o)]
      ensures stats == WithTotal(old(stats), EntryOf(cache, o))
      ensures samples == old(samples) + SampleOf(EntryOf(cache, o))
      ensures forall k :: k != o.key ==> (k in cache' <==> k in cache) && (k in cache ==> cache'[k] == cache[k])
      ensures t' == Counted(t, o.key in cache, StatKeyOf(o) in old(stats), |SampleOf(EntryOf(cache, o))|)
    {
      var c, isNew, deltaRx, deltaTx := o.client, o.key !in cache, 0, 0;
      cache', t' := cache, t;
      if isNew {
        InsertSessionState(o);
        t' := t'.(created := t'.created + 1);
        cache' := cache[o.key := sessions[o.key]];
        if !IsWireGuard(o.profile) {
          deltaRx, deltaTx := Max0(c.rx), Max0(c.tx);
        }
      } else {
        deltaRx, deltaTx := c.rx - cache[o.key].lastRx, c.tx - cache[o.key].lastTx;
        if deltaRx < 0 { deltaRx := Max0(c.rx); }
        if deltaTx < 0 { deltaTx := Max0(c.tx); }
        UpdateSessionState(o);
        t' := t'.(updated := t'.updated + 1);
      }
      var e := Entry(o.key, NameOf(o), ProtocolOf(o.profile), NetworkOf(o.profile), deltaRx, deltaTx, isNew);
      assert e == EntryOf(cache, o);
      var made := UpdateStatProtocol(e);
      if made {
        t' := t'.(statsCreated := t'.statsCreated + 1);
      }
      if deltaRx > 0 || deltaTx > 0 {
        InsertTrafficSample(e);
        t' := t'.(inserted := t'.inserted + 1);
      }
    }

    method MarkInactiveSessions(activeBefore: set<string>, seen: set<string>) returns (count: nat)
      modifies this`sessions
      ensures sessions == Ended(old(sessions), activeBefore - seen)
      ensures count == |activeBefore - seen|
    {
      var toEnd := activeBefore - seen;
      count := |toEnd|;
      var left := toEnd;
      while left != {}
        invariant left <= toEnd
        invariant sessions == Ended(old(sessions), toEnd - left)
      {
        var k :| k in left;
        left := left - {k};
        if k in sessions {
          sessions := sessions[k := sessions[k].(active := false)];
        }
      }
    }

    method PersistTrafficSnapshot(rows: seq<StatusRow>) returns (summary: Summary)
      modifies this
      ensures View() == Snapshot(old(View()), rows)
      ensures Sums(summary, old(View()), Keys(Flatten(rows)), View())
    {
      ghost var db := View();
      var activeBefore := ActiveKeys(sessions);
      var seen, t := PersistRows(rows);
      Summed(db, rows, View(), t);
      var inactive := MarkInactiveSessions(activeBefore, seen);
      summary := Summary(|seen|, inactive, t);
      assert View() == Snapshot(db, rows);
    }

    /** The outer loop, over the status rows. */
    method PersistRows(rows: seq<StatusRow>) returns (seen: set<string>, t: Tally)
      modifies this
      ensures seen == Keys(Flatten(rows))
      ensures Tables(old(View()), FirstOnly(Flatten(rows)), View()) &&
        t == TallyOf(old(View()), FirstOnly(Flatten(rows)))
    {
      ghost var db := View();
      var cache := sessions;
      seen, t := {}, Tally(0, 0, 0, 0);
      NothingPersisted(db);
      for r := 0 to |rows|
        invariant Progress(db, Flatten(rows[..r]), cache, seen, View(), t)
      {
        cache, seen, t := PersistRow(db, Flatten(rows[..r]), rows[r], cache, seen, t);
        assert rows[..r + 1][..r] == rows[..r];
      }
      assert rows[..|rows|] == rows;
    }

    /** The inner loop, over the clients of one status row. */
    method PersistRow(
      ghost db: Db, ghost done: seq<Observation>, row: StatusRow, cache: map<string, Session>, seen: set<string>,
      t: Tally
    )
      returns (cache': map<string, Session>, seen': set<string>, t': Tally)
      requires Progress(db, done, cache, seen, View(), t)
      modifies this
      ensures Progress(db, done + OfRow(row.profile, row.clients), cache', seen', View(), t')
    {
      cache', seen', t' := cache, seen, t;
      assert done + OfRow(row.profile, []) == done;
      for i := 0 to |row.clients|
        invariant Progress(db, done + OfRow(row.profile, row.clients[..i]), cache', seen', View(), t')
      {
        var o := Observation(SessionKey(row.profile, row.clients[i]), row.profile, row.clients[i]);
        OneMoreOfRow(done, row, i);
        cache', seen', t' := PersistObservation(db, done + OfRow(row.profile, row.clients[..i]), o, cache', seen', t');
      }
      assert row.clients[..|row.clients|] == row.clients;
    }

    /** The body of the inner loop: a key already seen in this snapshot is skipped. */
    method PersistObservation(
      ghost db: Db, ghost obs: seq<Observation>, o: Observation, cache: map<string, Session>, seen: set<string>,
      t: Tally
    )
      returns (cache': map<string, Session>, seen': set<string>, t': Tally)
      requires Progress(db, obs, cache, seen, View(), t)
      modifies this
      ensures Progress(db, obs + [o], cache', seen', View(), t')
    {
      if o.key in seen {
        SeenKeyStep(obs, o);
        return cache, seen, t;
      }
      StillInTable(db, obs, cache, seen, View(), t, o.key);
      CacheTells(db, obs, o, cache, seen, View(), t);
      cache', t' := RecordClient(o, cache, t);
      seen' := seen + {o.key};
      NewKeyProgress(db, obs, o, cache, cache', seen, old(View()), View(), t, t');
    }
  }

  /** How far a run has come: the tables after these observations, the cache, the seen keys and the counters. */
  ghost predicate Progress(
    db: Db, obs: seq<Observation>, cache: map<string, Session>, seen: set<string>, now: Db, t: Tally
  ) {
    seen == Keys(obs) && CacheValid(cache, db.sessions, seen) && Tables(db, FirstOnly(obs), now)
    && t == TallyOf(db, FirstOnly(obs))
  }

  lemma NothingPersisted(db: Db)
    ensures Progress(db, Flatten([]), db.sessions, {}, db, Tally(0, 0, 0, 0))
  {
  }

  lemma OneMoreOfRow(done: seq<Observation>, row: StatusRow, i: nat)
    requires i < |row.clients|
    ensures done + OfRow(row.profile, row.clients[..i + 1]) ==
      (done + OfRow(row.profile, row.clients[..i])) +
      [Observation(SessionKey(row.profile, row.clients[i]), row.profile, row.clients[i])]
  {
  }

  lemma StillInTable(
    db: Db, obs: seq<Observation>, cache: map<string, Session>, seen: set<string>, now: Db, t: Tally, key: string
  )
    requires Progress(db, obs, cache, seen, now, t) && key !in seen
    ensures key in cache ==> key in now.sessions && now.sessions[key] == cache[key]
  {
    FirstOnlyExact(obs);
    UntouchedSession(db.sessions, FirstOnly(obs), key);
  }

  lemma CacheTells(
    db: Db, obs: seq<Observation>, o: Observation, cache: map<string, Session>, seen: set<string>, now: Db, t: Tally
  )
    requires Progress(db, obs, cache, seen, now, t) && o.key !in seen
    ensures EntryOf(cache, o) == EntryOf(db.sessions, o) && Upserted(cache, o) == Upserted(db.sessions, o)
    ensures o.key in cache <==> o.key in db.sessions
  {
  }

  lemma CacheOneMore(
    cache: map<string, Session>, cache': map<string, Session>, sessions: map<string, Session>, seen: set<string>,
    key: string
  )
    requires CacheValid(cache, sessions, seen)
    requires forall k :: k != key ==> (k in cache' <==> k in cache) && (k in cache ==> cache'[k] == cache[k])
    ensures CacheValid(cache', sessions, seen + {key})
  {
  }

  lemma NewKeyProgress(
    db: Db, obs: seq<Observation>, o: Observation, cache: map<string, Session>, cache': map<string, Session>,
    seen: set<string>, now: Db, now': Db, t: Tally, t': Tally
  )
    requires Progress(db, obs, cache, seen, now, t) && o.key !in seen
    requires now'.sessions == now.sessions[o.key := Upserted(db.sessions, o)]
    requires now'.stats == WithTotal(now.stats, EntryOf(db.sessions, o))
    requires now'.samples == now.samples + SampleOf(EntryOf(db.sessions, o))
    requires forall k :: k != o.key ==> (k in cache' <==> k in cache) && (k in cache ==> cache'[k] == cache[k])
    requires t' == Counted(t, o.key in db.sessions, StatKeyOf(o) in now.stats, |SampleOf(EntryOf(db.sessions, o))|)
    ensures Progress(db, obs + [o], cache', seen + {o.key}, now', t')
  {
    CacheOneMore(cache, cache', db.sessions, seen, o.key);
    FirstOnlyNew(obs, o);
    TablesOneMore(db, FirstOnly(obs), o, now, now');
    KeysOneMore(obs, o);
    TallyOneMore(db, FirstOnly(obs), o, now);
  }

  /** A session not among the observations has the row it started with. */
  lemma {:induction false} UntouchedSession(sessions: map<string, Session>, firsts: seq<Observation>, key: string)
    requires key !in Keys(firsts)
    ensures key in WithReadings(sessions, firsts) <==> key in sessions
    ensures key in sessions ==> WithReadings(sessions, firsts)[key] == sessions[key]
  {
    if firsts != [] {
      var init, o := firsts[..|firsts| - 1], firsts[|firsts| - 1];
      assert firsts == init + [o];
      KeysOneMore(init, o);
      UntouchedSession(sessions, init, key);
    }
  }
}
