/**
 Traffic accounting (setup/opt/AdminAntizapret/utils/traffic_sync.py, persist_traffic_snapshot): counters that may
 reset are turned into deltas, session rows, totals split by network, and samples.
 */
module TrafficModel {
  import opened Decimals
  import opened Texts

  datatype Protocol = OpenVpn | WireGuard
  datatype Network = Vpn | Antizapret

  /** One connected client of one status row; text fields are already stripped. */
  datatype Client = Client(
    wireguardKind: bool, commonName: string, publicKey: string, realAddress: string, virtualAddress: string,
    connectedSince: nat, rx: int, tx: int)
  datatype StatusRow = StatusRow(profile: string, clients: seq<Client>)
  /** A client as the loop meets it, with its session key. */
  datatype Observation = Observation(key: string, profile: string, client: Client)

  datatype Session = Session(profile: string, commonName: string, lastRx: int, lastTx: int, active: bool)
  datatype Stat = Stat(rx: int, tx: int, rxVpn: int, txVpn: int, rxAntizapret: int, txAntizapret: int, sessions: nat)
  datatype Sample = Sample(name: string, network: Network, protocol: Protocol, rx: int, tx: int)
  type StatKey = (string, Protocol)
  datatype Db = Db(sessions: map<string, Session>, stats: map<StatKey, Stat>, samples: seq<Sample>)

  const EMPTY := Db(map[], map[], [])

  /******* Names and keys *******/

  predicate IsWireGuard(profile: string) { HasSuffix(profile, "-wg") }

  function ProtocolOf(profile: string): Protocol { if IsWireGuard(profile) then WireGuard else OpenVpn }

  function NetworkOf(profile: string): Network { if "antizapret" <= profile then Antizapret else Vpn }

  function OrDash(s: string): string { if s == "" then "-" else s }

  predicate KeyedAsWireGuard(profile: string, c: Client) {
    c.wireguardKind || IsWireGuard(profile)
  }

  /** The text fields of a session key, in order. */
  function KeyFields(profile: string, c: Client): seq<string> {
    if KeyedAsWireGuard(profile, c) then
      [profile, "wg", OrDash(c.commonName), OrDash(c.publicKey), OrDash(c.virtualAddress)]
    else
      [profile, OrDash(c.commonName), OrDash(c.realAddress), OrDash(c.virtualAddress), Decimal(c.connectedSince)]
  }

  function Join(fields: seq<string>): string {
    if |fields| == 0 then "" else if |fields| == 1 then fields[0] else fields[0] + "|" + Join(fields[1..])
  }

  function SessionKey(profile: string, c: Client): string { Join(KeyFields(profile, c)) }

  function NameOf(o: Observation): string { OrDash(o.client.commonName) }

  function StatKeyOf(o: Observation): StatKey { (NameOf(o), ProtocolOf(o.profile)) }

  lemma {:induction false} JoinInjective(a: seq<string>, b: seq<string>)
    requires |a| == |b|
    requires forall i :: 0 <= i < |a| ==> '|' !in a[i] && '|' !in b[i]
    requires Join(a) == Join(b)
    ensures a == b
  {
    if |a| > 1 {
      FirstFieldInjective(a[0], Join(a[1..]), b[0], Join(b[1..]));
      JoinInjective(a[1..], b[1..]);
      assert a == [a[0]] + a[1..] && b == [b[0]] + b[1..];
    }
  }

  function FirstBar(s: string): nat {
    if s == "" || s[0] == '|' then 0 else 1 + FirstBar(s[1..])
  }

  lemma {:induction false} FirstBarAfter(a: string, s: string)
    requires '|' !in a
    ensures FirstBar(a + "|" + s) == |a|
  {
    if a == "" {
      assert a + "|" + s == "|" + s;
    } else {
      assert (a + "|" + s)[1..] == a[1..] + "|" + s;
      FirstBarAfter(a[1..], s);
    }
  }

  lemma FirstFieldInjective(a: string, s: string, b: string, t: string)
    requires '|' !in a && '|' !in b
    requires a + "|" + s == b + "|" + t
    ensures a == b && s == t
  {
    var x, y := a + "|" + s, b + "|" + t;
    FirstBarAfter(a, s);
    FirstBarAfter(b, t);
    assert x[..|a|] == a && y[..|b|] == b && x[|a| + 1..] == s && y[|b| + 1..] == t;
  }

  ghost predicate NoSeparator(profile: string, c: Client) {
    forall f :: f in KeyFields(profile, c) ==> '|' !in f
  }

  /** The five fields agree one by one. */
  predicate SameFields(p: string, c: Client, q: string, d: Client) {
    && p == q && OrDash(c.commonName) == OrDash(d.commonName) && OrDash(c.virtualAddress) == OrDash(d.virtualAddress)
    && if KeyedAsWireGuard(p, c) then OrDash(c.publicKey) == OrDash(d.publicKey)
       else OrDash(c.realAddress) == OrDash(d.realAddress) && c.connectedSince == d.connectedSince
  }

  /** Keys of separator-free fields are equal exactly when the five fields are. */
  lemma KeyFieldsDecide(p: string, c: Client, q: string, d: Client)
    requires NoSeparator(p, c) && NoSeparator(q, d)
    ensures SessionKey(p, c) == SessionKey(q, d) <==> KeyFields(p, c) == KeyFields(q, d)
  {
    var a, b := KeyFields(p, c), KeyFields(q, d);
    assert forall i :: 0 <= i < |a| ==> a[i] in a && b[i] in b;
    if Join(a) == Join(b) {
      JoinInjective(a, b);
    }
  }

  /**
   Two clients of the same kind whose fields are free of the separator share a key exactly when they agree on all of
   it.
   */
  lemma SessionKeyInjective(p: string, c: Client, q: string, d: Client)
    requires KeyedAsWireGuard(p, c) == KeyedAsWireGuard(q, d)
    requires NoSeparator(p, c) && NoSeparator(q, d)
    ensures SessionKey(p, c) == SessionKey(q, d) <==> SameFields(p, c, q, d)
  {
    KeyFieldsDecide(p, c, q, d);
    var a, b := KeyFields(p, c), KeyFields(q, d);
    assert a == b <==> a[0] == b[0] && a[1] == b[1] && a[2] == b[2] && a[3] == b[3] && a[4] == b[4];
    if Decimal(c.connectedSince) == Decimal(d.connectedSince) {
      DecimalInjective(c.connectedSince, d.connectedSince);
    }
  }

  /**
   A WireGuard client c and an OpenVPN client d share a key exactly when d is called "wg" and d's remaining fields are
   c's, shifted by one.
   */
  lemma KindsCollideIff(p: string, c: Client, q: string, d: Client)
    requires KeyedAsWireGuard(p, c) && !KeyedAsWireGuard(q, d)
    requires NoSeparator(p, c) && NoSeparator(q, d)
    ensures SessionKey(p, c) == SessionKey(q, d) <==>
      && p == q && d.commonName == "wg" && OrDash(c.commonName) == OrDash(d.realAddress)
      && OrDash(c.publicKey) == OrDash(d.virtualAddress) && OrDash(c.virtualAddress) == Decimal(d.connectedSince)
  {
    KeyFieldsDecide(p, c, q, d);
    var a, b := KeyFields(p, c), KeyFields(q, d);
    assert a == b <==> a[0] == b[0] && a[1] == b[1] && a[2] == b[2] && a[3] == b[3] && a[4] == b[4];
  }

  /** Five texts with the separator between them. */
  ghost function Five(a: string, b: string, c: string, d: string, e: string): string {
    a + "|" + (b + "|" + (c + "|" + (d + "|" + e)))
  }

  /** A session key, spelled out for both kinds; a missing text is a dash. */
  lemma SessionKeyIs(profile: string, c: Client)
    ensures
      var name, virtual := OrDash(c.commonName), OrDash(c.virtualAddress);
      SessionKey(profile, c) ==
      if c.wireguardKind || (|profile| >= 3 && profile[|profile| - 3..] == "-wg") then
        Five(profile, "wg", name, OrDash(c.publicKey), virtual)
      else Five(profile, name, OrDash(c.realAddress), virtual, Decimal(c.connectedSince))
    ensures forall s: string :: OrDash(s) == if |s| > 0 then s else "-"
  {
    var f := KeyFields(profile, c);
    FiveJoined(f[0], f[1], f[2], f[3], f[4]);
    assert f == [f[0], f[1], f[2], f[3], f[4]];
    forall s: string ensures OrDash(s) == if |s| > 0 then s else "-" {
      assert |s| == 0 ==> s == "";
    }
  }

  lemma FiveJoined(a: string, b: string, c: string, d: string, e: string)
    ensures Join([a, b, c, d, e]) == Five(a, b, c, d, e)
  {
    assert [d, e][1..] == [e] && [c, d, e][1..] == [d, e];
    assert [b, c, d, e][1..] == [c, d, e] && [a, b, c, d, e][1..] == [b, c, d, e];
    assert Join([d, e]) == d + "|" + e;
    assert Join([c, d, e]) == c + "|" + Join([d, e]);
    assert Join([b, c, d, e]) == b + "|" + Join([c, d, e]);
  }

  /******* Deltas *******/

  function Max0(n: int): nat { if n < 0 then 0 else n }

  /** A reading below the last one means the counter was reset, so the whole reading is new traffic. */
  function Delta(current: int, last: int): nat {
    if current - last < 0 then Max0(current) else current - last
  }

  /** What one snapshot adds for one session. */
  datatype Entry = Entry(key: string, name: string, protocol: Protocol, network: Network, rx: nat, tx: nat, isNew: bool)

  function EntryOf(sessions: map<string, Session>, o: Observation): Entry {
    var key, c := o.key, o.client;
    var (rx, tx) :=
      if key in sessions then (Delta(c.rx, sessions[key].lastRx), Delta(c.tx, sessions[key].lastTx))
      else if IsWireGuard(o.profile) then (0, 0)
      else (Max0(c.rx), Max0(c.tx));
    Entry(key, NameOf(o), ProtocolOf(o.profile), NetworkOf(o.profile), rx, tx, key !in sessions)
  }

  /**
   What one reading adds: the growth of a counter that did not fall, the whole of one that did, and for a session that
   is new nothing under WireGuard and the whole reading otherwise; never anything for a negative reading.
   */
  lemma AmountsExact(sessions: map<string, Session>, o: Observation)
    ensures
      var e, c := EntryOf(sessions, o), o.client;
      if o.key !in sessions then
        var baseline := |o.profile| >= 3 && o.profile[|o.profile| - 3..] == "-wg";
        && e.isNew
        && e.rx == (if baseline || c.rx < 0 then 0 else c.rx)
        && e.tx == (if baseline || c.tx < 0 then 0 else c.tx)
      else
        var last := sessions[o.key];
        && !e.isNew
        && e.rx == (if c.rx >= last.lastRx then c.rx - last.lastRx else if c.rx < 0 then 0 else c.rx)
        && e.tx == (if c.tx >= last.lastTx then c.tx - last.lastTx else if c.tx < 0 then 0 else c.tx)
  {
  }

  /******* One snapshot, said without its loops *******/

  function Flatten(rows: seq<StatusRow>): seq<Observation> {
    if rows == [] then []
    else Flatten(rows[..|rows| - 1]) + OfRow(rows[|rows| - 1].profile, rows[|rows| - 1].clients)
  }

  function OfRow(profile: string, clients: seq<Client>): seq<Observation> {
    seq(|clients|, i requires 0 <= i < |clients| => Observation(SessionKey(profile, clients[i]), profile, clients[i]))
  }

  function Keys(obs: seq<Observation>): set<string> {
    set o | o in obs :: o.key
  }

  /** The first observation of every key, in order. */
  function FirstOnly(obs: seq<Observation>): seq<Observation> {
    if obs == [] then []
    else
      var init, o := obs[..|obs| - 1], obs[|obs| - 1];
      if o.key in Keys(init) then FirstOnly(init) else FirstOnly(init) + [o]
  }

  ghost predicate DistinctKeys(obs: seq<Observation>) {
    forall i, j :: 0 <= i < j < |obs| ==> obs[i].key != obs[j].key
  }

  lemma KeysOneMore(init: seq<Observation>, o: Observation)
    ensures Keys(init + [o]) == Keys(init) + {o.key}
  {
    var obs := init + [o];
    assert o in obs;
    assert forall p :: p in init ==> p in obs;
    forall k | k in Keys(init) ensures k in Keys(obs) {
      var p :| p in init && p.key == k;
      assert p in obs;
    }
  }

  lemma {:induction false} FirstOnlyExact(obs: seq<Observation>)
    ensures Keys(FirstOnly(obs)) == Keys(obs)
    ensures DistinctKeys(FirstOnly(obs))
  {
    if obs != [] {
      var init, o := obs[..|obs| - 1], obs[|obs| - 1];
      assert obs == init + [o];
      FirstOnlyExact(init);
      KeysOneMore(init, o);
      KeysOneMore(FirstOnly(init), o);
      var firsts := FirstOnly(init);
      assert forall i :: 0 <= i < |firsts| ==> firsts[i].key in Keys(firsts);
    }
  }

  /** An observation counts exactly when no earlier one of this snapshot has its key. */
  lemma {:induction false} FirstOnlyIff(obs: seq<Observation>, o: Observation)
    ensures o in FirstOnly(obs) <==>
      exists i :: 0 <= i < |obs| && obs[i] == o && forall j :: 0 <= j < i ==> obs[j].key != o.key
  {
    if obs != [] {
      var init, last := obs[..|obs| - 1], obs[|obs| - 1];
      FirstOnlyIff(init, o);
      assert forall i :: 0 <= i < |init| ==> obs[i] == init[i];
      if last.key !in Keys(init) {
        assert forall j :: 0 <= j < |init| ==> init[j] in init && init[j].key in Keys(init);
        assert last == obs[|init|];
      } else {
        var p :| p in init && p.key == last.key;
        var k :| 0 <= k < |init| && init[k] == p;
      }
    }
  }

  function Entries(sessions: map<string, Session>, firsts: seq<Observation>): seq<Entry> {
    seq(|firsts|, i requires 0 <= i < |firsts| => EntryOf(sessions, firsts[i]))
  }

  function Upserted(sessions: map<string, Session>, o: Observation): Session {
    var key, c := o.key, o.client;
    if key in sessions then sessions[key].(lastRx := c.rx, lastTx := c.tx, active := true)
    else Session(o.profile, NameOf(o), c.rx, c.tx, true)
  }

  function WithReadings(sessions: map<string, Session>, firsts: seq<Observation>): map<string, Session> {
    if firsts == [] then sessions
    else
      var o := firsts[|firsts| - 1];
      WithReadings(sessions, firsts[..|firsts| - 1])[o.key := Upserted(sessions, o)]
  }

  function Ended(sessions: map<string, Session>, keys: set<string>): map<string, Session> {
    map k | k in sessions :: if k in keys then sessions[k].(active := false) else sessions[k]
  }

  function ActiveKeys(sessions: map<string, Session>): set<string> {
    set k | k in sessions && sessions[k].active
  }

  const NO_TRAFFIC := Stat(0, 0, 0, 0, 0, 0, 0)

  function AddTo(stat: Stat, e: Entry): Stat {
    var s := stat.(rx := stat.rx + e.rx, tx := stat.tx + e.tx, sessions := stat.sessions + if e.isNew then 1 else 0);
    if e.network == Antizapret then s.(rxAntizapret := s.rxAntizapret + e.rx, txAntizapret := s.txAntizapret + e.tx)
    else s.(rxVpn := s.rxVpn + e.rx, txVpn := s.txVpn + e.tx)
  }

  function StatAt(stats: map<StatKey, Stat>, key: StatKey): Stat {
    if key in stats then stats[key] else NO_TRAFFIC
  }

  function WithTotal(stats: map<StatKey, Stat>, e: Entry): map<StatKey, Stat> {
    stats[(e.name, e.protocol) := AddTo(StatAt(stats, (e.name, e.protocol)), e)]
  }

  function WithTotals(stats: map<StatKey, Stat>, entries: seq<Entry>): map<StatKey, Stat> {
    if entries == [] then stats else WithTotal(WithTotals(stats, entries[..|entries| - 1]), entries[|entries| - 1])
  }

  function SampleOf(e: Entry): seq<Sample> {
    if e.rx > 0 || e.tx > 0 then [Sample(e.name, e.network, e.protocol, e.rx, e.tx)] else []
  }

  function SamplesOf(entries: seq<Entry>): seq<Sample> {
    if entries == [] then [] else SamplesOf(entries[..|entries| - 1]) + SampleOf(entries[|entries| - 1])
  }

  /** The database after one snapshot. */
  function Snapshot(db: Db, rows: seq<StatusRow>): Db {
    var obs := Flatten(rows);
    var firsts := FirstOnly(obs);
    var entries := Entries(db.sessions, firsts);
    Db(Ended(WithReadings(db.sessions, firsts), ActiveKeys(db.sessions) - Keys(obs)),
       WithTotals(db.stats, entries),
       db.samples + SamplesOf(entries))
  }

  /** The database after a whole history of snapshots. */
  function Replay(history: seq<seq<StatusRow>>): Db {
    if history == [] then EMPTY else Snapshot(Replay(history[..|history| - 1]), history[|history| - 1])
  }
}
