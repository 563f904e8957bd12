/**
 What wireguard-ipv6.py accepts and writes, said of the texts themselves: positions of headers, entries of a list and
 plain numbers, without the functions that compute them.
 */
module WireGuardChecks {
  import opened Options
  import opened UlaBase
  import opened WireGuard
  import opened WireGuardLaws

  lemma UlaBaseIff(base: nat, length: nat)
    ensures IsUlaBase(base, length) <==>
      && length == 48 && base % 0x1_0000_0000_0000_0000_0000 == 0
      && 0xfc00_0000_0000_0000_0000_0000_0000_0000 <= base <= 0xfdff_ffff_ffff_0000_0000_0000_0000_0000
  {
  }

  /** The first address of the mode's /64. */
  ghost function FirstOf(plan: Plan): nat {
    match plan.mode
    case Antizapret => plan.base + 0x2908_0000_0000_0000_0000
    case Vpn => plan.base + 0x2808_0000_0000_0000_0000
  }

  lemma ServerIs(plan: Plan)
    ensures Server(plan) == V6(FirstOf(plan) + 1, 64)
  {
  }

  /******* One list of addresses *******/

  ghost predicate ReadsAs(v: Value, iface: Iface) {
    v == Canonical(iface) || (v.Spelled? && v.parsed == Some(iface))
  }

  /** The first IPv4 /32 of a list is this host. */
  ghost predicate HostIs(values: seq<Value>, host: nat) {
    exists i :: 0 <= i < |values| && ReadsAs(values[i], V4(host, 32)) && NoHostBelow(values, i)
  }

  ghost predicate NoHostBelow(values: seq<Value>, end: nat)
    requires end <= |values|
  {
    forall j, other: nat :: 0 <= j < end ==> !ReadsAs(values[j], V4(other, 32))
  }

  /** An entry that is no IPv4 /32 is passed over. */
  lemma HostBehind(values: seq<Value>, host: nat)
    requires values != [] && NoHostBelow(values, 1)
    ensures HostIs(values, host) <==> HostIs(values[1..], host)
  {
    var rest := values[1..];
    assert forall j :: 0 <= j < |rest| ==> rest[j] == values[j + 1];
    if i :| 0 <= i < |rest| && ReadsAs(rest[i], V4(host, 32)) && NoHostBelow(rest, i) {
      forall j, other: nat | 0 <= j < i + 1 ensures !ReadsAs(values[j], V4(other, 32)) {
        assert j > 0 ==> values[j] == rest[j - 1];
      }
      assert ReadsAs(values[i + 1], V4(host, 32)) && NoHostBelow(values, i + 1);
    }
    if i :| 0 <= i < |values| && ReadsAs(values[i], V4(host, 32)) && NoHostBelow(values, i) {
      assert i > 0 && rest[i - 1] == values[i];
      assert forall j :: 0 <= j < i - 1 ==> rest[j] == values[j + 1];
      assert NoHostBelow(rest, i - 1);
    }
  }

  lemma HostFirst(values: seq<Value>, host: nat, first: nat)
    requires values != [] && ReadsAs(values[0], V4(first, 32))
    ensures HostIs(values, host) <==> host == first
  {
    if host == first {
      assert NoHostBelow(values, 0);
    }
  }

  lemma {:induction false} FirstHostIff(values: seq<Value>, host: nat)
    ensures FirstHost(values) == Some(host) <==> HostIs(values, host)
  {
    if values != [] {
      match Parsed(values[0])
      case Some(V4(addr, 32)) => HostFirst(values, host, addr);
      case _ =>
        HostBehind(values, host);
        FirstHostIff(values[1..], host);
    }
  }

  /** The address of a peer: the mode's network with the last octet of its first IPv4 host, from 2 to 254. */
  ghost predicate PeerAddress(plan: Plan, values: seq<Value>, iface: Iface) {
    exists host: nat ::
      HostIs(values, host) && 2 <= host % 256 <= 254 && iface == V6(FirstOf(plan) + host % 256, 128)
  }

  lemma ClientOfIff(plan: Plan, values: seq<Value>, iface: Iface)
    ensures ClientOf(plan, values) == Some(iface) <==> PeerAddress(plan, values, iface)
  {
    if FirstHost(values).Some? {
      FirstHostIff(values, FirstHost(values).value);
    }
    if PeerAddress(plan, values, iface) {
      var host: nat :| HostIs(values, host) && 2 <= host % 256 <= 254 && iface == V6(FirstOf(plan) + host % 256, 128);
      FirstHostIff(values, host);
    }
  }

  ghost predicate Readable(values: seq<Value>) {
    forall i :: 0 <= i < |values| ==> values[i].Canonical? || values[i].parsed.Some?
  }

  ghost predicate Has(values: seq<Value>, iface: Iface) {
    exists i :: 0 <= i < |values| && ReadsAs(values[i], iface)
  }

  /** Every entry is an address, and the wanted one is there or no IPv6 address is. */
  ghost predicate HasRoom(values: seq<Value>, wanted: Iface) {
    Readable(values) &&
    (Has(values, wanted) || forall i, addr, length :: 0 <= i < |values| ==> !ReadsAs(values[i], V6(addr, length)))
  }

  lemma HasIff(values: seq<Value>, iface: Iface)
    ensures Carries(values, iface) <==> Has(values, iface)
  {
    if Carries(values, iface) {
      var v :| v in values && Parsed(v) == Some(iface);
      var i :| 0 <= i < |values| && values[i] == v;
      assert ReadsAs(values[i], iface);
    }
    if i :| 0 <= i < |values| && ReadsAs(values[i], iface) {
      assert values[i] in values && Parsed(values[i]) == Some(iface);
    }
  }

  lemma ReadableIff(values: seq<Value>)
    ensures AllParse(values) <==> Readable(values)
  {
    if AllParse(values) {
      forall i | 0 <= i < |values| ensures values[i].Canonical? || values[i].parsed.Some? {
        assert values[i] in values;
      }
    }
  }

  lemma AnyV6Iff(values: seq<Value>)
    ensures HasV6(values) <==> exists i, addr, length :: 0 <= i < |values| && ReadsAs(values[i], V6(addr, length))
  {
    if HasV6(values) {
      var v :| v in values && Parsed(v).Some? && Parsed(v).value.V6?;
      var i :| 0 <= i < |values| && values[i] == v;
      assert ReadsAs(values[i], V6(Parsed(v).value.addr, Parsed(v).value.length));
    }
    if i, addr, length :| 0 <= i < |values| && ReadsAs(values[i], V6(addr, length)) {
      assert values[i] in values;
    }
  }

  lemma FitsIff(values: seq<Value>, wanted: Iface)
    ensures Fits(values, wanted) <==> HasRoom(values, wanted)
  {
    HasIff(values, wanted);
    ReadableIff(values);
    AnyV6Iff(values);
  }

  /******* Sections *******/

  /** The header at h is the last one before line i. */
  ghost predicate Heads(lines: seq<Line>, h: int, i: int) {
    0 <= h < i < |lines| && lines[h].Header? && forall k :: h < k < i ==> !lines[k].Header?
  }

  ghost predicate AddressLine(lines: seq<Line>, i: int) {
    && 0 <= i < |lines| && lines[i].Assign? && lines[i].key == Address
    && exists h :: Heads(lines, h, i) && lines[h].section == Interface
  }

  /** An AllowedIPs line of the peer whose header is at h. */
  ghost predicate AllowedLine(lines: seq<Line>, h: int, i: int) {
    && 0 <= i < |lines| && lines[i].Assign? && lines[i].key == AllowedIPs
    && Heads(lines, h, i) && lines[h].section == Peer
  }

  lemma HeadsIff(lines: seq<Line>, h: nat, i: nat)
    requires i < |lines|
    ensures Heads(lines, h, i) <==> HeaderOf(lines, i) == h
  {
  }

  lemma AddressLineIff(lines: seq<Line>, i: nat)
    ensures IsInterfaceLine(lines, i) <==> AddressLine(lines, i)
  {
    if i < |lines| {
      var h := HeaderOf(lines, i);
      if h >= 0 { HeadsIff(lines, h, i); }
      if h' :| Heads(lines, h', i) { HeadsIff(lines, h', i); }
    }
  }

  lemma AllowedLineIff(lines: seq<Line>, h: int, i: int)
    ensures InBlock(lines, h, i) <==> AllowedLine(lines, h, i)
  {
    if 0 <= i < |lines| && h >= 0 {
      HeadsIff(lines, h, i);
    }
  }

  /******* Migration *******/

  ghost predicate PeerReady(plan: Plan, lines: seq<Line>, h: int) {
    exists k, iface ::
      && AllowedLine(lines, h, k) && (forall j :: AllowedLine(lines, h, j) ==> j == k)
      && PeerAddress(plan, lines[k].values, iface) && HasRoom(lines[k].values, iface)
  }

  ghost predicate InterfaceReady(plan: Plan, lines: seq<Line>) {
    exists i ::
      && AddressLine(lines, i) && (forall j :: AddressLine(lines, j) ==> j == i)
      && HasRoom(lines[i].values, V6(FirstOf(plan) + 1, 64))
  }

  lemma PeerReadyIff(plan: Plan, lines: seq<Line>, h: int)
    ensures BlockGood(plan, lines, h) <==> PeerReady(plan, lines, h)
  {
    forall k ensures InBlock(lines, h, k) <==> AllowedLine(lines, h, k) {
      AllowedLineIff(lines, h, k);
    }
    if BlockGood(plan, lines, h) {
      var k :| InBlock(lines, h, k) && PeerFits(plan, lines[k].values) && forall j :: InBlock(lines, h, j) ==> j == k;
      var iface := ClientOf(plan, lines[k].values).value;
      ClientOfIff(plan, lines[k].values, iface);
      FitsIff(lines[k].values, iface);
    }
    if PeerReady(plan, lines, h) {
      var k, iface :|
        && AllowedLine(lines, h, k) && (forall j :: AllowedLine(lines, h, j) ==> j == k)
        && PeerAddress(plan, lines[k].values, iface) && HasRoom(lines[k].values, iface);
      ClientOfIff(plan, lines[k].values, iface);
      FitsIff(lines[k].values, iface);
      assert InBlock(lines, h, k);
    }
  }

  lemma InterfaceReadyIff(plan: Plan, lines: seq<Line>)
    ensures InterfaceGood(plan, lines) <==> InterfaceReady(plan, lines)
  {
    forall i ensures IsInterfaceLine(lines, i) <==> AddressLine(lines, i) {
      if i >= 0 { AddressLineIff(lines, i); }
    }
    ServerIs(plan);
    forall i | AddressLine(lines, i)
      ensures Fits(lines[i].values, Server(plan)) <==> HasRoom(lines[i].values, V6(FirstOf(plan) + 1, 64))
    {
      FitsIff(lines[i].values, Server(plan));
    }
  }

  /**
   A text is migrated exactly when the base is a /48 of private addresses, every peer has one AllowedIPs line with a
   usable IPv4 host and room for its address, and the interface has one Address line with room for the server's.
   */
  lemma MigratesIff(plan: Plan, lines: seq<Line>)
    ensures Migrate(plan, lines).Some? <==>
      && IsUlaBase(plan.base, plan.length)
      && (forall h :: 0 <= h < |lines| && lines[h].Header? && lines[h].section == Peer ==> PeerReady(plan, lines, h))
      && InterfaceReady(plan, lines)
  {
    forall h ensures BlockGood(plan, lines, h) <==> PeerReady(plan, lines, h) {
      PeerReadyIff(plan, lines, h);
    }
    InterfaceReadyIff(plan, lines);
    if Migrate(plan, lines).Some? {
      forall h | 0 <= h < |lines| && lines[h].Header? && lines[h].section == Peer ensures PeerReady(plan, lines, h) {
        assert IsPeerHeader(lines, h) && BlockGood(plan, lines, h);
      }
    }
  }

  /** What a line becomes: its address behind the others, unless it is there. */
  ghost predicate Gains(line: Line, out: Line, iface: Iface)
    requires line.Assign?
  {
    if Has(line.values, iface) then out == line
    else out == Assign(line.key, line.values + [Canonical(iface)], false, line.nl)
  }

  lemma GainsExact(line: Line, iface: Iface)
    requires line.Assign?
    ensures Gains(line, WithAddress(line, iface), iface)
  {
    HasIff(line.values, iface);
  }

  /** What becomes of a line in its place: only address lines of the interface and of peers gain anything. */
  ghost predicate Migrated(plan: Plan, lines: seq<Line>, k: nat, out: Line)
    requires k < |lines|
  {
    && (AddressLine(lines, k) ==> Gains(lines[k], out, V6(FirstOf(plan) + 1, 64)))
    && (forall h, iface :: AllowedLine(lines, h, k) && PeerAddress(plan, lines[k].values, iface) ==>
          Gains(lines[k], out, iface))
    && (!AddressLine(lines, k) && (forall h :: !AllowedLine(lines, h, k)) ==> out == lines[k])
  }

  lemma MaintainedExact(plan: Plan, lines: seq<Line>, k: nat)
    requires k < |lines|
    ensures Migrated(plan, lines, k, Maintained(plan, lines, k))
  {
    var out := Maintained(plan, lines, k);
    AddressLineIff(lines, k);
    if AddressLine(lines, k) {
      GainsExact(lines[k], Server(plan));
    }
    forall h, iface | AllowedLine(lines, h, k) && PeerAddress(plan, lines[k].values, iface)
      ensures Gains(lines[k], out, iface)
    {
      AllowedLineIff(lines, h, k);
      ClientOfIff(plan, lines[k].values, iface);
      GainsExact(lines[k], iface);
    }
    if IsPeerLine(lines, k) {
      AllowedLineIff(lines, HeaderOf(lines, k), k);
    }
  }

  /** A blank assignment whose line ends: an address appended to it stands in front of the following line. */
  ghost predicate Blank(line: Line) { line.Assign? && line.values == [] && line.blank && line.nl != Absent }

  /** Unless the interface's Address line is blank, every line is migrated in its place. */
  lemma MigratesInPlace(plan: Plan, lines: seq<Line>, i: nat)
    requires Migrate(plan, lines).Some? && AddressLine(lines, i) && !Blank(lines[i])
    ensures
      var out := Migrate(plan, lines).value.0;
      |out| == |lines| && forall k: nat :: k < |lines| ==> Migrated(plan, lines, k, out[k])
  {
    AddressLineIff(lines, i);
    OneAddressLine(plan, lines, i);
    MigratedInPlace(plan, lines);
    forall k: nat | k < |lines| ensures Migrated(plan, lines, k, AllMaintained(plan, lines)[k]) {
      MaintainedExact(plan, lines, k);
    }
  }

  lemma OneAddressLine(plan: Plan, lines: seq<Line>, i: nat)
    requires Acceptable(plan, lines) && IsInterfaceLine(lines, i)
    ensures forall j :: IsInterfaceLine(lines, j) ==> j == i
  {
  }

  /** Otherwise the server's address is written in front of the next line, or behind the last. */
  lemma MigratesGlued(plan: Plan, lines: seq<Line>, i: nat)
    requires Migrate(plan, lines).Some? && AddressLine(lines, i) && Blank(lines[i])
    ensures
      var out, server := Migrate(plan, lines).value.0, V6(FirstOf(plan) + 1, 64);
      && |out| == (if i + 1 == |lines| then |lines| + 1 else |lines|)
      && out[i] == lines[i]
      && out[i + 1] == Glued(server, if i + 1 == |lines| then None else Some(lines[i + 1]))
      && forall k: nat :: k < |lines| && k != i && k != i + 1 ==> Migrated(plan, lines, k, out[k])
  {
    AddressLineIff(lines, i);
    OneAddressLine(plan, lines, i);
    var peers := PeersMigrated(plan, lines);
    assert Glues(peers[i]) && !Carries(peers[i].values, Server(plan));
    assert Migrate(plan, lines).value.0 == GlueAfter(peers, i, Server(plan));
    if i + 1 < |lines| {
      assert HeaderOf(lines, i + 1) == HeaderOf(lines, i) && !IsPeerLine(lines, i + 1);
    }
    forall k: nat | k < |lines| && k != i ensures Migrated(plan, lines, k, peers[k]) {
      PeersInPlace(plan, lines, i, k);
    }
  }

  lemma PeersInPlace(plan: Plan, lines: seq<Line>, i: nat, k: nat)
    requires forall j :: IsInterfaceLine(lines, j) ==> j == i
    requires k < |lines| && k != i
    ensures Migrated(plan, lines, k, PeersMigrated(plan, lines)[k])
  {
    MaintainedExact(plan, lines, k);
    assert !IsInterfaceLine(lines, k) && PeersMigrated(plan, lines)[k] == Maintained(plan, lines, k);
  }

  /** The line's own address, if it is one of the lines that get one. */
  ghost predicate OwnAddress(plan: Plan, lines: seq<Line>, k: nat, iface: Iface)
    requires k < |lines|
  {
    || (AddressLine(lines, k) && iface == V6(FirstOf(plan) + 1, 64))
    || ((exists h :: AllowedLine(lines, h, k)) && PeerAddress(plan, lines[k].values, iface))
  }

  lemma OwnAddressIff(plan: Plan, lines: seq<Line>, k: nat, iface: Iface)
    requires k < |lines|
    ensures Target(plan, lines, k) == Some(iface) <==> OwnAddress(plan, lines, k, iface)
  {
    AddressLineIff(lines, k);
    if lines[k].Assign? {
      ClientOfIff(plan, lines[k].values, iface);
    }
    if IsPeerLine(lines, k) {
      AllowedLineIff(lines, HeaderOf(lines, k), k);
    }
    if h :| AllowedLine(lines, h, k) {
      AllowedLineIff(lines, h, k);
    }
  }

  ghost predicate Missing(plan: Plan, lines: seq<Line>, k: nat) {
    k < |lines| && exists iface :: OwnAddress(plan, lines, k, iface) && !Has(lines[k].values, iface)
  }

  ghost predicate Own(plan: Plan, lines: seq<Line>, k: nat) {
    k < |lines| && exists iface :: OwnAddress(plan, lines, k, iface) && Has(lines[k].values, iface)
  }

  lemma MissingIff(plan: Plan, lines: seq<Line>, k: nat)
    requires k < |lines|
    ensures Lacks(plan, lines, k) <==> Missing(plan, lines, k)
    ensures Removes(plan, lines, k) <==> Own(plan, lines, k)
  {
    if Target(plan, lines, k).Some? {
      OwnAddressIff(plan, lines, k, Target(plan, lines, k).value);
      HasIff(lines[k].values, Target(plan, lines, k).value);
    }
    forall iface | OwnAddress(plan, lines, k, iface) ensures Target(plan, lines, k) == Some(iface) {
      OwnAddressIff(plan, lines, k, iface);
    }
  }

  /** The count of a migration is the number of lines that lack their address; of a stripping, of those that have it. */
  lemma CountsExact(plan: Plan, lines: seq<Line>)
    ensures Migrate(plan, lines).Some? ==>
      Migrate(plan, lines).value.1 == |set k: nat | k < |lines| && Missing(plan, lines, k)|
    ensures Strip(plan, lines).Some? ==>
      Strip(plan, lines).value.1 == |set k: nat | k < |lines| && Own(plan, lines, k)|
  {
    forall k: nat | k < |lines|
      ensures Lacks(plan, lines, k) <==> Missing(plan, lines, k)
      ensures Removes(plan, lines, k) <==> Own(plan, lines, k)
    {
      MissingIff(plan, lines, k);
    }
    assert Lacking(plan, lines) == set k: nat | k < |lines| && Missing(plan, lines, k);
    assert Removing(plan, lines) == set k: nat | k < |lines| && Own(plan, lines, k);
  }

  /******* Stripping *******/

  /** The entries that are not this address, in order. */
  ghost function Filtered(values: seq<Value>, iface: Iface): seq<Value> {
    if values == [] then []
    else (if ReadsAs(values[0], iface) then [] else [values[0]]) + Filtered(values[1..], iface)
  }

  lemma {:induction false} FilteredAppends(init: seq<Value>, v: Value, iface: Iface)
    ensures Filtered(init + [v], iface) == Filtered(init, iface) + if ReadsAs(v, iface) then [] else [v]
  {
    var all := init + [v];
    if init == [] {
      assert all[1..] == [] && Filtered(all[1..], iface) == [];
    } else {
      assert all[1..] == init[1..] + [v];
      FilteredAppends(init[1..], v, iface);
    }
  }

  lemma {:induction false} WithoutIsFiltered(values: seq<Value>, iface: Iface)
    ensures Without(values, iface) == Filtered(values, iface)
  {
    if values != [] {
      var init, last := values[..|values| - 1], values[|values| - 1];
      assert values == init + [last];
      WithoutIsFiltered(init, iface);
      FilteredAppends(init, last, iface);
    }
  }

  /** Stripping is refused for an unreadable entry, a peer without an address, or a list that would become empty. */
  ghost predicate LineStrips(plan: Plan, lines: seq<Line>, k: nat)
    requires k < |lines| && lines[k].Assign?
  {
    var values := lines[k].values;
    && Readable(values)
    && ((exists h :: AllowedLine(lines, h, k)) ==> exists iface :: PeerAddress(plan, values, iface))
    && forall iface :: OwnAddress(plan, lines, k, iface) && Has(values, iface) ==> Filtered(values, iface) != []
  }

  lemma LineStripsIff(plan: Plan, lines: seq<Line>, k: nat)
    requires k < |lines| && lines[k].Assign?
    ensures StripFits(plan, lines, k) <==> LineStrips(plan, lines, k)
  {
    var values, target := lines[k].values, Target(plan, lines, k);
    ReadableIff(values);
    if target.Some? {
      OwnAddressIff(plan, lines, k, target.value);
      HasIff(values, target.value);
      WithoutIsFiltered(values, target.value);
    }
    forall iface | OwnAddress(plan, lines, k, iface) ensures target == Some(iface) {
      OwnAddressIff(plan, lines, k, iface);
    }
    PeerReadIff(plan, lines, k);
  }

  lemma PeerReadIff(plan: Plan, lines: seq<Line>, k: nat)
    requires k < |lines| && lines[k].Assign?
    ensures (IsPeerLine(lines, k) ==> ClientOf(plan, lines[k].values).Some?) <==>
      ((exists h :: AllowedLine(lines, h, k)) ==> exists iface :: PeerAddress(plan, lines[k].values, iface))
  {
    var client := ClientOf(plan, lines[k].values);
    if client.Some? {
      ClientOfIff(plan, lines[k].values, client.value);
    }
    if iface :| PeerAddress(plan, lines[k].values, iface) {
      ClientOfIff(plan, lines[k].values, iface);
    }
    AllowedLineIff(lines, HeaderOf(lines, k), k);
    if h :| AllowedLine(lines, h, k) {
      AllowedLineIff(lines, h, k);
    }
  }

  /** A text is stripped exactly when the base is good and every assignment in it can be. */
  lemma StripsIff(plan: Plan, lines: seq<Line>)
    ensures Strip(plan, lines).Some? <==>
      && IsUlaBase(plan.base, plan.length)
      && forall k: nat :: k < |lines| && lines[k].Assign? ==> LineStrips(plan, lines, k)
  {
    forall k: nat | k < |lines| && lines[k].Assign? ensures StripFits(plan, lines, k) <==> LineStrips(plan, lines, k) {
      LineStripsIff(plan, lines, k);
    }
  }

  /** A stripped text: each line that has its own address loses it and nothing else; the others stay. */
  lemma StripsExact(plan: Plan, lines: seq<Line>, k: nat, iface: Iface)
    requires Strip(plan, lines).Some? && k < |lines|
    ensures |Strip(plan, lines).value.0| == |lines|
    ensures
      var out := Strip(plan, lines).value.0[k];
      && (!Own(plan, lines, k) ==> out == lines[k])
      && (OwnAddress(plan, lines, k, iface) && Has(lines[k].values, iface) ==>
            lines[k].Assign? && out == Assign(lines[k].key, Filtered(lines[k].values, iface), false, lines[k].nl))
  {
    MissingIff(plan, lines, k);
    OwnAddressIff(plan, lines, k, iface);
    if OwnAddress(plan, lines, k, iface) {
      HasIff(lines[k].values, iface);
      WithoutIsFiltered(lines[k].values, iface);
    }
  }
}
