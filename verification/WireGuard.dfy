/**
 Deterministic IPv6 addresses in WireGuard configurations (setup/root/antizapret/wireguard-ipv6.py): migrate_text adds
 one address to the interface and one to each peer, strip_text takes exactly these away again. A text is a sequence of
 lines; an assignment carries its list of addresses, and the spacing between them is not part of the model.
 */
module WireGuard {
  import opened Options
  import opened UlaBase

  datatype Mode = Antizapret | Vpn
  /** The base prefix as parsed, and the mode whose subnet is used. */
  datatype Plan = Plan(base: nat, length: nat, mode: Mode)

  datatype Iface = V4(addr: nat, length: nat) | V6(addr: nat, length: nat)
  /** One entry of a list: written by this program, or by somebody else and then perhaps no address at all. */
  datatype Value = Canonical(iface: Iface) | Spelled(text: string, parsed: Option<Iface>)

  datatype Key = Address | AllowedIPs
  datatype Section = Interface | Peer | OtherSection(name: string)
  datatype Newline = Absent | Lf | CrLf

  datatype Line =
    | Header(section: Section, text: string)
      // A blank assignment has nothing but white space after the equals sign.
    | Assign(key: Key, values: seq<Value>, blank: bool, nl: Newline)
    | Other(text: string)
      // What is left when an address is written in front of the following line.
    | Glued(address: Iface, following: Option<Line>)

  /******* Addresses *******/

  const FAKE_SUBNET := 0x29FF

  function Subnet(mode: Mode): nat { if mode == Antizapret then 0x2908 else 0x2808 }

  predicate GoodBase(plan: Plan) { IsUlaBase(plan.base, plan.length) }

  /** The low 80 bits of the base are clear, so the source's bitwise or is a sum. */
  function Network(plan: Plan): nat { plan.base + Subnet(plan.mode) * LOW_64 }

  function Server(plan: Plan): Iface { V6(Network(plan) + 1, 64) }

  function Client(plan: Plan, ipv4: nat): Option<Iface> {
    if 2 <= ipv4 % 256 <= 254 then Some(V6(Network(plan) + ipv4 % 256, 128)) else None
  }

  /** Two hosts of one mode get the same address exactly when their last octets agree, and never the server's. */
  lemma ClientsDiffer(plan: Plan, a: nat, b: nat)
    requires Client(plan, a).Some? && Client(plan, b).Some?
    ensures Client(plan, a).value.addr == Client(plan, b).value.addr <==> a % 256 == b % 256
    ensures a / 256 == b / 256 && a != b ==> Client(plan, a).value.addr != Client(plan, b).value.addr
    ensures Client(plan, a).value.addr != Server(plan).addr
    ensures Network(plan) <= Client(plan, a).value.addr < Network(plan) + LOW_64
  {
    assert a == 256 * (a / 256) + a % 256 && b == 256 * (b / 256) + b % 256;
  }

  /** The two modes and the fake network of one base lie in different /64 networks inside the /48. */
  lemma NetworksApart(base: nat)
    ensures
      var az, vpn, fake := Network(Plan(base, 48, Antizapret)), Network(Plan(base, 48, Vpn)),
        base + FAKE_SUBNET * LOW_64;
      vpn + LOW_64 <= az && az + LOW_64 <= fake && base <= vpn && fake + LOW_64 <= base + LOW_80
  {
  }

  /******* Lists of addresses *******/

  function Parsed(v: Value): Option<Iface> {
    match v
    case Canonical(iface) => Some(iface)
    case Spelled(_, parsed) => parsed
  }

  predicate AllParse(values: seq<Value>) { forall v :: v in values ==> Parsed(v).Some? }

  predicate HasV6(values: seq<Value>) { exists v :: v in values && Parsed(v).Some? && Parsed(v).value.V6? }

  predicate Carries(values: seq<Value>, iface: Iface) { exists v :: v in values && Parsed(v) == Some(iface) }

  /** The first IPv4 /32 of a list. */
  function FirstHost(values: seq<Value>): Option<nat> {
    if values == [] then None
    else
      match Parsed(values[0])
      case Some(V4(addr, 32)) => Some(addr)
      case _ => FirstHost(values[1..])
  }

  function ClientOf(plan: Plan, values: seq<Value>): Option<Iface> {
    match FirstHost(values)
    case None => None
    case Some(ipv4) => Client(plan, ipv4)
  }

  /** Nothing to do, or nothing in the way. */
  predicate Fits(values: seq<Value>, expected: Iface) {
    AllParse(values) && (Carries(values, expected) || !HasV6(values))
  }

  predicate PeerFits(plan: Plan, values: seq<Value>) {
    ClientOf(plan, values).Some? && Fits(values, ClientOf(plan, values).value)
  }

  function Without(values: seq<Value>, iface: Iface): seq<Value> {
    if values == [] then []
    else
      Without(values[..|values| - 1], iface) +
      if Parsed(values[|values| - 1]) == Some(iface) then [] else [values[|values| - 1]]
  }

  /******* Sections *******/

  /** The index of the last header before a line, or -1. */
  function HeaderOf(lines: seq<Line>, i: nat): (h: int)
    requires i <= |lines|
    ensures -1 <= h < i && (h >= 0 ==> lines[h].Header?)
    ensures forall k :: h < k < i ==> !lines[k].Header?
  {
    if i == 0 then -1 else if lines[i - 1].Header? then i - 1 else HeaderOf(lines, i - 1)
  }

  function SectionOf(lines: seq<Line>, i: nat): Option<Section>
    requires i <= |lines|
  {
    var h := HeaderOf(lines, i);
    if h < 0 then None else Some(lines[h].section)
  }

  predicate IsKeyLine(lines: seq<Line>, i: int, key: Key, section: Section) {
    0 <= i < |lines| && lines[i].Assign? && lines[i].key == key && SectionOf(lines, i) == Some(section)
  }

  predicate IsInterfaceLine(lines: seq<Line>, i: int) { IsKeyLine(lines, i, Address, Interface) }

  predicate IsPeerLine(lines: seq<Line>, i: int) { IsKeyLine(lines, i, AllowedIPs, Peer) }

  predicate IsPeerHeader(lines: seq<Line>, h: int) {
    0 <= h < |lines| && lines[h].Header? && lines[h].section == Peer
  }

  predicate InBlock(lines: seq<Line>, h: int, k: int) { IsPeerLine(lines, k) && HeaderOf(lines, k) == h }

  /** A peer has exactly one AllowedIPs line, and that line can carry its address. */
  ghost predicate BlockGood(plan: Plan, lines: seq<Line>, h: int) {
    exists k :: InBlock(lines, h, k) && PeerFits(plan, lines[k].values) && forall j :: InBlock(lines, h, j) ==> j == k
  }

  ghost predicate PeersGood(plan: Plan, lines: seq<Line>, end: int) {
    forall h :: IsPeerHeader(lines, h) && h < end ==> BlockGood(plan, lines, h)
  }

  ghost predicate InterfaceGood(plan: Plan, lines: seq<Line>) {
    exists i ::
      && IsInterfaceLine(lines, i) && Fits(lines[i].values, Server(plan))
      && forall j :: IsInterfaceLine(lines, j) ==> j == i
  }

  ghost predicate Acceptable(plan: Plan, lines: seq<Line>) {
    GoodBase(plan) && PeersGood(plan, lines, |lines|) && InterfaceGood(plan, lines)
  }

  /******* Migration *******/

  /** The address that this program keeps on a line. */
  function Target(plan: Plan, lines: seq<Line>, i: nat): Option<Iface>
    requires i < |lines|
  {
    if IsInterfaceLine(lines, i) then Some(Server(plan))
    else if IsPeerLine(lines, i) then ClientOf(plan, lines[i].values)
    else None
  }

  function WithAddress(line: Line, iface: Iface): Line
    requires line.Assign?
  {
    if Carries(line.values, iface) then line
    else Assign(line.key, line.values + [Canonical(iface)], false, line.nl)
  }

  function Maintained(plan: Plan, lines: seq<Line>, i: nat): Line
    requires i < |lines|
  {
    var target := Target(plan, lines, i);
    if target.None? then lines[i] else WithAddress(lines[i], target.value)
  }

  predicate Lacks(plan: Plan, lines: seq<Line>, i: nat) {
    i < |lines| && Target(plan, lines, i).Some? && !Carries(lines[i].values, Target(plan, lines, i).value)
  }

  function Lacking(plan: Plan, lines: seq<Line>): set<nat> {
    set i: nat | i < |lines| && Lacks(plan, lines, i)
  }

  /** The separator of a blank assignment swallows the line's end, so an appended address begins a new line. */
  predicate Glues(line: Line) { line.Assign? && line.values == [] && line.blank && line.nl != Absent }

  function GlueAfter(lines: seq<Line>, i: nat, iface: Iface): seq<Line>
    requires i < |lines|
  {
    if i + 1 == |lines| then lines + [Glued(iface, None)]
    else lines[..i + 1] + [Glued(iface, Some(lines[i + 1]))] + lines[i + 2..]
  }

  function AppendServer(plan: Plan, lines: seq<Line>, i: nat): seq<Line>
    requires i < |lines| && lines[i].Assign?
  {
    if Carries(lines[i].values, Server(plan)) then lines
    else if Glues(lines[i]) then GlueAfter(lines, i, Server(plan))
    else lines[i := WithAddress(lines[i], Server(plan))]
  }

  function PeersMigrated(plan: Plan, lines: seq<Line>): (out: seq<Line>)
    ensures |out| == |lines|
    ensures forall k :: 0 <= k < |lines| ==>
      out[k] == if IsPeerLine(lines, k) then Maintained(plan, lines, k) else lines[k]
  {
    seq(|lines|, k requires 0 <= k < |lines| => if IsPeerLine(lines, k) then Maintained(plan, lines, k) else lines[k])
  }

  /** The migrated text and the number of addresses added; nothing when the text is refused. */
  ghost function Migrate(plan: Plan, lines: seq<Line>): Option<(seq<Line>, nat)> {
    if !Acceptable(plan, lines) then None
    else
      var i :| IsInterfaceLine(lines, i);
      Some((AppendServer(plan, PeersMigrated(plan, lines), i), |Lacking(plan, lines)|))
  }

  /******* Stripping *******/

  predicate StripFits(plan: Plan, lines: seq<Line>, i: nat)
    requires i < |lines|
  {
    lines[i].Assign? ==>
      && AllParse(lines[i].values)
      && (IsPeerLine(lines, i) ==> ClientOf(plan, lines[i].values).Some?)
      && var target := Target(plan, lines, i);
         target.Some? && Carries(lines[i].values, target.value) ==> Without(lines[i].values, target.value) != []
  }

  function Stripped(plan: Plan, lines: seq<Line>, i: nat): Line
    requires i < |lines|
  {
    var target := Target(plan, lines, i);
    if target.None? || !Carries(lines[i].values, target.value) then lines[i]
    else Assign(lines[i].key, Without(lines[i].values, target.value), false, lines[i].nl)
  }

  predicate Removes(plan: Plan, lines: seq<Line>, i: nat) {
    i < |lines| && Target(plan, lines, i).Some? && Carries(lines[i].values, Target(plan, lines, i).value)
  }

  function Removing(plan: Plan, lines: seq<Line>): set<nat> {
    set i: nat | i < |lines| && Removes(plan, lines, i)
  }

  predicate Strippable(plan: Plan, lines: seq<Line>) {
    GoodBase(plan) && forall i :: 0 <= i < |lines| ==> StripFits(plan, lines, i)
  }

  function AllStripped(plan: Plan, lines: seq<Line>): (out: seq<Line>)
    ensures |out| == |lines| && forall k :: 0 <= k < |lines| ==> out[k] == Stripped(plan, lines, k)
  {
    seq(|lines|, k requires 0 <= k < |lines| => Stripped(plan, lines, k))
  }

  ghost function Strip(plan: Plan, lines: seq<Line>): Option<(seq<Line>, nat)> {
    if !Strippable(plan, lines) then None else Some((AllStripped(plan, lines), |Removing(plan, lines)|))
  }

  /******* The procedures *******/

  lemma {:induction false} HeadersGrow(lines: seq<Line>, i: nat, j: nat)
    requires i <= j <= |lines|
    ensures HeaderOf(lines, i) <= HeaderOf(lines, j)
    ensures HeaderOf(lines, j) < i ==> HeaderOf(lines, j) == HeaderOf(lines, i)
  {
    if i < j {
      HeadersGrow(lines, i, j - 1);
    }
  }

  /** At a header or at the end, the open peer block is complete. */
  lemma BlockCloses(plan: Plan, lines: seq<Line>, end: nat, found: Option<nat>)
    requires end <= |lines| && (end == |lines| || lines[end].Header?)
    requires SectionOf(lines, end) == Some(Peer)
    requires forall k: nat :: InBlock(lines, HeaderOf(lines, end), k) && k < end <==> found == Some(k)
    requires found.Some? ==> InBlock(lines, HeaderOf(lines, end), found.value)
    ensures BlockGood(plan, lines, HeaderOf(lines, end)) <==> found.Some? && PeerFits(plan, lines[found.value].values)
  {
    var h := HeaderOf(lines, end);
    assert forall k: nat :: InBlock(lines, h, k) ==> k < end;
    if BlockGood(plan, lines, h) {
      var k :| InBlock(lines, h, k) && PeerFits(plan, lines[k].values) && forall j :: InBlock(lines, h, j) ==> j == k;
      assert found == Some(k);
    }
  }

  predicate Done(lines: seq<Line>, k: nat, header: int) {
    k < header && IsPeerLine(lines, k)
  }

  /** The lines once every peer above a header is migrated. */
  ghost predicate MigratedAbove(plan: Plan, lines: seq<Line>, out: seq<Line>, header: int) {
    |out| == |lines| &&
    forall k :: 0 <= k < |lines| ==> out[k] == if Done(lines, k, header) then Maintained(plan, lines, k) else lines[k]
  }

  function LackingAbove(plan: Plan, lines: seq<Line>, header: int): set<nat> {
    set i: nat | i < |lines| && Lacks(plan, lines, i) && Done(lines, i, header)
  }

  lemma PeerClosed(plan: Plan, lines: seq<Line>, end: nat, found: nat)
    requires end <= |lines| && SectionOf(lines, end) == Some(Peer)
    requires forall k :: InBlock(lines, HeaderOf(lines, end), k) && k < end <==> k == found
    ensures forall k: nat :: Done(lines, k, end) <==> Done(lines, k, HeaderOf(lines, end)) || k == found
    ensures LackingAbove(plan, lines, end) ==
      LackingAbove(plan, lines, HeaderOf(lines, end)) + if Lacks(plan, lines, found) then {found} else {}
  {
    var h := HeaderOf(lines, end);
    assert InBlock(lines, h, found) && found < end;
    forall k: nat | Done(lines, k, end) ensures Done(lines, k, h) || k == found {
      if k > h {
        HeadersGrow(lines, k, end);
        HeadersGrow(lines, h + 1, k);
        assert InBlock(lines, h, k);
      }
    }
  }

  lemma NoPeerClosed(plan: Plan, lines: seq<Line>, end: nat)
    requires end <= |lines| && SectionOf(lines, end) != Some(Peer)
    ensures forall k: nat :: Done(lines, k, end) <==> Done(lines, k, HeaderOf(lines, end))
    ensures LackingAbove(plan, lines, end) == LackingAbove(plan, lines, HeaderOf(lines, end))
  {
    var h := HeaderOf(lines, end);
    forall k: nat | Done(lines, k, end) ensures Done(lines, k, h) {
      if k > h {
        HeadersGrow(lines, h + 1, k);
        HeadersGrow(lines, k, end);
      }
    }
  }
}
