/**
 Reconciling an OpenVPN server configuration with the managed IPv6 set-up (setup/root/antizapret/openvpn-ipv6.py,
 reconcile_text). A text is a sequence of lines, each classified by its active directive and with its own terminator.
 */
module OpenVpn {
  import opened Options
  import opened UlaBase

  datatype Mode = AntizapretUdp | AntizapretTcp | VpnUdp | VpnTcp
  /** The base prefix as parsed, and the mode whose subnet and protocols are used. */
  datatype Plan = Plan(base: nat, length: nat, mode: Mode)

  datatype ProtoName = Udp4 | Udp | Udp6 | Tcp4 | TcpServer | Tcp6Server | Tcp4Server | Unmanaged(name: string)

  datatype Kind =
      // No value unless the directive has exactly one argument; no extra text when spelled as this program spells it.
    | Proto(value: Option<ProtoName>, extra: string)
      // What stands before the word and behind it: arguments, blanks or a comment, or nothing at all.
    | Server(indent: string, rest: string)
    | BindIpv6Only(text: string)
    | Local(text: string)
      // The network is known only when the directive is spelled as this program spells it, up to surrounding space.
    | ServerIpv6(net: Option<nat>, text: string)
    | Ipv6Redirect(padding: string)
    | Def1Redirect(text: string)
    | Other(text: string)
      // A directive written directly behind an unterminated line.
    | Joined(first: Kind, second: Kind)

  datatype Eol = Absent | Lf | CrLf
  datatype Line = Line(kind: Kind, eol: Eol)

  /******* Modes *******/

  predicate IsTcp(mode: Mode) { mode == AntizapretTcp || mode == VpnTcp }

  predicate FullVpn(mode: Mode) { mode == VpnUdp || mode == VpnTcp }

  function Subnet(mode: Mode): nat {
    match mode
    case AntizapretUdp => 0x2900
    case AntizapretTcp => 0x2904
    case VpnUdp => 0x2800
    case VpnTcp => 0x2804
  }

  function Ipv4Proto(mode: Mode): ProtoName { if IsTcp(mode) then Tcp4 else Udp4 }
  function NeutralProto(mode: Mode): ProtoName { if IsTcp(mode) then TcpServer else Udp }
  function Ipv6Proto(mode: Mode): ProtoName { if IsTcp(mode) then Tcp6Server else Udp6 }

  /** Server mode also accepts the spelling tcp4-server. */
  predicate ManagedProto(mode: Mode, p: ProtoName) {
    p in {Ipv4Proto(mode), NeutralProto(mode), Ipv6Proto(mode)} || (IsTcp(mode) && p == Tcp4Server)
  }

  function TargetProto(mode: Mode, enable: bool): ProtoName { if enable then Ipv6Proto(mode) else Ipv4Proto(mode) }

  function Network(plan: Plan): nat { plan.base + Subnet(plan.mode) * LOW_64 }

  /******* Classes of lines *******/

  datatype Class =
    | ProtoLine | ServerLine | BindLine | LocalLine | OwnServer | OtherServer | OwnRedirect | Def1Line
    | ProtoIs(value: Option<ProtoName>) | Exactly(line: Line)

  predicate IsBareServer(kind: Kind) { kind.Server? && kind.rest == "" }

  /** The directive that a line begins with; what is written behind a bare word makes it another word. */
  function Lead(kind: Kind): Kind {
    if !kind.Joined? then kind
    else
      var lead := Lead(kind.first);
      if IsBareServer(lead) then Other("server") else lead
  }

  function ProtoOf(line: Line): Option<ProtoName> { if line.kind.Proto? then line.kind.value else None }

  predicate Is(plan: Plan, c: Class, line: Line) {
    match c
    case ProtoLine => Lead(line.kind).Proto?
    case ServerLine => Lead(line.kind).Server?
    case BindLine => Lead(line.kind).BindIpv6Only?
    case LocalLine => Lead(line.kind).Local?
    case OwnServer => line.kind.ServerIpv6? && line.kind.net == Some(Network(plan))
    case OtherServer => Lead(line.kind).ServerIpv6? && !(line.kind.ServerIpv6? && line.kind.net == Some(Network(plan)))
    case OwnRedirect => line.kind.Ipv6Redirect?
    case Def1Line => Lead(line.kind).Def1Redirect?
    case ProtoIs(value) => Lead(line.kind).Proto? && ProtoOf(line) == value
    case Exactly(other) => line == other
  }

  function Count(plan: Plan, c: Class, lines: seq<Line>): nat {
    if lines == [] then 0
    else Count(plan, c, lines[..|lines| - 1]) + if Is(plan, c, lines[|lines| - 1]) then 1 else 0
  }

  /** The index of the first line of a class, or the number of lines. */
  function First(plan: Plan, c: Class, lines: seq<Line>): (i: nat)
    ensures i <= |lines|
    ensures i < |lines| ==> Is(plan, c, lines[i])
    ensures forall k :: 0 <= k < i ==> !Is(plan, c, lines[k])
  {
    if lines == [] || Is(plan, c, lines[0]) then 0
    else
      var i := First(plan, c, lines[1..]);
      assert forall k :: 0 < k < i + 1 ==> lines[k] == lines[1..][k - 1];
      i + 1
  }

  /******* Editing *******/

  function Terminated(eol: Eol): Eol { if eol == CrLf then CrLf else Lf }

  function WithProtoLine(line: Line, target: ProtoName): Line {
    if Lead(line.kind).Proto? && ProtoOf(line) != Some(target) then Line(Proto(Some(target), ""), Terminated(line.eol))
    else line
  }

  function WithProto(lines: seq<Line>, target: ProtoName): (out: seq<Line>)
    ensures |out| == |lines|
  {
    if lines == [] then [] else WithProto(lines[..|lines| - 1], target) + [WithProtoLine(lines[|lines| - 1], target)]
  }

  /** list.insert behind line i, as the joined text reads: behind an unterminated line the two become one. */
  function InsertAfter(lines: seq<Line>, i: nat, kind: Kind): seq<Line>
    requires i < |lines|
  {
    var eol := Terminated(lines[i].eol);
    if lines[i].eol == Absent then lines[i := Line(Joined(lines[i].kind, kind), eol)]
    else lines[..i + 1] + [Line(kind, eol)] + lines[i + 1..]
  }

  function Drop(plan: Plan, c: Class, lines: seq<Line>): seq<Line> {
    if lines == [] then []
    else Drop(plan, c, lines[..|lines| - 1]) + if Is(plan, c, lines[|lines| - 1]) then [] else [lines[|lines| - 1]]
  }

  function OwnServerKind(plan: Plan): Kind { ServerIpv6(Some(Network(plan)), "") }

  const OWN_REDIRECT := Ipv6Redirect("")

  /******* Reconciling *******/

  /** Exactly one protocol line with a managed value, and exactly one IPv4 server line. */
  predicate HeadAccepted(plan: Plan, lines: seq<Line>) {
    && IsUlaBase(plan.base, plan.length)
    && Count(plan, ProtoLine, lines) == 1 && Count(plan, ServerLine, lines) == 1
    && var proto := First(plan, ProtoLine, lines);
       proto < |lines| && ProtoOf(lines[proto]).Some? && ManagedProto(plan.mode, ProtoOf(lines[proto]).value)
  }

  /** Nothing managed twice, no foreign server-ipv6, and a line to anchor the redirect. */
  predicate ManagedAccepted(plan: Plan, lines: seq<Line>, enable: bool) {
    && Count(plan, OwnServer, lines) <= 1 && Count(plan, OtherServer, lines) == 0
    && (FullVpn(plan.mode) ==>
          && Count(plan, OwnRedirect, lines) <= 1
          && (enable && Count(plan, OwnRedirect, lines) == 0 ==> Count(plan, Def1Line, lines) > 0))
  }

  predicate Accepts(plan: Plan, lines: seq<Line>, enable: bool) {
    && HeadAccepted(plan, lines)
    && Count(plan, BindLine, lines) == 0 && (enable ==> Count(plan, LocalLine, lines) == 0)
    && ManagedAccepted(plan, lines, enable)
  }

  /** The line below which a managed line is inserted, if one is. */
  function ServerStep(plan: Plan, lines: seq<Line>, enable: bool): seq<Line> {
    if !enable then Drop(plan, OwnServer, lines)
    else if Count(plan, OwnServer, lines) > 0 || First(plan, ServerLine, lines) == |lines| then lines
    else InsertAfter(lines, First(plan, ServerLine, lines), OwnServerKind(plan))
  }

  function RedirectStep(plan: Plan, lines: seq<Line>, enable: bool): seq<Line> {
    if !FullVpn(plan.mode) then lines
    else if !enable then Drop(plan, OwnRedirect, lines)
    else if Count(plan, OwnRedirect, lines) > 0 || First(plan, Def1Line, lines) == |lines| then lines
    else InsertAfter(lines, First(plan, Def1Line, lines), OWN_REDIRECT)
  }

  /** How many managed lines are inserted or dropped. */
  function ManagedChanges(plan: Plan, lines: seq<Line>, enable: bool): nat
    requires ManagedAccepted(plan, lines, enable)
  {
    (if enable then 1 - Count(plan, OwnServer, lines) else Count(plan, OwnServer, lines)) +
    (if !FullVpn(plan.mode) then 0
     else if enable then 1 - Count(plan, OwnRedirect, lines) else Count(plan, OwnRedirect, lines))
  }

  function Changes(plan: Plan, lines: seq<Line>, enable: bool): nat
    requires Accepts(plan, lines, enable)
  {
    (if ProtoOf(lines[First(plan, ProtoLine, lines)]) != Some(TargetProto(plan.mode, enable)) then 1 else 0) +
    ManagedChanges(plan, lines, enable)
  }

  function Edited(plan: Plan, lines: seq<Line>, enable: bool): seq<Line> {
    RedirectStep(plan, ServerStep(plan, WithProto(lines, TargetProto(plan.mode, enable)), enable), enable)
  }

  /** The reconciled text and the number of changed directives; nothing when the text is refused. */
  function Reconcile(plan: Plan, lines: seq<Line>, enable: bool): Option<(seq<Line>, nat)> {
    if !Accepts(plan, lines, enable) then None else Some((Edited(plan, lines, enable), Changes(plan, lines, enable)))
  }

  /******* Counting *******/

  lemma {:induction false} CountSplits(plan: Plan, c: Class, a: seq<Line>, b: seq<Line>)
    ensures Count(plan, c, a + b) == Count(plan, c, a) + Count(plan, c, b)
  {
    if b == [] {
      assert a + b == a;
    } else {
      assert (a + b)[..|a + b| - 1] == a + b[..|b| - 1];
      CountSplits(plan, c, a, b[..|b| - 1]);
    }
  }

  lemma {:induction false} CountOne(plan: Plan, c: Class, line: Line)
    ensures Count(plan, c, [line]) == if Is(plan, c, line) then 1 else 0
  {
    assert [line][..0] == [];
  }

  lemma CountAround(plan: Plan, c: Class, lines: seq<Line>, i: nat)
    requires i < |lines|
    ensures
      Count(plan, c, lines) ==
      Count(plan, c, lines[..i]) + (if Is(plan, c, lines[i]) then 1 else 0) + Count(plan, c, lines[i + 1..])
  {
    assert lines == lines[..i] + [lines[i]] + lines[i + 1..];
    CountSplits(plan, c, lines[..i] + [lines[i]], lines[i + 1..]);
    CountSplits(plan, c, lines[..i], [lines[i]]);
    CountOne(plan, c, lines[i]);
  }

  lemma {:induction false} CountZero(plan: Plan, c: Class, lines: seq<Line>)
    ensures Count(plan, c, lines) == 0 <==> forall k :: 0 <= k < |lines| ==> !Is(plan, c, lines[k])
    ensures Count(plan, c, lines) == 0 <==> First(plan, c, lines) == |lines|
  {
    if lines != [] {
      var init := lines[..|lines| - 1];
      CountZero(plan, c, init);
      assert forall k :: 0 <= k < |init| ==> init[k] == lines[k];
    }
  }

  lemma CountReplaced(plan: Plan, c: Class, lines: seq<Line>, i: nat, line: Line)
    requires i < |lines|
    ensures
      Count(plan, c, lines[i := line]) ==
      Count(plan, c, lines) - (if Is(plan, c, lines[i]) then 1 else 0) + (if Is(plan, c, line) then 1 else 0)
  {
    var out := lines[i := line];
    assert out[..i] == lines[..i] && out[i + 1..] == lines[i + 1..];
    CountAround(plan, c, lines, i);
    CountAround(plan, c, out, i);
  }

  lemma CountSpliced(plan: Plan, c: Class, a: seq<Line>, line: Line, b: seq<Line>)
    ensures Count(plan, c, a + [line] + b) == Count(plan, c, a + b) + if Is(plan, c, line) then 1 else 0
  {
    CountSplits(plan, c, a + [line], b);
    CountSplits(plan, c, a, [line]);
    CountSplits(plan, c, a, b);
    CountOne(plan, c, line);
  }

  /** After an insertion: one more of the class of the new line, or one line glued onto another. */
  lemma CountInserted(plan: Plan, c: Class, lines: seq<Line>, i: nat, kind: Kind)
    requires i < |lines|
    ensures
      var out, eol := InsertAfter(lines, i, kind), Terminated(lines[i].eol);
      Count(plan, c, out) ==
        if lines[i].eol != Absent then Count(plan, c, lines) + if Is(plan, c, Line(kind, eol)) then 1 else 0
        else
          Count(plan, c, lines) - (if Is(plan, c, lines[i]) then 1 else 0) +
          (if Is(plan, c, Line(Joined(lines[i].kind, kind), eol)) then 1 else 0)
  {
    var eol := Terminated(lines[i].eol);
    if lines[i].eol == Absent {
      CountReplaced(plan, c, lines, i, Line(Joined(lines[i].kind, kind), eol));
    } else {
      assert lines == lines[..i + 1] + lines[i + 1..];
      CountSpliced(plan, c, lines[..i + 1], Line(kind, eol), lines[i + 1..]);
    }
  }

  /** Dropping a class leaves none of it, and keeps every class that shares no line with it. */
  lemma {:induction false} CountDropped(plan: Plan, c: Class, d: Class, lines: seq<Line>)
    requires d == c || forall line :: Is(plan, d, line) ==> !Is(plan, c, line)
    ensures Count(plan, c, Drop(plan, d, lines)) == if c == d then 0 else Count(plan, c, lines)
  {
    if lines != [] {
      var init, last := lines[..|lines| - 1], lines[|lines| - 1];
      CountDropped(plan, c, d, init);
      CountSplits(plan, c, Drop(plan, d, init), if Is(plan, d, last) then [] else [last]);
      CountOne(plan, c, last);
    }
  }

  lemma {:induction false} DropNone(plan: Plan, c: Class, lines: seq<Line>)
    requires Count(plan, c, lines) == 0
    ensures Drop(plan, c, lines) == lines
  {
    if lines != [] {
      DropNone(plan, c, lines[..|lines| - 1]);
    }
  }

  /** Setting the protocol keeps every class whose membership does not depend on it. */
  lemma {:induction false} CountWithProto(plan: Plan, c: Class, lines: seq<Line>, target: ProtoName)
    requires forall line :: line in lines ==> Is(plan, c, line) == Is(plan, c, WithProtoLine(line, target))
    ensures Count(plan, c, WithProto(lines, target)) == Count(plan, c, lines)
  {
    if lines != [] {
      var init, last := lines[..|lines| - 1], lines[|lines| - 1];
      assert lines == init + [last];
      CountWithProto(plan, c, init, target);
      assert WithProto(lines, target)[..|WithProto(lines, target)| - 1] == WithProto(init, target);
    }
  }

  lemma {:induction false} WithProtoEach(lines: seq<Line>, target: ProtoName)
    ensures forall k :: 0 <= k < |lines| ==> WithProto(lines, target)[k] == WithProtoLine(lines[k], target)
  {
    if lines != [] {
      WithProtoEach(lines[..|lines| - 1], target);
    }
  }
}
