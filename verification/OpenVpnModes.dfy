/** The constants and refusals of openvpn-ipv6.py, mode by mode, and where the managed lines stand. */
module OpenVpnModes {
  import opened Options
  import opened UlaBase
  import opened OpenVpn
  import opened OpenVpnLaws

  /******* The four modes *******/

  /** Subnet, the three protocols and the redirect of each mode. */
  lemma ModesExact(plan: Plan, mode: Mode)
    requires plan.mode == mode
    ensures
      match mode
      case AntizapretUdp =>
        && Network(plan) == plan.base + 10496 * 18446744073709551616 && !FullVpn(mode)
        && Ipv4Proto(mode) == Udp4 && NeutralProto(mode) == Udp && Ipv6Proto(mode) == Udp6
      case AntizapretTcp =>
        && Network(plan) == plan.base + 10500 * 18446744073709551616 && !FullVpn(mode)
        && Ipv4Proto(mode) == Tcp4 && NeutralProto(mode) == TcpServer && Ipv6Proto(mode) == Tcp6Server
      case VpnUdp =>
        && Network(plan) == plan.base + 10240 * 18446744073709551616 && FullVpn(mode)
        && Ipv4Proto(mode) == Udp4 && NeutralProto(mode) == Udp && Ipv6Proto(mode) == Udp6
      case VpnTcp =>
        && Network(plan) == plan.base + 10244 * 18446744073709551616 && FullVpn(mode)
        && Ipv4Proto(mode) == Tcp4 && NeutralProto(mode) == TcpServer && Ipv6Proto(mode) == Tcp6Server
  {
  }

  lemma ManagedProtoIff(mode: Mode, p: ProtoName)
    ensures ManagedProto(mode, p) <==>
      match mode
      case AntizapretUdp => p == Udp4 || p == Udp || p == Udp6
      case VpnUdp => p == Udp4 || p == Udp || p == Udp6
      case AntizapretTcp => p == Tcp4 || p == TcpServer || p == Tcp6Server || p == Tcp4Server
      case VpnTcp => p == Tcp4 || p == TcpServer || p == Tcp6Server || p == Tcp4Server
  {
  }

  /** The networks of different modes of one base are different. */
  lemma NetworksDiffer(a: Plan, b: Plan)
    requires a.base == b.base && a.mode != b.mode
    ensures Network(a) + 18446744073709551616 <= Network(b) || Network(b) + 18446744073709551616 <= Network(a)
  {
    ModesExact(a, a.mode);
    ModesExact(b, b.mode);
  }

  /******* What is refused *******/

  /** Which lines each class takes, said of the directive a line begins with. */
  lemma ClassesExact(plan: Plan, line: Line)
    ensures Is(plan, ProtoLine, line) <==> Lead(line.kind).Proto?
    ensures Is(plan, ServerLine, line) <==> Lead(line.kind).Server?
    ensures Is(plan, BindLine, line) <==> Lead(line.kind).BindIpv6Only?
    ensures Is(plan, LocalLine, line) <==> Lead(line.kind).Local?
    ensures Is(plan, Def1Line, line) <==> Lead(line.kind).Def1Redirect?
    ensures Is(plan, OwnRedirect, line) <==> line.kind.Ipv6Redirect?
    ensures Is(plan, OwnServer, line) <==> line.kind.ServerIpv6? && line.kind.net == Some(Network(plan))
    ensures Is(plan, OtherServer, line) <==> Lead(line.kind).ServerIpv6? && !Is(plan, OwnServer, line)
    ensures !line.kind.Joined? ==> Lead(line.kind) == line.kind
    ensures line.kind.Joined? && !line.kind.first.Joined? ==>
      if line.kind.first.Server? && line.kind.first.rest == ""
      then !Lead(line.kind).Server? && Lead(line.kind).Other? else Lead(line.kind) == line.kind.first
  {
  }

  ghost predicate Never(plan: Plan, c: Class, lines: seq<Line>) {
    forall i :: 0 <= i < |lines| ==> !Is(plan, c, lines[i])
  }

  ghost predicate Once(plan: Plan, c: Class, lines: seq<Line>) {
    exists i :: 0 <= i < |lines| && Is(plan, c, lines[i]) &&
      forall j :: 0 <= j < |lines| && Is(plan, c, lines[j]) ==> j == i
  }

  lemma TailNever(plan: Plan, c: Class, lines: seq<Line>, i: nat)
    requires i < |lines|
    ensures Count(plan, c, lines[i + 1..]) == 0 <==> forall j :: i < j < |lines| ==> !Is(plan, c, lines[j])
  {
    var tail := lines[i + 1..];
    CountZero(plan, c, tail);
    assert forall k :: 0 <= k < |tail| ==> tail[k] == lines[i + 1 + k];
    forall j | i < j < |lines| ensures lines[j] == tail[j - i - 1] {
    }
  }

  lemma CountFromFirst(plan: Plan, c: Class, lines: seq<Line>, i: nat)
    requires i < |lines| && Is(plan, c, lines[i]) && forall k :: 0 <= k < i ==> !Is(plan, c, lines[k])
    ensures Count(plan, c, lines) >= 1
    ensures Count(plan, c, lines) == 1 <==> forall j :: i < j < |lines| ==> !Is(plan, c, lines[j])
  {
    CountAround(plan, c, lines, i);
    CountZero(plan, c, lines[..i]);
    assert forall k :: 0 <= k < i ==> lines[..i][k] == lines[k];
    TailNever(plan, c, lines, i);
  }

  lemma CountOnceIff(plan: Plan, c: Class, lines: seq<Line>)
    ensures Count(plan, c, lines) == 0 <==> Never(plan, c, lines)
    ensures Count(plan, c, lines) == 1 <==> Once(plan, c, lines)
  {
    CountZero(plan, c, lines);
    var i := First(plan, c, lines);
    if i < |lines| {
      CountFromFirst(plan, c, lines, i);
    }
  }

  ghost predicate BaseFine(plan: Plan) {
    && plan.length == 48 && plan.base % 0x1_0000_0000_0000_0000_0000 == 0
    && 0xfc00_0000_0000_0000_0000_0000_0000_0000 <= plan.base < 0xfe00_0000_0000_0000_0000_0000_0000_0000
  }

  /** One protocol line of a managed value, one IPv4 server line, and nothing in the way of a dual-stack listener. */
  ghost predicate HeadFine(plan: Plan, lines: seq<Line>, enable: bool) {
    && Once(plan, ProtoLine, lines)
    && (exists i :: 0 <= i < |lines| && lines[i].kind.Proto? && lines[i].kind.value.Some?
                    && ManagedProto(plan.mode, lines[i].kind.value.value))
    && Once(plan, ServerLine, lines)
    && Never(plan, BindLine, lines)
    && (enable ==> Never(plan, LocalLine, lines))
  }

  /** No managed line twice, no foreign server-ipv6, and for a redirect to be added a line to put it behind. */
  ghost predicate ManagedFine(plan: Plan, lines: seq<Line>, enable: bool) {
    && (Never(plan, OwnServer, lines) || Once(plan, OwnServer, lines))
    && Never(plan, OtherServer, lines)
    && (FullVpn(plan.mode) ==>
          && (Never(plan, OwnRedirect, lines) || Once(plan, OwnRedirect, lines))
          && (enable && Never(plan, OwnRedirect, lines) ==> !Never(plan, Def1Line, lines)))
  }

  lemma HeadFineIff(plan: Plan, lines: seq<Line>, enable: bool)
    requires BaseFine(plan)
    ensures
      HeadAccepted(plan, lines) && Count(plan, BindLine, lines) == 0 &&
        (enable ==> Count(plan, LocalLine, lines) == 0) <==>
      HeadFine(plan, lines, enable)
  {
    CountOnceIff(plan, ProtoLine, lines);
    CountOnceIff(plan, ServerLine, lines);
    CountOnceIff(plan, BindLine, lines);
    CountOnceIff(plan, LocalLine, lines);
    BaseIff(plan);
    if Count(plan, ProtoLine, lines) == 1 {
      ProtoValueIff(plan, lines);
    }
  }

  lemma ManagedFineIff(plan: Plan, lines: seq<Line>, enable: bool)
    ensures ManagedAccepted(plan, lines, enable) <==> ManagedFine(plan, lines, enable)
  {
    CountOnceIff(plan, OwnServer, lines);
    CountOnceIff(plan, OtherServer, lines);
    CountOnceIff(plan, OwnRedirect, lines);
    CountOnceIff(plan, Def1Line, lines);
  }

  /** A text is reconciled exactly with a good base, a fine head and fine managed lines. */
  lemma AcceptsIff(plan: Plan, lines: seq<Line>, enable: bool)
    ensures Reconcile(plan, lines, enable).Some? <==>
      BaseFine(plan) && HeadFine(plan, lines, enable) && ManagedFine(plan, lines, enable)
  {
    BaseIff(plan);
    ManagedFineIff(plan, lines, enable);
    if BaseFine(plan) {
      HeadFineIff(plan, lines, enable);
    }
  }

  lemma BaseIff(plan: Plan)
    ensures IsUlaBase(plan.base, plan.length) <==> BaseFine(plan)
  {
  }

  lemma ProtoValueIff(plan: Plan, lines: seq<Line>)
    requires Count(plan, ProtoLine, lines) == 1
    ensures
      var proto := First(plan, ProtoLine, lines);
      (proto < |lines| && ProtoOf(lines[proto]).Some? && ManagedProto(plan.mode, ProtoOf(lines[proto]).value)) <==>
      exists i :: 0 <= i < |lines| && lines[i].kind.Proto? && lines[i].kind.value.Some?
                  && ManagedProto(plan.mode, lines[i].kind.value.value)
  {
    OnlyProto(plan, lines);
    if i :| 0 <= i < |lines| && lines[i].kind.Proto? && lines[i].kind.value.Some?
            && ManagedProto(plan.mode, lines[i].kind.value.value) {
      assert Is(plan, ProtoLine, lines[i]);
    }
  }

  /** How many directives are changed: the protocol unless it is the wished one, and each managed line put in or out. */
  lemma ChangesExact(plan: Plan, lines: seq<Line>, enable: bool)
    requires Reconcile(plan, lines, enable).Some?
    ensures
      var wished := if enable then Ipv6Proto(plan.mode) else Ipv4Proto(plan.mode);
      Reconcile(plan, lines, enable).value.1 ==
        (if exists i :: 0 <= i < |lines| && lines[i].kind.Proto? && lines[i].kind.value == Some(wished) then 0 else 1)
        + (if enable == Never(plan, OwnServer, lines) then 1 else 0)
        + (if FullVpn(plan.mode) && enable == Never(plan, OwnRedirect, lines) then 1 else 0)
  {
    CountOnceIff(plan, OwnServer, lines);
    CountOnceIff(plan, OwnRedirect, lines);
    OnlyProto(plan, lines);
    var p := First(plan, ProtoLine, lines);
    var wished := TargetProto(plan.mode, enable);
    if i :| 0 <= i < |lines| && lines[i].kind.Proto? && lines[i].kind.value == Some(wished) {
      assert Is(plan, ProtoLine, lines[i]);
      assert i == p;
    }
    if ProtoOf(lines[p]) == Some(wished) {
      assert lines[p].kind.Proto? && lines[p].kind.value == Some(wished);
    }
  }

  /******* Where the managed lines stand *******/

  /** A line of the first class, terminated, and directly below it this line with a terminator of the same sort. */
  ghost predicate StandsBelow(plan: Plan, lines: seq<Line>, c: Class, kind: Kind) {
    exists i :: 0 <= i < |lines| - 1 && BelowAt(plan, lines, i, c, kind)
  }

  ghost predicate BelowAt(plan: Plan, lines: seq<Line>, i: int, c: Class, kind: Kind)
    requires 0 <= i < |lines| - 1
  {
    && Is(plan, c, lines[i]) && lines[i].eol != Absent
    && lines[i + 1] == Line(kind, if lines[i].eol == CrLf then CrLf else Lf)
  }

  lemma InsertedBelow(plan: Plan, c: Class, lines: seq<Line>, i: nat, kind: Kind)
    requires i < |lines| && Is(plan, c, lines[i]) && lines[i].eol != Absent
    ensures StandsBelow(plan, InsertAfter(lines, i, kind), c, kind)
  {
    assert BelowAt(plan, InsertAfter(lines, i, kind), i, c, kind);
  }

  /** An insertion below a line of another class does not come between the two. */
  lemma StaysBelow(plan: Plan, c: Class, kind: Kind, lines: seq<Line>, i: nat, more: Kind)
    requires StandsBelow(plan, lines, c, kind) && i < |lines| && lines[i].eol != Absent && !Is(plan, c, lines[i])
    ensures StandsBelow(plan, InsertAfter(lines, i, more), c, kind)
  {
    var k :| 0 <= k < |lines| - 1 && BelowAt(plan, lines, k, c, kind);
    var out := InsertAfter(lines, i, more);
    assert BelowAt(plan, out, if k < i then k else k + 1, c, kind);
  }

  lemma ServerBelow(plan: Plan, w: seq<Line>)
    requires Count(plan, ServerLine, w) == 1 && Count(plan, OwnServer, w) == 0 && !GluesServer(plan, w)
    ensures StandsBelow(plan, ServerStep(plan, w, true), ServerLine, OwnServerKind(plan))
  {
    CountZero(plan, ServerLine, w);
    InsertedBelow(plan, ServerLine, w, First(plan, ServerLine, w), OwnServerKind(plan));
  }

  lemma RedirectBelow(plan: Plan, x: seq<Line>)
    requires FullVpn(plan.mode) && Count(plan, OwnRedirect, x) == 0 && !GluesRedirect(plan, x)
    requires Count(plan, Def1Line, x) > 0
    ensures StandsBelow(plan, RedirectStep(plan, x, true), Def1Line, OWN_REDIRECT)
    ensures forall kind :: StandsBelow(plan, x, ServerLine, kind) ==>
      StandsBelow(plan, RedirectStep(plan, x, true), ServerLine, kind)
  {
    CountZero(plan, Def1Line, x);
    var i := First(plan, Def1Line, x);
    InsertedBelow(plan, Def1Line, x, i, OWN_REDIRECT);
    forall kind | StandsBelow(plan, x, ServerLine, kind)
      ensures StandsBelow(plan, RedirectStep(plan, x, true), ServerLine, kind)
    {
      StaysBelow(plan, ServerLine, kind, x, i, OWN_REDIRECT);
    }
  }

  /** The managed lines, spelled out. */
  lemma ManagedKinds(plan: Plan)
    ensures OwnServerKind(plan) == ServerIpv6(Some(plan.base + Subnet(plan.mode) * 0x1_0000_0000_0000_0000), "")
    ensures OWN_REDIRECT == Ipv6Redirect("")
  {
  }

  /**
   Enabling writes what was missing exactly so: the managed server-ipv6 line directly below the IPv4 server, and for the
   full VPN the managed redirect directly below the first IPv4 one, each terminated as the line above it.
   */
  lemma EnabledLines(plan: Plan, lines: seq<Line>)
    requires Accepts(plan, lines, true) && !Glues(plan, lines, true)
    ensures Reconcile(plan, lines, true).Some?
    ensures
      var out := Reconcile(plan, lines, true).value.0;
      && (Count(plan, OwnServer, lines) == 0 ==> StandsBelow(plan, out, ServerLine, OwnServerKind(plan)))
      && (FullVpn(plan.mode) && Count(plan, OwnRedirect, lines) == 0 ==> StandsBelow(plan, out, Def1Line, OWN_REDIRECT))
  {
    var six := TargetProto(plan.mode, true);
    var w := WithProto(lines, six);
    ProtoCounts(plan, OwnServer, lines, six);
    ProtoCounts(plan, ServerLine, lines, six);
    SameServerAnchor(plan, lines, six);
    SameRedirectGlue(plan, lines, true);
    StepCounts(plan, lines, true);
    if Count(plan, OwnServer, lines) == 0 {
      ServerBelow(plan, w);
    }
    if FullVpn(plan.mode) && Count(plan, OwnRedirect, lines) == 0 {
      RedirectBelow(plan, ServerStep(plan, w, true));
    }
  }
}
