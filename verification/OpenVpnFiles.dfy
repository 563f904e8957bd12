/**
 reconcile_text of openvpn-ipv6.py as it runs: index lists first, then edits, insertions and filters with a counter.
 */
module OpenVpnFiles {
  import opened Options
  import opened UlaBase
  import opened OpenVpn
  import opened OpenVpnLaws

  /** The list of indexes of one class of lines. */
  method FindLines(plan: Plan, c: Class, lines: seq<Line>) returns (indexes: seq<nat>)
    ensures forall k: nat :: k in indexes <==> k < |lines| && Is(plan, c, lines[k])
    ensures |indexes| == Count(plan, c, lines)
    ensures indexes != [] ==> indexes[0] == First(plan, c, lines)
  {
    indexes := [];
    for i := 0 to |lines|
      invariant forall k: nat :: k in indexes <==> k < i && Is(plan, c, lines[k])
      invariant |indexes| == Count(plan, c, lines[..i])
      invariant indexes != [] ==> indexes[0] == First(plan, c, lines)
    {
      assert lines[..i + 1][..i] == lines[..i];
      if Is(plan, c, lines[i]) {
        if indexes == [] {
          CountZero(plan, c, lines[..i]);
          assert forall k :: 0 <= k < i ==> lines[k] == lines[..i][k];
          FirstIs(plan, c, lines, i);
        }
        indexes := indexes + [i];
      }
    }
    assert lines[..|lines|] == lines;
  }

  /** Whether any line is of a class. */
  method AnyLine(plan: Plan, c: Class, lines: seq<Line>) returns (found: bool)
    ensures found <==> Count(plan, c, lines) > 0
  {
    CountZero(plan, c, lines);
    for i := 0 to |lines|
      invariant forall k :: 0 <= k < i ==> !Is(plan, c, lines[k])
    {
      if Is(plan, c, lines[i]) {
        return true;
      }
    }
    return false;
  }

  method Retain(plan: Plan, c: Class, lines: seq<Line>) returns (kept: seq<Line>)
    ensures kept == Drop(plan, c, lines)
  {
    kept := [];
    for i := 0 to |lines|
      invariant kept == Drop(plan, c, lines[..i])
    {
      assert lines[..i + 1][..i] == lines[..i];
      if !Is(plan, c, lines[i]) {
        kept := kept + [lines[i]];
      }
    }
    assert lines[..|lines|] == lines;
  }

  lemma OneProtoSet(plan: Plan, lines: seq<Line>, target: ProtoName)
    requires Count(plan, ProtoLine, lines) == 1
    ensures
      var p := First(plan, ProtoLine, lines);
      p < |lines| && WithProto(lines, target) == lines[p := WithProtoLine(lines[p], target)]
  {
    CountZero(plan, ProtoLine, lines);
    OnlyProto(plan, lines);
    WithProtoEach(lines, target);
    var p := First(plan, ProtoLine, lines);
    forall k | 0 <= k < |lines| && k != p ensures WithProto(lines, target)[k] == lines[k] {
      assert !Is(plan, ProtoLine, lines[k]);
    }
  }

  method ReconcileServer(plan: Plan, lines: seq<Line>, anchor: nat, enable: bool)
    returns (r: Option<(seq<Line>, nat)>)
    requires anchor < |lines| && anchor == First(plan, ServerLine, lines)
    ensures r.Some? <==> Count(plan, OwnServer, lines) <= 1 && Count(plan, OtherServer, lines) == 0
    ensures r.Some? ==>
      && r.value.0 == ServerStep(plan, lines, enable)
      && r.value.1 == if enable then 1 - Count(plan, OwnServer, lines) else Count(plan, OwnServer, lines)
  {
    var managed := FindLines(plan, OwnServer, lines);
    var others := FindLines(plan, OtherServer, lines);
    if |managed| > 1 || others != [] {
      return None;
    }
    if enable {
      if managed == [] {
        return Some((InsertAfter(lines, anchor, OwnServerKind(plan)), 1));
      }
      return Some((lines, 0));
    }
    if managed != [] {
      var kept := Retain(plan, OwnServer, lines);
      return Some((kept, |managed|));
    }
    DropNone(plan, OwnServer, lines);
    return Some((lines, 0));
  }

  method ReconcileRedirect(plan: Plan, lines: seq<Line>, enable: bool) returns (r: Option<(seq<Line>, nat)>)
    requires FullVpn(plan.mode)
    ensures r.Some? <==>
      && Count(plan, OwnRedirect, lines) <= 1
      && (enable && Count(plan, OwnRedirect, lines) == 0 ==> Count(plan, Def1Line, lines) > 0)
    ensures r.Some? ==>
      && r.value.0 == RedirectStep(plan, lines, enable)
      && r.value.1 == if enable then 1 - Count(plan, OwnRedirect, lines) else Count(plan, OwnRedirect, lines)
  {
    var managed := FindLines(plan, OwnRedirect, lines);
    if |managed| > 1 {
      return None;
    }
    if enable && managed == [] {
      var anchors := FindLines(plan, Def1Line, lines);
      CountZero(plan, Def1Line, lines);
      if anchors == [] {
        return None;
      }
      return Some((InsertAfter(lines, anchors[0], OWN_REDIRECT), 1));
    }
    if !enable && managed != [] {
      var kept := Retain(plan, OwnRedirect, lines);
      return Some((kept, |managed|));
    }
    if !enable {
      DropNone(plan, OwnRedirect, lines);
    }
    return Some((lines, 0));
  }

  method SetProto(plan: Plan, text: seq<Line>, target: ProtoName) returns (r: Option<(seq<Line>, nat, nat)>)
    ensures r.Some? <==> HeadAccepted(plan, text)
    ensures r.Some? ==>
      && r.value.0 == WithProto(text, target)
      && r.value.1 == First(plan, ServerLine, text) < |text|
      && r.value.2 == if ProtoOf(text[First(plan, ProtoLine, text)]) != Some(target) then 1 else 0
  {
    if !IsUlaBase(plan.base, plan.length) {
      return None;
    }
    var protos := FindLines(plan, ProtoLine, text);
    var servers := FindLines(plan, ServerLine, text);
    if |protos| != 1 || |servers| != 1 {
      return None;
    }
    var proto := protos[0];
    assert proto in protos && servers[0] in servers;
    var current := ProtoOf(text[proto]);
    if current.None? || !ManagedProto(plan.mode, current.value) {
      return None;
    }
    OneProtoSet(plan, text, target);
    if current.value != target {
      return Some((text[proto := Line(Proto(Some(target), ""), Terminated(text[proto].eol))], servers[0], 1));
    }
    return Some((text, servers[0], 0));
  }

  lemma ServerStepCounts(plan: Plan, lines: seq<Line>, enable: bool)
    requires Count(plan, ServerLine, lines) == 1
    ensures
      && Count(plan, OwnRedirect, ServerStep(plan, lines, enable)) == Count(plan, OwnRedirect, lines)
      && Count(plan, Def1Line, ServerStep(plan, lines, enable)) == Count(plan, Def1Line, lines)
  {
    ServerCounts(plan, OwnRedirect, lines, enable);
    ServerCounts(plan, Def1Line, lines, enable);
  }

  /** The managed lines, after the protocol line is settled. */
  method ReconcileManaged(plan: Plan, lines: seq<Line>, anchor: nat, enable: bool) returns (r: Option<(seq<Line>, nat)>)
    requires Count(plan, ServerLine, lines) == 1 && anchor == First(plan, ServerLine, lines) < |lines|
    ensures r.Some? <==> ManagedAccepted(plan, lines, enable)
    ensures r.Some? ==>
      && r.value.0 == RedirectStep(plan, ServerStep(plan, lines, enable), enable)
      && r.value.1 == ManagedChanges(plan, lines, enable)
  {
    var server := ReconcileServer(plan, lines, anchor, enable);
    if server.None? || !FullVpn(plan.mode) {
      return server;
    }
    ServerStepCounts(plan, lines, enable);
    var redirect := ReconcileRedirect(plan, server.value.0, enable);
    if redirect.None? {
      return None;
    }
    return Some((redirect.value.0, server.value.1 + redirect.value.1));
  }

  lemma ManagedThroughProto(plan: Plan, text: seq<Line>, target: ProtoName, enable: bool)
    ensures
      var lines := WithProto(text, target);
      && (ManagedAccepted(plan, lines, enable) <==> ManagedAccepted(plan, text, enable))
      && (ManagedAccepted(plan, text, enable) ==>
        ManagedChanges(plan, lines, enable) == ManagedChanges(plan, text, enable))
      && Count(plan, ServerLine, lines) == Count(plan, ServerLine, text)
      && First(plan, ServerLine, lines) == First(plan, ServerLine, text)
      && Count(plan, BindLine, lines) == Count(plan, BindLine, text)
  {
    ProtoCounts(plan, BindLine, text, target);
    ProtoCounts(plan, OwnServer, text, target);
    ProtoCounts(plan, OtherServer, text, target);
    ProtoCounts(plan, ServerLine, text, target);
    ProtoCounts(plan, OwnRedirect, text, target);
    ProtoCounts(plan, Def1Line, text, target);
    FirstWithProto(plan, ServerLine, text, target);
  }

  /** The whole reconciliation: refused exactly when the declarative reading refuses, with the same text and count. */
  method ReconcileText(plan: Plan, text: seq<Line>, enable: bool) returns (r: Option<(seq<Line>, nat)>)
    ensures r == Reconcile(plan, text, enable)
  {
    var target := TargetProto(plan.mode, enable);
    var head := SetProto(plan, text, target);
    if head.None? {
      return None;
    }
    var lines := head.value.0;
    ManagedThroughProto(plan, text, target, enable);
    var binds := AnyLine(plan, BindLine, lines);
    var locals := AnyLine(plan, LocalLine, text);
    if binds || (enable && locals) {
      return None;
    }
    var managed := ReconcileManaged(plan, lines, head.value.1, enable);
    if managed.None? {
      return None;
    }
    return Some((managed.value.0, head.value.2 + managed.value.1));
  }
}
