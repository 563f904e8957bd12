/** Idempotence, change counts and restoration of OpenVPN reconciliation, each with its exact condition. */
module OpenVpnLaws {
  import opened Options
  import opened UlaBase
  import opened OpenVpn

  /** The managed server-ipv6 line is written behind an unterminated line. */
  predicate GluesServer(plan: Plan, lines: seq<Line>) {
    var anchor := FirstLine(plan, ServerLine, lines);
    Count(plan, OwnServer, lines) == 0 && anchor.Some? && anchor.value.eol == Absent
  }

  /** The insertion behind an unterminated bare "server" leaves no server directive at all. */
  predicate DestroysServer(plan: Plan, lines: seq<Line>) {
    GluesServer(plan, lines) && IsBareServer(FirstLine(plan, ServerLine, lines).value.kind)
  }

  predicate GluesRedirect(plan: Plan, lines: seq<Line>) {
    var anchor := FirstLine(plan, Def1Line, lines);
    FullVpn(plan.mode) && Count(plan, OwnRedirect, lines) == 0 && anchor.Some? && anchor.value.eol == Absent
  }

  predicate Glues(plan: Plan, lines: seq<Line>, enable: bool) {
    enable && (GluesServer(plan, lines) || GluesRedirect(plan, lines))
  }

  /******* First lines *******/

  lemma FirstIs(plan: Plan, c: Class, lines: seq<Line>, i: nat)
    requires i < |lines| && Is(plan, c, lines[i]) && forall k :: 0 <= k < i ==> !Is(plan, c, lines[k])
    ensures First(plan, c, lines) == i
  {
  }

  lemma ClassWithProto(plan: Plan, c: Class, line: Line, target: ProtoName)
    requires !c.Exactly? && !c.ProtoIs?
    ensures Is(plan, c, WithProtoLine(line, target)) == Is(plan, c, line)
  {
  }

  lemma FirstWithProto(plan: Plan, c: Class, lines: seq<Line>, target: ProtoName)
    requires !c.Exactly? && !c.ProtoIs?
    ensures First(plan, c, WithProto(lines, target)) == First(plan, c, lines)
  {
    var out := WithProto(lines, target);
    WithProtoEach(lines, target);
    forall k | 0 <= k < |lines| ensures Is(plan, c, out[k]) == Is(plan, c, lines[k]) {
      ClassWithProto(plan, c, lines[k], target);
    }
    var i := First(plan, c, lines);
    if i < |lines| {
      FirstIs(plan, c, out, i);
    }
  }

  lemma {:induction false} FirstSplits(plan: Plan, c: Class, a: seq<Line>, b: seq<Line>)
    ensures First(plan, c, a + b) == if First(plan, c, a) < |a| then First(plan, c, a) else |a| + First(plan, c, b)
    decreases |a|
  {
    if a == [] {
      assert a + b == b;
    } else if !Is(plan, c, a[0]) {
      assert (a + b)[1..] == a[1..] + b;
      FirstSplits(plan, c, a[1..], b);
    }
  }

  /** The first line of a class, if there is one. */
  function FirstLine(plan: Plan, c: Class, lines: seq<Line>): Option<Line> {
    var i := First(plan, c, lines);
    if i < |lines| then Some(lines[i]) else None
  }

  lemma FirstLineSplits(plan: Plan, c: Class, a: seq<Line>, b: seq<Line>)
    ensures FirstLine(plan, c, a + b) ==
      if FirstLine(plan, c, a).Some? then FirstLine(plan, c, a) else FirstLine(plan, c, b)
  {
    FirstSplits(plan, c, a, b);
  }

  lemma FirstLineAround(plan: Plan, c: Class, a: seq<Line>, line: Line, b: seq<Line>)
    requires !Is(plan, c, line)
    ensures FirstLine(plan, c, a + [line] + b) == FirstLine(plan, c, a + b)
  {
    FirstLineSplits(plan, c, a, [line]);
    FirstLineSplits(plan, c, a + [line], b);
    FirstLineSplits(plan, c, a, b);
  }

  /** An insertion of another class keeps what the first line of a class says. */
  lemma FirstInserted(plan: Plan, c: Class, lines: seq<Line>, i: nat, kind: Kind)
    requires i < |lines| && !Is(plan, c, lines[i])
    requires forall eol :: !Is(plan, c, Line(kind, eol)) && !Is(plan, c, Line(Joined(lines[i].kind, kind), eol))
    ensures FirstLine(plan, c, InsertAfter(lines, i, kind)) == FirstLine(plan, c, lines)
  {
    var out, eol := InsertAfter(lines, i, kind), Terminated(lines[i].eol);
    if lines[i].eol == Absent {
      var a, b := lines[..i], lines[i + 1..];
      assert lines == a + [lines[i]] + b;
      assert out == a + [Line(Joined(lines[i].kind, kind), eol)] + b;
      FirstLineAround(plan, c, a, lines[i], b);
      FirstLineAround(plan, c, a, Line(Joined(lines[i].kind, kind), eol), b);
    } else {
      var a, b := lines[..i + 1], lines[i + 1..];
      assert lines == a + b;
      FirstLineAround(plan, c, a, Line(kind, eol), b);
    }
  }

  /******* Counts step by step *******/

  lemma ProtoCounts(plan: Plan, c: Class, lines: seq<Line>, target: ProtoName)
    requires !c.Exactly? && !c.ProtoIs?
    ensures Count(plan, c, WithProto(lines, target)) == Count(plan, c, lines)
  {
    CountWithProto(plan, c, lines, target);
  }

  lemma ServerCounts(plan: Plan, c: Class, lines: seq<Line>, enable: bool)
    requires !c.Exactly? && Count(plan, ServerLine, lines) == 1
    ensures
      Count(plan, c, ServerStep(plan, lines, enable)) ==
      if c == ServerLine && enable && DestroysServer(plan, lines) then 0
      else if c != OwnServer then Count(plan, c, lines)
      else if !enable then 0
      else if Count(plan, OwnServer, lines) > 0 then Count(plan, OwnServer, lines)
      else if GluesServer(plan, lines) then 0 else 1
  {
    CountZero(plan, ServerLine, lines);
    var i := First(plan, ServerLine, lines);
    if !enable {
      CountDropped(plan, c, OwnServer, lines);
    } else if Count(plan, OwnServer, lines) == 0 {
      CountInserted(plan, c, lines, i, OwnServerKind(plan));
    }
  }

  lemma RedirectCounts(plan: Plan, c: Class, lines: seq<Line>, enable: bool)
    requires !c.Exactly?
    requires FullVpn(plan.mode) && enable && Count(plan, OwnRedirect, lines) == 0 ==> Count(plan, Def1Line, lines) > 0
    ensures
      Count(plan, c, RedirectStep(plan, lines, enable)) ==
      if c != OwnRedirect || !FullVpn(plan.mode) then Count(plan, c, lines)
      else if !enable then 0
      else if Count(plan, OwnRedirect, lines) > 0 then Count(plan, OwnRedirect, lines)
      else if GluesRedirect(plan, lines) then 0 else 1
  {
    CountZero(plan, Def1Line, lines);
    var i := First(plan, Def1Line, lines);
    if FullVpn(plan.mode) {
      if !enable {
        CountDropped(plan, c, OwnRedirect, lines);
      } else if Count(plan, OwnRedirect, lines) == 0 {
        CountInserted(plan, c, lines, i, OWN_REDIRECT);
      }
    }
  }

  lemma ServerStepAnchor(plan: Plan, lines: seq<Line>)
    ensures FirstLine(plan, Def1Line, ServerStep(plan, lines, true)) == FirstLine(plan, Def1Line, lines)
  {
    var i := First(plan, ServerLine, lines);
    if Count(plan, OwnServer, lines) == 0 && i < |lines| {
      FirstInserted(plan, Def1Line, lines, i, OwnServerKind(plan));
    }
  }

  /** Setting the protocol keeps the first line of any class that has no protocol line. */
  lemma FirstLineWithProto(plan: Plan, c: Class, lines: seq<Line>, target: ProtoName)
    requires c == Def1Line || c == ServerLine
    ensures FirstLine(plan, c, WithProto(lines, target)) == FirstLine(plan, c, lines)
  {
    var i := First(plan, c, lines);
    FirstWithProto(plan, c, lines, target);
    if i < |lines| {
      WithProtoEach(lines, target);
      assert WithProto(lines, target)[i] == WithProtoLine(lines[i], target);
    }
  }

  /** The second insertion sees the same anchor as the original text. */
  lemma SameRedirectAnchor(plan: Plan, lines: seq<Line>)
    ensures
      var x := ServerStep(plan, WithProto(lines, TargetProto(plan.mode, true)), true);
      FirstLine(plan, Def1Line, x) == FirstLine(plan, Def1Line, lines)
  {
    FirstLineWithProto(plan, Def1Line, lines, TargetProto(plan.mode, true));
    ServerStepAnchor(plan, WithProto(lines, TargetProto(plan.mode, true)));
  }

  lemma SameServerAnchor(plan: Plan, lines: seq<Line>, target: ProtoName)
    ensures GluesServer(plan, WithProto(lines, target)) <==> GluesServer(plan, lines)
    ensures DestroysServer(plan, WithProto(lines, target)) <==> DestroysServer(plan, lines)
  {
    FirstLineWithProto(plan, ServerLine, lines, target);
    ProtoCounts(plan, OwnServer, lines, target);
  }

  lemma SameRedirectGlue(plan: Plan, lines: seq<Line>, enable: bool)
    requires Accepts(plan, lines, enable) && enable
    ensures
      GluesRedirect(plan, ServerStep(plan, WithProto(lines, TargetProto(plan.mode, enable)), enable)) <==>
        GluesRedirect(plan, lines)
  {
    var w := WithProto(lines, TargetProto(plan.mode, enable));
    SameRedirectAnchor(plan, lines);
    ProtoCounts(plan, OwnRedirect, lines, TargetProto(plan.mode, enable));
    ProtoCounts(plan, ServerLine, lines, TargetProto(plan.mode, enable));
    ServerCounts(plan, OwnRedirect, w, enable);
  }

  /** How often each class of lines occurs in a reconciled text. */
  lemma EditedCounts(plan: Plan, c: Class, lines: seq<Line>, enable: bool)
    requires Accepts(plan, lines, enable) && !c.Exactly? && !c.ProtoIs?
    ensures
      Count(plan, c, Edited(plan, lines, enable)) ==
      if c == OwnServer then if enable && !GluesServer(plan, lines) then 1 else 0
      else if c == ServerLine then if enable && DestroysServer(plan, lines) then 0 else 1
      else if c == OwnRedirect && FullVpn(plan.mode) then if enable && !GluesRedirect(plan, lines) then 1 else 0
      else Count(plan, c, lines)
  {
    var target := TargetProto(plan.mode, enable);
    var w := WithProto(lines, target);
    var x := ServerStep(plan, w, enable);
    ProtoCounts(plan, c, lines, target);
    ProtoCounts(plan, ServerLine, lines, target);
    ProtoCounts(plan, OwnServer, lines, target);
    ServerCounts(plan, c, w, enable);
    StepCounts(plan, lines, enable);
    RedirectCounts(plan, c, x, enable);
    SameServerAnchor(plan, lines, target);
    if enable {
      SameRedirectGlue(plan, lines, enable);
    }
  }

  lemma StepCounts(plan: Plan, lines: seq<Line>, enable: bool)
    requires Accepts(plan, lines, enable)
    ensures
      var x := ServerStep(plan, WithProto(lines, TargetProto(plan.mode, enable)), enable);
      Count(plan, OwnRedirect, x) == Count(plan, OwnRedirect, lines) &&
        Count(plan, Def1Line, x) == Count(plan, Def1Line, lines)
  {
    var target := TargetProto(plan.mode, enable);
    ProtoCounts(plan, ServerLine, lines, target);
    ProtoCounts(plan, OwnRedirect, lines, target);
    ProtoCounts(plan, Def1Line, lines, target);
    ServerCounts(plan, OwnRedirect, WithProto(lines, target), enable);
    ServerCounts(plan, Def1Line, WithProto(lines, target), enable);
  }

  /******* The protocol *******/

  lemma {:induction false} CountWithin(plan: Plan, narrow: Class, wide: Class, lines: seq<Line>)
    requires forall line :: Is(plan, narrow, line) ==> Is(plan, wide, line)
    ensures Count(plan, narrow, lines) <= Count(plan, wide, lines)
  {
    if lines != [] {
      CountWithin(plan, narrow, wide, lines[..|lines| - 1]);
    }
  }

  /** With a single protocol line, its value is what the text says. */
  lemma OneProto(plan: Plan, lines: seq<Line>, value: Option<ProtoName>)
    requires Count(plan, ProtoLine, lines) == 1
    ensures First(plan, ProtoLine, lines) < |lines|
    ensures Count(plan, ProtoIs(value), lines) ==
      if ProtoOf(lines[First(plan, ProtoLine, lines)]) == value then 1 else 0
  {
    CountZero(plan, ProtoLine, lines);
    var p := First(plan, ProtoLine, lines);
    CountAround(plan, ProtoLine, lines, p);
    CountAround(plan, ProtoIs(value), lines, p);
    CountWithin(plan, ProtoIs(value), ProtoLine, lines[..p]);
    CountWithin(plan, ProtoIs(value), ProtoLine, lines[p + 1..]);
  }

  lemma ProtoSet(plan: Plan, lines: seq<Line>, target: ProtoName)
    requires Count(plan, ProtoLine, lines) == 1
    ensures Count(plan, ProtoIs(Some(target)), WithProto(lines, target)) == 1
  {
    var out := WithProto(lines, target);
    CountZero(plan, ProtoLine, lines);
    var p := First(plan, ProtoLine, lines);
    assert First(plan, ProtoLine, out) == p && ProtoOf(out[p]) == Some(target) by {
      FirstWithProto(plan, ProtoLine, lines, target);
      WithProtoEach(lines, target);
    }
    ProtoCounts(plan, ProtoLine, lines, target);
    OneProto(plan, out, Some(target));
  }

  lemma EditedProto(plan: Plan, lines: seq<Line>, enable: bool)
    requires Accepts(plan, lines, enable)
    ensures
      var out := Edited(plan, lines, enable);
      var p := First(plan, ProtoLine, out);
      p < |out| && ProtoOf(out[p]) == Some(TargetProto(plan.mode, enable))
  {
    var target := TargetProto(plan.mode, enable);
    var w := WithProto(lines, target);
    ProtoSet(plan, lines, target);
    ProtoCounts(plan, ServerLine, lines, target);
    ServerCounts(plan, ProtoIs(Some(target)), w, enable);
    StepCounts(plan, lines, enable);
    RedirectCounts(plan, ProtoIs(Some(target)), ServerStep(plan, w, enable), enable);
    EditedCounts(plan, ProtoLine, lines, enable);
    OneProto(plan, Edited(plan, lines, enable), Some(target));
  }

  /** A reconciled text is accepted again, for the same wish and for disabling, unless its server directive is gone. */
  lemma EditedAccepted(plan: Plan, lines: seq<Line>, enable: bool, again: bool)
    requires Accepts(plan, lines, enable) && (again ==> enable)
    ensures Accepts(plan, Edited(plan, lines, enable), again) <==> !(enable && DestroysServer(plan, lines))
  {
    EditedProto(plan, lines, enable);
    EditedCounts(plan, ProtoLine, lines, enable);
    EditedCounts(plan, ServerLine, lines, enable);
    EditedCounts(plan, BindLine, lines, enable);
    EditedCounts(plan, LocalLine, lines, enable);
    EditedCounts(plan, OwnServer, lines, enable);
    EditedCounts(plan, OtherServer, lines, enable);
    EditedCounts(plan, OwnRedirect, lines, enable);
    EditedCounts(plan, Def1Line, lines, enable);
    CountZero(plan, Def1Line, lines);
  }

  /******* Change counts and idempotence *******/

  lemma NoChangeSame(plan: Plan, lines: seq<Line>, enable: bool)
    requires Accepts(plan, lines, enable) && Changes(plan, lines, enable) == 0
    ensures Edited(plan, lines, enable) == lines
  {
    var target := TargetProto(plan.mode, enable);
    WithProtoEach(lines, target);
    OnlyProto(plan, lines);
    assert WithProto(lines, target) == lines;
    if !enable {
      DropNone(plan, OwnServer, lines);
      if FullVpn(plan.mode) {
        DropNone(plan, OwnRedirect, lines);
      }
    }
  }

  lemma OnlyProto(plan: Plan, lines: seq<Line>)
    requires Count(plan, ProtoLine, lines) == 1
    ensures forall k :: 0 <= k < |lines| && k != First(plan, ProtoLine, lines) ==> !Is(plan, ProtoLine, lines[k])
  {
    CountZero(plan, ProtoLine, lines);
    var p := First(plan, ProtoLine, lines);
    CountAround(plan, ProtoLine, lines, p);
    CountZero(plan, ProtoLine, lines[p + 1..]);
    forall k | p < k < |lines| ensures !Is(plan, ProtoLine, lines[k]) {
      assert lines[p + 1..][k - p - 1] == lines[k];
    }
  }

  /** Reconciling twice changes nothing more exactly when no line was glued. */
  lemma ReconcileTwiceIff(plan: Plan, lines: seq<Line>, enable: bool)
    requires Reconcile(plan, lines, enable).Some?
    ensures
      var out := Reconcile(plan, lines, enable).value.0;
      Reconcile(plan, out, enable) == Some((out, 0)) <==> !Glues(plan, lines, enable)
  {
    var out := Edited(plan, lines, enable);
    EditedAccepted(plan, lines, enable, enable);
    EditedProto(plan, lines, enable);
    EditedCounts(plan, OwnServer, lines, enable);
    EditedCounts(plan, OwnRedirect, lines, enable);
    if !Glues(plan, lines, enable) {
      NoChangeSame(plan, out, enable);
    }
  }

  /** A server file whose last line, the server directive, has these arguments and this terminator. */
  function ServerFile(proto: ProtoName, rest: string, eol: Eol): seq<Line> {
    [Line(Proto(Some(proto), ""), Lf), Line(Server("", rest), eol)]
  }

  lemma TwoLines(plan: Plan, c: Class, a: Line, b: Line)
    ensures Count(plan, c, [a, b]) == (if Is(plan, c, a) then 1 else 0) + (if Is(plan, c, b) then 1 else 0)
    ensures First(plan, c, [a, b]) == if Is(plan, c, a) then 0 else if Is(plan, c, b) then 1 else 2
  {
    assert [a, b] == [a] + [b];
    CountSplits(plan, c, [a], [b]);
    CountOne(plan, c, a);
    CountOne(plan, c, b);
    assert [a, b][1..] == [b];
    assert [b][1..] == [];
  }

  lemma TwoLinesAccepted(plan: Plan, proto: ProtoName, rest: string, eol: Eol)
    requires IsUlaBase(plan.base, plan.length) && !FullVpn(plan.mode) && ManagedProto(plan.mode, proto)
    ensures Accepts(plan, ServerFile(proto, rest, eol), true)
  {
    var a, b := Line(Proto(Some(proto), ""), Lf), Line(Server("", rest), eol);
    TwoLines(plan, ProtoLine, a, b);
    TwoLines(plan, ServerLine, a, b);
    TwoLines(plan, BindLine, a, b);
    TwoLines(plan, LocalLine, a, b);
    TwoLines(plan, OwnServer, a, b);
    TwoLines(plan, OtherServer, a, b);
  }

  lemma UnterminatedGlues(plan: Plan, proto: ProtoName, rest: string)
    ensures GluesServer(plan, ServerFile(proto, rest, Absent))
    ensures DestroysServer(plan, ServerFile(proto, rest, Absent)) <==> rest == ""
  {
    var a, b := Line(Proto(Some(proto), ""), Lf), Line(Server("", rest), Absent);
    TwoLines(plan, ServerLine, a, b);
    TwoLines(plan, OwnServer, a, b);
  }

  const ARGUMENTS := " 10.29.0.0 255.255.248.0"

  /** For every base and split mode this text is accepted twice, and the second reconciliation changes it again. */
  lemma UnterminatedGrows(plan: Plan, proto: ProtoName)
    requires IsUlaBase(plan.base, plan.length) && !FullVpn(plan.mode) && ManagedProto(plan.mode, proto)
    ensures
      var once := Reconcile(plan, ServerFile(proto, ARGUMENTS, Absent), true);
      && once.Some? && Reconcile(plan, once.value.0, true).Some?
      && Reconcile(plan, once.value.0, true) != Some((once.value.0, 0))
  {
    var lines := ServerFile(proto, ARGUMENTS, Absent);
    TwoLinesAccepted(plan, proto, ARGUMENTS, Absent);
    UnterminatedGlues(plan, proto, ARGUMENTS);
    EditedAccepted(plan, lines, true, true);
    ReconcileTwiceIff(plan, lines, true);
  }

  /** With the bare directive at its end a text is accepted, and what comes out can be neither enabled nor disabled. */
  lemma BareServerLost(plan: Plan, proto: ProtoName)
    requires IsUlaBase(plan.base, plan.length) && !FullVpn(plan.mode) && ManagedProto(plan.mode, proto)
    ensures
      var once := Reconcile(plan, ServerFile(proto, "", Absent), true);
      && once.Some?
      && Reconcile(plan, once.value.0, true).None? && Reconcile(plan, once.value.0, false).None?
  {
    var lines := ServerFile(proto, "", Absent);
    TwoLinesAccepted(plan, proto, "", Absent);
    UnterminatedGlues(plan, proto, "");
    EditedAccepted(plan, lines, true, true);
    EditedAccepted(plan, lines, true, false);
  }

  /******* The trace of a glued line *******/

  function Mark(plan: Plan, lines: seq<Line>): Line
    requires Glues(plan, lines, true)
  {
    if GluesServer(plan, lines) then Line(Joined(lines[First(plan, ServerLine, lines)].kind, OwnServerKind(plan)), Lf)
    else Line(Joined(lines[First(plan, Def1Line, lines)].kind, OWN_REDIRECT), Lf)
  }

  lemma MarkOutlivesProto(plan: Plan, mark: Line, lines: seq<Line>, target: ProtoName)
    requires mark.kind.Joined? && !Lead(mark.kind).Proto?
    ensures Count(plan, Exactly(mark), WithProto(lines, target)) == Count(plan, Exactly(mark), lines)
  {
    forall line | line in lines
      ensures Is(plan, Exactly(mark), line) == Is(plan, Exactly(mark), WithProtoLine(line, target))
    {
    }
    CountWithProto(plan, Exactly(mark), lines, target);
  }

  lemma MarkOutlivesDisable(plan: Plan, mark: Line, lines: seq<Line>)
    requires mark.kind.Joined? && !Lead(mark.kind).Proto?
    ensures Count(plan, Exactly(mark), Edited(plan, lines, false)) == Count(plan, Exactly(mark), lines)
  {
    var w := WithProto(lines, TargetProto(plan.mode, false));
    MarkOutlivesProto(plan, mark, lines, TargetProto(plan.mode, false));
    CountDropped(plan, Exactly(mark), OwnServer, w);
    CountDropped(plan, Exactly(mark), OwnRedirect, Drop(plan, OwnServer, w));
  }

  lemma NotInside(kind: Kind, more: Kind)
    ensures Joined(kind, more) != kind
  {
    assert kind < Joined(kind, more);
  }

  lemma ServerStepMark(plan: Plan, lines: seq<Line>, mark: Line)
    requires Count(plan, ServerLine, lines) == 1 && mark.kind.Joined?
    requires GluesServer(plan, lines) ==> mark == Mark(plan, lines) || !Lead(mark.kind).Server?
    ensures
      Count(plan, Exactly(mark), ServerStep(plan, lines, true)) ==
      Count(plan, Exactly(mark), lines) + if GluesServer(plan, lines) && mark == Mark(plan, lines) then 1 else 0
  {
    CountZero(plan, ServerLine, lines);
    var i := First(plan, ServerLine, lines);
    if Count(plan, OwnServer, lines) == 0 {
      CountInserted(plan, Exactly(mark), lines, i, OwnServerKind(plan));
      NotInside(lines[i].kind, OwnServerKind(plan));
    }
  }

  lemma RedirectStepMark(plan: Plan, lines: seq<Line>, mark: Line)
    requires mark.kind.Joined?
    requires FullVpn(plan.mode) && Count(plan, OwnRedirect, lines) == 0 ==> First(plan, Def1Line, lines) < |lines|
    ensures
      var i := First(plan, Def1Line, lines);
      !Lead(mark.kind).Def1Redirect? ||
      (GluesRedirect(plan, lines) && mark == Line(Joined(lines[i].kind, OWN_REDIRECT), Lf)) ==>
        Count(plan, Exactly(mark), RedirectStep(plan, lines, true)) ==
        Count(plan, Exactly(mark), lines) + if Lead(mark.kind).Def1Redirect? then 1 else 0
  {
    var i := First(plan, Def1Line, lines);
    if FullVpn(plan.mode) && Count(plan, OwnRedirect, lines) == 0 {
      CountInserted(plan, Exactly(mark), lines, i, OWN_REDIRECT);
      NotInside(lines[i].kind, OWN_REDIRECT);
    }
  }

  lemma GlueLeavesMark(plan: Plan, lines: seq<Line>)
    requires Accepts(plan, lines, true) && Glues(plan, lines, true)
    ensures
      var mark := Mark(plan, lines);
      && mark.kind.Joined? && !Lead(mark.kind).Proto?
      && Count(plan, Exactly(mark), Edited(plan, lines, true)) == Count(plan, Exactly(mark), lines) + 1
  {
    var target := TargetProto(plan.mode, true);
    var mark, w := Mark(plan, lines), WithProto(lines, target);
    var x := ServerStep(plan, w, true);
    MarkOutlivesProto(plan, mark, lines, target);
    ProtoCounts(plan, ServerLine, lines, target);
    FirstWithProto(plan, ServerLine, lines, target);
    WithProtoEach(lines, target);
    SameServerAnchor(plan, lines, target);
    ServerStepMark(plan, w, mark);
    StepCounts(plan, lines, true);
    CountZero(plan, Def1Line, x);
    CountZero(plan, Def1Line, lines);
    SameRedirectAnchor(plan, lines);
    SameRedirectGlue(plan, lines, true);
    RedirectStepMark(plan, x, mark);
  }

  /** The number of changes is zero exactly when the text is unchanged. */
  lemma ChangesZeroIff(plan: Plan, lines: seq<Line>, enable: bool)
    requires Reconcile(plan, lines, enable).Some?
    ensures Reconcile(plan, lines, enable).value.1 == 0 <==> Reconcile(plan, lines, enable).value.0 == lines
  {
    if Changes(plan, lines, enable) == 0 {
      NoChangeSame(plan, lines, enable);
    } else if Glues(plan, lines, enable) {
      GlueLeavesMark(plan, lines);
    } else {
      EditedProto(plan, lines, enable);
      EditedCounts(plan, OwnServer, lines, enable);
      EditedCounts(plan, OwnRedirect, lines, enable);
    }
  }

  /******* Disabling after enabling *******/

  lemma {:induction false} DropSplits(plan: Plan, c: Class, a: seq<Line>, b: seq<Line>)
    ensures Drop(plan, c, a + b) == Drop(plan, c, a) + Drop(plan, c, b)
  {
    if b == [] {
      assert a + b == a;
    } else {
      assert (a + b)[..|a + b| - 1] == a + b[..|b| - 1];
      DropSplits(plan, c, a, b[..|b| - 1]);
    }
  }

  lemma {:induction false} DropsCommute(plan: Plan, c: Class, d: Class, lines: seq<Line>)
    ensures Drop(plan, c, Drop(plan, d, lines)) == Drop(plan, d, Drop(plan, c, lines))
  {
    if lines != [] {
      var init, last := lines[..|lines| - 1], lines[|lines| - 1];
      DropsCommute(plan, c, d, init);
      var keep: seq<Line> := [last];
      assert keep[..0] == [];
      DropSplits(plan, c, Drop(plan, d, init), if Is(plan, d, last) then [] else keep);
      DropSplits(plan, d, Drop(plan, c, init), if Is(plan, c, last) then [] else keep);
    }
  }

  lemma DropInserted(plan: Plan, c: Class, lines: seq<Line>, i: nat, kind: Kind)
    requires i < |lines| && lines[i].eol != Absent && forall eol :: Is(plan, c, Line(kind, eol))
    ensures Drop(plan, c, InsertAfter(lines, i, kind)) == Drop(plan, c, lines)
  {
    var added := [Line(kind, Terminated(lines[i].eol))];
    assert added[..0] == [];
    assert lines == lines[..i + 1] + lines[i + 1..];
    DropSplits(plan, c, lines[..i + 1], lines[i + 1..]);
    DropSplits(plan, c, lines[..i + 1] + added, lines[i + 1..]);
    DropSplits(plan, c, lines[..i + 1], added);
    assert Drop(plan, c, added) == [];
    assert Drop(plan, c, lines[..i + 1]) + [] == Drop(plan, c, lines[..i + 1]);
  }

  lemma {:induction false} WithProtoSplits(a: seq<Line>, b: seq<Line>, target: ProtoName)
    ensures WithProto(a + b, target) == WithProto(a, target) + WithProto(b, target)
  {
    if b == [] {
      assert a + b == a;
    } else {
      assert (a + b)[..|a + b| - 1] == a + b[..|b| - 1];
      WithProtoSplits(a, b[..|b| - 1], target);
    }
  }

  lemma ProtoInserted(lines: seq<Line>, i: nat, kind: Kind, target: ProtoName)
    requires i < |lines| && lines[i].eol != Absent && !Lead(lines[i].kind).Proto? && !Lead(kind).Proto?
    ensures WithProto(InsertAfter(lines, i, kind), target) == InsertAfter(WithProto(lines, target), i, kind)
  {
    var a, b, added := lines[..i + 1], lines[i + 1..], [Line(kind, Terminated(lines[i].eol))];
    assert added[..0] == [] && WithProto(added, target) == added;
    assert lines == a + b;
    WithProtoSplits(a, b, target);
    WithProtoSplits(a + added, b, target);
    WithProtoSplits(a, added, target);
    WithProtoEach(lines, target);
  }

  lemma ServerUndone(plan: Plan, lines: seq<Line>)
    requires Count(plan, ServerLine, lines) == 1 && Count(plan, OwnServer, lines) == 0 && !GluesServer(plan, lines)
    ensures
      var i, target := First(plan, ServerLine, lines), Ipv4Proto(plan.mode);
      && i < |lines| && lines[i].eol != Absent
      && WithProto(ServerStep(plan, lines, true), target) ==
        InsertAfter(WithProto(lines, target), i, OwnServerKind(plan))
      && Drop(plan, OwnServer, InsertAfter(WithProto(lines, target), i, OwnServerKind(plan))) ==
        WithProto(lines, target)
  {
    CountZero(plan, ServerLine, lines);
    InsertUndone(plan, OwnServer, lines, First(plan, ServerLine, lines), OwnServerKind(plan), Ipv4Proto(plan.mode));
  }

  /** A managed line inserted below a terminated line that is no protocol line is found and dropped again. */
  lemma InsertUndone(plan: Plan, c: Class, lines: seq<Line>, i: nat, kind: Kind, target: ProtoName)
    requires i < |lines| && lines[i].eol != Absent && !Lead(lines[i].kind).Proto? && !Lead(kind).Proto?
    requires !c.Exactly? && !c.ProtoIs? && Count(plan, c, lines) == 0 && forall eol :: Is(plan, c, Line(kind, eol))
    ensures WithProto(InsertAfter(lines, i, kind), target) == InsertAfter(WithProto(lines, target), i, kind)
    ensures Drop(plan, c, InsertAfter(WithProto(lines, target), i, kind)) == WithProto(lines, target)
  {
    var x := WithProto(lines, target);
    ProtoInserted(lines, i, kind, target);
    assert x[i] == lines[i] by {
      WithProtoEach(lines, target);
    }
    ProtoCounts(plan, c, lines, target);
    DropInserted(plan, c, x, i, kind);
    DropNone(plan, c, x);
  }

  lemma RedirectUndone(plan: Plan, lines: seq<Line>)
    requires FullVpn(plan.mode) && Count(plan, OwnRedirect, lines) == 0 && !GluesRedirect(plan, lines)
    requires First(plan, Def1Line, lines) < |lines|
    ensures
      var target := Ipv4Proto(plan.mode);
      Drop(plan, OwnRedirect, WithProto(RedirectStep(plan, lines, true), target)) == WithProto(lines, target)
  {
    InsertUndone(plan, OwnRedirect, lines, First(plan, Def1Line, lines), OWN_REDIRECT, Ipv4Proto(plan.mode));
  }

  /** Disabling takes out exactly what enabling put in; only the protocol line was written twice. */
  lemma DisableUndoes(plan: Plan, lines: seq<Line>)
    requires Accepts(plan, lines, true) && !Glues(plan, lines, true)
    requires Count(plan, OwnServer, lines) == 0 && (FullVpn(plan.mode) ==> Count(plan, OwnRedirect, lines) == 0)
    ensures
      Edited(plan, Edited(plan, lines, true), false) ==
      WithProto(WithProto(lines, Ipv6Proto(plan.mode)), Ipv4Proto(plan.mode))
  {
    var six, four := Ipv6Proto(plan.mode), Ipv4Proto(plan.mode);
    var w := WithProto(lines, six);
    var x := ServerStep(plan, w, true);
    ProtoCounts(plan, ServerLine, lines, six);
    ProtoCounts(plan, OwnServer, lines, six);
    SameServerAnchor(plan, lines, six);
    ServerUndone(plan, w);
    if FullVpn(plan.mode) {
      StepCounts(plan, lines, true);
      SameRedirectGlue(plan, lines, true);
      CountZero(plan, Def1Line, x);
      RedirectUndone(plan, x);
      DropsCommute(plan, OwnServer, OwnRedirect, WithProto(RedirectStep(plan, x, true), four));
    }
  }

  /** The protocol line is exactly what disabling would write, with its end of line. */
  predicate CanonicalProto(plan: Plan, lines: seq<Line>) {
    var p := First(plan, ProtoLine, lines);
    p < |lines| && lines[p].kind == Proto(Some(Ipv4Proto(plan.mode)), "") && lines[p].eol != Absent
  }

  predicate NothingManaged(plan: Plan, lines: seq<Line>) {
    Count(plan, OwnServer, lines) == 0 && (FullVpn(plan.mode) ==> Count(plan, OwnRedirect, lines) == 0)
  }

  lemma ProtoLineRestoredIff(line: Line, mode: Mode)
    ensures
      WithProtoLine(WithProtoLine(line, Ipv6Proto(mode)), Ipv4Proto(mode)) == line <==>
      !Lead(line.kind).Proto? || (line.kind == Proto(Some(Ipv4Proto(mode)), "") && line.eol != Absent)
  {
  }

  lemma ProtoRestoredIff(plan: Plan, lines: seq<Line>)
    requires Count(plan, ProtoLine, lines) == 1
    ensures WithProto(WithProto(lines, Ipv6Proto(plan.mode)), Ipv4Proto(plan.mode)) == lines <==>
      CanonicalProto(plan, lines)
  {
    var six, four := Ipv6Proto(plan.mode), Ipv4Proto(plan.mode);
    var out := WithProto(WithProto(lines, six), four);
    var p := First(plan, ProtoLine, lines);
    CountZero(plan, ProtoLine, lines);
    OnlyProto(plan, lines);
    forall k | 0 <= k < |lines| ensures out[k] == lines[k] <==> k != p || CanonicalProto(plan, lines) {
      WithProtoEach(lines, six);
      WithProtoEach(WithProto(lines, six), four);
      ProtoLineRestoredIff(lines[k], plan.mode);
    }
    assert out == lines ==> out[p] == lines[p];
  }

  /**
   Disabling after enabling is accepted exactly when no bare server directive was glued. It gives back the exact text
   exactly when the protocol line was the canonical terminated IPv4 one, no managed line was present, and neither
   insertion met an unterminated line.
   */
  lemma DisableRestoresIff(plan: Plan, lines: seq<Line>)
    requires Reconcile(plan, lines, true).Some?
    ensures
      var out := Reconcile(plan, Reconcile(plan, lines, true).value.0, false);
      && (out.Some? <==> !DestroysServer(plan, lines))
      && (out.Some? && out.value.0 == lines <==>
            CanonicalProto(plan, lines) && NothingManaged(plan, lines) && !Glues(plan, lines, true))
  {
    var enabled := Edited(plan, lines, true);
    EditedAccepted(plan, lines, true, false);
    if Glues(plan, lines, true) {
      GlueLeavesMark(plan, lines);
      MarkOutlivesDisable(plan, Mark(plan, lines), enabled);
    } else if NothingManaged(plan, lines) {
      DisableUndoes(plan, lines);
      ProtoRestoredIff(plan, lines);
    } else {
      EditedCounts(plan, OwnServer, enabled, false);
      EditedCounts(plan, OwnRedirect, enabled, false);
    }
  }

  /** A file with the neutral protocol, which enabling replaces and disabling does not bring back. */
  lemma NeutralProtoLost(plan: Plan)
    requires IsUlaBase(plan.base, plan.length) && !FullVpn(plan.mode)
    ensures
      var lines := ServerFile(NeutralProto(plan.mode), ARGUMENTS, Lf);
      var enabled := Reconcile(plan, lines, true);
      && enabled.Some? && Reconcile(plan, enabled.value.0, false).Some?
      && Reconcile(plan, enabled.value.0, false).value.0 != lines
  {
    var a, b := Line(Proto(Some(NeutralProto(plan.mode)), ""), Lf), Line(Server("", ARGUMENTS), Lf);
    TwoLinesAccepted(plan, NeutralProto(plan.mode), ARGUMENTS, Lf);
    TwoLines(plan, ProtoLine, a, b);
    TwoLines(plan, ServerLine, a, b);
    DisableRestoresIff(plan, [a, b]);
  }

  /******* Lines of others *******/

  predicate IsManaged(plan: Plan, line: Line) {
    Is(plan, ProtoLine, line) || Is(plan, OwnServer, line) || Is(plan, OwnRedirect, line)
  }

  /** The lines that are not managed, in order. */
  function Foreign(plan: Plan, lines: seq<Line>): seq<Line> {
    if lines == [] then []
    else Foreign(plan, lines[..|lines| - 1]) + if IsManaged(plan, lines[|lines| - 1]) then [] else [lines[|lines| - 1]]
  }

  lemma {:induction false} ForeignSplits(plan: Plan, a: seq<Line>, b: seq<Line>)
    ensures Foreign(plan, a + b) == Foreign(plan, a) + Foreign(plan, b)
  {
    if b == [] {
      assert a + b == a;
    } else {
      assert (a + b)[..|a + b| - 1] == a + b[..|b| - 1];
      ForeignSplits(plan, a, b[..|b| - 1]);
    }
  }

  lemma {:induction false} ForeignWithProto(plan: Plan, lines: seq<Line>, target: ProtoName)
    ensures Foreign(plan, WithProto(lines, target)) == Foreign(plan, lines)
  {
    if lines != [] {
      var init := WithProto(lines[..|lines| - 1], target);
      ForeignWithProto(plan, lines[..|lines| - 1], target);
      assert WithProto(lines, target)[..|lines| - 1] == init;
    }
  }

  lemma {:induction false} ForeignDropped(plan: Plan, c: Class, lines: seq<Line>)
    requires c == OwnServer || c == OwnRedirect
    ensures Foreign(plan, Drop(plan, c, lines)) == Foreign(plan, lines)
  {
    if lines != [] {
      var last := [lines[|lines| - 1]];
      assert last[..0] == [];
      ForeignDropped(plan, c, lines[..|lines| - 1]);
      ForeignSplits(plan, Drop(plan, c, lines[..|lines| - 1]), if Is(plan, c, last[0]) then [] else last);
    }
  }

  lemma ForeignInserted(plan: Plan, lines: seq<Line>, i: nat, kind: Kind)
    requires i < |lines| && lines[i].eol != Absent && forall eol :: IsManaged(plan, Line(kind, eol))
    ensures Foreign(plan, InsertAfter(lines, i, kind)) == Foreign(plan, lines)
  {
    var added := [Line(kind, Terminated(lines[i].eol))];
    assert added[..0] == [];
    assert lines == lines[..i + 1] + lines[i + 1..];
    ForeignSplits(plan, lines[..i + 1], lines[i + 1..]);
    ForeignSplits(plan, lines[..i + 1] + added, lines[i + 1..]);
    ForeignSplits(plan, lines[..i + 1], added);
    assert Foreign(plan, added) == [];
    assert Foreign(plan, lines[..i + 1]) + [] == Foreign(plan, lines[..i + 1]);
  }

  lemma ServerStepForeign(plan: Plan, lines: seq<Line>, enable: bool)
    requires enable ==> !GluesServer(plan, lines)
    ensures Foreign(plan, ServerStep(plan, lines, enable)) == Foreign(plan, lines)
  {
    var i := First(plan, ServerLine, lines);
    if !enable {
      ForeignDropped(plan, OwnServer, lines);
    } else if Count(plan, OwnServer, lines) == 0 && i < |lines| {
      ForeignInserted(plan, lines, i, OwnServerKind(plan));
    }
  }

  lemma RedirectStepForeign(plan: Plan, lines: seq<Line>, enable: bool)
    requires enable ==> !GluesRedirect(plan, lines)
    ensures Foreign(plan, RedirectStep(plan, lines, enable)) == Foreign(plan, lines)
  {
    var i := First(plan, Def1Line, lines);
    if FullVpn(plan.mode) {
      if !enable {
        ForeignDropped(plan, OwnRedirect, lines);
      } else if Count(plan, OwnRedirect, lines) == 0 && i < |lines| {
        ForeignInserted(plan, lines, i, OWN_REDIRECT);
      }
    }
  }

  /** Unless a line is glued, every line that is not managed stays as it is and in its order. */
  lemma ForeignKept(plan: Plan, lines: seq<Line>, enable: bool)
    requires Reconcile(plan, lines, enable).Some? && !Glues(plan, lines, enable)
    ensures Foreign(plan, Reconcile(plan, lines, enable).value.0) == Foreign(plan, lines)
  {
    var target := TargetProto(plan.mode, enable);
    var w := WithProto(lines, target);
    ForeignWithProto(plan, lines, target);
    if enable {
      SameServerAnchor(plan, lines, target);
      SameRedirectGlue(plan, lines, enable);
    }
    ServerStepForeign(plan, w, enable);
    RedirectStepForeign(plan, ServerStep(plan, w, enable), enable);
  }
}
