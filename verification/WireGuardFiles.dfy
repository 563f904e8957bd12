/** migrate_text and strip_text of wireguard-ipv6.py as they run over the lines. */
module WireGuardFiles {
  import opened Options
  import opened WireGuard

  /** The nested migrate_peer: none when the peer has no line or cannot carry its address. */
  method MigratePeer(plan: Plan, lines: seq<Line>, found: Option<nat>) returns (r: Option<(seq<Line>, nat)>)
    requires found.Some? ==> found.value < |lines| && lines[found.value].Assign?
    ensures r.Some? <==> found.Some? && PeerFits(plan, lines[found.value].values)
    ensures r.Some? ==>
      var expected := ClientOf(plan, lines[found.value].values).value;
      && r.value.0 == lines[found.value := WithAddress(lines[found.value], expected)]
      && r.value.1 == if Carries(lines[found.value].values, expected) then 0 else 1
  {
    if found.None? {
      return None;
    }
    var line := lines[found.value];
    var expected := ClientOf(plan, line.values);
    if !AllParse(line.values) || expected.None? {
      return None;
    }
    if Carries(line.values, expected.value) {
      return Some((lines, 0));
    }
    if HasV6(line.values) {
      return None;
    }
    return Some((lines[found.value := WithAddress(line, expected.value)], 1));
  }

  /** What the loop has established before line `index`. */
  ghost predicate Scanned(
    plan: Plan, lines: seq<Line>, index: nat,
    out: seq<Line>, section: Option<Section>, interfaceLine: Option<nat>, peerLine: Option<nat>, changed: nat
  )
    requires index <= |lines|
  {
    var header := HeaderOf(lines, index);
    && section == SectionOf(lines, index)
    && MigratedAbove(plan, lines, out, header)
    && changed == |LackingAbove(plan, lines, header)|
    && PeersGood(plan, lines, header)
    && (forall k: nat :: IsInterfaceLine(lines, k) && k < index <==> interfaceLine == Some(k))
    && (section == Some(Peer) ==> forall k: nat :: InBlock(lines, header, k) && k < index <==> peerLine == Some(k))
  }

  /** What is known once the block open before `index` has been closed. */
  ghost predicate Closed(plan: Plan, lines: seq<Line>, index: nat, out: seq<Line>, changed: nat)
    requires index <= |lines|
  {
    && MigratedAbove(plan, lines, out, index)
    && changed == |LackingAbove(plan, lines, index)|
    && PeersGood(plan, lines, index)
  }

  lemma PeerHeadersBelow(plan: Plan, lines: seq<Line>, index: nat)
    requires index <= |lines|
    requires PeersGood(plan, lines, HeaderOf(lines, index))
    requires SectionOf(lines, index) == Some(Peer) ==> BlockGood(plan, lines, HeaderOf(lines, index))
    ensures PeersGood(plan, lines, index)
  {
    var header := HeaderOf(lines, index);
    forall h | IsPeerHeader(lines, h) && h < index ensures BlockGood(plan, lines, h) {
      assert h <= header;
    }
  }

  lemma OpenLineUntouched(plan: Plan, lines: seq<Line>, index: nat, out: seq<Line>, found: nat)
    requires index <= |lines| && MigratedAbove(plan, lines, out, HeaderOf(lines, index))
    requires InBlock(lines, HeaderOf(lines, index), found)
    ensures out[found] == lines[found]
  {
    assert !Done(lines, found, HeaderOf(lines, index));
  }

  lemma PeerMigrated(plan: Plan, lines: seq<Line>, index: nat, out: seq<Line>, found: nat)
    requires index <= |lines| && SectionOf(lines, index) == Some(Peer)
    requires MigratedAbove(plan, lines, out, HeaderOf(lines, index))
    requires forall k: nat :: InBlock(lines, HeaderOf(lines, index), k) && k < index <==> k == found
    requires InBlock(lines, HeaderOf(lines, index), found) && PeerFits(plan, lines[found].values)
    ensures
      var line := WithAddress(lines[found], ClientOf(plan, lines[found].values).value);
      MigratedAbove(plan, lines, out[found := line], index)
  {
    PeerClosed(plan, lines, index, found);
    assert Target(plan, lines, found) == ClientOf(plan, lines[found].values);
  }

  lemma PeerCounted(plan: Plan, lines: seq<Line>, index: nat, found: nat)
    requires index <= |lines| && SectionOf(lines, index) == Some(Peer)
    requires forall k: nat :: InBlock(lines, HeaderOf(lines, index), k) && k < index <==> k == found
    requires InBlock(lines, HeaderOf(lines, index), found) && PeerFits(plan, lines[found].values)
    ensures
      |LackingAbove(plan, lines, index)| == |LackingAbove(plan, lines, HeaderOf(lines, index))| +
        if Carries(lines[found].values, ClientOf(plan, lines[found].values).value) then 0 else 1
  {
    var before, after := LackingAbove(plan, lines, HeaderOf(lines, index)), LackingAbove(plan, lines, index);
    assert found !in before by {
      assert !Done(lines, found, HeaderOf(lines, index));
    }
    assert Target(plan, lines, found) == ClientOf(plan, lines[found].values);
    assert after == before + if Lacks(plan, lines, found) then {found} else {} by {
      PeerClosed(plan, lines, index, found);
    }
    OneMoreCounted(before, found);
  }

  lemma OneMoreCounted(s: set<nat>, x: nat)
    requires x !in s
    ensures |s + {x}| == |s| + 1 && s + {} == s
  {
  }

  /** The end of a section, at the next header or at the end of the text. */
  method CloseSection(
    plan: Plan, ghost lines: seq<Line>, ghost index: nat,
    out: seq<Line>, section: Option<Section>, ghost interfaceLine: Option<nat>, peerLine: Option<nat>, changed: nat
  ) returns (r: Option<(seq<Line>, nat)>)
    requires index <= |lines| && (index == |lines| || lines[index].Header?)
    requires Scanned(plan, lines, index, out, section, interfaceLine, peerLine, changed)
    ensures r.Some? ==> Closed(plan, lines, index, r.value.0, r.value.1)
    ensures r.None? ==> !PeersGood(plan, lines, |lines|)
  {
    ghost var header := HeaderOf(lines, index);
    if section != Some(Peer) {
      NoPeerClosed(plan, lines, index);
      PeerHeadersBelow(plan, lines, index);
      return Some((out, changed));
    }
    assert IsPeerHeader(lines, header);
    if peerLine.Some? {
      assert InBlock(lines, header, peerLine.value);
      OpenLineUntouched(plan, lines, index, out, peerLine.value);
    }
    BlockCloses(plan, lines, index, peerLine);
    var migrated := MigratePeer(plan, out, peerLine);
    if migrated.None? {
      return None;
    }
    PeerMigrated(plan, lines, index, out, peerLine.value);
    PeerCounted(plan, lines, index, peerLine.value);
    PeerHeadersBelow(plan, lines, index);
    return Some((migrated.value.0, changed + migrated.value.1));
  }

  lemma SecondInterfaceLine(plan: Plan, lines: seq<Line>, i: nat, j: nat)
    requires IsInterfaceLine(lines, i) && IsInterfaceLine(lines, j) && i != j
    ensures !InterfaceGood(plan, lines)
  {
  }

  lemma SecondPeerLine(plan: Plan, lines: seq<Line>, h: nat, i: nat, j: nat)
    requires IsPeerHeader(lines, h) && InBlock(lines, h, i) && InBlock(lines, h, j) && i != j
    ensures !PeersGood(plan, lines, |lines|)
  {
    assert !BlockGood(plan, lines, h);
  }

  lemma AtHeader(
    plan: Plan, lines: seq<Line>, index: nat, out: seq<Line>, interfaceLine: Option<nat>, peerLine: Option<nat>,
    changed: nat
  )
    requires index < |lines| && lines[index].Header?
    requires Closed(plan, lines, index, out, changed)
    requires forall k: nat :: IsInterfaceLine(lines, k) && k < index <==> interfaceLine == Some(k)
    ensures
      var section := lines[index].section;
      Scanned(plan, lines, index + 1, out, Some(section), interfaceLine,
              if section == Peer then None else peerLine, changed)
  {
    assert HeaderOf(lines, index + 1) == index;
    assert !IsInterfaceLine(lines, index);
    forall k: nat | InBlock(lines, index, k) ensures k >= index + 1 {
      assert HeaderOf(lines, k) < k;
    }
  }

  lemma AtLine(
    plan: Plan, lines: seq<Line>, index: nat, out: seq<Line>, section: Option<Section>,
    interfaceLine: Option<nat>, peerLine: Option<nat>, changed: nat
  )
    requires index < |lines| && !lines[index].Header?
    requires Scanned(plan, lines, index, out, section, interfaceLine, peerLine, changed)
    requires IsInterfaceLine(lines, index) ==> interfaceLine.None?
    requires InBlock(lines, HeaderOf(lines, index), index) ==> peerLine.None?
    ensures
      var interfaceLine' := if IsInterfaceLine(lines, index) then Some(index) else interfaceLine;
      var peerLine' := if IsPeerLine(lines, index) then Some(index) else peerLine;
      Scanned(plan, lines, index + 1, out, section, interfaceLine', peerLine', changed)
  {
    var header := HeaderOf(lines, index);
    assert HeaderOf(lines, index + 1) == header;
    assert IsPeerLine(lines, index) ==> InBlock(lines, header, index);
    forall k: nat
      ensures IsInterfaceLine(lines, k) && k < index + 1 <==>
        (if IsInterfaceLine(lines, index) then Some(index) else interfaceLine) == Some(k)
    {
      assert k < index + 1 <==> k < index || k == index;
    }
    if section == Some(Peer) {
      forall k: nat
        ensures InBlock(lines, header, k) && k < index + 1 <==>
          (if IsPeerLine(lines, index) then Some(index) else peerLine) == Some(k)
      {
        assert k < index + 1 <==> k < index || k == index;
      }
    }
  }

  lemma AllMigrated(plan: Plan, lines: seq<Line>, out: seq<Line>)
    requires MigratedAbove(plan, lines, out, |lines|)
    ensures out == PeersMigrated(plan, lines)
  {
    forall k | 0 <= k < |lines| ensures Done(lines, k, |lines|) == IsPeerLine(lines, k) {
    }
  }

  lemma AllCounted(plan: Plan, lines: seq<Line>, i: nat)
    requires IsInterfaceLine(lines, i) && forall k :: IsInterfaceLine(lines, k) ==> k == i
    ensures
      |Lacking(plan, lines)| ==
      |LackingAbove(plan, lines, |lines|)| + if Carries(lines[i].values, Server(plan)) then 0 else 1
  {
    var peers := LackingAbove(plan, lines, |lines|);
    forall k: nat ensures k in Lacking(plan, lines) <==> k in peers || (k == i && Lacks(plan, lines, i)) {
      if k in Lacking(plan, lines) && k != i {
        assert Done(lines, k, |lines|);
      }
    }
    assert i !in peers;
    assert Lacking(plan, lines) == peers + if Lacks(plan, lines, i) then {i} else {};
    OneMoreCounted(peers, i);
  }

  /**
   The whole migration: refused exactly when the declarative reading refuses, and the same text and count otherwise.
   */
  method MigrateText(plan: Plan, lines: seq<Line>) returns (r: Option<(seq<Line>, nat)>)
    ensures r == Migrate(plan, lines)
  {
    if !GoodBase(plan) {
      return None;
    }
    var out := lines;
    var section: Option<Section>, interfaceLine: Option<nat>, peerLine: Option<nat> := None, None, None;
    var changed := 0;
    assert PeersGood(plan, lines, -1) && LackingAbove(plan, lines, -1) == {};
    for index := 0 to |lines|
      invariant Scanned(plan, lines, index, out, section, interfaceLine, peerLine, changed)
    {
      var line := lines[index];
      if line.Header? {
        var closed := CloseSection(plan, lines, index, out, section, interfaceLine, peerLine, changed);
        if closed.None? {
          return None;
        }
        out, changed := closed.value.0, closed.value.1;
        AtHeader(plan, lines, index, out, interfaceLine, peerLine, changed);
        section := Some(line.section);
        if line.section == Peer {
          peerLine := None;
        }
      } else {
        if line.Assign? && section == Some(Interface) && line.key == Address {
          if interfaceLine.Some? {
            SecondInterfaceLine(plan, lines, interfaceLine.value, index);
            return None;
          }
        } else if line.Assign? && section == Some(Peer) && line.key == AllowedIPs {
          if peerLine.Some? {
            SecondPeerLine(plan, lines, HeaderOf(lines, index), peerLine.value, index);
            return None;
          }
        }
        AtLine(plan, lines, index, out, section, interfaceLine, peerLine, changed);
        if line.Assign? && section == Some(Interface) && line.key == Address {
          interfaceLine := Some(index);
        } else if line.Assign? && section == Some(Peer) && line.key == AllowedIPs {
          peerLine := Some(index);
        }
      }
    }
    var closed := CloseSection(plan, lines, |lines|, out, section, interfaceLine, peerLine, changed);
    if closed.None? || interfaceLine.None? {
      return None;
    }
    out, changed := closed.value.0, closed.value.1;
    AllMigrated(plan, lines, out);
    r := MigrateInterface(plan, lines, out, interfaceLine.value, changed);
  }

  /** The end of migrate_text: the interface's own address. */
  method MigrateInterface(plan: Plan, ghost lines: seq<Line>, out: seq<Line>, i: nat, changed: nat)
    returns (r: Option<(seq<Line>, nat)>)
    requires GoodBase(plan) && PeersGood(plan, lines, |lines|)
    requires IsInterfaceLine(lines, i) && forall k :: IsInterfaceLine(lines, k) ==> k == i
    requires out == PeersMigrated(plan, lines) && changed == |LackingAbove(plan, lines, |lines|)|
    ensures r == Migrate(plan, lines)
  {
    AllCounted(plan, lines, i);
    assert out[i] == lines[i];
    var values := out[i].values;
    if !AllParse(values) {
      return None;
    }
    if Carries(values, Server(plan)) {
      return Some((out, changed));
    }
    if HasV6(values) {
      return None;
    }
    assert InterfaceGood(plan, lines);
    if Glues(out[i]) {
      return Some((GlueAfter(out, i, Server(plan)), changed + 1));
    }
    return Some((out[i := WithAddress(out[i], Server(plan))], changed + 1));
  }

  function Below(s: set<nat>, end: nat): set<nat> {
    set i | i in s && i < end
  }

  lemma BelowOneMore(s: set<nat>, end: nat)
    ensures |Below(s, end + 1)| == |Below(s, end)| + if end in s then 1 else 0
  {
    assert Below(s, end + 1) == Below(s, end) + if end in s then {end} else {};
    OneMoreCounted(Below(s, end), end);
  }

  /** The state of strip_text before line `index`. */
  ghost predicate StrippedBelow(plan: Plan, lines: seq<Line>, out: seq<Line>, changed: nat, index: nat) {
    && |out| == |lines|
    && changed == |Below(Removing(plan, lines), index)|
    && forall k :: 0 <= k < |lines| ==>
         if k < index then StripFits(plan, lines, k) && out[k] == Stripped(plan, lines, k) else out[k] == lines[k]
  }

  lemma StrippedOneMore(plan: Plan, lines: seq<Line>, out: seq<Line>, changed: nat, index: nat)
    requires index < |lines| && StrippedBelow(plan, lines, out, changed, index) && StripFits(plan, lines, index)
    ensures
      var out' := out[index := Stripped(plan, lines, index)];
      StrippedBelow(plan, lines, out', changed + if Removes(plan, lines, index) then 1 else 0, index + 1)
  {
    BelowOneMore(Removing(plan, lines), index);
  }

  /** The body of the loop of strip_text for one assignment. */
  method StripLine(plan: Plan, ghost lines: seq<Line>, ghost index: nat, line: Line, section: Option<Section>)
    returns (r: Option<(Line, nat)>)
    requires index < |lines| && line == lines[index] && line.Assign? && section == SectionOf(lines, index)
    ensures r.Some? <==> StripFits(plan, lines, index)
    ensures r.Some? ==> r.value == (Stripped(plan, lines, index), if Removes(plan, lines, index) then 1 else 0)
  {
    if !AllParse(line.values) {
      return None;
    }
    var remove: Option<Iface> := None;
    if section == Some(Interface) && line.key == Address {
      remove := Some(Server(plan));
    } else if section == Some(Peer) && line.key == AllowedIPs {
      remove := ClientOf(plan, line.values);
      if remove.None? {
        return None;
      }
    }
    if remove.None? || !Carries(line.values, remove.value) {
      return Some((line, 0));
    }
    var retained := Without(line.values, remove.value);
    if retained == [] {
      return None;
    }
    return Some((Assign(line.key, retained, false, line.nl), 1));
  }

  /** strip_text: refused exactly when some line cannot be stripped. */
  method StripText(plan: Plan, lines: seq<Line>) returns (r: Option<(seq<Line>, nat)>)
    ensures r == Strip(plan, lines)
  {
    if !GoodBase(plan) {
      return None;
    }
    var out, section: Option<Section>, changed := lines, None, 0;
    assert Below(Removing(plan, lines), 0) == {};
    for index := 0 to |lines|
      invariant section == SectionOf(lines, index)
      invariant StrippedBelow(plan, lines, out, changed, index)
    {
      var line := lines[index];
      if line.Header? {
        section := Some(line.section);
      } else if line.Assign? {
        var stripped := StripLine(plan, lines, index, line, section);
        if stripped.None? {
          return None;
        }
        StrippedOneMore(plan, lines, out, changed, index);
        out, changed := out[index := stripped.value.0], changed + stripped.value.1;
        continue;
      }
      assert Stripped(plan, lines, index) == line;
      StrippedOneMore(plan, lines, out, changed, index);
      assert out[index := line] == out;
    }
    AllLinesStripped(plan, lines, out, changed);
    return Some((out, changed));
  }

  lemma AllLinesStripped(plan: Plan, lines: seq<Line>, out: seq<Line>, changed: nat)
    requires GoodBase(plan) && StrippedBelow(plan, lines, out, changed, |lines|)
    ensures Strip(plan, lines) == Some((out, changed))
  {
    assert out == AllStripped(plan, lines);
    assert Below(Removing(plan, lines), |lines|) == Removing(plan, lines);
  }
}
