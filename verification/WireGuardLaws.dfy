/** What a second migration and a strip do to a migrated WireGuard text. */
module WireGuardLaws {
  import opened Options
  import opened WireGuard

  /******* Lists *******/

  lemma {:induction false} HostKept(values: seq<Value>, v: Value)
    requires Parsed(v).Some? && Parsed(v).value.V6?
    ensures FirstHost(values + [v]) == FirstHost(values)
  {
    if values == [] {
      assert ([] + [v])[1..] == [];
    } else {
      assert (values + [v])[1..] == values[1..] + [v];
      HostKept(values[1..], v);
    }
  }

  lemma WithAddressFits(line: Line, iface: Iface)
    requires line.Assign? && iface.V6? && AllParse(line.values)
    ensures
      var line' := WithAddress(line, iface);
      AllParse(line'.values) && Carries(line'.values, iface) && FirstHost(line'.values) == FirstHost(line.values)
  {
    if !Carries(line.values, iface) {
      var v := Canonical(iface);
      HostKept(line.values, v);
      assert v in line.values + [v] && Parsed(v) == Some(iface);
    }
  }

  lemma {:induction false} WithoutAbsent(values: seq<Value>, iface: Iface)
    requires !Carries(values, iface)
    ensures Without(values, iface) == values
  {
    if values != [] {
      var init, last := values[..|values| - 1], values[|values| - 1];
      assert values == init + [last];
      assert !Carries(init, iface);
      WithoutAbsent(init, iface);
      assert last in values;
    }
  }

  lemma WithoutAdded(values: seq<Value>, iface: Iface)
    requires !Carries(values, iface)
    ensures Without(values + [Canonical(iface)], iface) == values
  {
    assert (values + [Canonical(iface)])[..|values|] == values;
    WithoutAbsent(values, iface);
  }

  /** Exactly the entries that denote the address go, and a list from which nothing goes is shorter by nothing. */
  lemma {:induction false} WithoutExact(values: seq<Value>, iface: Iface)
    ensures |Without(values, iface)| <= |values|
    ensures |Without(values, iface)| == |values| <==> !Carries(values, iface)
    ensures !Carries(Without(values, iface), iface)
    ensures forall v :: v in Without(values, iface) <==> v in values && Parsed(v) != Some(iface)
  {
    if values != [] {
      var init, last := values[..|values| - 1], values[|values| - 1];
      assert values == init + [last];
      WithoutExact(init, iface);
      if Carries(values, iface) && Parsed(last) != Some(iface) {
        assert Carries(init, iface);
      }
    }
  }

  lemma {:induction false} HostKeptWithout(values: seq<Value>, iface: Iface)
    requires iface.V6?
    ensures FirstHost(Without(values, iface)) == FirstHost(values)
  {
    if values != [] {
      var init, last := values[..|values| - 1], values[|values| - 1];
      assert values == init + [last];
      HostKeptWithout(init, iface);
      HostOfLast(init, last);
      HostOfLast(Without(init, iface), last);
      if Parsed(last) == Some(iface) {
        assert [last][1..] == [] && Without(init, iface) + [] == Without(init, iface);
      }
    }
  }

  lemma {:induction false} HostOfLast(values: seq<Value>, v: Value)
    ensures FirstHost(values + [v]) == if FirstHost(values).Some? then FirstHost(values) else FirstHost([v])
  {
    if values == [] {
      assert [] + [v] == [v];
    } else {
      assert (values + [v])[1..] == values[1..] + [v];
      HostOfLast(values[1..], v);
    }
  }

  /******* Lines *******/

  /** The same headers, and assignments to the same keys. */
  ghost predicate SameShape(a: seq<Line>, b: seq<Line>) {
    |a| == |b| && forall k :: 0 <= k < |a| ==> SameKind(a[k], b[k])
  }

  predicate SameKind(a: Line, b: Line) {
    (a.Header? || b.Header? ==> a == b) && (a.Assign? <==> b.Assign?) && (a.Assign? ==> a.key == b.key)
  }

  lemma {:induction false} SameHeader(a: seq<Line>, b: seq<Line>, i: nat)
    requires i <= |a| && i <= |b| && forall k :: 0 <= k < i ==> SameKind(a[k], b[k])
    ensures HeaderOf(a, i) == HeaderOf(b, i) && SectionOf(a, i) == SectionOf(b, i)
  {
    if i > 0 {
      assert SameKind(a[i - 1], b[i - 1]);
      SameHeader(a, b, i - 1);
    }
  }

  lemma SameLines(a: seq<Line>, b: seq<Line>)
    requires SameShape(a, b)
    ensures forall k, key, section :: IsKeyLine(a, k, key, section) <==> IsKeyLine(b, k, key, section)
    ensures forall h, k :: InBlock(a, h, k) <==> InBlock(b, h, k)
    ensures forall h :: IsPeerHeader(a, h) <==> IsPeerHeader(b, h)
  {
    forall k: nat | k < |a| ensures HeaderOf(a, k) == HeaderOf(b, k) && SectionOf(a, k) == SectionOf(b, k) {
      SameHeader(a, b, k);
    }
  }

  /** Every address in its place. */
  function AllMaintained(plan: Plan, lines: seq<Line>): (out: seq<Line>)
    ensures |out| == |lines| && forall k :: 0 <= k < |lines| ==> out[k] == Maintained(plan, lines, k)
  {
    seq(|lines|, k requires 0 <= k < |lines| => Maintained(plan, lines, k))
  }

  ghost predicate GluedInterface(lines: seq<Line>) {
    exists i :: IsInterfaceLine(lines, i) && Glues(lines[i])
  }

  /** Unless the interface's address is blank and terminated, migration maintains each line in place. */
  lemma MigratedInPlace(plan: Plan, lines: seq<Line>)
    requires Acceptable(plan, lines) && !GluedInterface(lines)
    ensures Migrate(plan, lines).value.0 == AllMaintained(plan, lines)
  {
    var i :|
      IsInterfaceLine(lines, i) && Migrate(plan, lines).value.0 == AppendServer(plan, PeersMigrated(plan, lines), i);
    var peers, out := PeersMigrated(plan, lines), AllMaintained(plan, lines);
    assert AppendServer(plan, peers, i) == peers[i := WithAddress(lines[i], Server(plan))];
    forall k | 0 <= k < |lines| && k != i ensures peers[k] == out[k] {
      assert !IsInterfaceLine(lines, k);
    }
    assert AppendServer(plan, peers, i) == out;
  }

  /** Each kept line carries its own address afterwards, and the address it should carry is the same as before. */
  lemma MaintainedCarries(plan: Plan, lines: seq<Line>, k: nat)
    requires Acceptable(plan, lines) && k < |lines|
    ensures
      var out := AllMaintained(plan, lines);
      && SameKind(lines[k], out[k])
      && (IsInterfaceLine(lines, k) ==> Fits(out[k].values, Server(plan)) && Carries(out[k].values, Server(plan)))
      && (IsPeerLine(lines, k) ==>
            && PeerFits(plan, out[k].values) && ClientOf(plan, out[k].values) == ClientOf(plan, lines[k].values)
            && Carries(out[k].values, ClientOf(plan, out[k].values).value))
  {
    if IsInterfaceLine(lines, k) {
      WithAddressFits(lines[k], Server(plan));
    } else if IsPeerLine(lines, k) {
      PeerLineFits(plan, lines, k);
      WithAddressFits(lines[k], ClientOf(plan, lines[k].values).value);
    }
  }

  lemma PeerLineFits(plan: Plan, lines: seq<Line>, k: nat)
    requires PeersGood(plan, lines, |lines|) && IsPeerLine(lines, k)
    ensures PeerFits(plan, lines[k].values)
  {
    var h := HeaderOf(lines, k);
    assert IsPeerHeader(lines, h) && InBlock(lines, h, k);
    assert BlockGood(plan, lines, h);
  }

  /******* A second migration *******/

  lemma Settled(plan: Plan, lines: seq<Line>)
    requires Acceptable(plan, lines)
    ensures Acceptable(plan, AllMaintained(plan, lines))
    ensures forall k: nat :: !Lacks(plan, AllMaintained(plan, lines), k)
  {
    var out := AllMaintained(plan, lines);
    forall k: nat | k < |lines| ensures SameKind(lines[k], out[k]) {
      MaintainedCarries(plan, lines, k);
    }
    SameLines(lines, out);
    forall h | IsPeerHeader(out, h) ensures BlockGood(plan, out, h) {
      assert IsPeerHeader(lines, h) && BlockGood(plan, lines, h);
      var k :| InBlock(lines, h, k) && PeerFits(plan, lines[k].values) && forall j :: InBlock(lines, h, j) ==> j == k;
      MaintainedCarries(plan, lines, k);
      assert InBlock(out, h, k) && PeerFits(plan, out[k].values);
    }
    var i :| IsInterfaceLine(lines, i) && forall j :: IsInterfaceLine(lines, j) ==> j == i;
    MaintainedCarries(plan, lines, i);
    assert IsInterfaceLine(out, i) && Fits(out[i].values, Server(plan));
    forall k: nat ensures !Lacks(plan, out, k) {
      if k < |lines| {
        MaintainedCarries(plan, lines, k);
      }
    }
  }

  lemma NothingLacking(plan: Plan, lines: seq<Line>)
    requires Acceptable(plan, lines) && forall k: nat :: !Lacks(plan, lines, k)
    ensures Migrate(plan, lines) == Some((lines, 0))
  {
    assert Lacking(plan, lines) == {};
    forall k: nat | k < |lines| ensures PeersMigrated(plan, lines)[k] == lines[k] {
      assert !Lacks(plan, lines, k);
    }
    assert PeersMigrated(plan, lines) == lines;
    var i :|
      IsInterfaceLine(lines, i) && Migrate(plan, lines).value.0 == AppendServer(plan, PeersMigrated(plan, lines), i);
    assert !Lacks(plan, lines, i);
  }

  /** A text with a blank terminated interface address is never settled: the appended address opens a new line. */
  lemma GlueLeavesLacking(plan: Plan, lines: seq<Line>)
    requires Acceptable(plan, lines) && GluedInterface(lines)
    ensures
      var out := Migrate(plan, lines).value.0;
      exists i: nat :: Lacks(plan, out, i) && IsInterfaceLine(out, i) && Glues(out[i])
  {
    var g :| IsInterfaceLine(lines, g) && Glues(lines[g]);
    var peers, out := PeersMigrated(plan, lines), Migrate(plan, lines).value.0;
    var i :| IsInterfaceLine(lines, i) && out == AppendServer(plan, peers, i);
    assert i == g;
    assert peers[i] == lines[i] && out == GlueAfter(peers, i, Server(plan));
    forall k | 0 <= k < i ensures SameKind(out[k], lines[k]) {
      assert out[k] == peers[k];
    }
    SameHeader(out, lines, i);
    assert out[i] == lines[i];
    assert IsInterfaceLine(out, i) && Lacks(plan, out, i);
  }

  /** A second migration changes nothing exactly when the interface's address was not blank with its line terminated. */
  lemma MigrateTwiceIff(plan: Plan, lines: seq<Line>)
    requires Migrate(plan, lines).Some?
    ensures
      var out := Migrate(plan, lines).value.0;
      Migrate(plan, out) == Some((out, 0)) <==> !GluedInterface(lines)
  {
    var out := Migrate(plan, lines).value.0;
    if GluedInterface(lines) {
      GlueLeavesLacking(plan, lines);
      var i: nat :| Lacks(plan, out, i);
      assert i in Lacking(plan, out);
    } else {
      MigratedInPlace(plan, lines);
      Settled(plan, lines);
      NothingLacking(plan, out);
    }
  }

  /** An interface section whose address is still to be filled in. */
  function BlankAddress(): seq<Line> { [Header(Interface, "[Interface]"), Assign(Address, [], true, Lf)] }

  /** For every base, this text is accepted and a second migration changes it again. */
  lemma BlankAddressGrows(plan: Plan)
    requires GoodBase(plan)
    ensures
      var once := Migrate(plan, BlankAddress());
      once.Some? && Migrate(plan, once.value.0) != Some((once.value.0, 0))
  {
    var lines := BlankAddress();
    assert HeaderOf(lines, 1) == 0;
    assert IsInterfaceLine(lines, 1) && Fits(lines[1].values, Server(plan));
    assert forall j :: IsInterfaceLine(lines, j) ==> j == 1;
    assert InterfaceGood(plan, lines);
    MigrateTwiceIff(plan, lines);
  }

  /** The reported count is zero exactly when the text is the same. */
  lemma CountZeroIff(plan: Plan, lines: seq<Line>)
    requires Migrate(plan, lines).Some?
    ensures Migrate(plan, lines).value.1 == 0 <==> Migrate(plan, lines).value.0 == lines
  {
    var (out, changed) := Migrate(plan, lines).value;
    if changed == 0 {
      forall k: nat ensures !Lacks(plan, lines, k) {
        assert k !in Lacking(plan, lines);
      }
      NothingLacking(plan, lines);
    } else if GluedInterface(lines) {
      var peers := PeersMigrated(plan, lines);
      var i :| IsInterfaceLine(lines, i) && out == AppendServer(plan, peers, i);
      assert peers[i] == lines[i];
      assert Glues(lines[i]);
      GluedDiffers(plan, lines, i);
    } else {
      MigratedInPlace(plan, lines);
      var k :| k in Lacking(plan, lines);
      assert |out[k].values| == |lines[k].values| + 1;
    }
  }

  lemma NotInside(line: Line)
    requires line.Glued? && line.following.Some?
    ensures line.following.value != line
  {
    assert line.following.value < line;
  }

  lemma GluedDiffers(plan: Plan, lines: seq<Line>, i: nat)
    requires i < |lines|
    ensures GlueAfter(PeersMigrated(plan, lines), i, Server(plan)) != lines
  {
    var peers := PeersMigrated(plan, lines);
    var out := GlueAfter(peers, i, Server(plan));
    if i + 1 < |lines| {
      assert out[i + 1] == Glued(Server(plan), Some(peers[i + 1]));
      assert lines[i + 1].Glued? ==> peers[i + 1] == lines[i + 1];
      NotInside(out[i + 1]);
    } else {
      assert |out| == |lines| + 1;
    }
  }

  /******* Stripping a migrated text *******/

  /** No line that this program keeps carries its address yet. */
  ghost predicate NoneCarried(plan: Plan, lines: seq<Line>) {
    forall k: nat :: k < |lines| && Target(plan, lines, k).Some? ==> Lacks(plan, lines, k)
  }

  ghost predicate AllReadable(lines: seq<Line>) {
    forall line :: line in lines && line.Assign? ==> AllParse(line.values)
  }

  ghost predicate InterfaceNamed(lines: seq<Line>) {
    forall i :: IsInterfaceLine(lines, i) ==> lines[i].values != []
  }

  /** Only an assignment without values is blank. */
  ghost predicate BlankIsEmpty(lines: seq<Line>) {
    forall line :: line in lines && line.Assign? && line.blank ==> line.values == []
  }

  lemma TargetsKept(plan: Plan, lines: seq<Line>)
    requires Acceptable(plan, lines)
    ensures
      var out := AllMaintained(plan, lines);
      && (forall k: nat :: k < |lines| ==> Target(plan, out, k) == Target(plan, lines, k))
      && (forall k: nat :: k < |lines| && IsPeerLine(lines, k) ==> Target(plan, lines, k).Some?)
      && (forall k, key, section :: IsKeyLine(lines, k, key, section) <==> IsKeyLine(out, k, key, section))
  {
    var out := AllMaintained(plan, lines);
    forall k: nat | k < |lines| ensures SameKind(lines[k], out[k]) {
      MaintainedCarries(plan, lines, k);
    }
    SameLines(lines, out);
    forall k: nat | k < |lines| && IsPeerLine(lines, k)
      ensures Target(plan, out, k) == Target(plan, lines, k) && Target(plan, lines, k).Some?
    {
      MaintainedCarries(plan, lines, k);
    }
  }

  /** One line of a migrated text is stripped back to what it was, if it had a value and lacked the address. */
  lemma LineRestored(plan: Plan, lines: seq<Line>, k: nat)
    requires Acceptable(plan, lines) && k < |lines| && BlankIsEmpty(lines) && AllReadable(lines)
    requires Target(plan, lines, k).Some? ==> Lacks(plan, lines, k) && lines[k].values != []
    ensures
      var out := AllMaintained(plan, lines);
      StripFits(plan, out, k) && Stripped(plan, out, k) == lines[k]
  {
    TargetsKept(plan, lines);
    assert lines[k] in lines;
    var target := Target(plan, lines, k);
    if target.Some? {
      WithoutAdded(lines[k].values, target.value);
      WithAddressFits(lines[k], target.value);
    }
  }

  lemma RestoresWhen(plan: Plan, lines: seq<Line>)
    requires Acceptable(plan, lines) && BlankIsEmpty(lines)
    requires NoneCarried(plan, lines) && AllReadable(lines) && InterfaceNamed(lines)
    ensures
      var out := Migrate(plan, lines).value.0;
      Strip(plan, out).Some? && Strip(plan, out).value.0 == lines
  {
    MigratedInPlace(plan, lines);
    var out := AllMaintained(plan, lines);
    forall k: nat | k < |lines| ensures StripFits(plan, out, k) && Stripped(plan, out, k) == lines[k] {
      if IsPeerLine(lines, k) {
        PeerLineFits(plan, lines, k);
      }
      LineRestored(plan, lines, k);
    }
    assert AllStripped(plan, out) == lines;
  }

  /** A strip that succeeds has shortened every list it touched, and no list it did not. */
  lemma LineNotRestored(plan: Plan, lines: seq<Line>, k: nat)
    requires Acceptable(plan, lines) && k < |lines| && Target(plan, lines, k).Some? && !Lacks(plan, lines, k)
    requires Strip(plan, AllMaintained(plan, lines)).Some?
    ensures Strip(plan, AllMaintained(plan, lines)).value.0 != lines
  {
    TargetsKept(plan, lines);
    var out, target := AllMaintained(plan, lines), Target(plan, lines, k).value;
    assert out[k] == lines[k];
    WithoutExact(lines[k].values, target);
    assert Strip(plan, out).value.0[k].values == Without(lines[k].values, target);
  }

  lemma UnreadableStays(plan: Plan, lines: seq<Line>, k: nat)
    requires Acceptable(plan, lines) && k < |lines| && lines[k].Assign? && !AllParse(lines[k].values)
    ensures Strip(plan, AllMaintained(plan, lines)).None?
  {
    var out := AllMaintained(plan, lines);
    TargetsKept(plan, lines);
    var v :| v in lines[k].values && Parsed(v).None?;
    assert v in out[k].values;
    assert !StripFits(plan, out, k);
  }

  lemma UnnamedNotRestored(plan: Plan, lines: seq<Line>, i: nat)
    requires Acceptable(plan, lines) && IsInterfaceLine(lines, i) && lines[i].values == []
    ensures Strip(plan, AllMaintained(plan, lines)).None?
  {
    var out := AllMaintained(plan, lines);
    TargetsKept(plan, lines);
    assert lines[i].values + [Canonical(Server(plan))] == [Canonical(Server(plan))];
    WithoutAdded([], Server(plan));
    assert [] + [Canonical(Server(plan))] == [Canonical(Server(plan))];
    assert Carries(out[i].values, Server(plan)) by {
      MaintainedCarries(plan, lines, i);
    }
    assert !StripFits(plan, out, i);
  }

  lemma GluedNotRestored(plan: Plan, lines: seq<Line>)
    requires Acceptable(plan, lines) && GluedInterface(lines)
    ensures
      var out := Migrate(plan, lines).value.0;
      Strip(plan, out).Some? ==> Strip(plan, out).value.0 != lines
  {
    var g :| IsInterfaceLine(lines, g) && Glues(lines[g]);
    var peers, out := PeersMigrated(plan, lines), Migrate(plan, lines).value.0;
    var i :| IsInterfaceLine(lines, i) && out == AppendServer(plan, peers, i);
    assert i == g && peers[i] == lines[i];
    if Strip(plan, out).Some? {
      var stripped := Strip(plan, out).value.0;
      if i + 1 < |lines| {
        assert out[i + 1] == Glued(Server(plan), Some(peers[i + 1]));
        assert stripped[i + 1] == out[i + 1];
        assert lines[i + 1].Glued? ==> peers[i + 1] == lines[i + 1];
        NotInside(out[i + 1]);
      } else {
        assert |stripped| == |lines| + 1;
      }
    }
  }

  /**
   Stripping a migrated text gives back every original address list exactly when every assignment in it could be read,
   the interface had an address, and no kept line already carried this program's address.
   */
  lemma StripRestoresIff(plan: Plan, lines: seq<Line>)
    requires Migrate(plan, lines).Some? && BlankIsEmpty(lines)
    ensures
      var stripped := Strip(plan, Migrate(plan, lines).value.0);
      (stripped.Some? && stripped.value.0 == lines) <==>
        (NoneCarried(plan, lines) && AllReadable(lines) && InterfaceNamed(lines))
  {
    if NoneCarried(plan, lines) && AllReadable(lines) && InterfaceNamed(lines) {
      RestoresWhen(plan, lines);
    } else if GluedInterface(lines) {
      GluedNotRestored(plan, lines);
    } else {
      MigratedInPlace(plan, lines);
      if Strip(plan, AllMaintained(plan, lines)).Some? {
        if !NoneCarried(plan, lines) {
          var k: nat :| k < |lines| && Target(plan, lines, k).Some? && !Lacks(plan, lines, k);
          LineNotRestored(plan, lines, k);
        } else if !AllReadable(lines) {
          var line :| line in lines && line.Assign? && !AllParse(line.values);
          var k :| 0 <= k < |lines| && lines[k] == line;
          UnreadableStays(plan, lines, k);
        } else {
          var i :| IsInterfaceLine(lines, i) && lines[i].values == [];
          UnnamedNotRestored(plan, lines, i);
        }
      }
    }
  }

  /** An interface whose owner already wrote the address that this program computes. */
  function OwnAddress(plan: Plan, host: nat): seq<Line> {
    [Header(Interface, "[Interface]"), Assign(Address, [Canonical(V4(host, 24)), Canonical(Server(plan))], false, Lf)]
  }

  /** That text is migrated without a change, and stripping it takes the owner's address away. */
  lemma OwnAddressLost(plan: Plan, host: nat)
    requires GoodBase(plan)
    ensures
      var lines := OwnAddress(plan, host);
      && Migrate(plan, lines) == Some((lines, 0))
      && Strip(plan, lines) == Some((lines[1 := Assign(Address, [Canonical(V4(host, 24))], false, Lf)], 1))
  {
    var lines := OwnAddress(plan, host);
    var values := lines[1].values;
    assert HeaderOf(lines, 1) == 0;
    assert values[1] in values && Carries(values, Server(plan));
    assert IsInterfaceLine(lines, 1) && Fits(values, Server(plan));
    assert forall j :: IsInterfaceLine(lines, j) ==> j == 1;
    assert InterfaceGood(plan, lines);
    NothingLacking(plan, lines);
    OwnAddressWithout(plan, host);
    assert Removing(plan, lines) == {1};
    assert AllStripped(plan, lines) == lines[1 := Assign(Address, [Canonical(V4(host, 24))], false, Lf)];
  }

  lemma OwnAddressWithout(plan: Plan, host: nat)
    ensures Without([Canonical(V4(host, 24)), Canonical(Server(plan))], Server(plan)) == [Canonical(V4(host, 24))]
  {
    var v := Canonical(V4(host, 24));
    assert [v, Canonical(Server(plan))] == [v] + [Canonical(Server(plan))];
    assert forall u :: u in [v] ==> u == v;
    WithoutAdded([v], Server(plan));
  }

  /** Stripping twice removes nothing more. */
  lemma StripTwice(plan: Plan, lines: seq<Line>)
    requires Strip(plan, lines).Some?
    ensures Strip(plan, Strip(plan, lines).value.0) == Some((Strip(plan, lines).value.0, 0))
  {
    var out := Strip(plan, lines).value.0;
    SameLines(lines, out);
    forall k: nat | k < |lines|
      ensures StripFits(plan, out, k) && Stripped(plan, out, k) == out[k] && !Removes(plan, out, k)
    {
      StrippedLineStays(plan, lines, k);
    }
    assert AllStripped(plan, out) == out;
    assert Removing(plan, out) == {};
  }

  lemma StrippedLineStays(plan: Plan, lines: seq<Line>, k: nat)
    requires Strippable(plan, lines) && k < |lines|
    requires SameShape(lines, AllStripped(plan, lines))
    ensures
      var out := AllStripped(plan, lines);
      StripFits(plan, out, k) && Stripped(plan, out, k) == out[k] && !Removes(plan, out, k)
  {
    var out := AllStripped(plan, lines);
    SameLines(lines, out);
    var target := Target(plan, lines, k);
    assert StripFits(plan, lines, k);
    if target.Some? && lines[k].Assign? {
      WithoutExact(lines[k].values, target.value);
      HostKeptWithout(lines[k].values, target.value);
    }
  }

  /******* Addresses of a migrated text *******/

  /** A peer line keeps its place in a migrated text, also when the interface's address opened a new line. */
  lemma PeerLineMigrated(plan: Plan, lines: seq<Line>, j: nat)
    requires Acceptable(plan, lines) && IsPeerLine(lines, j)
    ensures j < |Migrate(plan, lines).value.0| && Migrate(plan, lines).value.0[j] == Maintained(plan, lines, j)
  {
    var peers, out := PeersMigrated(plan, lines), Migrate(plan, lines).value.0;
    var i :| IsInterfaceLine(lines, i) && out == AppendServer(plan, peers, i);
    assert peers[i] == lines[i];
    assert HeaderOf(lines, i + 1) == HeaderOf(lines, i);
    assert out[j] == peers[j];
  }

  /**
   In a migrated text every peer's line carries the address of its own IPv4 host; two peers of one /24 network with
   different hosts carry different addresses, and none of them is the server's.
   */
  lemma PeersDistinct(plan: Plan, lines: seq<Line>, j: nat, a: nat, k: nat, b: nat)
    requires Acceptable(plan, lines)
    requires IsPeerLine(lines, j) && FirstHost(lines[j].values) == Some(a)
    requires IsPeerLine(lines, k) && FirstHost(lines[k].values) == Some(b)
    requires a / 256 == b / 256 && a != b
    ensures
      var out := Migrate(plan, lines).value.0;
      var x, y := Client(plan, a), Client(plan, b);
      && j < |out| && k < |out| && out[j].Assign? && out[k].Assign? && x.Some? && y.Some?
      && Carries(out[j].values, x.value) && Carries(out[k].values, y.value)
      && x.value.addr != y.value.addr && x.value.addr != Server(plan).addr
  {
    PeerLineMigrated(plan, lines, j);
    PeerLineMigrated(plan, lines, k);
    MaintainedCarries(plan, lines, j);
    MaintainedCarries(plan, lines, k);
    PeerLineFits(plan, lines, j);
    PeerLineFits(plan, lines, k);
    ClientsDiffer(plan, a, b);
  }
}
