/** The procedures of firewall6-lists.py over the two client directories, loops included. */
module ClientFiles {
  import opened Options
  import opened ClientText
  import opened ClientPrefixes

  /** The loop of strip_managed_sections and the removal of trailing blanks after it. */
  method StripManagedSections(lines: seq<Line>) returns (r: Option<seq<Line>>)
    ensures r == Strip(lines)
  {
    var retained: seq<Line> := [];
    var expectedEnd: Option<Line> := None;
    for i := 0 to |lines|
      invariant Stripping(retained, expectedEnd) == StripAll(lines[..i])
    {
      assert lines[..i + 1][..i] == lines[..i];
      var line := lines[i];
      if expectedEnd.Some? {
        if line == expectedEnd.value {
          expectedEnd := None;
        }
      } else if line.DefaultBegin? {
        expectedEnd := Some(DefaultEnd);
      } else if line.ClientBegin? {
        expectedEnd := Some(ClientEnd);
      } else if !line.PrefixTag? && !line.ModeTag? {
        retained := retained + [line];
      }
    }
    assert lines[..|lines|] == lines;
    if expectedEnd.Some? {
      return None;
    }
    ghost var all := retained;
    while retained != [] && retained[|retained| - 1] == BLANK
      invariant TrimBlank(retained) == TrimBlank(all)
      decreases |retained|
    {
      retained := retained[..|retained| - 1];
    }
    return Some(retained);
  }

  method CollectPrefixTags(lines: seq<Line>) returns (values: seq<Option<Prefix>>)
    ensures values == PrefixTags(lines)
  {
    values := [];
    for i := 0 to |lines|
      invariant values == PrefixTags(lines[..i])
    {
      assert lines[..i + 1][..i] == lines[..i];
      if lines[i].PrefixTag? {
        values := values + [lines[i].value];
      }
    }
    assert lines[..|lines|] == lines;
  }

  method RenderClientConfig(
    original: seq<Line>, prefix: Option<Prefix>, defaults: Option<seq<Line>>, ipv6: bool, mode: RouteMode
  ) returns (r: Option<seq<Line>>)
    ensures r == Render(original, prefix, defaults, ipv6, mode)
  {
    var stripped := StripManagedSections(original);
    if stripped.None? {
      return None;
    }
    var retained := stripped.value;
    if HasIRoute(retained) && prefix.Some? {
      return None;
    }
    var out := retained;
    if defaults.Some? {
      if mode == Bgp {
        out := out + [ModeTag(true)];
      } else if prefix.Some? || retained != [] {
        out := out + [DefaultBegin];
        out := out + TrimBlank(defaults.value);
        out := out + [DefaultEnd];
      }
    }
    assert out == retained + RoutesSection(retained, prefix, defaults, mode);
    ghost var before := out;
    if prefix.Some? {
      out := out + [PrefixTag(prefix)];
      if ipv6 {
        out := out + [ClientBegin, IRoute(prefix), ClientEnd];
      }
    }
    assert out == before + PrefixSection(prefix, ipv6);
    return Some(out);
  }

  /** The loop of write_openvpn_routes over the original lines. */
  method RebuildRoutes(original: seq<Line>, networks: seq<Prefix>, enabled: bool, fake: Option<Prefix>)
    returns (r: Option<seq<Line>>)
    ensures r == RewriteRoutes(original, networks, enabled, fake)
  {
    var retained: seq<Line>, managed := [], false;
    for i := 0 to |original|
      invariant ScanAll(original[..i]) == Scan(retained, managed, false)
    {
      assert original[..i + 1][..i] == original[..i];
      match original[i] {
        case RoutesBegin =>
          if managed {
            ScanStaysFailed(original, i + 1);
            return None;
          }
          managed := true;
        case RoutesEnd =>
          if !managed {
            ScanStaysFailed(original, i + 1);
            return None;
          }
          managed := false;
        case _ =>
          if !managed {
            retained := retained + [original[i]];
          }
      }
    }
    assert original[..|original|] == original;
    if managed {
      return None;
    }
    return Some(retained + if enabled then RouteBlock(networks, fake) else []);
  }

  lemma {:induction false} ScanStaysFailed(lines: seq<Line>, k: nat)
    requires k <= |lines| && ScanAll(lines[..k]).failed
    ensures ScanAll(lines).failed
    decreases |lines| - k
  {
    if k == |lines| {
      assert lines[..k] == lines;
    } else {
      assert lines[..k + 1][..k] == lines[..k];
      ScanStaysFailed(lines, k + 1);
    }
  }

  class ClientDirectories {
    var ccd: Files
    var ccd2: Files

    ghost function View(): State
      reads this
    {
      State(ccd, ccd2)
    }

    constructor (s: State)
      ensures View() == s
    {
      ccd, ccd2 := s.ccd, s.ccd2;
    }

    method PrefixOf(lines: seq<Line>) returns (r: Option<Option<Prefix>>)
      ensures r == PrefixFromText(lines)
    {
      var values := CollectPrefixTags(lines);
      if values == [] {
        return Some(None);
      }
      if |values| != 1 || values[0].None? {
        return None;
      }
      return Some(values[0]);
    }

    /** read_client_prefix: the set of what the two files say must have at most one member. */
    method ReadClientPrefix(name: string) returns (r: Option<Option<Prefix>>)
      ensures r == ReadPrefix(View(), name)
    {
      var a := PrefixOf(FileOf(ccd, name));
      if a.None? {
        return None;
      }
      var b := PrefixOf(FileOf(ccd2, name));
      if b.None? {
        return None;
      }
      if a.value.Some? && b.value.Some? && a.value != b.value {
        return None;
      }
      return Some(if a.value.Some? then a.value else b.value);
    }

    /** managed_client_names: the files of both directories, DEFAULT skipped, invalid names an error. */
    method ManagedClientNames() returns (r: Option<set<string>>)
      ensures r == if NamesValid(View()) then Some(ManagedNames(View())) else None
    {
      var names: set<string>, left := {}, ccd.Keys + ccd2.Keys;
      while left != {}
        invariant left <= ccd.Keys + ccd2.Keys
        invariant forall name :: name in names <==> name in ManagedNames(View()) && name !in left
        invariant forall name :: name in names ==> ValidName(name)
      {
        var name :| name in left;
        left := left - {name};
        if name != DEFAULT && (Mentions(FileOf(ccd, name)) || Mentions(FileOf(ccd2, name))) {
          if !ValidName(name) {
            assert name in ManagedNames(View());
            return None;
          }
          names := names + {name};
        }
      }
      assert names == ManagedNames(View());
      return Some(names);
    }

    method ValidateUniqueClientPrefix(name: string, prefix: Prefix) returns (ok: bool)
      ensures ok == Unique(View(), name, prefix)
    {
      var names := ManagedClientNames();
      if names.None? {
        return false;
      }
      var left := names.value;
      while left != {}
        invariant left <= names.value
        invariant forall other :: other in names.value - left && other != name ==> !Clashes(View(), other, prefix)
      {
        var other :| other in left;
        if other != name {
          var read := ReadClientPrefix(other);
          if read.None? || (read.value.Some? && Overlaps(prefix, read.value.value)) {
            return false;
          }
        }
        left := left - {other};
      }
      return true;
    }

    method WriteClientConfig(
      name: string, prefix: Option<Prefix>, ipv6: bool, mode: RouteMode, first: bool, second: bool
    ) returns (ok: bool)
      modifies this
      ensures (View(), ok) == WriteClient(old(View()), name, prefix, ipv6, mode, first, second)
    {
      if DEFAULT !in ccd {
        return false;
      }
      var a := RenderClientConfig(FileOf(ccd, name), prefix, Some(ccd[DEFAULT]), ipv6, mode);
      var b := RenderClientConfig(FileOf(ccd2, name), prefix, None, ipv6, mode);
      if a.None? || b.None? || !first {
        return false;
      }
      ccd := Put(ccd, name, a.value);
      if !second {
        return false;
      }
      ccd2 := Put(ccd2, name, b.value);
      return true;
    }

    method SetClientPrefix(name: string, value: Option<Prefix>, env: Env, works: nat -> bool)
      modifies this
      ensures View() == Apply(old(View()), SetPrefix(name, value), env, works)
    {
      if !ValidName(name) || value.None? || !IsClientPrefix(value.value) {
        return;
      }
      var free := ValidateUniqueClientPrefix(name, value.value);
      var mode := RouteModeFromText(FileOf(ccd, name));
      if !free || mode.None? {
        return;
      }
      var _ := WriteClientConfig(name, value, env.ipv6, if env.bgp then mode.value else Static, works(0), works(1));
    }

    method ClearClientPrefix(name: string, env: Env, works: nat -> bool)
      modifies this
      ensures View() == Apply(old(View()), ClearPrefix(name), env, works)
    {
      var mode := RouteModeFromText(FileOf(ccd, name));
      if !ValidName(name) || mode.None? {
        return;
      }
      var _ := WriteClientConfig(name, None, env.ipv6, if env.bgp then mode.value else Static, works(0), works(1));
    }

    method DeleteClientConfig(name: string, env: Env, works: nat -> bool)
      modifies this
      ensures View() == Apply(old(View()), DeleteConfig(name), env, works)
    {
      if ValidName(name) && works(0) {
        ccd := ccd - {name};
        if works(1) {
          ccd2 := ccd2 - {name};
        }
      }
    }

    method SetClientRouteMode(name: string, mode: RouteMode, env: Env, works: nat -> bool)
      modifies this
      ensures View() == Apply(old(View()), SetMode(name, mode), env, works)
    {
      if !ValidName(name) || (mode == Bgp && !env.bgp) {
        return;
      }
      var read := ReadClientPrefix(name);
      if read.None? {
        return;
      }
      var _ := WriteClientConfig(name, read.value, env.ipv6, mode, works(0), works(1));
    }

    /** sync_client_configs: every prefix is read and checked before the first file is written. */
    method SyncClientConfigs(order: seq<string>, env: Env, works: nat -> bool)
      requires OrdersManaged(View(), order)
      modifies this
      ensures View() == Apply(old(View()), Sync(order), env, works)
    {
      var accepted := CheckAllPrefixes();
      if !accepted {
        return;
      }
      ghost var start, step := View(), SyncStep(View(), order, env, works);
      var prefixes := ReadPrefixes(order);
      for k := 0 to |order|
        invariant UntilFailure(start, k, step) == (View(), true)
      {
        ghost var before := View();
        var ok := SyncOneClient(start, order[k], prefixes[k], env, works(2 * k), works(2 * k + 1));
        assert (View(), ok) == step(before, k);
        if !ok {
          FailureStays(start, k + 1, |order|, step);
          return;
        }
      }
    }

    method SyncOneClient(
      ghost start: State, name: string, read: Option<Option<Prefix>>, env: Env, first: bool, second: bool
    ) returns (ok: bool)
      requires read == ReadPrefix(start, name)
      modifies this
      ensures (View(), ok) == SyncOne(start, old(View()), name, env, first, second)
    {
      var mode := if env.bgp then RouteModeFromText(FileOf(ccd, name)) else Some(Static);
      if mode.None? || read.None? {
        return false;
      }
      ok := WriteClientConfig(name, read.value, env.ipv6, mode.value, first, second);
    }

    method ReadPrefixes(order: seq<string>) returns (prefixes: seq<Option<Option<Prefix>>>)
      ensures |prefixes| == |order| && forall i :: 0 <= i < |order| ==> prefixes[i] == ReadPrefix(View(), order[i])
    {
      prefixes := [];
      for i := 0 to |order|
        invariant |prefixes| == i && forall j :: 0 <= j < i ==> prefixes[j] == ReadPrefix(View(), order[j])
      {
        var read := ReadClientPrefix(order[i]);
        prefixes := prefixes + [read];
      }
    }

    method CheckAllPrefixes() returns (ok: bool)
      ensures ok == SyncAccepted(View())
    {
      var names := ManagedClientNames();
      if names.None? {
        return false;
      }
      var left := names.value;
      while left != {}
        invariant left <= names.value
        invariant forall name :: name in names.value - left ==> PrefixChecked(View(), name)
      {
        var name :| name in left;
        var read := ReadClientPrefix(name);
        if read.None? {
          assert !PrefixChecked(View(), name);
          return false;
        }
        if read.value.Some? {
          var free := ValidateUniqueClientPrefix(name, read.value.value);
          if !free {
            assert !PrefixChecked(View(), name);
            return false;
          }
        }
        left := left - {name};
      }
      return true;
    }

    method WriteOpenVpnRoutes(networks: seq<Prefix>, enabled: bool, fake: Option<Prefix>, env: Env, works: nat -> bool)
      modifies this
      ensures View() == Apply(old(View()), RewriteDefault(networks, enabled, fake), env, works)
    {
      var lines := RebuildRoutes(FileOf(ccd, DEFAULT), networks, enabled, fake);
      if lines.Some? && works(0) {
        ccd := ccd[DEFAULT := lines.value];
      }
    }
  }

  lemma {:induction false} FailureStays(start: State, k: nat, end: nat, step: Writes)
    requires k <= end && !UntilFailure(start, k, step).1
    ensures UntilFailure(start, end, step) == UntilFailure(start, k, step)
    decreases end - k
  {
    if k < end {
      FailureStays(start, k + 1, end, step);
    }
  }
}
