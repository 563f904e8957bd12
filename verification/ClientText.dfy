/**
 Managed OpenVPN client files (setup/root/antizapret/firewall6-lists.py): stripping, rendering and reading back. A file
 is a sequence of lines; a line is classified by the marker, tag or directive it carries, so printing and parsing one
 network is a round trip by construction.
 */
module ClientText {
  import opened Options

  /** An IPv6 network: its first address and its prefix length. */
  datatype Prefix = Prefix(base: nat, length: nat)
  datatype RouteMode = Static | Bgp

  datatype Line =
    | RoutesBegin | RoutesEnd
    | DefaultBegin | DefaultEnd
    | ClientBegin | ClientEnd
      // A tag whose text is not an acceptable client prefix has no value.
    | PrefixTag(value: Option<Prefix>)
    | ModeTag(bgp: bool)
    | PushRoute(net: Prefix)
    | IRoute(routed: Option<Prefix>)
      // Any other line; it may still mention a tag somewhere inside.
    | Text(text: string, mentionsTag: bool)

  const BLANK := Text("", false)

  /******* Stripping *******/

  /** The retained lines, and the marker that would close the open section. */
  datatype Stripping = Stripping(retained: seq<Line>, expectedEnd: Option<Line>)

  function StripStep(st: Stripping, line: Line): Stripping {
    match st.expectedEnd
    case Some(end) => if line == end then Stripping(st.retained, None) else st
    case None =>
      match line
      case DefaultBegin => Stripping(st.retained, Some(DefaultEnd))
      case ClientBegin => Stripping(st.retained, Some(ClientEnd))
      case PrefixTag(_) => st
      case ModeTag(_) => st
      case _ => Stripping(st.retained + [line], None)
  }

  function StripAll(lines: seq<Line>): Stripping {
    if lines == [] then Stripping([], None) else StripStep(StripAll(lines[..|lines| - 1]), lines[|lines| - 1])
  }

  function TrimBlank(lines: seq<Line>): seq<Line> {
    if lines != [] && lines[|lines| - 1] == BLANK then TrimBlank(lines[..|lines| - 1]) else lines
  }

  /** strip_managed_sections; an unterminated section is an error. */
  function Strip(lines: seq<Line>): Option<seq<Line>> {
    var st := StripAll(lines);
    if st.expectedEnd.Some? then None else Some(TrimBlank(st.retained))
  }

  /******* Reading back *******/

  function PrefixTags(lines: seq<Line>): seq<Option<Prefix>> {
    if lines == [] then []
    else
      PrefixTags(lines[..|lines| - 1]) +
      match lines[|lines| - 1] case PrefixTag(v) => [v] case _ => []
  }

  function ModeTags(lines: seq<Line>): seq<bool> {
    if lines == [] then []
    else
      ModeTags(lines[..|lines| - 1]) +
      match lines[|lines| - 1] case ModeTag(b) => [b] case _ => []
  }

  /** prefix_from_text: outer None is an error, inner None is no prefix. */
  function PrefixFromText(lines: seq<Line>): Option<Option<Prefix>> {
    var tags := PrefixTags(lines);
    if tags == [] then Some(None)
    else if |tags| != 1 || tags[0].None? then None
    else Some(tags[0])
  }

  function RouteModeFromText(lines: seq<Line>): Option<RouteMode> {
    var tags := ModeTags(lines);
    if tags == [] then Some(Static) else if tags == [true] then Some(Bgp) else None
  }

  /******* Rendering *******/

  predicate HasIRoute(lines: seq<Line>) {
    exists line :: line in lines && line.IRoute?
  }

  function RoutesSection(
    retained: seq<Line>, prefix: Option<Prefix>, defaults: Option<seq<Line>>, mode: RouteMode
  ): seq<Line> {
    if defaults.None? then []
    else if mode == Bgp then [ModeTag(true)]
    else if prefix.Some? || retained != [] then [DefaultBegin] + TrimBlank(defaults.value) + [DefaultEnd]
    else []
  }

  function PrefixSection(prefix: Option<Prefix>, ipv6: bool): seq<Line> {
    if prefix.None? then []
    else [PrefixTag(prefix)] + if ipv6 then [ClientBegin, IRoute(prefix), ClientEnd] else []
  }

  /** render_client_config; no lines at all means that the file is to be removed. */
  function Render(
    original: seq<Line>, prefix: Option<Prefix>, defaults: Option<seq<Line>>, ipv6: bool, mode: RouteMode
  ): Option<seq<Line>> {
    match Strip(original)
    case None => None
    case Some(retained) =>
      if HasIRoute(retained) && prefix.Some? then None
      else Some(retained + RoutesSection(retained, prefix, defaults, mode) + PrefixSection(prefix, ipv6))
  }

  /** The DEFAULT text is copied into the client's file. */
  predicate CopiesDefaults(
    original: seq<Line>, prefix: Option<Prefix>, defaults: Option<seq<Line>>, mode: RouteMode
  )
    requires Strip(original).Some?
  {
    defaults.Some? && mode == Static && (prefix.Some? || Strip(original).value != [])
  }

  ghost predicate NoTags(lines: seq<Line>) {
    forall line :: line in lines ==> !line.PrefixTag? && !line.ModeTag?
  }

  /******* Laws *******/

  lemma {:induction false} StripSplits(a: seq<Line>, b: seq<Line>)
    ensures StripAll(a + b) == StripFrom(StripAll(a), b)
  {
    if b == [] {
      assert a + b == a;
    } else {
      assert (a + b)[..|a + b| - 1] == a + b[..|b| - 1];
      StripSplits(a, b[..|b| - 1]);
    }
  }

  function StripFrom(st: Stripping, lines: seq<Line>): Stripping {
    if lines == [] then st else StripStep(StripFrom(st, lines[..|lines| - 1]), lines[|lines| - 1])
  }

  /** Inside a section everything but its own end is skipped. */
  lemma {:induction false} SectionSkipped(retained: seq<Line>, end: Line, inner: seq<Line>)
    requires end !in inner
    ensures StripFrom(Stripping(retained, Some(end)), inner) == Stripping(retained, Some(end))
  {
    if inner != [] {
      SectionSkipped(retained, end, inner[..|inner| - 1]);
    }
  }

  lemma {:induction false} PlainRetained(st: Stripping, lines: seq<Line>)
    requires st.expectedEnd.None? && IsPlain(lines)
    ensures StripFrom(st, lines) == Stripping(st.retained + lines, None)
  {
    if lines == [] {
      assert st.retained + lines == st.retained;
    } else {
      var init, last := lines[..|lines| - 1], lines[|lines| - 1];
      assert forall line :: line in init ==> line in lines;
      PlainRetained(st, init);
      assert st.retained + init + [last] == st.retained + lines;
    }
  }

  /** Lines that stripping keeps wherever they stand outside a section. */
  ghost predicate IsPlain(lines: seq<Line>) {
    forall line :: line in lines ==> !line.DefaultBegin? && !line.ClientBegin? && !line.PrefixTag? && !line.ModeTag?
  }

  lemma {:induction false} StrippedIsPlain(lines: seq<Line>)
    ensures IsPlain(StripAll(lines).retained)
    ensures var end := StripAll(lines).expectedEnd; end.Some? ==> end.value in {DefaultEnd, ClientEnd}
  {
    if lines != [] {
      StrippedIsPlain(lines[..|lines| - 1]);
    }
  }

  lemma {:induction false} TrimExact(lines: seq<Line>)
    ensures TrimBlank(lines) <= lines
    ensures TrimBlank(TrimBlank(lines)) == TrimBlank(lines)
    ensures TrimBlank(lines) != [] ==> TrimBlank(lines)[|TrimBlank(lines)| - 1] != BLANK
    ensures forall line :: line in lines && line != BLANK ==> line in TrimBlank(lines)
  {
    if lines != [] && lines[|lines| - 1] == BLANK {
      TrimExact(lines[..|lines| - 1]);
      assert lines == lines[..|lines| - 1] + [BLANK];
    }
  }

  /** A single line at the end. */
  lemma StripOneMore(st: Stripping, lines: seq<Line>, line: Line)
    ensures StripFrom(st, lines + [line]) == StripStep(StripFrom(st, lines), line)
  {
    assert (lines + [line])[..|lines|] == lines;
  }

  lemma {:induction false} StripFromSplits(st: Stripping, a: seq<Line>, b: seq<Line>)
    ensures StripFrom(st, a + b) == StripFrom(StripFrom(st, a), b)
  {
    if b == [] {
      assert a + b == a;
    } else {
      assert (a + b)[..|a + b| - 1] == a + b[..|b| - 1];
      StripFromSplits(st, a, b[..|b| - 1]);
    }
  }

  lemma PrefixSectionStripped(st: Stripping, prefix: Option<Prefix>, ipv6: bool)
    requires st.expectedEnd.None?
    ensures StripFrom(st, PrefixSection(prefix, ipv6)) == st
  {
    if prefix.Some? {
      StripOneMore(st, [], PrefixTag(prefix));
      assert [] + [PrefixTag(prefix)] == [PrefixTag(prefix)];
      if ipv6 {
        var section := PrefixSection(prefix, ipv6);
        assert section == [PrefixTag(prefix)] + [ClientBegin] + [IRoute(prefix)] + [ClientEnd];
        StripOneMore(st, [PrefixTag(prefix)], ClientBegin);
        StripOneMore(st, [PrefixTag(prefix)] + [ClientBegin], IRoute(prefix));
        StripOneMore(st, [PrefixTag(prefix)] + [ClientBegin] + [IRoute(prefix)], ClientEnd);
      }
    }
  }

  lemma {:induction false} TagsSplit(a: seq<Line>, b: seq<Line>)
    ensures PrefixTags(a + b) == PrefixTags(a) + PrefixTags(b)
    ensures ModeTags(a + b) == ModeTags(a) + ModeTags(b)
  {
    if b == [] {
      assert a + b == a;
    } else {
      assert (a + b)[..|a + b| - 1] == a + b[..|b| - 1];
      TagsSplit(a, b[..|b| - 1]);
    }
  }

  lemma {:induction false} NoTagsNone(lines: seq<Line>)
    requires NoTags(lines)
    ensures PrefixTags(lines) == [] && ModeTags(lines) == []
  {
    if lines != [] {
      assert forall line :: line in lines[..|lines| - 1] ==> line in lines;
      NoTagsNone(lines[..|lines| - 1]);
    }
  }

  lemma TagsOfOne(line: Line)
    ensures PrefixTags([line]) == match line case PrefixTag(v) => [v] case _ => []
    ensures ModeTags([line]) == match line case ModeTag(b) => [b] case _ => []
  {
    assert [line][..0] == [];
  }

  function OwnTags(prefix: Option<Prefix>): seq<Option<Prefix>> { if prefix.Some? then [prefix] else [] }

  lemma PrefixSectionTags(prefix: Option<Prefix>, ipv6: bool)
    ensures PrefixTags(PrefixSection(prefix, ipv6)) == OwnTags(prefix)
    ensures ModeTags(PrefixSection(prefix, ipv6)) == []
  {
    if prefix.Some? {
      TagsOfOne(PrefixTag(prefix));
      var tail := if ipv6 then [ClientBegin, IRoute(prefix), ClientEnd] else [];
      NoTagsNone(tail);
      TagsSplit([PrefixTag(prefix)], tail);
    }
  }

  lemma StrippedHasNoTags(lines: seq<Line>)
    requires Strip(lines).Some?
    ensures PrefixTags(Strip(lines).value) == [] && ModeTags(Strip(lines).value) == []
  {
    StrippedIsPlain(lines);
    TrimExact(StripAll(lines).retained);
    assert forall line :: line in Strip(lines).value ==> line in StripAll(lines).retained;
    NoTagsNone(Strip(lines).value);
  }

  lemma TagsOfThree(a: seq<Line>, b: seq<Line>, c: seq<Line>)
    requires PrefixTags(a) == [] && ModeTags(a) == [] && ModeTags(c) == []
    ensures PrefixTags(a + b + c) == PrefixTags(b) + PrefixTags(c)
    ensures ModeTags(a + b + c) == ModeTags(b)
  {
    var ab := a + b;
    TagsSplit(a, b);
    var tags, modes := PrefixTags(b), ModeTags(b);
    assert PrefixTags(ab) == tags && ModeTags(ab) == modes;
    TagsSplit(ab, c);
    assert modes + [] == modes;
  }

  /** The tags of a rendered file: what was asked for, and whatever the DEFAULT text smuggles in. */
  lemma RenderedTags(
    original: seq<Line>, prefix: Option<Prefix>, defaults: Option<seq<Line>>, ipv6: bool, mode: RouteMode
  )
    requires Render(original, prefix, defaults, ipv6, mode).Some?
    ensures
      var out := Render(original, prefix, defaults, ipv6, mode).value;
      var section := RoutesSection(Strip(original).value, prefix, defaults, mode);
      PrefixTags(out) == PrefixTags(section) + OwnTags(prefix) && ModeTags(out) == ModeTags(section)
  {
    var retained := Strip(original).value;
    StrippedHasNoTags(original);
    PrefixSectionTags(prefix, ipv6);
    TagsOfThree(retained, RoutesSection(retained, prefix, defaults, mode), PrefixSection(prefix, ipv6));
  }

  lemma {:induction false} TagsNoneIff(lines: seq<Line>)
    ensures PrefixTags(lines) == [] && ModeTags(lines) == [] <==> NoTags(lines)
  {
    if lines != [] {
      var init := lines[..|lines| - 1];
      assert lines == init + [lines[|lines| - 1]];
      TagsNoneIff(init);
    }
  }

  lemma CopyTags(retained: seq<Line>, prefix: Option<Prefix>, defaults: seq<Line>)
    requires prefix.Some? || retained != []
    ensures NoTags(RoutesSection(retained, prefix, Some(defaults), Static)) <==> NoTags(defaults)
  {
    TrimExact(defaults);
    var section := RoutesSection(retained, prefix, Some(defaults), Static);
    assert forall line :: line in TrimBlank(defaults) ==> line in section && line in defaults;
  }

  /** What a reader makes of a rendered text, from the tags of its routes section. */
  lemma ReadsBackIff(out: seq<Line>, section: seq<Line>, prefix: Option<Prefix>)
    requires PrefixTags(out) == PrefixTags(section) + OwnTags(prefix) && ModeTags(out) == ModeTags(section)
    ensures PrefixFromText(out) == Some(prefix) <==> PrefixTags(section) == []
    ensures prefix.Some? ==> PrefixFromText(out) != Some(None)
    ensures RouteModeFromText(out) == Some(Bgp) <==> ModeTags(section) == [true]
    ensures RouteModeFromText(out) == Some(Static) <==> ModeTags(section) == []
  {
    assert [] + OwnTags(prefix) == OwnTags(prefix);
    if PrefixTags(section) != [] {
      assert PrefixTags(out)[0] == PrefixTags(section)[0];
    }
  }

  /** Reading a rendered text gives the prefix and the route mode it was rendered with. */
  predicate ReadsAs(out: seq<Line>, prefix: Option<Prefix>, mode: RouteMode) {
    PrefixFromText(out) == Some(prefix) && RouteModeFromText(out) == Some(mode)
  }

  /**
   Reading back after rendering gives the same prefix, and the same route mode where routes are rendered, exactly unless
   a DEFAULT text with tags was copied.
   */
  lemma RenderedReadsBackIff(
    original: seq<Line>, prefix: Option<Prefix>, defaults: Option<seq<Line>>, ipv6: bool, mode: RouteMode
  )
    requires Render(original, prefix, defaults, ipv6, mode).Some?
    ensures
      var out, read := Render(original, prefix, defaults, ipv6, mode).value, if defaults.Some? then mode else Static;
      ReadsAs(out, prefix, read) <==>
      !CopiesDefaults(original, prefix, defaults, mode) || NoTags(defaults.value)
    ensures prefix.Some? ==> PrefixFromText(Render(original, prefix, defaults, ipv6, mode).value) != Some(None)
  {
    var retained, out := Strip(original).value, Render(original, prefix, defaults, ipv6, mode).value;
    var section := RoutesSection(retained, prefix, defaults, mode);
    RenderedTags(original, prefix, defaults, ipv6, mode);
    ReadsBackIff(out, section, prefix);
    TagsNoneIff(section);
    if CopiesDefaults(original, prefix, defaults, mode) {
      CopyTags(retained, prefix, defaults.value);
    } else if defaults.Some? && mode == Bgp {
      TagsOfOne(ModeTag(true));
    }
  }

  /******* The DEFAULT route block *******/

  /** The lines outside the managed block; nested, stray and unterminated markers are errors. */
  datatype Scan = Scan(retained: seq<Line>, managed: bool, failed: bool)

  function ScanStep(st: Scan, line: Line): Scan {
    if st.failed then st
    else
      match line
      case RoutesBegin => if st.managed then st.(failed := true) else st.(managed := true)
      case RoutesEnd => if st.managed then st.(managed := false) else st.(failed := true)
      case _ => if st.managed then st else st.(retained := st.retained + [line])
  }

  function ScanAll(lines: seq<Line>): Scan {
    if lines == [] then Scan([], false, false) else ScanStep(ScanAll(lines[..|lines| - 1]), lines[|lines| - 1])
  }

  function Outside(lines: seq<Line>): Option<seq<Line>> {
    var st := ScanAll(lines);
    if st.failed || st.managed then None else Some(st.retained)
  }

  function RouteBlock(networks: seq<Prefix>, fake: Option<Prefix>): seq<Line> {
    [RoutesBegin] + Routes(networks, fake) + [RoutesEnd]
  }

  function Routes(networks: seq<Prefix>, fake: Option<Prefix>): seq<Line> {
    Pushes(networks) + if fake.Some? && fake.value !in networks then [PushRoute(fake.value)] else []
  }

  function Pushes(networks: seq<Prefix>): seq<Line> {
    seq(|networks|, i requires 0 <= i < |networks| => PushRoute(networks[i]))
  }

  /** write_openvpn_routes: the block is rebuilt at the end, every other line stays. */
  function RewriteRoutes(
    original: seq<Line>, networks: seq<Prefix>, enabled: bool, fake: Option<Prefix>
  ): Option<seq<Line>> {
    match Outside(original)
    case None => None
    case Some(retained) => Some(retained + if enabled then RouteBlock(networks, fake) else [])
  }

  function ScanFrom(st: Scan, lines: seq<Line>): Scan {
    if lines == [] then st else ScanStep(ScanFrom(st, lines[..|lines| - 1]), lines[|lines| - 1])
  }

  lemma {:induction false} ScanSplits(a: seq<Line>, b: seq<Line>)
    ensures ScanAll(a + b) == ScanFrom(ScanAll(a), b)
  {
    if b == [] {
      assert a + b == a;
    } else {
      assert (a + b)[..|a + b| - 1] == a + b[..|b| - 1];
      ScanSplits(a, b[..|b| - 1]);
    }
  }

  ghost predicate NoRouteMarkers(lines: seq<Line>) {
    forall line :: line in lines ==> !line.RoutesBegin? && !line.RoutesEnd?
  }

  lemma {:induction false} RetainedHasNoMarkers(lines: seq<Line>)
    ensures NoRouteMarkers(ScanAll(lines).retained)
  {
    if lines != [] {
      RetainedHasNoMarkers(lines[..|lines| - 1]);
    }
  }

  lemma {:induction false} ScanPlain(st: Scan, lines: seq<Line>)
    requires !st.failed && NoRouteMarkers(lines)
    ensures ScanFrom(st, lines) == if st.managed then st else st.(retained := st.retained + lines)
  {
    if lines == [] {
      assert st.retained + lines == st.retained;
    } else {
      var init, last := lines[..|lines| - 1], lines[|lines| - 1];
      assert forall line :: line in init ==> line in lines;
      ScanPlain(st, init);
      assert st.retained + init + [last] == st.retained + lines;
    }
  }

  lemma {:induction false} ScanFromSplits(st: Scan, a: seq<Line>, b: seq<Line>)
    ensures ScanFrom(st, a + b) == ScanFrom(ScanFrom(st, a), b)
  {
    if b == [] {
      assert a + b == a;
    } else {
      assert (a + b)[..|a + b| - 1] == a + b[..|b| - 1];
      ScanFromSplits(st, a, b[..|b| - 1]);
    }
  }

  lemma ScanOneLine(st: Scan, line: Line)
    ensures ScanFrom(st, [line]) == ScanStep(st, line)
  {
    assert [line][..0] == [];
  }

  lemma RoutesHaveNoMarkers(networks: seq<Prefix>, fake: Option<Prefix>)
    ensures NoRouteMarkers(Routes(networks, fake))
  {
    assert forall line :: line in Pushes(networks) ==> line.PushRoute?;
  }

  lemma EnclosedScanned(st: Scan, inner: seq<Line>)
    requires !st.failed && !st.managed && NoRouteMarkers(inner)
    ensures ScanFrom(st, [RoutesBegin] + inner + [RoutesEnd]) == st
  {
    ScanFromSplits(st, [RoutesBegin] + inner, [RoutesEnd]);
    ScanFromSplits(st, [RoutesBegin], inner);
    ScanOneLine(st, RoutesBegin);
    ScanPlain(st.(managed := true), inner);
    ScanOneLine(st.(managed := true), RoutesEnd);
  }

  lemma BlockScanned(st: Scan, networks: seq<Prefix>, fake: Option<Prefix>)
    requires !st.failed && !st.managed
    ensures ScanFrom(st, RouteBlock(networks, fake)) == st
  {
    RoutesHaveNoMarkers(networks, fake);
    EnclosedScanned(st, Routes(networks, fake));
  }

  /** Rewriting the route block keeps every line outside the markers, in order, and is idempotent. */
  lemma RewriteRoutesKeepsOutside(
    original: seq<Line>, networks: seq<Prefix>, enabled: bool, fake: Option<Prefix>, nets': seq<Prefix>, enabled': bool,
    fake': Option<Prefix>
  )
    requires RewriteRoutes(original, networks, enabled, fake).Some?
    ensures
      var out := RewriteRoutes(original, networks, enabled, fake).value;
      && Outside(out) == Outside(original)
      // So a later rewrite only sees the original's own lines; the same rewrite changes nothing.
      && RewriteRoutes(out, nets', enabled', fake') == RewriteRoutes(original, nets', enabled', fake')
      && RewriteRoutes(out, networks, enabled, fake) == Some(out)
  {
    var retained := Outside(original).value;
    RetainedHasNoMarkers(original);
    ScanSplits([], retained);
    assert [] + retained == retained;
    ScanPlain(Scan([], false, false), retained);
    assert ScanAll(retained) == Scan(retained, false, false);
    var block := if enabled then RouteBlock(networks, fake) else [];
    ScanSplits(retained, block);
    if enabled {
      BlockScanned(Scan(retained, false, false), networks, fake);
    }
  }
}
