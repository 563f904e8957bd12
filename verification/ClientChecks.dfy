/** What firewall6-lists.py accepts and writes for a client, said of names, addresses and lines themselves. */
module ClientChecks {
  import opened Options
  import opened ClientText
  import opened ClientPrefixes

  /******* Names and prefixes *******/

  /** One of the 64 characters that a client's name is made of, by its code. */
  predicate IsNameCode(n: int) { 48 <= n <= 57 || 65 <= n <= 90 || n == 95 || 97 <= n <= 122 || n == 45 }

  lemma ValidNameIff(name: string)
    ensures ValidName(name) <==> 0 < |name| < 33 && forall k :: 0 <= k < |name| ==> IsNameCode(name[k] as int)
  {
    assert forall k :: 0 <= k < |name| ==> name[k] in name;
  }

  /** The addresses of a network. */
  predicate Contains(p: Prefix, address: nat)
    requires p.length <= 128
  {
    p.base <= address && address - p.base < Pow2(128 - p.length)
  }

  lemma OverlapsIff(p: Prefix, q: Prefix)
    requires p.length <= 128 && q.length <= 128
    ensures Overlaps(p, q) <==> exists address: nat :: Contains(p, address) && Contains(q, address)
  {
    if Overlaps(p, q) {
      var address := if p.base < q.base then q.base else p.base;
      assert Contains(p, address) && Contains(q, address);
    }
  }

  const SLASH_3 := 0x2000_0000_0000_0000_0000_0000_0000_0000

  /** A client's network is a /48 to /64 that begins at a multiple of its size and lies inside 2000::/3. */
  lemma IsClientPrefixIff(p: Prefix)
    requires p.length <= 128
    ensures IsClientPrefix(p) <==>
      && 48 <= p.length <= 64
      && p.base % Pow2(128 - p.length) == 0
      && (forall address: nat :: Contains(p, address) ==> address / SLASH_3 == 1)
  {
    var size := Pow2(128 - p.length);
    assert Contains(p, p.base) && Contains(p, p.base + size - 1);
    forall address: nat | Contains(p, address) && SLASH_3 <= p.base && p.base + size <= 2 * SLASH_3
      ensures address / SLASH_3 == 1
    {
    }
  }

  /******* Acceptance *******/

  /** A file with a tag of this program, or a copied DEFAULT section. */
  ghost predicate Marked(lines: seq<Line>) {
    exists k :: 0 <= k < |lines| &&
      match lines[k]
      case PrefixTag(_) => true
      case ModeTag(_) => true
      case DefaultBegin => true
      case Text(_, mentionsTag) => mentionsTag
      case _ => false
  }

  lemma MarkedIff(lines: seq<Line>)
    ensures Mentions(lines) <==> Marked(lines)
  {
    if k :| 0 <= k < |lines| && match lines[k]
                                case PrefixTag(_) => true
                                case ModeTag(_) => true
                                case DefaultBegin => true
                                case Text(_, mentionsTag) => mentionsTag
                                case _ => false {
      assert lines[k] in lines;
    }
  }

  /** Every client but DEFAULT with a marked file in either directory is managed, and nobody else is. */
  lemma ManagedIff(s: State, name: string)
    ensures name in ManagedNames(s) <==>
      name != "DEFAULT" &&
      ((name in s.ccd && Marked(s.ccd[name])) || (name in s.ccd2 && Marked(s.ccd2[name])))
  {
    MarkedIff(FileOf(s.ccd, name));
    MarkedIff(FileOf(s.ccd2, name));
  }

  /** Every managed client can be read, and what it has shares no address with this network. */
  ghost predicate NobodyHas(s: State, name: string, p: Prefix) {
    forall other :: other in ManagedNames(s) && other != name ==>
      && ReadPrefix(s, other).Some?
      && match ReadPrefix(s, other).value
         case None => true
         case Some(q) => p.base + Size(p) <= q.base || q.base + Size(q) <= p.base
  }

  /**
   A set is accepted exactly for a good name, a good network that nobody has, and a file with at most one mode tag.
   */
  lemma SetAcceptedIff(s: State, name: string, value: Option<Prefix>)
    ensures SetAccepted(s, name, value) <==>
      && ValidName(name) && value.Some? && IsClientPrefix(value.value)
      && (forall other :: other in ManagedNames(s) ==> ValidName(other))
      && NobodyHas(s, name, value.value)
      && (var tags := ModeTags(FileOf(s.ccd, name)); tags == [] || tags == [true])
  {
  }

  /** A sync writes nothing unless every managed client has a good name and a network that nobody else has. */
  lemma SyncAcceptedIff(s: State)
    ensures SyncAccepted(s) <==> forall name :: name in ManagedNames(s) ==>
      && ValidName(name) && ReadPrefix(s, name).Some?
      && (ReadPrefix(s, name).value.Some? ==> NobodyHas(s, name, ReadPrefix(s, name).value.value))
  {
  }

  /** A prefix is read exactly when neither file is in doubt and the two do not contradict each other. */
  lemma ReadPrefixIff(s: State, name: string, v: Option<Prefix>)
    ensures ReadPrefix(s, name) == Some(v) <==>
      && PrefixFromText(FileOf(s.ccd, name)).Some? && PrefixFromText(FileOf(s.ccd2, name)).Some?
      && var a, b := PrefixFromText(FileOf(s.ccd, name)).value, PrefixFromText(FileOf(s.ccd2, name)).value;
         (a == v && b == v) || (a == v && b == None) || (a == None && b == v)
  {
  }

  /******* Rendering *******/

  /** Rendering is refused exactly for an unterminated section, or for a routed prefix beside a route of the owner's. */
  lemma RenderRefusedIff(
    original: seq<Line>, prefix: Option<Prefix>, defaults: Option<seq<Line>>, ipv6: bool, mode: RouteMode
  )
    ensures Render(original, prefix, defaults, ipv6, mode).None? <==>
      || StripAll(original).expectedEnd.Some?
      || (prefix.Some? && exists k :: 0 <= k < |StripAll(original).retained| && StripAll(original).retained[k].IRoute?)
  {
    var kept := StripAll(original).retained;
    TrimExact(kept);
    if k :| 0 <= k < |kept| && kept[k].IRoute? {
      assert kept[k] in TrimBlank(kept);
    }
    if StripAll(original).expectedEnd.None? && HasIRoute(Strip(original).value) {
      var line :| line in Strip(original).value && line.IRoute?;
      assert line in kept;
    }
  }

  /**
   A rendered file is the owner's lines, then the mode tag or the whole DEFAULT text between its markers where routes
   are rendered at all, then the prefix with, while IPv6 is on, its route.
   */
  lemma RenderedContent(
    original: seq<Line>, prefix: Option<Prefix>, defaults: Option<seq<Line>>, ipv6: bool, mode: RouteMode
  )
    requires Render(original, prefix, defaults, ipv6, mode).Some?
    ensures
      var own := Strip(original).value;
      Render(original, prefix, defaults, ipv6, mode).value ==
      own + (if defaults.Some? && mode == Bgp then [ModeTag(true)]
             else if defaults.Some? && (prefix.Some? || own != []) then
               [DefaultBegin] + TrimBlank(defaults.value) + [DefaultEnd]
             else [])
          + (if prefix.None? then []
             else if ipv6 then [PrefixTag(prefix), ClientBegin, IRoute(prefix), ClientEnd]
             else [PrefixTag(prefix)])
  {
    var tag := PrefixTag(prefix);
    assert [tag] + [ClientBegin, IRoute(prefix), ClientEnd] == [tag, ClientBegin, IRoute(prefix), ClientEnd];
    assert [tag] + [] == [tag];
  }

  /******* The DEFAULT route block *******/

  /** The route markers of a text, in order. */
  function Markers(lines: seq<Line>): seq<Line> {
    if lines == [] then []
    else
      Markers(lines[..|lines| - 1]) +
      if lines[|lines| - 1] == RoutesBegin || lines[|lines| - 1] == RoutesEnd then [lines[|lines| - 1]] else []
  }

  /** Opening and closing markers in turn, beginning with an opening one. */
  ghost predicate InTurn(markers: seq<Line>) {
    forall k :: 0 <= k < |markers| ==> markers[k] == if k % 2 == 0 then RoutesBegin else RoutesEnd
  }

  lemma InTurnOneMore(markers: seq<Line>, marker: Line)
    ensures InTurn(markers + [marker]) <==>
      InTurn(markers) && marker == if |markers| % 2 == 0 then RoutesBegin else RoutesEnd
  {
    var more := markers + [marker];
    assert more[|markers|] == marker && forall k :: 0 <= k < |markers| ==> more[k] == markers[k];
  }

  lemma {:induction false} ScanExact(lines: seq<Line>)
    ensures ScanAll(lines).failed <==> !InTurn(Markers(lines))
    ensures InTurn(Markers(lines)) ==> (ScanAll(lines).managed <==> |Markers(lines)| % 2 == 1)
  {
    if lines != [] {
      var init, last := lines[..|lines| - 1], lines[|lines| - 1];
      ScanExact(init);
      if last == RoutesBegin || last == RoutesEnd {
        InTurnOneMore(Markers(init), last);
      } else {
        assert Markers(lines) == Markers(init);
      }
    }
  }

  /** The block is rewritten exactly when the markers come in turn and the last section is closed. */
  lemma RewriteAcceptedIff(original: seq<Line>, networks: seq<Prefix>, enabled: bool, fake: Option<Prefix>)
    ensures RewriteRoutes(original, networks, enabled, fake).Some? <==>
      InTurn(Markers(original)) && |Markers(original)| % 2 == 0
  {
    ScanExact(original);
  }

  /**
   Every network, and the fake one unless it is among them, is pushed once, between one pair of markers at the end.
   */
  lemma RewrittenBlock(original: seq<Line>, networks: seq<Prefix>, enabled: bool, fake: Option<Prefix>)
    requires RewriteRoutes(original, networks, enabled, fake).Some?
    ensures
      var out, kept := RewriteRoutes(original, networks, enabled, fake).value, Outside(original).value;
      var listed := fake.Some? && exists k :: 0 <= k < |networks| && networks[k] == fake.value;
      var pushed := networks + if fake.Some? && !listed then [fake.value] else [];
      if !enabled then out == kept
      else
        && |out| == |kept| + 2 + |pushed| && kept <= out
        && out[|kept|] == RoutesBegin && out[|out| - 1] == RoutesEnd
        && forall k :: 0 <= k < |pushed| ==> out[|kept| + 1 + k] == PushRoute(pushed[k])
  {
    if fake.Some? && fake.value in networks {
      var k :| 0 <= k < |networks| && networks[k] == fake.value;
    }
  }
}
