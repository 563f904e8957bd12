/**
 Rendering a client's file and stripping it again (firewall6-lists.py), for every DEFAULT text: also for one whose own
 markers close the section it is copied into.
 */
module ClientRender {
  import opened Options
  import opened ClientText

  /** Scanning starts from nothing as from anything: what is retained is only put behind. */
  lemma {:induction false} StripShifts(retained: seq<Line>, end: Option<Line>, lines: seq<Line>)
    ensures
      var st := StripFrom(Stripping([], end), lines);
      StripFrom(Stripping(retained, end), lines) == Stripping(retained + st.retained, st.expectedEnd)
  {
    if lines == [] {
      assert retained + [] == retained;
    } else {
      StripShifts(retained, end, lines[..|lines| - 1]);
    }
  }

  lemma {:induction false} EndIsMarker(lines: seq<Line>)
    ensures StripFrom(Stripping([], Some(DefaultEnd)), lines).expectedEnd in {None, Some(DefaultEnd), Some(ClientEnd)}
  {
    if lines != [] {
      EndIsMarker(lines[..|lines| - 1]);
    }
  }

  predicate AllBlank(lines: seq<Line>) { forall k :: 0 <= k < |lines| ==> lines[k] == BLANK }

  /** The DEFAULT text as scanning meets it inside a client's section. */
  function Inside(defaults: seq<Line>): Stripping { StripFrom(Stripping([], Some(DefaultEnd)), TrimBlank(defaults)) }

  /**
   The copied text leaves nothing behind, and ends inside a section that the closing marker, or the end of the client's
   own section, closes.
   */
  predicate SectionCloses(defaults: seq<Line>, prefix: Option<Prefix>, ipv6: bool) {
    Closes(Inside(defaults), prefix.Some? && ipv6)
  }

  predicate Closes(inside: Stripping, owned: bool) {
    && AllBlank(inside.retained)
    && (inside.expectedEnd == Some(DefaultEnd) || (inside.expectedEnd == Some(ClientEnd) && owned))
  }

  /** A DEFAULT text without the closing marker always closes; only the client called DEFAULT ever writes one there. */
  lemma PlainDefaultsClose(defaults: seq<Line>, prefix: Option<Prefix>, ipv6: bool)
    requires DefaultEnd !in defaults
    ensures SectionCloses(defaults, prefix, ipv6)
  {
    TrimExact(defaults);
    assert forall line :: line in TrimBlank(defaults) ==> line in defaults;
    SectionSkipped([], DefaultEnd, TrimBlank(defaults));
  }

  /** Trimming a text whose front is trimmed: the front again, or something longer. */
  lemma {:induction false} TrimTail(front: seq<Line>, tail: seq<Line>)
    requires TrimBlank(front) == front
    ensures AllBlank(tail) ==> TrimBlank(front + tail) == front
    ensures !AllBlank(tail) ==> |TrimBlank(front + tail)| > |front|
  {
    if tail == [] {
      assert front + tail == front;
    } else {
      var init, last := tail[..|tail| - 1], tail[|tail| - 1];
      assert (front + tail)[..|front + tail| - 1] == front + init;
      TrimTail(front, init);
      assert AllBlank(tail) <==> AllBlank(init) && last == BLANK by {
        assert tail[|tail| - 1] == last && forall k :: 0 <= k < |init| ==> init[k] == tail[k];
      }
    }
  }

  /******* The two sections *******/

  lemma StripOne(st: Stripping, line: Line)
    ensures StripFrom(st, [line]) == StripStep(st, line)
  {
    assert [line][..0] == [];
  }

  /** The copied text between its markers, scanned behind what was retained. */
  lemma CopyScanned(retained: seq<Line>, defaults: seq<Line>)
    ensures
      var section := [DefaultBegin] + TrimBlank(defaults) + [DefaultEnd];
      var inside := Inside(defaults);
      StripFrom(Stripping(retained, None), section) ==
      StripStep(Stripping(retained + inside.retained, inside.expectedEnd), DefaultEnd)
  {
    var inner, start := TrimBlank(defaults), Stripping(retained, None);
    StripFromSplits(start, [DefaultBegin] + inner, [DefaultEnd]);
    StripFromSplits(start, [DefaultBegin], inner);
    StripOne(start, DefaultBegin);
    StripShifts(retained, Some(DefaultEnd), inner);
    StripOne(StripFrom(Stripping(retained, Some(DefaultEnd)), inner), DefaultEnd);
  }

  /** The client's own section, scanned from inside a section that only its end marker can close. */
  lemma PrefixSectionInside(retained: seq<Line>, prefix: Option<Prefix>, ipv6: bool)
    ensures
      StripFrom(Stripping(retained, Some(ClientEnd)), PrefixSection(prefix, ipv6)) ==
      Stripping(retained, if prefix.Some? && ipv6 then None else Some(ClientEnd))
  {
    var start := Stripping(retained, Some(ClientEnd));
    if prefix.Some? && ipv6 {
      var inner := [PrefixTag(prefix), ClientBegin, IRoute(prefix)];
      assert PrefixSection(prefix, ipv6) == inner + [ClientEnd];
      SectionSkipped(retained, ClientEnd, inner);
      StripOneMore(start, inner, ClientEnd);
    } else {
      SectionSkipped(retained, ClientEnd, PrefixSection(prefix, ipv6));
    }
  }

  /** What is retained behind a copy that was scanned like this, and the section that is still open. */
  function Scanned(retained: seq<Line>, inside: Stripping, owned: bool): Stripping {
    match inside.expectedEnd
    case None => Stripping(retained + inside.retained + [DefaultEnd], None)
    case Some(end) =>
      Stripping(retained + inside.retained, if end == DefaultEnd || owned then None else Some(ClientEnd))
  }

  /** The whole rendered text behind its retained lines, when the DEFAULT text is copied. */
  lemma CopyAndPrefixScanned(retained: seq<Line>, defaults: seq<Line>, prefix: Option<Prefix>, ipv6: bool)
    ensures
      var inside := Inside(defaults);
      var rest := [DefaultBegin] + TrimBlank(defaults) + [DefaultEnd] + PrefixSection(prefix, ipv6);
      StripFrom(Stripping(retained, None), rest) == Scanned(retained, inside, prefix.Some? && ipv6)
  {
    var start, inside := Stripping(retained, None), Inside(defaults);
    EndIsMarker(TrimBlank(defaults));
    StripFromSplits(start, [DefaultBegin] + TrimBlank(defaults) + [DefaultEnd], PrefixSection(prefix, ipv6));
    CopyScanned(retained, defaults);
    var st := StripStep(Stripping(retained + inside.retained, inside.expectedEnd), DefaultEnd);
    if inside.expectedEnd == Some(ClientEnd) {
      PrefixSectionInside(retained + inside.retained, prefix, ipv6);
    } else {
      PrefixSectionStripped(st, prefix, ipv6);
    }
  }

  /** A trimmed front with this tail behind it, when scanning ends outside every section. */
  lemma TailStripped(out: seq<Line>, front: seq<Line>, tail: seq<Line>)
    requires TrimBlank(front) == front && StripAll(out) == Stripping(front + tail, None)
    ensures if AllBlank(tail) then Strip(out) == Some(front) else Strip(out).Some? && |Strip(out).value| > |front|
  {
    TrimTail(front, tail);
  }

  lemma ScannedStripped(out: seq<Line>, retained: seq<Line>, inside: Stripping, owned: bool)
    requires TrimBlank(retained) == retained && inside.expectedEnd in {None, Some(DefaultEnd), Some(ClientEnd)}
    requires StripAll(out) == Scanned(retained, inside, owned)
    ensures if Closes(inside, owned) then Strip(out) == Some(retained)
            else Strip(out).None? || |Strip(out).value| > |retained|
  {
    if inside.expectedEnd.None? {
      var tail := inside.retained + [DefaultEnd];
      assert tail[|tail| - 1] == DefaultEnd && !AllBlank(tail);
      assert retained + inside.retained + [DefaultEnd] == retained + tail;
      TailStripped(out, retained, tail);
    } else if StripAll(out).expectedEnd.None? {
      TailStripped(out, retained, inside.retained);
    }
  }

  /** Stripping what was rendered with a copy: the same lines again, more lines, or an error. */
  lemma CopyStrippedIff(retained: seq<Line>, defaults: seq<Line>, prefix: Option<Prefix>, ipv6: bool)
    requires IsPlain(retained) && TrimBlank(retained) == retained
    ensures
      var out := retained + ([DefaultBegin] + TrimBlank(defaults) + [DefaultEnd] + PrefixSection(prefix, ipv6));
      if SectionCloses(defaults, prefix, ipv6) then Strip(out) == Some(retained)
      else Strip(out).None? || |Strip(out).value| > |retained|
  {
    var rest := [DefaultBegin] + TrimBlank(defaults) + [DefaultEnd] + PrefixSection(prefix, ipv6);
    StripRetained(retained, rest);
    CopyAndPrefixScanned(retained, defaults, prefix, ipv6);
    EndIsMarker(TrimBlank(defaults));
    ScannedStripped(retained + rest, retained, Inside(defaults), prefix.Some? && ipv6);
  }

  lemma StripRetained(retained: seq<Line>, rest: seq<Line>)
    requires IsPlain(retained)
    ensures StripAll(retained + rest) == StripFrom(Stripping(retained, None), rest)
  {
    StripSplits(retained, rest);
    StripSplits([], retained);
    assert [] + retained == retained;
    PlainRetained(Stripping([], None), retained);
  }

  /******* Laws *******/

  lemma StripIsSettled(original: seq<Line>)
    requires Strip(original).Some?
    ensures IsPlain(Strip(original).value) && TrimBlank(Strip(original).value) == Strip(original).value
  {
    StrippedIsPlain(original);
    TrimExact(StripAll(original).retained);
    assert forall line :: line in Strip(original).value ==> line in StripAll(original).retained;
  }

  /** Without a copy, the routes section is a tag or nothing, and scanning passes over it. */
  lemma NoCopyPassed(st: Stripping, section: seq<Line>, prefix: Option<Prefix>, ipv6: bool)
    requires st.expectedEnd.None? && (section == [] || section == [ModeTag(true)])
    ensures StripFrom(st, section + PrefixSection(prefix, ipv6)) == st
  {
    StripFromSplits(st, section, PrefixSection(prefix, ipv6));
    StripOne(st, ModeTag(true));
    PrefixSectionStripped(st, prefix, ipv6);
  }

  lemma NoCopyStripped(
    original: seq<Line>, prefix: Option<Prefix>, defaults: Option<seq<Line>>, ipv6: bool, mode: RouteMode
  )
    requires Render(original, prefix, defaults, ipv6, mode).Some? && !CopiesDefaults(original, prefix, defaults, mode)
    ensures Strip(Render(original, prefix, defaults, ipv6, mode).value) == Strip(original)
  {
    var retained := Strip(original).value;
    var section, own := RoutesSection(retained, prefix, defaults, mode), PrefixSection(prefix, ipv6);
    StripIsSettled(original);
    assert retained + section + own == retained + (section + own);
    StripRetained(retained, section + own);
    NoCopyPassed(Stripping(retained, None), section, prefix, ipv6);
  }

  /**
   Stripping a rendered file gives back exactly the unmanaged lines of the original, in order, exactly unless a DEFAULT
   text was copied whose own markers leave the section open or close it early; then it fails or gives more lines.
   */
  lemma RenderedStripsIff(
    original: seq<Line>, prefix: Option<Prefix>, defaults: Option<seq<Line>>, ipv6: bool, mode: RouteMode
  )
    requires Render(original, prefix, defaults, ipv6, mode).Some?
    ensures
      var stripped := Strip(Render(original, prefix, defaults, ipv6, mode).value);
      if CopiesDefaults(original, prefix, defaults, mode) && !SectionCloses(defaults.value, prefix, ipv6)
      then stripped.None? || |stripped.value| > |Strip(original).value|
      else stripped == Strip(original)
  {
    var retained, out := Strip(original).value, Render(original, prefix, defaults, ipv6, mode).value;
    if CopiesDefaults(original, prefix, defaults, mode) {
      var copy, own := [DefaultBegin] + TrimBlank(defaults.value) + [DefaultEnd], PrefixSection(prefix, ipv6);
      StripIsSettled(original);
      CopyStrippedIff(retained, defaults.value, prefix, ipv6);
      assert out == retained + (copy + own);
    } else {
      NoCopyStripped(original, prefix, defaults, ipv6, mode);
    }
  }

  /** Rendering is idempotent under the same condition, also when the first rendering removes the file. */
  lemma RenderTwiceIff(
    original: seq<Line>, prefix: Option<Prefix>, defaults: Option<seq<Line>>, ipv6: bool, mode: RouteMode
  )
    requires Render(original, prefix, defaults, ipv6, mode).Some?
    ensures
      var once := Render(original, prefix, defaults, ipv6, mode);
      Render(once.value, prefix, defaults, ipv6, mode) == once <==>
        !CopiesDefaults(original, prefix, defaults, mode) || SectionCloses(defaults.value, prefix, ipv6)
  {
    var once := Render(original, prefix, defaults, ipv6, mode);
    RenderedStripsIff(original, prefix, defaults, ipv6, mode);
    if CopiesDefaults(original, prefix, defaults, mode) && Render(once.value, prefix, defaults, ipv6, mode).Some? {
      CopyLength(original, prefix, defaults.value, ipv6);
      CopyLength(once.value, prefix, defaults.value, ipv6);
    }
  }

  lemma CopyLength(original: seq<Line>, prefix: Option<Prefix>, defaults: seq<Line>, ipv6: bool)
    requires Render(original, prefix, Some(defaults), ipv6, Static).Some?
    ensures CopiesDefaults(original, prefix, Some(defaults), Static) ==>
      |Render(original, prefix, Some(defaults), ipv6, Static).value| ==
      |Strip(original).value| + |TrimBlank(defaults)| + 2 + |PrefixSection(prefix, ipv6)|
  {
  }

  /** The DEFAULT text after a set for the client called DEFAULT, which had none before. */
  function OwnMarkers(p: Prefix): seq<Line> { [DefaultBegin] + [DefaultEnd] + [PrefixTag(Some(p))] }

  lemma OwnMarkersWritten(p: Prefix)
    ensures Render([], Some(p), Some([]), false, Static) == Some(OwnMarkers(p))
  {
    var none: seq<Line> := [];
    assert Strip(none) == Some(none) && TrimBlank(none) == none;
    var section, own := RoutesSection(none, Some(p), Some(none), Static), PrefixSection(Some(p), false);
    assert section == [DefaultBegin] + [DefaultEnd];
    assert own == [PrefixTag(Some(p))];
    assert none + section + own == OwnMarkers(p);
  }

  lemma OwnMarkersOpen(p: Prefix)
    ensures Inside(OwnMarkers(p)) == Stripping([], None)
  {
    var start := Stripping([], Some(DefaultEnd));
    assert TrimBlank(OwnMarkers(p)) == OwnMarkers(p);
    StripFromSplits(start, [DefaultBegin] + [DefaultEnd], [PrefixTag(Some(p))]);
    StripFromSplits(start, [DefaultBegin], [DefaultEnd]);
    StripOne(start, DefaultBegin);
    StripOne(start, DefaultEnd);
    StripOne(Stripping([], None), PrefixTag(Some(p)));
  }

  /** Every new client that copies it gets a file that changes again with the next rendering. */
  lemma OwnMarkersGrow(p: Prefix, q: Prefix, ipv6: bool)
    ensures
      var once := Render([], Some(q), Some(OwnMarkers(p)), ipv6, Static);
      once.Some? && Render(once.value, Some(q), Some(OwnMarkers(p)), ipv6, Static) != once
  {
    OwnMarkersOpen(p);
    assert Strip([]) == Some([]);
    RenderTwiceIff([], Some(q), Some(OwnMarkers(p)), ipv6, Static);
  }
}
