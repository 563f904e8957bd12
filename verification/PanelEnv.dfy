/** The panel's port inside its .env file (panel_port.py, _port and _env_with_port). */
module PanelEnv {
  import opened Options
  import opened Decimals
  import opened ShellConfig
  import opened EnvText

  /******* Port numbers *******/

  predicate IsPort(n: nat) { 1 <= n <= 65535 }

  /** _port: decimal digits between 1 and 65535, leading zeros allowed. */
  function PortNumber(raw: string): Option<nat> {
    if raw != "" && AllDigits(raw) && IsPort(Number(raw)) then Some(Number(raw)) else None
  }

  const APP_PORT := "APP_PORT"

  /** The port that a reader of the file sees; without a usable entry it is the default. */
  function CurrentPort(content: string): Option<nat> {
    var values := Read(content);
    if APP_PORT !in values || values[APP_PORT].None? || values[APP_PORT].value == "" then Some(5050)
    else PortNumber(values[APP_PORT].value)
  }

  /******* Replacing the port *******/

  function PortText(port: nat): string { "APP_PORT=" + Decimal(port) }

  function PortLine(port: nat): TextLine { TextLine(PortText(port), "\n") }

  predicate AssignsPort(line: TextLine) { KeyOf(line.text + line.end) == Some(APP_PORT) }

  /** Every line that a test picks gives way to one line; the others stay, terminators included. */
  function Replaced(lines: seq<TextLine>, picks: TextLine -> bool, line: TextLine): (out: seq<TextLine>)
    ensures |out| == |lines| && forall k :: 0 <= k < |lines| ==> out[k] == if picks(lines[k]) then line else lines[k]
  {
    seq(|lines|, k requires 0 <= k < |lines| => if picks(lines[k]) then line else lines[k])
  }

  predicate AnyPicked(lines: seq<TextLine>, picks: TextLine -> bool) {
    exists k :: 0 <= k < |lines| && picks(lines[k])
  }

  /** What splitting sees once a line feed is added to a text that does not end in one. */
  function Terminated(lines: seq<TextLine>): seq<TextLine> {
    if lines == [] then []
    else
      var init, last := lines[..|lines| - 1], lines[|lines| - 1];
      if last.end == "\n" || last.end == "\r\n" then lines
      else if last.end == "" then init + [TextLine(last.text, "\n")]
      else if last.end == "\r" then init + [TextLine(last.text, "\r\n")]
      else lines + [TextLine("", "\n")]
  }

  function Edited(lines: seq<TextLine>, picks: TextLine -> bool, line: TextLine): seq<TextLine> {
    if AnyPicked(lines, picks) then Replaced(lines, picks, line) else Terminated(lines) + [line]
  }

  function EnvWithPort(content: string, port: nat): string { Join(Edited(Split(content), AssignsPort, PortLine(port))) }

  lemma JoinOneMore(lines: seq<TextLine>, line: TextLine)
    ensures Join(lines + [line]) == Join(lines) + (line.text + line.end)
  {
    JoinSplits(lines, [line]);
    assert [line][1..] == [];
    assert line.text + line.end + "" == line.text + line.end;
  }

  lemma ReplacedOneMore(lines: seq<TextLine>, picks: TextLine -> bool, line: TextLine, i: nat)
    requires i < |lines|
    ensures Replaced(lines[..i + 1], picks, line) ==
      Replaced(lines[..i], picks, line) + [if picks(lines[i]) then line else lines[i]]
    ensures AnyPicked(lines[..i + 1], picks) <==> AnyPicked(lines[..i], picks) || picks(lines[i])
  {
    var more, init := lines[..i + 1], lines[..i];
    assert forall k :: 0 <= k < i ==> more[k] == init[k];
    assert more[i] == lines[i];
  }

  lemma LastLine(lines: seq<TextLine>)
    requires Canonical(lines) && lines != []
    ensures
      var last := lines[|lines| - 1];
      && Join(lines) == Join(lines[..|lines| - 1]) + (last.text + last.end)
      && NoBreaks(last.text) && (IsEnd(last.end) || (last.end == "" && last.text != ""))
  {
    var init, last := lines[..|lines| - 1], lines[|lines| - 1];
    CanonicalIff(lines);
    assert FitsAt(lines, |lines| - 1);
    assert lines == init + [last];
    JoinOneMore(init, last);
  }

  predicate EndsInFeed(text: string) { text == "" || text[|text| - 1] == '\n' }

  lemma EndsInFeedIff(before: string, last: TextLine)
    requires NoBreaks(last.text) && (IsEnd(last.end) || (last.end == "" && last.text != ""))
    ensures EndsInFeed(before + (last.text + last.end)) <==> last.end == "\n" || last.end == "\r\n"
    ensures before + (last.text + last.end) != ""
  {
    if last.end == "" {
      assert last.text[|last.text| - 1] in last.text;
      assert last.text + last.end == last.text;
    } else {
      var all := before + (last.text + last.end);
      assert all[|all| - 1] == last.end[|last.end| - 1];
    }
  }

  lemma TerminatedJoins(lines: seq<TextLine>)
    requires Canonical(lines)
    ensures Join(Terminated(lines)) == if EndsInFeed(Join(lines)) then Join(lines) else Join(lines) + "\n"
  {
    if lines != [] {
      var init, last := lines[..|lines| - 1], lines[|lines| - 1];
      LastLine(lines);
      EndsInFeedIff(Join(init), last);
      JoinOneMore(init, TextLine(last.text, "\n"));
      JoinOneMore(init, TextLine(last.text, "\r\n"));
      JoinOneMore(lines, TextLine("", "\n"));
      assert Join(init) + (last.text + "") + "\n" == Join(init) + (last.text + "\n");
      assert Join(init) + (last.text + "\r") + "\n" == Join(init) + (last.text + "\r\n");
    }
  }

  /** The loop of _env_with_port, and the line added when no line assigned the port. */
  method EditEnv(content: string, port: nat) returns (text: string)
    ensures text == EnvWithPort(content, port)
  {
    var lines := Split(content);
    var found, portLine := false, PortLine(port);
    text := "";
    for i := 0 to |lines|
      invariant text == Join(Replaced(lines[..i], AssignsPort, portLine))
      invariant found <==> AnyPicked(lines[..i], AssignsPort)
    {
      var line := lines[i];
      ReplacedOneMore(lines, AssignsPort, portLine, i);
      JoinOneMore(Replaced(lines[..i], AssignsPort, portLine), if AssignsPort(line) then portLine else line);
      var picked := IsPortAssignment(line);
      if picked {
        text := text + (portLine.text + portLine.end);
        found := true;
      } else {
        text := text + (line.text + line.end);
      }
    }
    assert lines[..|lines|] == lines;
    if !found {
      assert Replaced(lines, AssignsPort, portLine) == lines;
      SplitIsCanonical(content);
      TerminatedJoins(lines);
      JoinOneMore(Terminated(lines), portLine);
      if !EndsInFeed(text) {
        text := text + "\n";
      }
      text := text + (portLine.text + portLine.end);
    }
  }

  method IsPortAssignment(line: TextLine) returns (picked: bool)
    ensures picked <==> AssignsPort(line)
  {
    var assignment := ParseLine(line.text + line.end);
    return assignment.Some? && assignment.value.key == APP_PORT;
  }

  /******* What a reader sees afterwards *******/

  lemma {:induction false} NameLengthIs(s: string, n: nat)
    requires n < |s| && (forall k :: 0 <= k < n ==> IsNameChar(s[k])) && !IsNameChar(s[n])
    ensures NameLength(s) == n
    decreases n
  {
    if n > 0 {
      NameLengthIs(s[1..], n - 1);
    }
  }

  lemma DigitIsPlain(c: char)
    requires IsDigit(c)
    ensures GoodPiece(Plain(c)) && c != '#' && !IsBreak(c)
  {
  }

  lemma DigitsParsed(digits: string)
    requires digits != "" && AllDigits(digits)
    ensures ParseBody(digits).value == Some(digits)
  {
    var word := Plains(digits);
    PlainWord(digits);
    forall piece | piece in word ensures GoodPiece(piece) {
      var k :| 0 <= k < |word| && word[k] == piece;
      DigitIsPlain(digits[k]);
    }
    DigitIsPlain(digits[0]);
    assert IsReading(digits, word, "");
    ReadingScanned(digits, word, "");
  }

  lemma PortTextNoBreaks(port: nat)
    ensures NoBreaks(PortText(port))
  {
    var text, digits := PortText(port), Decimal(port);
    forall k | 0 <= k < |text| ensures !IsBreak(text[k]) {
      if k >= 9 {
        assert text[k] == digits[k - 9];
        DigitIsPlain(text[k]);
      }
    }
  }

  lemma PortTextName(port: nat)
    ensures PrefixLength(PortText(port)) == 0 && NameEnd(PortText(port)) == Some(8)
  {
    var text := PortText(port);
    assert text[0] == 'A' && text[0..] == text && text[8] == '=';
    assert Blanks(text) == 0;
    NameLengthIs(text, 8);
  }

  lemma PortEffect(port: nat)
    ensures EffectOf(PortText(port)) == Sets(APP_PORT, Some(Decimal(port)))
  {
    var text, digits := PortText(port), Decimal(port);
    PortTextNoBreaks(port);
    PortTextName(port);
    EndStripped(text, "");
    assert text + "" == text;
    assert text[8 + 1..] == digits && text[0..8] == APP_PORT;
    assert '\n' !in digits by {
      assert forall c :: c in digits ==> IsDigit(c);
    }
    DigitsParsed(digits);
  }

  ghost predicate AllFit(lines: seq<TextLine>) { forall i :: 0 <= i < |lines| ==> FitsAt(lines, i) }

  /** A line that can stand anywhere. */
  predicate Complete(line: TextLine) { NoBreaks(line.text) && line.text != "" && line.end == "\n" }

  lemma ReplacedFits(lines: seq<TextLine>, picks: TextLine -> bool, line: TextLine)
    requires AllFit(lines) && Complete(line)
    ensures AllFit(Replaced(lines, picks, line))
  {
    var out := Replaced(lines, picks, line);
    forall i | 0 <= i < |out| ensures FitsAt(out, i) {
      assert FitsAt(lines, i);
    }
  }

  lemma TerminatedFits(lines: seq<TextLine>)
    requires AllFit(lines)
    ensures AllFit(Terminated(lines))
    ensures lines != [] ==> IsEnd(Terminated(lines)[|Terminated(lines)| - 1].end)
  {
    var out := Terminated(lines);
    if lines != [] {
      assert FitsAt(lines, |lines| - 1);
      forall i | 0 <= i < |out| ensures FitsAt(out, i) {
        if i < |lines| {
          assert FitsAt(lines, i);
        }
      }
    }
  }

  lemma AppendedFits(lines: seq<TextLine>, line: TextLine)
    requires AllFit(lines) && Complete(line) && (lines != [] ==> IsEnd(lines[|lines| - 1].end))
    ensures AllFit(lines + [line])
  {
    forall i | 0 <= i < |lines| + 1 ensures FitsAt(lines + [line], i) {
      if i < |lines| {
        assert FitsAt(lines, i);
      }
    }
  }

  /** Splitting the joined edit gives exactly the edited lines. */
  lemma EditedSplits(content: string, picks: TextLine -> bool, line: TextLine)
    requires Complete(line)
    ensures var out := Edited(Split(content), picks, line); Split(Join(out)) == out
  {
    var lines := Split(content);
    SplitIsCanonical(content);
    CanonicalIff(lines);
    ReplacedFits(lines, picks, line);
    TerminatedFits(lines);
    AppendedFits(Terminated(lines), line);
    CanonicalIff(Edited(lines, picks, line));
    SplitOfJoin(Edited(lines, picks, line));
  }

  /******* Effects *******/

  predicate SetsPort(e: Effect) { e.Sets? && e.key == APP_PORT }

  ghost predicate AnySetsPort(effects: seq<Effect>) { exists k :: 0 <= k < |effects| && SetsPort(effects[k]) }

  function WithEffect(effects: seq<Effect>, value: Option<string>): (out: seq<Effect>)
    ensures |out| == |effects|
    ensures forall k :: 0 <= k < |out| ==> out[k] == if SetsPort(effects[k]) then Sets(APP_PORT, value) else effects[k]
  {
    seq(|effects|, k requires 0 <= k < |effects| => if SetsPort(effects[k]) then Sets(APP_PORT, value) else effects[k])
  }

  lemma {:induction false} WithEffectRead(effects: seq<Effect>, value: Option<string>)
    ensures
      ReadEffects(WithEffect(effects, value)) ==
      if AnySetsPort(effects) then ReadEffects(effects)[APP_PORT := value] else ReadEffects(effects)
    decreases |effects|
  {
    if effects != [] {
      var init, last := effects[..|effects| - 1], effects[|effects| - 1];
      WithEffectRead(init, value);
      assert WithEffect(effects, value)[..|init|] == WithEffect(init, value);
      assert AnySetsPort(effects) <==> AnySetsPort(init) || SetsPort(last) by {
        if AnySetsPort(init) {
          var k :| 0 <= k < |init| && SetsPort(init[k]);
          assert SetsPort(effects[k]);
        }
        if AnySetsPort(effects) {
          var k :| 0 <= k < |effects| && SetsPort(effects[k]);
          assert k < |init| ==> SetsPort(init[k]);
        }
      }
    }
  }

  /** A line assigns the port exactly when its effect does. */
  lemma PickedIffEffect(lines: seq<TextLine>, k: nat)
    requires AllFit(lines) && k < |lines|
    ensures AssignsPort(lines[k]) <==> SetsPort(EffectOf(lines[k].text))
  {
    assert FitsAt(lines, k);
    KeyWithEnd(lines[k].text, lines[k].end);
  }

  lemma ReplacedEffects(lines: seq<TextLine>, port: nat)
    requires AllFit(lines)
    ensures
      Effects(Replaced(lines, AssignsPort, PortLine(port))) == WithEffect(Effects(lines), Some(Decimal(port)))
    ensures AnyPicked(lines, AssignsPort) <==> AnySetsPort(Effects(lines))
  {
    PortEffect(port);
    forall k: nat | k < |lines| ensures AssignsPort(lines[k]) <==> SetsPort(Effects(lines)[k]) {
      PickedIffEffect(lines, k);
    }
  }

  lemma BlankEffect()
    ensures EffectOf("") == Nothing
  {
    assert NameLength("") == 0;
  }

  lemma SameTexts(a: seq<TextLine>, b: seq<TextLine>)
    requires |a| == |b| && forall k :: 0 <= k < |a| ==> a[k].text == b[k].text
    ensures Effects(a) == Effects(b)
  {
  }

  lemma BlankAppended(lines: seq<TextLine>, line: TextLine)
    requires line.text == ""
    ensures ReadEffects(Effects(lines + [line])) == ReadEffects(Effects(lines))
  {
    BlankEffect();
    var effects := Effects(lines + [line]);
    assert effects[..|lines|] == Effects(lines);
    assert effects[|lines|] == Nothing;
  }

  lemma TerminatedRead(lines: seq<TextLine>)
    ensures ReadEffects(Effects(Terminated(lines))) == ReadEffects(Effects(lines))
  {
    if lines != [] {
      var init, last := lines[..|lines| - 1], lines[|lines| - 1];
      SameTexts(init + [TextLine(last.text, "\n")], lines);
      SameTexts(init + [TextLine(last.text, "\r\n")], lines);
      BlankAppended(lines, TextLine("", "\n"));
    }
  }

  lemma AppendedRead(lines: seq<TextLine>, port: nat)
    ensures
      ReadEffects(Effects(lines + [PortLine(port)])) ==
      ReadEffects(Effects(lines))[APP_PORT := Some(Decimal(port))]
  {
    var effects := Effects(lines + [PortLine(port)]);
    PortEffect(port);
    assert effects[..|lines|] == Effects(lines) && effects[..|lines| + 1] == effects;
    EffectsOneMore(effects, |lines|);
  }

  lemma EditedEffects(lines: seq<TextLine>, port: nat)
    requires AllFit(lines)
    ensures
      ReadEffects(Effects(Edited(lines, AssignsPort, PortLine(port)))) ==
      ReadEffects(Effects(lines))[APP_PORT := Some(Decimal(port))]
  {
    if AnyPicked(lines, AssignsPort) {
      ReplacedEffects(lines, port);
      WithEffectRead(Effects(lines), Some(Decimal(port)));
    } else {
      TerminatedRead(lines);
      AppendedRead(Terminated(lines), port);
    }
  }

  /** Reading the edited file gives the old assignments with the one key replaced, whatever the file looked like. */
  lemma EditedReads(content: string, port: nat)
    ensures Read(EnvWithPort(content, port)) == Read(content)[APP_PORT := Some(Decimal(port))]
  {
    var lines := Split(content);
    PortTextNoBreaks(port);
    EditedSplits(content, AssignsPort, PortLine(port));
    SplitIsCanonical(content);
    CanonicalIff(lines);
    EditedEffects(lines, port);
  }

  lemma EditedPort(content: string, port: nat)
    requires IsPort(port)
    ensures CurrentPort(EnvWithPort(content, port)) == Some(port)
  {
    EditedReads(content, port);
    DecimalRead(port);
  }

  /** The lines that do not assign the port, terminators included, in order. */
  function Unpicked(lines: seq<TextLine>, picks: TextLine -> bool): seq<TextLine> {
    if lines == [] then []
    else Unpicked(lines[..|lines| - 1], picks) + if picks(lines[|lines| - 1]) then [] else [lines[|lines| - 1]]
  }

  lemma {:induction false} ReplacedKeeps(lines: seq<TextLine>, picks: TextLine -> bool, line: TextLine)
    requires picks(line)
    ensures Unpicked(Replaced(lines, picks, line), picks) == Unpicked(lines, picks)
    decreases |lines|
  {
    if lines != [] {
      ReplacedKeeps(lines[..|lines| - 1], picks, line);
      assert Replaced(lines, picks, line)[..|lines| - 1] == Replaced(lines[..|lines| - 1], picks, line);
    }
  }

  /** A file that assigns the port keeps every other line byte for byte. */
  lemma OthersKept(content: string, port: nat)
    ensures AnyPicked(Split(content), AssignsPort) ==>
      Unpicked(Split(EnvWithPort(content, port)), AssignsPort) == Unpicked(Split(content), AssignsPort)
  {
    var lines, portLine := Split(content), PortLine(port);
    PortTextNoBreaks(port);
    PortEffect(port);
    KeyWithEnd(portLine.text, portLine.end);
    EditedSplits(content, AssignsPort, portLine);
    ReplacedKeeps(lines, AssignsPort, portLine);
  }
}
