/**
 Text files of shell assignments: splitting into lines with every terminator that str.splitlines knows, reading the
 assignments (shell_config.py) and replacing the panel's port in place (panel_port.py, _env_with_port).
 */
module EnvText {
  import opened Options
  import opened Decimals
  import opened ShellConfig

  /******* Lines *******/

  predicate IsBreak(c: char) {
    || c == '\n' || c == '\r' || c == '\U{0B}' || c == '\U{0C}' || c == '\U{1C}' || c == '\U{1D}' || c == '\U{1E}'
    || c == '\U{85}' || c == '\U{2028}' || c == '\U{2029}'
  }

  datatype TextLine = TextLine(text: string, end: string)

  predicate IsEnd(end: string) { end == "\r\n" || (|end| == 1 && IsBreak(end[0])) }

  predicate NoBreaks(s: string) { forall c :: c in s ==> !IsBreak(c) }

  /** The lines of `s`, of which `current` has already been read. */
  function SplitFrom(current: string, s: string): seq<TextLine>
    decreases |s|
  {
    if s == "" then if current == "" then [] else [TextLine(current, "")]
    else if |s| > 1 && s[0] == '\r' && s[1] == '\n' then [TextLine(current, "\r\n")] + SplitFrom("", s[2..])
    else if IsBreak(s[0]) then [TextLine(current, [s[0]])] + SplitFrom("", s[1..])
    else SplitFrom(current + [s[0]], s[1..])
  }

  /** str.splitlines, each line with its terminator. */
  function Split(s: string): seq<TextLine> { SplitFrom("", s) }

  function Join(lines: seq<TextLine>): string {
    if lines == [] then "" else lines[0].text + (lines[0].end + Join(lines[1..]))
  }

  /** The line lists that splitting can produce. */
  predicate Canonical(lines: seq<TextLine>) {
    lines != [] ==>
      && NoBreaks(lines[0].text)
      && (IsEnd(lines[0].end) || (|lines| == 1 && lines[0].end == "" && lines[0].text != ""))
      && (lines[0].end == "\r" && |lines| > 1 ==> lines[1].text != "" || lines[1].end != "\n")
      && Canonical(lines[1..])
  }

  lemma JoinFirst(line: TextLine, rest: seq<TextLine>)
    ensures Join([line] + rest) == line.text + (line.end + Join(rest))
  {
    assert ([line] + rest)[1..] == rest;
  }

  lemma {:induction false} SplitFromJoins(current: string, s: string)
    ensures Join(SplitFrom(current, s)) == current + s
    decreases |s|
  {
    if s == "" {
      assert [TextLine(current, "")][1..] == [];
      assert current + ("" + "") == current && current + s == current;
    } else if |s| > 1 && s[0] == '\r' && s[1] == '\n' {
      SplitFromJoins("", s[2..]);
      JoinFirst(TextLine(current, "\r\n"), SplitFrom("", s[2..]));
      assert s == "\r\n" + ("" + s[2..]);
    } else if IsBreak(s[0]) {
      SplitFromJoins("", s[1..]);
      JoinFirst(TextLine(current, [s[0]]), SplitFrom("", s[1..]));
      assert s == [s[0]] + ("" + s[1..]);
    } else {
      SplitFromJoins(current + [s[0]], s[1..]);
      assert current + s == current + [s[0]] + s[1..];
    }
  }

  /** Joining inverts splitting. */
  lemma SplitJoins(s: string)
    ensures Join(Split(s)) == s
  {
    SplitFromJoins("", s);
    assert "" + s == s;
  }

  /** No line begins with a line feed unless the text does. */
  lemma {:induction false} FirstPiece(current: string, s: string)
    requires current != "" || (s != "" && s[0] != '\n')
    ensures SplitFrom(current, s) != []
    ensures SplitFrom(current, s)[0].text != "" || SplitFrom(current, s)[0].end != "\n"
    decreases |s|
  {
    if s != "" && !IsBreak(s[0]) {
      FirstPiece(current + [s[0]], s[1..]);
    }
  }

  lemma CanonicalFirst(line: TextLine, rest: seq<TextLine>)
    requires NoBreaks(line.text) && IsEnd(line.end) && Canonical(rest)
    requires line.end == "\r" && rest != [] ==> rest[0].text != "" || rest[0].end != "\n"
    ensures Canonical([line] + rest)
  {
    assert ([line] + rest)[1..] == rest;
  }

  lemma {:induction false} SplitFromCanonical(current: string, s: string)
    requires NoBreaks(current)
    ensures Canonical(SplitFrom(current, s))
    decreases |s|
  {
    if s == "" {
      assert [TextLine(current, "")][1..] == [];
    } else if |s| > 1 && s[0] == '\r' && s[1] == '\n' {
      SplitFromCanonical("", s[2..]);
      CanonicalFirst(TextLine(current, "\r\n"), SplitFrom("", s[2..]));
    } else if IsBreak(s[0]) {
      SplitFromCanonical("", s[1..]);
      if s[1..] != "" && s[0] == '\r' {
        assert s[1..][0] == s[1];
        FirstPiece("", s[1..]);
      }
      CanonicalFirst(TextLine(current, [s[0]]), SplitFrom("", s[1..]));
    } else {
      SplitFromCanonical(current + [s[0]], s[1..]);
    }
  }

  lemma SplitIsCanonical(s: string)
    ensures Canonical(Split(s))
  {
    SplitFromCanonical("", s);
  }

  lemma {:induction false} JoinStarts(lines: seq<TextLine>)
    requires Canonical(lines) && lines != []
    ensures Join(lines) != "" && (Join(lines)[0] == '\n' ==> lines[0].text == "" && lines[0].end == "\n")
  {
    var first := lines[0];
    if first.text != "" {
      assert first.text[0] in first.text;
    }
  }

  lemma {:induction false} PlainSplit(current: string, text: string, tail: string)
    requires NoBreaks(text)
    ensures SplitFrom(current, text + tail) == SplitFrom(current + text, tail)
    decreases |text|
  {
    if text == "" {
      assert text + tail == tail && current + text == current;
    } else {
      var s := text + tail;
      assert s[0] == text[0] && text[0] in text;
      assert s[1..] == text[1..] + tail;
      assert current + [text[0]] + text[1..] == current + text;
      PlainSplit(current + [text[0]], text[1..], tail);
    }
  }

  /** A terminator ends the line, unless it is a carriage return before a line feed. */
  lemma EndSplit(current: string, end: string, rest: string)
    requires IsEnd(end) && (end == "\r" && rest != "" ==> rest[0] != '\n')
    ensures SplitFrom(current, end + rest) == [TextLine(current, end)] + Split(rest)
  {
    var s := end + rest;
    if end == "\r\n" {
      assert s[0] == '\r' && s[1] == '\n' && s[2..] == rest;
    } else {
      assert end == [end[0]] && s[1..] == rest && s[0] == end[0];
      assert |s| > 1 ==> s[1] == rest[0];
    }
  }

  /** Splitting inverts joining on every line list that splitting can produce. */
  lemma {:induction false} SplitOfJoin(lines: seq<TextLine>)
    requires Canonical(lines)
    ensures Split(Join(lines)) == lines
    decreases |lines|
  {
    if lines != [] {
      var first, rest := lines[0], Join(lines[1..]);
      assert lines == [first] + lines[1..];
      SplitOfJoin(lines[1..]);
      PlainSplit("", first.text, first.end + rest);
      assert "" + first.text == first.text;
      if first.end == "" {
        assert "" + rest == "";
      } else {
        if lines[1..] != [] {
          JoinStarts(lines[1..]);
        }
        EndSplit(first.text, first.end, rest);
      }
    }
  }

  lemma {:induction false} JoinSplits(a: seq<TextLine>, b: seq<TextLine>)
    ensures Join(a + b) == Join(a) + Join(b)
    decreases |a|
  {
    if a == [] {
      assert a + b == b;
    } else {
      assert (a + b)[1..] == a[1..] + b;
      JoinSplits(a[1..], b);
    }
  }

  /** Canonical, line by line. */
  lemma {:induction false} CanonicalIff(lines: seq<TextLine>)
    ensures Canonical(lines) <==> forall i :: 0 <= i < |lines| ==> FitsAt(lines, i)
    decreases |lines|
  {
    if lines != [] {
      CanonicalIff(lines[1..]);
      if forall i :: 0 <= i < |lines| ==> FitsAt(lines, i) {
        forall i | 0 <= i < |lines| - 1 ensures FitsAt(lines[1..], i) {
          assert FitsAt(lines, i + 1);
        }
        assert FitsAt(lines, 0);
      }
      if Canonical(lines) {
        forall i | 0 <= i < |lines| ensures FitsAt(lines, i) {
          if i > 0 {
            assert FitsAt(lines[1..], i - 1);
          }
        }
      }
    }
  }

  predicate FitsAt(lines: seq<TextLine>, i: int)
    requires 0 <= i < |lines|
  {
    && NoBreaks(lines[i].text)
    && (IsEnd(lines[i].end) || (i == |lines| - 1 && lines[i].end == "" && lines[i].text != ""))
    && (lines[i].end == "\r" && i + 1 < |lines| ==> lines[i + 1].text != "" || lines[i + 1].end != "\n")
  }

  /******* One assignment *******/

  datatype Assignment = Assignment(key: string, value: Option<string>, comment: string, prefix: string)

  /** line.rstrip("\r\n") */
  function StripEnd(s: string): string {
    if s != "" && (s[|s| - 1] == '\r' || s[|s| - 1] == '\n') then StripEnd(s[..|s| - 1]) else s
  }

  function Blanks(s: string): (n: nat)
    ensures n <= |s|
  {
    if s != "" && IsBlank(s[0]) then 1 + Blanks(s[1..]) else 0
  }

  predicate IsNameChar(c: char) { 'A' <= c <= 'Z' || 'a' <= c <= 'z' || c == '_' || IsDigit(c) }

  function NameLength(s: string): (n: nat)
    ensures n <= |s|
  {
    if s != "" && IsNameChar(s[0]) then 1 + NameLength(s[1..]) else 0
  }

  /** Leading blanks, and the word export with the blanks behind it. */
  function PrefixLength(s: string): (n: nat)
    ensures n <= |s|
  {
    var b := Blanks(s);
    if "export" <= s[b..] && Blanks(s[b + 6..]) > 0 then b + 6 + Blanks(s[b + 6..]) else b
  }

  /** Where the name ends and the equals sign stands, if the text is an assignment. */
  function NameEnd(s: string): (r: Option<nat>)
    ensures r.Some? ==> PrefixLength(s) <= r.value < |s|
  {
    var p := PrefixLength(s);
    var k := p + NameLength(s[p..]);
    if k == p || IsDigit(s[p]) || k == |s| || s[k] != '=' then None else Some(k)
  }

  function KeyIn(s: string): Option<string> {
    var k := NameEnd(s);
    if k.None? || '\n' in s[k.value + 1..] then None else Some(s[PrefixLength(s)..k.value])
  }

  /** The key that a line assigns, if it is an assignment. */
  function KeyOf(line: string): Option<string> { KeyIn(StripEnd(line)) }

  function ParseLine(line: string): (r: Option<Assignment>)
    ensures r.Some? <==> KeyOf(line).Some?
    ensures r.Some? ==> r.value.key == KeyOf(line).value
  {
    var s := StripEnd(line);
    var key := KeyIn(s);
    if key.None? then None
    else
      var scanned := ParseBody(s[NameEnd(s).value + 1..]);
      Some(Assignment(key.value, scanned.value, scanned.comment, s[..PrefixLength(s)]))
  }

  lemma {:induction false} BlanksBefore(s: string, c: char)
    requires !IsBlank(c)
    ensures Blanks(s + [c]) == Blanks(s)
    decreases |s|
  {
    if s == "" {
      assert s + [c] == [c];
    } else {
      assert (s + [c])[1..] == s[1..] + [c];
      BlanksBefore(s[1..], c);
    }
  }

  lemma {:induction false} NameBefore(s: string, c: char)
    requires !IsNameChar(c)
    ensures NameLength(s + [c]) == NameLength(s)
    decreases |s|
  {
    if s == "" {
      assert s + [c] == [c];
    } else {
      assert (s + [c])[1..] == s[1..] + [c];
      NameBefore(s[1..], c);
    }
  }

  lemma PrefixBefore(s: string, c: char)
    requires IsBreak(c)
    ensures PrefixLength(s + [c]) == PrefixLength(s)
  {
    var b := Blanks(s);
    BlanksBefore(s, c);
    var rest := s[b..];
    assert (s + [c])[b..] == rest + [c];
    if |rest| >= 6 {
      assert (rest + [c])[..6] == rest[..6];
      assert (s + [c])[b + 6..] == s[b + 6..] + [c];
      BlanksBefore(s[b + 6..], c);
    } else if |rest| == 5 {
      assert (rest + [c])[5] == c;
    }
  }

  lemma NameEndBefore(s: string, c: char)
    requires IsBreak(c)
    ensures NameEnd(s + [c]) == NameEnd(s)
  {
    PrefixBefore(s, c);
    var p := PrefixLength(s);
    assert (s + [c])[p..] == s[p..] + [c];
    NameBefore(s[p..], c);
  }

  lemma {:induction false} EndStripped(text: string, end: string)
    requires NoBreaks(text) && forall k :: 0 <= k < |end| ==> end[k] == '\r' || end[k] == '\n'
    ensures StripEnd(text + end) == text
    decreases |end|
  {
    if end == "" {
      assert text + end == text;
      assert text != "" ==> text[|text| - 1] in text;
    } else {
      assert (text + end)[..|text + end| - 1] == text + end[..|end| - 1];
      assert (text + end)[|text + end| - 1] == end[|end| - 1];
      EndStripped(text, end[..|end| - 1]);
    }
  }

  lemma KeyWithBreak(text: string, c: char)
    requires NoBreaks(text) && IsBreak(c) && c != '\r' && c != '\n'
    ensures KeyIn(text + [c]) == KeyIn(text)
  {
    NameEndBefore(text, c);
    PrefixBefore(text, c);
    var k := NameEnd(text);
    if k.Some? {
      var rest := text[k.value + 1..];
      assert (text + [c])[k.value + 1..] == rest + [c];
      assert (text + [c])[PrefixLength(text)..k.value] == text[PrefixLength(text)..k.value];
      assert '\n' !in rest by {
        assert forall x :: x in rest ==> x in text;
      }
    }
  }

  /** A terminator never changes which key a line assigns. */
  lemma KeyWithEnd(text: string, end: string)
    requires NoBreaks(text) && (end == "" || IsEnd(end))
    ensures KeyOf(text + end) == KeyOf(text)
  {
    EndStripped(text, "");
    assert text + "" == text;
    if forall k :: 0 <= k < |end| ==> end[k] == '\r' || end[k] == '\n' {
      EndStripped(text, end);
    } else {
      assert end == [end[0]];
      assert StripEnd(text + end) == text + end;
      KeyWithBreak(text, end[0]);
    }
  }

  /******* Reading *******/

  type Values = map<string, Option<string>>

  /** What one line does to the values read so far. */
  datatype Effect = Nothing | Sets(key: string, value: Option<string>)

  function EffectOf(text: string): Effect {
    match ParseLine(text)
    case None => Nothing
    case Some(a) => Sets(a.key, a.value)
  }

  function Effects(lines: seq<TextLine>): (effects: seq<Effect>)
    ensures |effects| == |lines| && forall k :: 0 <= k < |lines| ==> effects[k] == EffectOf(lines[k].text)
  {
    seq(|lines|, k requires 0 <= k < |lines| => EffectOf(lines[k].text))
  }

  /** A later assignment of a key replaces an earlier one. */
  function ReadEffects(effects: seq<Effect>): Values {
    if effects == [] then map[]
    else
      var before := ReadEffects(effects[..|effects| - 1]);
      match effects[|effects| - 1]
      case Nothing => before
      case Sets(key, value) => before[key := value]
  }

  function Read(content: string): Values { ReadEffects(Effects(Split(content))) }

  lemma EffectsOneMore(effects: seq<Effect>, i: nat)
    requires i < |effects|
    ensures
      ReadEffects(effects[..i + 1]) ==
      match effects[i]
      case Nothing => ReadEffects(effects[..i])
      case Sets(key, value) => ReadEffects(effects[..i])[key := value]
  {
    assert effects[..i + 1][..i] == effects[..i];
  }

  method LineEffect(text: string) returns (e: Effect)
    ensures e == EffectOf(text)
  {
    var assignment := ParseLine(text);
    if assignment.None? {
      return Nothing;
    }
    return Sets(assignment.value.key, assignment.value.value);
  }

  /** read_shell_assignments. */
  method ReadShellAssignments(content: string) returns (values: Values)
    ensures values == Read(content)
  {
    values := map[];
    var lines := Split(content);
    ghost var effects := Effects(lines);
    for i := 0 to |lines|
      invariant values == ReadEffects(effects[..i])
    {
      EffectsOneMore(effects, i);
      var effect := LineEffect(lines[i].text);
      if effect.Sets? {
        values := values[effect.key := effect.value];
      }
    }
    assert effects[..|lines|] == effects;
  }
}
