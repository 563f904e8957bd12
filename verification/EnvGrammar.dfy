/** The form of an assignment (shell_config.py, line 5), said as a grammar, and the line breaks of str.splitlines. */
module EnvGrammar {
  import opened Options
  import opened ShellConfig
  import opened EnvText

  /******* Characters *******/

  /** The code points at which str.splitlines breaks: LF, VT, FF, CR, FS, GS, RS, NEL, LS and PS. */
  lemma BreakCodes(c: char)
    ensures IsBreak(c) <==> c as int in {10, 11, 12, 13, 28, 29, 30, 133, 8232, 8233}
  {
  }

  predicate IsLetterCode(n: int) { 65 <= n <= 90 || 97 <= n <= 122 || n == 95 }

  predicate IsDigitCode(n: int) { 48 <= n <= 57 }

  predicate AreBlanks(s: string) { forall k :: 0 <= k < |s| ==> s[k] as int in {32, 9} }

  /** A letter or an underscore, and then letters, digits and underscores. */
  predicate IsIdentifier(key: string) {
    && key != "" && IsLetterCode(key[0] as int)
    && forall k :: 0 <= k < |key| ==> IsLetterCode(key[k] as int) || IsDigitCode(key[k] as int)
  }

  /** Blanks, or the word export between blanks and at least one blank. */
  ghost predicate IsPrefix(prefix: string) {
    AreBlanks(prefix) || exists a, b :: AreBlanks(a) && AreBlanks(b) && b != "" && prefix == a + ("export" + b)
  }

  /** Without its terminator a line is a prefix, a key, an equals sign and a body without a line feed. */
  ghost predicate IsAssignment(s: string, prefix: string, key: string, body: string) {
    IsPrefix(prefix) && IsIdentifier(key) && '\n' !in body && s == prefix + (key + ("=" + body))
  }

  /******* The scanner takes this apart *******/

  lemma {:induction false} BlanksSpan(a: string, rest: string)
    requires AreBlanks(a) && (rest == "" || !IsBlank(rest[0]))
    ensures Blanks(a + rest) == |a|
    decreases |a|
  {
    if a == "" {
      assert a + rest == rest;
    } else {
      assert (a + rest)[1..] == a[1..] + rest;
      BlanksSpan(a[1..], rest);
    }
  }

  lemma {:induction false} BlanksTaken(s: string)
    ensures AreBlanks(s[..Blanks(s)])
    ensures Blanks(s) < |s| ==> !IsBlank(s[Blanks(s)])
    decreases |s|
  {
    if s != "" && IsBlank(s[0]) {
      BlanksTaken(s[1..]);
      assert s[..Blanks(s)] == [s[0]] + s[1..][..Blanks(s[1..])];
    }
  }

  lemma {:induction false} NameSpan(key: string, rest: string)
    requires forall k :: 0 <= k < |key| ==> IsLetterCode(key[k] as int) || IsDigitCode(key[k] as int)
    requires rest != "" && rest[0] == '='
    ensures NameLength(key + rest) == |key|
    decreases |key|
  {
    if key == "" {
      assert key + rest == rest;
    } else {
      assert (key + rest)[1..] == key[1..] + rest;
      NameSpan(key[1..], rest);
    }
  }

  lemma {:induction false} NameTaken(s: string)
    ensures forall k :: 0 <= k < NameLength(s) ==> IsLetterCode(s[k] as int) || IsDigitCode(s[k] as int)
    decreases |s|
  {
    if s != "" && IsNameChar(s[0]) {
      NameTaken(s[1..]);
      forall k | 0 <= k < NameLength(s) ensures IsLetterCode(s[k] as int) || IsDigitCode(s[k] as int) {
        if k > 0 {
          assert s[k] == s[1..][k - 1];
        }
      }
    }
  }

  /** A key never reads as the word export followed by a blank. */
  lemma NoExport(key: string, rest: string)
    requires IsIdentifier(key) && rest != "" && rest[0] == '='
    ensures "export" <= key + rest ==> Blanks((key + rest)[6..]) == 0
  {
    var s := key + rest;
    assert s[|key|] == '=';
    assert forall k :: 0 <= k < 6 ==> "export"[k] != '=';
    if "export" <= s {
      assert forall k :: 0 <= k < 6 ==> s[k] == "export"[k];
      if |key| == 6 {
        assert s[6..] == rest;
      } else if |key| > 6 {
        assert s[6] == key[6];
      }
    }
  }

  lemma PlainPrefixSpan(prefix: string, key: string, rest: string)
    requires AreBlanks(prefix) && IsIdentifier(key) && rest != "" && rest[0] == '='
    ensures PrefixLength(prefix + (key + rest)) == |prefix|
  {
    var s := prefix + (key + rest);
    BlanksSpan(prefix, key + rest);
    assert s[|prefix|..] == key + rest;
    NoExport(key, rest);
    if "export" <= key + rest {
      assert s[|prefix| + 6..] == (key + rest)[6..];
    }
  }

  lemma ExportPrefixSpan(a: string, b: string, key: string, rest: string)
    requires AreBlanks(a) && AreBlanks(b) && b != "" && IsIdentifier(key) && rest != "" && rest[0] == '='
    ensures PrefixLength(a + ("export" + b) + (key + rest)) == |a| + 6 + |b|
  {
    var s, tail := a + ("export" + b) + (key + rest), "export" + (b + (key + rest));
    assert s == a + tail;
    BlanksSpan(a, tail);
    assert s[|a|..] == tail && tail[..6] == "export";
    assert s[|a| + 6..] == b + (key + rest);
    BlanksSpan(b, key + rest);
  }

  lemma PrefixSpan(prefix: string, key: string, rest: string)
    requires IsPrefix(prefix) && IsIdentifier(key) && rest != "" && rest[0] == '='
    ensures PrefixLength(prefix + (key + rest)) == |prefix|
  {
    if AreBlanks(prefix) {
      PlainPrefixSpan(prefix, key, rest);
    } else {
      var a, b :| AreBlanks(a) && AreBlanks(b) && b != "" && prefix == a + ("export" + b);
      ExportPrefixSpan(a, b, key, rest);
    }
  }

  lemma PrefixTaken(s: string)
    ensures IsPrefix(s[..PrefixLength(s)])
  {
    var b := Blanks(s);
    BlanksTaken(s);
    if "export" <= s[b..] && Blanks(s[b + 6..]) > 0 {
      var n := Blanks(s[b + 6..]);
      BlanksTaken(s[b + 6..]);
      var word, blanks := s[b..][..6], s[b + 6..][..n];
      assert s[..b + 6 + n] == s[..b] + (word + blanks);
      assert word == "export";
    }
  }

  /** What the scanner makes of an assignment: its parts. */
  lemma AssignmentTaken(s: string, prefix: string, key: string, body: string)
    requires IsAssignment(s, prefix, key, body)
    ensures PrefixLength(s) == |prefix| && NameEnd(s) == Some(|prefix| + |key|) && KeyIn(s) == Some(key)
    ensures s[|prefix| + |key| + 1..] == body && s[..|prefix|] == prefix
  {
    var rest := "=" + body;
    PrefixSpan(prefix, key, rest);
    assert s[|prefix|..] == key + rest;
    NameSpan(key, rest);
    assert s[|prefix|] == key[0] && s[|prefix| + |key|] == '=';
    assert s[|prefix|..|prefix| + |key|] == key;
  }

  lemma KeyFound(s: string)
    requires NameEnd(s).Some?
    ensures s[NameEnd(s).value] == '=' && IsIdentifier(s[PrefixLength(s)..NameEnd(s).value])
  {
    var p := PrefixLength(s);
    var key, rest := s[p..NameEnd(s).value], s[p..];
    NameTaken(rest);
    assert |key| == NameLength(rest);
    assert forall i :: 0 <= i < |key| ==> key[i] == rest[i];
  }

  lemma Pieces(s: string, p: nat, k: nat)
    requires p <= k < |s| && s[k] == '='
    ensures s == s[..p] + (s[p..k] + ("=" + s[k + 1..]))
  {
    assert s[k..] == "=" + s[k + 1..];
    assert s[p..] == s[p..k] + s[k..];
    assert s == s[..p] + s[p..];
  }

  lemma AssignmentFound(s: string)
    requires KeyIn(s).Some?
    ensures
      var k := NameEnd(s).value;
      IsAssignment(s, s[..PrefixLength(s)], KeyIn(s).value, s[k + 1..])
  {
    var p, k := PrefixLength(s), NameEnd(s).value;
    assert IsPrefix(s[..p]) by {
      PrefixTaken(s);
    }
    assert p <= k < |s| && s[k] == '=' && IsIdentifier(s[p..k]) by {
      KeyFound(s);
    }
    Pieces(s, p, k);
    PartsTogether(s, s[..p], s[p..k], s[k + 1..]);
  }

  lemma PartsTogether(s: string, prefix: string, key: string, body: string)
    requires IsPrefix(prefix) && IsIdentifier(key) && '\n' !in body && s == prefix + (key + ("=" + body))
    ensures IsAssignment(s, prefix, key, body)
  {
  }

  lemma ParsedParts(line: string, prefix: string, key: string, body: string)
    requires IsAssignment(StripEnd(line), prefix, key, body)
    ensures ParseLine(line) == Some(Assignment(key, ParseBody(body).value, ParseBody(body).comment, prefix))
  {
    AssignmentTaken(StripEnd(line), prefix, key, body);
  }

  lemma ParsedIsAssignment(line: string, a: Assignment) returns (body: string)
    requires ParseLine(line) == Some(a)
    ensures IsAssignment(StripEnd(line), a.prefix, a.key, body)
    ensures a.value == ParseBody(body).value && a.comment == ParseBody(body).comment
  {
    var s := StripEnd(line);
    assert KeyIn(s) == Some(a.key) && a.prefix == s[..PrefixLength(s)];
    AssignmentFound(s);
    body := s[NameEnd(s).value + 1..];
  }

  /** A line is an assignment exactly when the grammar says so, and then its parts are those of the grammar. */
  lemma AssignmentIff(line: string, a: Assignment)
    ensures ParseLine(line) == Some(a) <==>
      exists body :: IsAssignment(StripEnd(line), a.prefix, a.key, body)
                     && a.value == ParseBody(body).value && a.comment == ParseBody(body).comment
  {
    if ParseLine(line) == Some(a) {
      var body := ParsedIsAssignment(line, a);
    }
    if body :| IsAssignment(StripEnd(line), a.prefix, a.key, body)
               && a.value == ParseBody(body).value && a.comment == ParseBody(body).comment {
      ParsedParts(line, a.prefix, a.key, body);
    }
  }

  /** Stripping takes all the carriage returns and line feeds at the end, and nothing else. */
  lemma {:induction false} StripEndExact(s: string)
    ensures StripEnd(s) <= s
    ensures forall k :: |StripEnd(s)| <= k < |s| ==> s[k] as int in {10, 13}
    ensures StripEnd(s) != "" ==> StripEnd(s)[|StripEnd(s)| - 1] as int !in {10, 13}
  {
    if s != "" && (s[|s| - 1] == '\r' || s[|s| - 1] == '\n') {
      StripEndExact(s[..|s| - 1]);
    }
  }
}
