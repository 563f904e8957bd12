/**
 The literal shell assignments of shell_config.py: the quoting automaton of parse_shell_assignment, and an independent
 reading of a word as a sequence of quoted pieces (section 2.2 of the Shell Command Language volume of POSIX.1-2017).
 */
module ShellConfig {
  import opened Options

  predicate IsBlank(c: char) { c == ' ' || c == '\t' }

  const ESCAPABLE := "\\\"$`"
  const OPERATORS := "$`;|&()<>"

  /******* The automaton *******/

  datatype Quote = Unquoted | InSingle | InDouble
  datatype Scanning = Scanning(quote: Quote, ended: bool, literal: bool, value: string)
  /** The value is present when the body is literal. */
  datatype Scanned = Scanned(value: Option<string>, comment: string)

  const START := Scanning(Unquoted, false, true, "")

  function Finish(st: Scanning, comment: string): Scanned {
    Scanned(if st.literal && st.quote == Unquoted then Some(st.value) else None, comment)
  }

  /** One round of the loop: either the result, or how many characters were taken and the new state. */
  datatype Move = Stop(result: Scanned) | Go(taken: nat, st: Scanning)

  function Next(rest: string, atStart: bool, st: Scanning): (m: Move)
    requires rest != ""
    ensures m.Go? ==> 1 <= m.taken <= |rest|
  {
    var c := rest[0];
    if st.quote == InSingle then Go(1, if c == '\'' then st.(quote := Unquoted) else st.(value := st.value + [c]))
    else if c == '\\' then
      if |rest| == 1 then Stop(Finish(st.(literal := false), ""))
      else
        var kept := if st.quote == InDouble && rest[1] !in ESCAPABLE then [c] else [];
        Go(2, st.(literal := st.literal && !(st.quote == Unquoted && st.ended), value := st.value + kept + [rest[1]]))
    else if st.quote == InDouble then
      Go(1, if c == '"' then st.(quote := Unquoted)
            else st.(literal := st.literal && c != '$' && c != '`', value := st.value + [c]))
    else if IsBlank(c) then Go(1, st.(ended := true))
    else if c == '#' && (st.ended || atStart) then Stop(Finish(st, rest))
    else if st.ended then Go(1, st.(literal := false))
    else if c == '\'' then Go(1, st.(quote := InSingle))
    else if c == '"' then Go(1, st.(quote := InDouble))
    else Go(1, st.(literal := st.literal && c !in OPERATORS, value := st.value + [c]))
  }

  /** What the automaton makes of the rest of a body. */
  function Scan(rest: string, atStart: bool, st: Scanning): Scanned
    decreases |rest|
  {
    if rest == "" then Finish(st, "")
    else
      match Next(rest, atStart, st)
      case Stop(result) => result
      case Go(taken, st') => Scan(rest[taken..], false, st')
  }

  function ParseBody(body: string): Scanned { Scan(body, true, START) }

  lemma RoundDone(body: string, index: nat, st: Scanning, taken: nat, st': Scanning)
    requires index < |body| && Next(body[index..], index == 0, st) == Go(taken, st')
    ensures index + taken <= |body|
    ensures Scan(body[index..], index == 0, st) == Scan(body[index + taken..], index + taken == 0, st')
  {
    assert body[index..][taken..] == body[index + taken..];
  }

  /** What the expression for a whole line passes on: no line feed, and no carriage return at the end. */
  predicate IsBody(body: string) { '\n' !in body && (body != "" ==> body[|body| - 1] != '\r') }

  /** The loop of parse_shell_assignment. */
  method ScanBody(body: string) returns (r: Scanned)
    ensures r == ParseBody(body)
  {
    var value: string, quote, ended, literal := "", Unquoted, false, true;
    var index := 0;
    while index < |body|
      invariant index <= |body|
      invariant Scan(body[index..], index == 0, Scanning(quote, ended, literal, value)) == ParseBody(body)
    {
      ghost var st, first := Scanning(quote, ended, literal, value), index;
      var c := body[index];
      if quote == InSingle {
        if c == '\'' {
          quote := Unquoted;
        } else {
          value := value + [c];
        }
      } else if c == '\\' {
        if quote == Unquoted && ended {
          literal := false;
        }
        if index + 1 == |body| {
          return Scanned(None, "");
        }
        var following := body[index + 1];
        assert body[index..][1] == following;
        EmptyEnds(value);
        if quote == InDouble && following !in ESCAPABLE {
          value := value + [c];
        }
        value := value + [following];
        index := index + 1;
      } else if quote == InDouble {
        if c == '"' {
          quote := Unquoted;
        } else {
          if c == '$' || c == '`' {
            literal := false;
          }
          value := value + [c];
        }
      } else if IsBlank(c) {
        ended := true;
      } else if c == '#' && (ended || index == 0) {
        return Scanned(if literal then Some(value) else None, body[index..]);
      } else if ended {
        literal := false;
      } else if c == '\'' {
        quote := InSingle;
      } else if c == '"' {
        quote := InDouble;
      } else {
        if c in OPERATORS {
          literal := false;
        }
        value := value + [c];
      }
      index := index + 1;
      RoundDone(body, first, st, index - first, Scanning(quote, ended, literal, value));
    }
    if quote != Unquoted {
      literal := false;
    }
    return Scanned(if literal then Some(value) else None, "");
  }

  /******* The shell's own reading *******/

  /** Inside double quotes: a character, an escaped one, or a backslash that stays before another character. */
  datatype Item = Char(c: char) | Escape(c: char) | Backslash(c: char)

  datatype Piece =
    | Plain(c: char)
    | Escaped(c: char)
    | Single(text: string)
    | Double(items: seq<Item>)

  predicate GoodItem(item: Item) {
    match item
    case Char(c) => c !in ESCAPABLE
    case Escape(c) => c in ESCAPABLE
    case Backslash(c) => c !in ESCAPABLE
  }

  predicate GoodPiece(piece: Piece) {
    match piece
    case Plain(c) => !IsBlank(c) && c !in OPERATORS && c != '\\' && c != '\'' && c != '"'
    case Escaped(_) => true
    case Single(text) => '\'' !in text
    case Double(items) => GoodItems(items)
  }

  predicate GoodItems(items: seq<Item>) { forall k :: 0 <= k < |items| ==> GoodItem(items[k]) }

  predicate GoodWord(word: seq<Piece>) { forall k :: 0 <= k < |word| ==> GoodPiece(word[k]) }

  function RenderItem(item: Item): string {
    match item
    case Char(c) => [c]
    case Escape(c) => ['\\', c]
    case Backslash(c) => ['\\', c]
  }

  function ItemMeans(item: Item): string {
    match item
    case Char(c) => [c]
    case Escape(c) => [c]
    case Backslash(c) => ['\\', c]
  }

  function RenderItems(items: seq<Item>): string {
    if items == [] then "" else RenderItem(items[0]) + RenderItems(items[1..])
  }

  function ItemsMean(items: seq<Item>): string {
    if items == [] then "" else ItemMeans(items[0]) + ItemsMean(items[1..])
  }

  function RenderPiece(piece: Piece): string {
    match piece
    case Plain(c) => [c]
    case Escaped(c) => ['\\', c]
    case Single(text) => "'" + text + "'"
    case Double(items) => "\"" + RenderItems(items) + "\""
  }

  function PieceMeans(piece: Piece): string {
    match piece
    case Plain(c) => [c]
    case Escaped(c) => [c]
    case Single(text) => text
    case Double(items) => ItemsMean(items)
  }

  function Render(word: seq<Piece>): string {
    if word == [] then "" else RenderPiece(word[0]) + Render(word[1..])
  }

  function Means(word: seq<Piece>): string {
    if word == [] then "" else PieceMeans(word[0]) + Means(word[1..])
  }

  /** Blanks, and behind at least one of them perhaps a comment. */
  predicate IsTail(tail: string) {
    tail == "" || (IsBlank(tail[0]) && (IsTail(tail[1..]) || (|tail| > 1 && tail[1] == '#')))
  }

  function CommentOf(tail: string): string {
    if tail == "" || tail[0] == '#' then tail else CommentOf(tail[1..])
  }

  ghost predicate IsReading(body: string, word: seq<Piece>, tail: string) {
    GoodWord(word) && IsTail(tail) && body == Render(word) + tail
  }

  /******* The automaton reads what the shell reads *******/

  /** The state inside quotes or outside, with nothing wrong so far. */
  function In(quote: Quote, value: string): Scanning { Scanning(quote, false, true, value) }

  lemma Assoc(a: string, b: string, c: string)
    ensures (a + b) + c == a + (b + c)
  {
  }

  lemma EmptyEnds(a: string)
    ensures a + "" == a && "" + a == a
  {
  }

  /** The first character is taken alone. */
  lemma TakesOne(c: char, after: string, atStart: bool, st: Scanning, st': Scanning)
    requires Next([c] + after, atStart, st) == Go(1, st')
    ensures Scan([c] + after, atStart, st) == Scan(after, false, st')
  {
    assert ([c] + after)[1..] == after;
  }

  /** The first two characters are taken together. */
  lemma TakesTwo(c: char, d: char, after: string, atStart: bool, st: Scanning, st': Scanning)
    requires Next([c, d] + after, atStart, st) == Go(2, st')
    ensures Scan([c, d] + after, atStart, st) == Scan(after, false, st')
  {
    assert ([c, d] + after)[2..] == after;
  }

  lemma {:induction false} SingleScanned(text: string, closing: string, value: string)
    requires forall k :: 0 <= k < |text| ==> text[k] != '\''
    ensures Scan(text + closing, false, In(InSingle, value)) == Scan(closing, false, In(InSingle, value + text))
    decreases |text|
  {
    if text == "" {
      EmptyEnds(closing);
      EmptyEnds(value);
    } else {
      var c, rest := text[0], text[1..];
      assert text == [c] + rest;
      Assoc([c], rest, closing);
      Assoc(value, [c], rest);
      TakesOne(c, rest + closing, false, In(InSingle, value), In(InSingle, value + [c]));
      SingleScanned(rest, closing, value + [c]);
    }
  }

  lemma ItemScanned(item: Item, after: string, value: string)
    requires GoodItem(item)
    ensures
      Scan(RenderItem(item) + after, false, In(InDouble, value)) ==
        Scan(after, false, In(InDouble, value + ItemMeans(item)))
  {
    match item {
      case Char(c) =>
        TakesOne(c, after, false, In(InDouble, value), In(InDouble, value + [c]));
      case Escape(c) =>
        assert value + [] + [c] == value + [c];
        TakesTwo('\\', c, after, false, In(InDouble, value), In(InDouble, value + [c]));
      case Backslash(c) =>
        assert value + ['\\'] + [c] == value + ['\\', c];
        TakesTwo('\\', c, after, false, In(InDouble, value), In(InDouble, value + ['\\', c]));
    }
  }

  lemma {:induction false} DoubleScanned(items: seq<Item>, closing: string, value: string)
    requires GoodItems(items)
    ensures
      Scan(RenderItems(items) + closing, false, In(InDouble, value)) ==
      Scan(closing, false, In(InDouble, value + ItemsMean(items)))
    decreases |items|
  {
    if items == [] {
      EmptyEnds(closing);
      EmptyEnds(value);
    } else {
      var first, rest := items[0], items[1..];
      Assoc(RenderItem(first), RenderItems(rest), closing);
      Assoc(value, ItemMeans(first), ItemsMean(rest));
      ItemScanned(first, RenderItems(rest) + closing, value);
      DoubleScanned(rest, closing, value + ItemMeans(first));
    }
  }

  lemma {:induction false} TailScanned(tail: string, atStart: bool, ended: bool, value: string)
    requires IsTail(tail)
    ensures Scan(tail, atStart, Scanning(Unquoted, ended, true, value)) == Scanned(Some(value), CommentOf(tail))
    decreases |tail|
  {
    if tail != "" {
      if IsTail(tail[1..]) {
        TailScanned(tail[1..], false, true, value);
      }
    }
  }

  lemma PieceScanned(piece: Piece, after: string, atStart: bool, value: string)
    requires GoodPiece(piece) && !(atStart && piece == Plain('#'))
    ensures
      Scan(RenderPiece(piece) + after, atStart, In(Unquoted, value)) ==
      Scan(after, false, In(Unquoted, value + PieceMeans(piece)))
  {
    match piece {
      case Plain(c) =>
        TakesOne(c, after, atStart, In(Unquoted, value), In(Unquoted, value + [c]));
      case Escaped(c) =>
        assert value + [] + [c] == value + [c];
        TakesTwo('\\', c, after, atStart, In(Unquoted, value), In(Unquoted, value + [c]));
      case Single(text) =>
        Assoc(['\''] + text, ['\''], after);
        Assoc(['\''], text, ['\''] + after);
        TakesOne('\'', text + (['\''] + after), atStart, In(Unquoted, value), In(InSingle, value));
        SingleScanned(text, ['\''] + after, value);
        TakesOne('\'', after, false, In(InSingle, value + text), In(Unquoted, value + text));
      case Double(items) =>
        Assoc(['"'] + RenderItems(items), ['"'], after);
        Assoc(['"'], RenderItems(items), ['"'] + after);
        TakesOne('"', RenderItems(items) + (['"'] + after), atStart, In(Unquoted, value), In(InDouble, value));
        DoubleScanned(items, ['"'] + after, value);
        TakesOne('"', after, false, In(InDouble, value + ItemsMean(items)), In(Unquoted, value + ItemsMean(items)));
    }
  }

  lemma {:induction false} WordScanned(word: seq<Piece>, tail: string, atStart: bool, value: string)
    requires GoodWord(word) && IsTail(tail)
    requires atStart && word != [] ==> word[0] != Plain('#')
    ensures Scan(Render(word) + tail, atStart, In(Unquoted, value)) ==
      Scanned(Some(value + Means(word)), CommentOf(tail))
    decreases |word|
  {
    if word == [] {
      EmptyEnds(tail);
      EmptyEnds(value);
      TailScanned(tail, atStart, false, value);
    } else {
      var first, rest := word[0], word[1..];
      Assoc(RenderPiece(first), Render(rest), tail);
      Assoc(value, PieceMeans(first), Means(rest));
      PieceScanned(first, Render(rest) + tail, atStart, value);
      WordScanned(rest, tail, false, value + PieceMeans(first));
    }
  }

  /******* And nothing else *******/

  lemma {:induction false} LiteralLost(rest: string, atStart: bool, st: Scanning)
    requires !st.literal
    ensures Scan(rest, atStart, st).value.None?
    decreases |rest|
  {
    if rest != "" {
      match Next(rest, atStart, st) {
        case Stop(_) =>
        case Go(taken, st') =>
          LiteralLost(rest[taken..], false, st');
      }
    }
  }

  /** A literal result keeps the state literal in every round. */
  lemma StaysLiteral(rest: string, atStart: bool, st: Scanning)
    requires rest != "" && Next(rest, atStart, st).Go? && Scan(rest, atStart, st).value.Some?
    ensures
      var m := Next(rest, atStart, st);
      m.st.literal && Scan(rest, atStart, st) == Scan(rest[m.taken..], false, m.st)
  {
    var m := Next(rest, atStart, st);
    if !m.st.literal {
      LiteralLost(rest[m.taken..], false, m.st);
    }
  }

  lemma {:induction false} ReadTail(rest: string, value: string)
    requires Scan(rest, false, Scanning(Unquoted, true, true, value)).value.Some?
    ensures (rest != "" && rest[0] == '#') || IsTail(rest)
    decreases |rest|
  {
    var st := Scanning(Unquoted, true, true, value);
    if rest != "" && Next(rest, false, st).Go? {
      StaysLiteral(rest, false, st);
      ReadTail(rest[1..], value);
    }
  }

  lemma {:induction false} ReadSingle(rest: string, value: string) returns (text: string, after: string)
    requires Scan(rest, false, In(InSingle, value)).value.Some?
    ensures rest == text + "'" + after && '\'' !in text && |after| < |rest|
    decreases |rest|
  {
    if rest[0] == '\'' {
      text, after := "", rest[1..];
    } else {
      text, after := ReadSingle(rest[1..], value + [rest[0]]);
      text := [rest[0]] + text;
      assert rest == [rest[0]] + rest[1..];
    }
  }

  lemma ItemsExtended(item: Item, items: seq<Item>, after: string)
    requires GoodItem(item) && GoodItems(items)
    ensures RenderItem(item) + (RenderItems(items) + "\"" + after) == RenderItems([item] + items) + "\"" + after
    ensures GoodItems([item] + items)
  {
    assert ([item] + items)[1..] == items;
  }

  lemma {:induction false} ReadDouble(rest: string, value: string) returns (items: seq<Item>, after: string)
    requires Scan(rest, false, In(InDouble, value)).value.Some?
    ensures rest == RenderItems(items) + "\"" + after && GoodItems(items) && |after| < |rest|
    decreases |rest|
  {
    StaysLiteral(rest, false, In(InDouble, value));
    var m := Next(rest, false, In(InDouble, value));
    if rest[0] == '"' {
      items, after := [], rest[1..];
      assert RenderItems(items) + "\"" + after == rest;
    } else {
      items, after := ReadDouble(rest[m.taken..], m.st.value);
      var item :=
        if rest[0] != '\\' then Char(rest[0]) else if rest[1] in ESCAPABLE then Escape(rest[1]) else Backslash(rest[1]);
      assert rest == RenderItem(item) + rest[m.taken..];
      ItemsExtended(item, items, after);
      items := [item] + items;
    }
  }

  lemma ReadingExtended(piece: Piece, after: string, word: seq<Piece>, tail: string)
    requires GoodPiece(piece) && IsReading(after, word, tail)
    ensures IsReading(RenderPiece(piece) + after, [piece] + word, tail)
  {
    assert ([piece] + word)[1..] == word;
    assert RenderPiece(piece) + (Render(word) + tail) == (RenderPiece(piece) + Render(word)) + tail;
  }

  /** A literal rest is a word and a tail. */
  lemma {:induction false} ReadWord(rest: string, atStart: bool, value: string) returns (word: seq<Piece>, tail: string)
    requires Scan(rest, atStart, In(Unquoted, value)).value.Some?
    requires !(atStart && rest != "" && rest[0] == '#')
    ensures IsReading(rest, word, tail)
    decreases |rest|
  {
    if rest == "" || IsBlank(rest[0]) {
      word, tail := [], rest;
      if rest != "" {
        ReadTail(rest[1..], value);
      }
      assert Render([]) + rest == rest;
    } else {
      var piece, after := ReadPiece(rest, atStart, value);
      PieceScanned(piece, after, atStart, value);
      word, tail := ReadWord(after, false, value + PieceMeans(piece));
      ReadingExtended(piece, after, word, tail);
      word := [piece] + word;
    }
  }

  lemma ReadPiece(rest: string, atStart: bool, value: string) returns (piece: Piece, after: string)
    requires rest != "" && !IsBlank(rest[0]) && !(atStart && rest[0] == '#')
    requires Scan(rest, atStart, In(Unquoted, value)).value.Some?
    ensures GoodPiece(piece) && rest == RenderPiece(piece) + after && |after| < |rest| &&
      !(atStart && piece == Plain('#'))
  {
    var c := rest[0];
    StaysLiteral(rest, atStart, In(Unquoted, value));
    assert c != '\\' ==> rest == [c] + rest[1..];
    if c == '\\' {
      piece, after := Escaped(rest[1]), rest[2..];
      assert rest == [c, rest[1]] + rest[2..];
    } else if c == '\'' {
      var text, more := ReadSingle(rest[1..], value);
      piece, after := Single(text), more;
    } else if c == '"' {
      var items, more := ReadDouble(rest[1..], value);
      piece, after := Double(items), more;
    } else {
      piece, after := Plain(c), rest[1..];
    }
  }

  /**
   Unless the body begins with a number sign, the automaton calls a body literal with value v exactly when the body is
   a word of quoted pieces that means v, followed by blanks and perhaps a comment.
   */
  lemma LiteralIff(body: string, v: string)
    requires IsBody(body) && (body == "" || body[0] != '#')
    ensures ParseBody(body).value == Some(v) <==> exists word, tail :: IsReading(body, word, tail) && Means(word) == v
  {
    if ParseBody(body).value.Some? {
      var word, tail := ReadWord(body, true, "");
      ReadingScanned(body, word, tail);
      assert IsReading(body, word, tail);
    }
    forall word, tail | IsReading(body, word, tail) && Means(word) == v ensures ParseBody(body).value == Some(v) {
      ReadingScanned(body, word, tail);
    }
  }

  lemma ReadingScanned(body: string, word: seq<Piece>, tail: string)
    requires IsReading(body, word, tail) && (body == "" || body[0] != '#')
    ensures ParseBody(body) == Scanned(Some(Means(word)), CommentOf(tail))
  {
    if word != [] {
      assert Render(word) == RenderPiece(word[0]) + Render(word[1..]);
      assert body[0] == RenderPiece(word[0])[0];
    }
    WordScanned(word, tail, true, "");
    assert "" + Means(word) == Means(word);
  }

  /**
   A body that begins with a number sign is always taken as a comment behind an empty value, while whatever the shell
   reads of it is a word that begins with the number sign.
   */
  lemma HashIsComment(body: string)
    requires body != "" && body[0] == '#'
    ensures ParseBody(body) == Scanned(Some(""), body)
    ensures forall word, tail :: IsReading(body, word, tail) ==> Means(word) != "" && Means(word)[0] == '#'
  {
    forall word, tail | IsReading(body, word, tail) ensures Means(word) != "" && Means(word)[0] == '#' {
      assert word == [] ==> body == tail;
      if word != [] {
        assert Render(word) == RenderPiece(word[0]) + Render(word[1..]);
        assert body[0] == RenderPiece(word[0])[0];
        assert word[0] == Plain('#');
      }
    }
  }

  /** The shell does read such a word, for instance when all its characters stand for themselves. */
  lemma HashIsWord(text: string)
    requires forall c :: c in text ==> GoodPiece(Plain(c))
    ensures exists word :: IsReading("#" + text, word, "") && Means(word) == "#" + text
  {
    PlainWord("#" + text);
    assert IsReading("#" + text, Plains("#" + text), "");
  }

  function Plains(text: string): (word: seq<Piece>)
    ensures |word| == |text| && forall k :: 0 <= k < |text| ==> word[k] == Plain(text[k])
  {
    seq(|text|, k requires 0 <= k < |text| => Plain(text[k]))
  }

  lemma {:induction false} PlainWord(text: string)
    ensures Render(Plains(text)) == text && Means(Plains(text)) == text
    ensures Render(Plains(text)) + "" == text
  {
    if text != "" {
      PlainWord(text[1..]);
      assert Plains(text)[1..] == Plains(text[1..]);
      assert text == [text[0]] + text[1..];
    }
  }

  /** A text can be written on one line so that it is read back exactly when it has no line feed. */
  lemma WritableIff(text: string)
    ensures (exists body :: IsBody(body) && ParseBody(body).value == Some(text)) <==> '\n' !in text
  {
    if '\n' !in text {
      QuotedReadBack(text);
      assert IsBody(QuotedBody(text)) && ParseBody(QuotedBody(text)).value == Some(text);
    } else {
      forall body | IsBody(body) ensures ParseBody(body).value != Some(text) {
        NoFeedRead(body);
      }
    }
  }

  lemma NoFeedRead(body: string)
    requires '\n' !in body
    ensures ParseBody(body).value.Some? ==> '\n' !in ParseBody(body).value.value
  {
    if ParseBody(body).value.Some? && '\n' in ParseBody(body).value.value {
      ValueFromBody(body, true, START, '\n');
    }
  }

  /** Every character of a value stands in the body. */
  lemma {:induction false} ValueFromBody(rest: string, atStart: bool, st: Scanning, c: char)
    requires Scan(rest, atStart, st).value.Some? && c in Scan(rest, atStart, st).value.value
    ensures c in st.value || c in rest
    decreases |rest|
  {
    if rest != "" && Next(rest, atStart, st).Go? {
      var m := Next(rest, atStart, st);
      ValueFromBody(rest[m.taken..], false, m.st, c);
    }
  }

  function Quoted(text: string): (items: seq<Item>)
    ensures |items| == |text|
    ensures forall k :: 0 <= k < |text| ==> items[k] == if text[k] in ESCAPABLE then Escape(text[k]) else Char(text[k])
  {
    seq(|text|, k requires 0 <= k < |text| => if text[k] in ESCAPABLE then Escape(text[k]) else Char(text[k]))
  }

  lemma {:induction false} QuotedItems(text: string)
    requires '\n' !in text
    ensures ItemsMean(Quoted(text)) == text && '\n' !in RenderItems(Quoted(text))
  {
    if text != "" {
      QuotedItems(text[1..]);
      assert Quoted(text)[1..] == Quoted(text[1..]);
      assert text == [text[0]] + text[1..];
    }
  }

  function QuotedBody(text: string): string { "\"" + RenderItems(Quoted(text)) + "\"" }

  lemma QuotedReadBack(text: string)
    requires '\n' !in text
    ensures IsBody(QuotedBody(text)) && ParseBody(QuotedBody(text)).value == Some(text)
  {
    QuotedItems(text);
    EmptyEnds(QuotedBody(text));
    EmptyEnds(text);
    PieceScanned(Double(Quoted(text)), "", true, "");
  }

  /******* One character *******/

  lemma OperatorIff(c: char)
    ensures c in OPERATORS <==> c in {'$', '`', ';', '|', '&', '(', ')', '<', '>'}
  {
    var s := OPERATORS;
    assert s[0] == '$' && s[1] == '`' && s[2] == ';' && s[3] == '|' && s[4] == '&';
    assert s[5] == '(' && s[6] == ')' && s[7] == '<' && s[8] == '>' && |s| == 9;
  }

  lemma EscapableIff(c: char)
    ensures c in ESCAPABLE <==> c in {'\\', '"', '$', '`'}
  {
    var s := ESCAPABLE;
    assert s[0] == '\\' && s[1] == '"' && s[2] == '$' && s[3] == '`' && |s| == 4;
  }

  /** One move that takes all that is left ends the scan. */
  lemma EndsAfter(rest: string, atStart: bool, st: Scanning, st': Scanning)
    requires rest != "" && Next(rest, atStart, st) == Go(|rest|, st')
    ensures Scan(rest, atStart, st) == Finish(st', "")
  {
    assert rest[|rest|..] == "";
  }

  /** A character alone stands for itself exactly when it is no blank, no quote, no number sign and no operator. */
  lemma OneCharacterIff(c: char)
    ensures ParseBody([c]).value == Some([c]) <==>
      c !in {' ', '\t', '\\', '\'', '"', '#', '$', '`', ';', '|', '&', '(', ')', '<', '>'}
  {
    OperatorIff(c);
    EmptyEnds([c]);
    var m := Next([c], true, START);
    if m.Go? {
      EndsAfter([c], true, START, m.st);
    }
  }

  /** Behind a word exactly a space or a tab is passed over. */
  lemma PassedOverIff(c: char)
    ensures ParseBody("a" + [c]).value == Some("a") <==> c == ' ' || c == '\t'
  {
    OperatorIff('a');
    var st := START.(value := "a");
    EmptyEnds("a");
    TakesOne('a', [c], true, START, st);
    var m := Next([c], false, st);
    if m.Go? {
      EndsAfter([c], false, st, m.st);
    }
  }

  /**
   Between double quotes a backslash is removed exactly before a backslash, a double quote, a dollar or a backquote.
   */
  lemma BackslashRemovedIff(c: char)
    ensures
      ParseBody("\"" + ("\\" + [c] + "\"")).value == Some(if c in {'\\', '"', '$', '`'} then [c] else ['\\', c])
  {
    EscapableIff(c);
    var start, value := START.(quote := InDouble), if c in ESCAPABLE then [c] else ['\\', c];
    TakesOne('"', "\\" + [c] + "\"", true, START, start);
    assert "\\" + [c] + "\"" == ['\\', c] + "\"";
    TakesTwo('\\', c, "\"", false, start, start.(value := value));
    EndsAfter("\"", false, start.(value := value), START.(value := value));
  }
}
