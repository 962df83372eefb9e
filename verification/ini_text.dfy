/** The bytes of INI lines, and how lines are told apart again. */
module IniText {
  import opened Bytes
  import opened Document
  import opened Ini
  import opened JsonPrint
  import opened Options
  import opened Sequences
  import JS = JsonString
  import JsonGrammar

  const NEWLINE: byte := 0x0A
  const EQUALS: byte := 0x3D
  const SPACE: byte := 0x20
  const OPEN: byte := 0x5B
  const CLOSE: byte := 0x5D

  // ----- strings -----

  /** The letter behind a backslash, for the bytes that have one. */
  function Letter(b: byte): (r: Option<byte>) {
    if b == JS.BACKSLASH then Some(JS.BACKSLASH)
    else if b == JS.QUOTE then Some(JS.QUOTE)
    else if b == NEWLINE then Some(0x6E)
    else if b == 0x0D then Some(0x72)
    else if b == 0x09 then Some(0x74)
    else None
  }

  function EscapeByte(b: byte): (text: seq<byte>) {
    if Letter(b).Some? then [JS.BACKSLASH, Letter(b).value]
    else if b < 0x20 then [JS.BACKSLASH, 0x78, JS.HexDigit(b / 16), JS.HexDigit(b % 16)]
    else [b]
  }

  function EscapeBytes(s: Str): (text: seq<byte>) {
    if s == [] then [] else EscapeBytes(s[..|s| - 1]) + EscapeByte(s[|s| - 1])
  }

  function Escaped(s: Str): (text: seq<byte>) {
    [JS.QUOTE] + EscapeBytes(s) + [JS.QUOTE]
  }

  /** The byte that a letter behind a backslash stands for. */
  function Unletter(b: byte): (r: Option<byte>) {
    if b == 0x5C || b == 0x22 then Some(b)
    else if b == 0x6E then Some(0x0A)
    else if b == 0x72 then Some(0x0D)
    else if b == 0x74 then Some(0x09)
    else None
  }

  /** Undoes the escaping of everything from `i` up to the closing quote, which must be the last byte. */
  function Unescape(text: seq<byte>, i: nat): (s: Option<Str>)
    requires i <= |text|
    decreases |text| - i
  {
    if i == |text| then None
    else if text[i] == 0x22 then (if i + 1 == |text| then Some([]) else None)
    else if text[i] != 0x5C then Prepend(text[i], Unescape(text, i + 1))
    else if i + 1 < |text| && Unletter(text[i + 1]).Some? then Prepend(Unletter(text[i + 1]).value, Unescape(text, i + 2))
    else if i + 3 < |text| && text[i + 1] == 0x78 then
      var a, b := JsonGrammar.HexValue(text[i + 2]), JsonGrammar.HexValue(text[i + 3]);
      if a.None? || b.None? then None else Prepend(a.value * 16 + b.value, Unescape(text, i + 4))
    else None
  }

  function Prepend(b: byte, s: Option<Str>): (r: Option<Str>) {
    match s
    case None => None
    case Some(rest) => Some([b] + rest)
  }

  lemma ByteUnescapes(text: seq<byte>, i: nat, b: byte)
    requires At(text, i, EscapeByte(b)) && i + |EscapeByte(b)| < |text|
    ensures Unescape(text, i) == Prepend(b, Unescape(text, i + |EscapeByte(b)|))
  {
    hide JS.HexDigit, JsonGrammar.HexValue;
    var e := EscapeByte(b);
    var piece := text[i..i + |e|];
    assert piece[0] == text[i];
    if Letter(b).Some? {
      assert piece[1] == text[i + 1];
    } else if b < 0x20 {
      assert piece[1] == text[i + 1] && piece[2] == text[i + 2] && piece[3] == text[i + 3];
      JsonGrammar.HexDigitReads(b / 16);
      JsonGrammar.HexDigitReads(b % 16);
    }
  }

  lemma {:induction false} BytesUnescape(text: seq<byte>, i: nat, s: Str, rest: Str)
    requires At(text, i, EscapeBytes(s)) && i + |EscapeBytes(s)| < |text|
    requires Unescape(text, i + |EscapeBytes(s)|) == Some(rest)
    ensures Unescape(text, i) == Some(s + rest)
    decreases |s|
  {
    hide EscapeByte, Unescape;
    if s == [] {
      assert s + rest == rest;
    } else {
      var init, last := s[..|s| - 1], s[|s| - 1];
      AtTwo(text, i, EscapeBytes(init), EscapeByte(last));
      ByteUnescapes(text, i + |EscapeBytes(init)|, last);
      BytesUnescape(text, i, init, [last] + rest);
      assert s + rest == init + ([last] + rest);
    }
  }

  /** Escaping is invertible, for any bytes. */
  lemma EscapedUnescapes(s: Str)
    ensures Unescape(Escaped(s), 1) == Some(s)
  {
    hide EscapeBytes;
    var text := Escaped(s);
    assert At(text, 1, EscapeBytes(s)) && text[1 + |EscapeBytes(s)|] == JS.QUOTE;
    BytesUnescape(text, 1, s, []);
    assert s + [] == s;
  }

  /** Which bytes are escaped, and as what: backslash, quote, newline, carriage return, tab, other control bytes in two capital hex digits. */
  lemma EscapeTable(b: byte)
    ensures EscapeByte(b) ==
      if b == 0x5C then [0x5C, 0x5C]
      else if b == 0x22 then [0x5C, 0x22]
      else if b == 0x0A then [0x5C, 0x6E]
      else if b == 0x0D then [0x5C, 0x72]
      else if b == 0x09 then [0x5C, 0x74]
      else if b < 0x10 then [0x5C, 0x78, 0x30, if b < 0x0A then 0x30 + b else 0x37 + b]
      else if b < 0x20 then [0x5C, 0x78, 0x31, if b < 0x1A then 0x20 + b else 0x27 + b]
      else [b]
  {
  }

  lemma {:induction false} EscapedHasNoNewline(s: Str)
    ensures NEWLINE !in EscapeBytes(s)
  {
    if s != [] {
      EscapedHasNoNewline(s[..|s| - 1]);
    }
  }

  /** Writes the quoted string, byte by byte. */
  method WriteEscaped(s: Str) returns (text: seq<byte>)
    ensures text == Escaped(s)
  {
    hide EscapeByte;
    text := [JS.QUOTE];
    assert s[..0] == [];
    for i := 0 to |s|
      invariant text == [JS.QUOTE] + EscapeBytes(s[..i])
    {
      assert s[..i + 1][..i] == s[..i];
      text := text + EscapeByte(s[i]);
    }
    assert s[..|s|] == s;
    text := text + [JS.QUOTE];
  }

  // ----- values -----

  /** What the text of a value tells: a string, or the bare word of anything else. */
  datatype Token = Quoted(s: Str) | Word(word: seq<byte>) | Garbled

  /** Null, and a float that is not finite, print as nothing. */
  function WordOf(v: Value, f: Numbers): (word: seq<byte>) {
    match v
    case Bool(b) => if b then JsonGrammar.TRUE_WORD else JsonGrammar.FALSE_WORD
    case Int64(i) => f.int64(i)
    case UInt64(u) => f.uint64(u)
    case Float64(bits) => if IsFinite(bits) then f.float64(bits) else []
    case _ => []
  }

  function TokenOf(v: Value, f: Numbers): (t: Token) {
    if v.String? then Quoted(v.s) else Word(WordOf(v, f))
  }

  function ValueText(v: Value, f: Numbers): (text: seq<byte>) {
    if v.String? then Escaped(v.s) else WordOf(v, f)
  }

  function ReadToken(text: seq<byte>): (t: Token) {
    if text == [] || text[0] != 0x22 then Word(text)
    else
      match Unescape(text, 1)
      case Some(s) => Quoted(s)
      case None => Garbled
  }

  lemma WordIsPlain(v: Value, f: Numbers)
    requires NumbersOk(f) && !v.String?
    ensures NEWLINE !in WordOf(v, f) && (WordOf(v, f) != [] ==> WordOf(v, f)[0] != JS.QUOTE)
  {
    var token := WordOf(v, f);
    if v.Int64? || v.UInt64? || (v.Float64? && IsFinite(v.bits)) {
      assert JsonGrammar.IsNumber(token);
      forall k | 0 <= k < |token|
        ensures JsonGrammar.IsNumberByte(token[k])
      {
        JsonGrammar.NumberBytes(token, k);
      }
    }
  }

  lemma TokenReads(v: Value, f: Numbers)
    requires NumbersOk(f)
    ensures ReadToken(ValueText(v, f)) == TokenOf(v, f) && NEWLINE !in ValueText(v, f)
  {
    hide WordOf, EscapeBytes, Unescape, NumbersOk;
    if v.String? {
      EscapedUnescapes(v.s);
      EscapedHasNoNewline(v.s);
    } else {
      WordIsPlain(v, f);
    }
  }

  // ----- lines -----

  function LineText(line: Line, f: Numbers): (text: seq<byte>) {
    match line
    case Section(path) => [OPEN] + path + [CLOSE]
    case Setting(key, value) => key + ([SPACE, EQUALS, SPACE] + ValueText(value, f))
    case Item(key, value) => key + ([OPEN, CLOSE, EQUALS] + ValueText(value, f))
    case Blank => []
  }

  function Text(lines: seq<Line>, f: Numbers): (text: seq<byte>) {
    if lines == [] then [] else Text(lines[..|lines| - 1], f) + (LineText(lines[|lines| - 1], f) + [NEWLINE])
  }

  /** A line as it is read. */
  datatype RawLine =
    | RawSection(path: Str) | RawSetting(key: Str, token: Token) | RawItem(key: Str, token: Token) | RawBlank | RawGarbled

  function Raw(line: Line, f: Numbers): (r: RawLine) {
    match line
    case Section(path) => RawSection(path)
    case Setting(key, value) => RawSetting(key, TokenOf(value, f))
    case Item(key, value) => RawItem(key, TokenOf(value, f))
    case Blank => RawBlank
  }

  function RawLines(lines: seq<Line>, f: Numbers): (rs: seq<RawLine>) {
    if lines == [] then [] else RawLines(lines[..|lines| - 1], f) + [Raw(lines[|lines| - 1], f)]
  }

  function FirstEquals(text: seq<byte>, i: nat): (e: nat)
    requires i <= |text|
    ensures i <= e <= |text|
    decreases |text| - i
  {
    if i == |text| || text[i] == 0x3D then i else FirstEquals(text, i + 1)
  }

  /**
   * The first equals sign divides key and value: with a space on either side in a setting, behind "[]" in an item. Without
   * one a line is empty, or a path in brackets.
   */
  function ReadLine(text: seq<byte>): (r: RawLine) {
    var e := FirstEquals(text, 0);
    if text == [] then RawBlank
    else if e == |text| then
      if |text| >= 2 && text[0] == 0x5B && text[|text| - 1] == 0x5D then RawSection(text[1..|text| - 1]) else RawGarbled
    else if e >= 2 && text[e - 2] == 0x5B && text[e - 1] == 0x5D then RawItem(text[..e - 2], ReadToken(text[e + 1..]))
    else if e >= 1 && e + 1 < |text| && text[e - 1] == 0x20 && text[e + 1] == 0x20 then
      RawSetting(text[..e - 1], ReadToken(text[e + 2..]))
    else RawGarbled
  }

  /** The lines of a text, each up to its newline. */
  function ReadText(text: seq<byte>): (rs: seq<RawLine>)
    decreases |text|
  {
    if text == [] || text[|text| - 1] != 0x0A then []
    else
      var body := text[..|text| - 1];
      var start := LineStart(body, |body|);
      ReadText(body[..start]) + [ReadLine(body[start..])]
  }

  /** Where the line that ends at `end` starts: behind the newline before it, or at the beginning. */
  function LineStart(text: seq<byte>, end: nat): (start: nat)
    requires end <= |text|
    ensures start <= end
    decreases end
  {
    if end == 0 || text[end - 1] == 0x0A then end else LineStart(text, end - 1)
  }

  // ----- when reading is the inverse of writing -----

  /** The key or path a line shows. */
  function Shown(line: Line): (key: Str) {
    match line
    case Section(path) => path
    case Setting(key, _) => key
    case Item(key, _) => key
    case Blank => []
  }

  /** A line that its text tells: its key or path holds no newline and no equals sign. */
  predicate Tellable(line: Line) {
    NEWLINE !in Shown(line) && EQUALS !in Shown(line)
  }

  lemma {:induction false} EqualsAt(text: seq<byte>, i: nat, e: nat)
    requires i <= e <= |text| && (forall k :: i <= k < e ==> text[k] != EQUALS) && (e < |text| ==> text[e] == EQUALS)
    ensures FirstEquals(text, i) == e
    decreases e - i
  {
    if i < e {
      EqualsAt(text, i + 1, e);
    }
  }

  /** An equals sign in the key comes before the one that should divide. */
  lemma {:induction false} EqualsBefore(text: seq<byte>, i: nat, e: nat)
    requires i <= e < |text| && text[e] == EQUALS
    ensures FirstEquals(text, i) <= e
    decreases e - i
  {
    if i < e {
      EqualsBefore(text, i + 1, e);
    }
  }

  lemma NewlineInKey(line: Line, f: Numbers)
    requires NumbersOk(f)
    ensures NEWLINE in LineText(line, f) <==> NEWLINE in Shown(line)
  {
    hide ValueText, NumbersOk;
    match line
    case Section(_) =>
    case Setting(_, value) => TokenReads(value, f);
    case Item(_, value) => TokenReads(value, f);
    case Blank =>
  }

  /** A line is read back exactly when its key holds no equals sign. */
  lemma LineReads(line: Line, f: Numbers)
    requires NumbersOk(f)
    ensures ReadLine(LineText(line, f)) == Raw(line, f) <==> EQUALS !in Shown(line)
  {
    hide ValueText, NumbersOk, FirstEquals;
    var text, key := LineText(line, f), Shown(line);
    if EQUALS in key {
      var e :| 0 <= e < |key| && key[e] == EQUALS;
      EqualsBefore(text, 0, if line.Section? then e + 1 else e);
    } else {
      PlainLineReads(line, f);
    }
  }

  lemma PlainLineReads(line: Line, f: Numbers)
    requires NumbersOk(f) && EQUALS !in Shown(line)
    ensures ReadLine(LineText(line, f)) == Raw(line, f)
  {
    hide FirstEquals, ValueText, ReadToken, NumbersOk, TokenOf;
    var text := LineText(line, f);
    match line
    case Section(path) =>
      EqualsAt(text, 0, |text|);
      assert text[1..|text| - 1] == path;
    case Setting(key, value) =>
      TokenReads(value, f);
      EqualsAt(text, 0, |key| + 1);
      assert text[..|key|] == key && text[|key| + 3..] == ValueText(value, f);
    case Item(key, value) =>
      TokenReads(value, f);
      EqualsAt(text, 0, |key| + 2);
      assert text[..|key|] == key && text[|key| + 3..] == ValueText(value, f);
    case Blank => EqualsAt(text, 0, 0);
  }

  lemma {:induction false} StartsAt(text: seq<byte>, start: nat, end: nat)
    requires start <= end <= |text| && (start > 0 ==> text[start - 1] == NEWLINE)
    requires forall k :: start <= k < end ==> text[k] != NEWLINE
    ensures LineStart(text, end) == start
    decreases end
  {
    if start < end {
      StartsAt(text, start, end - 1);
    }
  }

  lemma {:induction false} NoNewlineFrom(text: seq<byte>, end: nat)
    requires end <= |text|
    ensures NEWLINE !in text[LineStart(text, end)..end]
    ensures LineStart(text, end) > 0 ==> text[LineStart(text, end) - 1] == NEWLINE
    decreases end
  {
    if end > 0 && text[end - 1] != NEWLINE {
      NoNewlineFrom(text, end - 1);
    }
  }

  function Newlines(text: seq<byte>): (n: nat) {
    if text == [] then 0 else Newlines(text[..|text| - 1]) + if text[|text| - 1] == NEWLINE then 1 else 0
  }

  lemma {:induction false} NewlinesConcat(a: seq<byte>, b: seq<byte>)
    ensures Newlines(a + b) == Newlines(a) + Newlines(b)
  {
    if b == [] {
      assert a + b == a;
    } else {
      assert (a + b)[..|a + b| - 1] == a + b[..|b| - 1];
      NewlinesConcat(a, b[..|b| - 1]);
    }
  }

  lemma {:induction false} NoNewlines(text: seq<byte>)
    ensures Newlines(text) == 0 <==> NEWLINE !in text
  {
    if text != [] {
      NoNewlines(text[..|text| - 1]);
      assert text == text[..|text| - 1] + [text[|text| - 1]];
    }
  }

  /** A line counts for its newline, and for those in it. */
  lemma LineCounts(before: seq<byte>, own: seq<byte>)
    ensures Newlines(before + (own + [NEWLINE])) == Newlines(before) + Newlines(own) + 1
  {
    NewlinesConcat(before, own + [NEWLINE]);
    NewlinesConcat(own, [NEWLINE]);
    assert [NEWLINE][..0] == [];
  }

  /** As many lines are read as there are newlines. */
  lemma {:induction false} ReadCounts(text: seq<byte>)
    requires text != [] ==> text[|text| - 1] == NEWLINE
    ensures |ReadText(text)| == Newlines(text)
    decreases |text|
  {
    hide ReadLine, LineStart, Newlines;
    if text == [] {
      NoNewlines(text);
    } else {
      var body := text[..|text| - 1];
      var start := LineStart(body, |body|);
      NoNewlineFrom(body, |body|);
      ReadCounts(body[..start]);
      assert body[start..|body|] == body[start..];
      assert text == body[..start] + (body[start..] + [NEWLINE]);
      LineCounts(body[..start], body[start..]);
      NoNewlines(body[start..]);
    }
  }

  lemma TextEnds(lines: seq<Line>, f: Numbers)
    ensures lines != [] ==> Text(lines, f) != [] && Text(lines, f)[|Text(lines, f)| - 1] == NEWLINE
    ensures lines == [] ==> Text(lines, f) == []
  {
  }

  /** A text has a newline for each line, and more when some key holds one. */
  lemma {:induction false} TextCounts(lines: seq<Line>, f: Numbers)
    requires NumbersOk(f)
    ensures Newlines(Text(lines, f)) >= |lines|
    ensures Newlines(Text(lines, f)) == |lines| <==> forall i :: 0 <= i < |lines| ==> NEWLINE !in Shown(lines[i])
  {
    hide LineText, NumbersOk, Shown, Newlines;
    if lines == [] {
      NoNewlines([]);
    } else {
      var n := |lines| - 1;
      TextCounts(lines[..n], f);
      NewlineInKey(lines[n], f);
      LineCounts(Text(lines[..n], f), LineText(lines[n], f));
      NoNewlines(LineText(lines[n], f));
      assert forall i :: 0 <= i < n ==> lines[..n][i] == lines[i];
    }
  }

  function ReadEach(lines: seq<Line>, f: Numbers): (rs: seq<RawLine>)
    ensures |rs| == |lines|
  {
    if lines == [] then [] else ReadEach(lines[..|lines| - 1], f) + [ReadLine(LineText(lines[|lines| - 1], f))]
  }

  /** Without newlines in keys, every line is read by itself. */
  lemma {:induction false} TextSplits(lines: seq<Line>, f: Numbers)
    requires NumbersOk(f) && forall i :: 0 <= i < |lines| ==> NEWLINE !in Shown(lines[i])
    ensures ReadText(Text(lines, f)) == ReadEach(lines, f)
  {
    hide LineText, ReadLine, Raw, NumbersOk, LineStart, Shown;
    if lines != [] {
      var n := |lines| - 1;
      var before, own := Text(lines[..n], f), LineText(lines[n], f);
      var text, body := Text(lines, f), before + own;
      TextSplits(lines[..n], f);
      NewlineInKey(lines[n], f);
      TextEnds(lines[..n], f);
      Associate(before, own, [NEWLINE]);
      assert text == body + [NEWLINE] && text[..|text| - 1] == body;
      forall k | |before| <= k < |body|
        ensures body[k] != NEWLINE
      {
        assert body[k] == own[k - |before|] && own[k - |before|] in own;
      }
      StartsAt(body, |before|, |body|);
      assert body[..|before|] == before && body[|before|..] == own;
    }
  }

  lemma {:induction false} EachReads(lines: seq<Line>, f: Numbers)
    requires NumbersOk(f)
    ensures ReadEach(lines, f) == RawLines(lines, f) <==> forall i :: 0 <= i < |lines| ==> EQUALS !in Shown(lines[i])
    ensures |RawLines(lines, f)| == |lines|
  {
    hide LineText, ReadLine, Raw, NumbersOk, Shown;
    if lines != [] {
      var n := |lines| - 1;
      EachReads(lines[..n], f);
      LineReads(lines[n], f);
      SameParts(ReadEach(lines[..n], f), [ReadLine(LineText(lines[n], f))], RawLines(lines[..n], f), [Raw(lines[n], f)]);
      assert forall i :: 0 <= i < n ==> lines[..n][i] == lines[i];
    }
  }

  /**
   * The text tells the lines: their bytes are read back as those lines, in order, with every string exactly and every
   * other value as its word, if and only if no key and no path holds a newline or an equals sign.
   */
  lemma TextReads(lines: seq<Line>, f: Numbers)
    requires NumbersOk(f)
    ensures ReadText(Text(lines, f)) == RawLines(lines, f) <==> forall i :: 0 <= i < |lines| ==> Tellable(lines[i])
  {
    hide Text, ReadText, RawLines, ReadEach, NumbersOk, Shown;
    TextEnds(lines, f);
    ReadCounts(Text(lines, f));
    TextCounts(lines, f);
    EachReads(lines, f);
    if forall i :: 0 <= i < |lines| ==> NEWLINE !in Shown(lines[i]) {
      TextSplits(lines, f);
    }
  }

  // ----- leaves, read from the bytes -----

  /** A leaf as its line tells it. */
  datatype RawLeaf = RawLeaf(section: Str, key: Str, token: Token, inArray: bool)

  function RawCurrent(rs: seq<RawLine>, section: Str): (now: Str) {
    if rs == [] then section
    else if rs[|rs| - 1].RawSection? then rs[|rs| - 1].path
    else RawCurrent(rs[..|rs| - 1], section)
  }

  function RawLeafOf(r: RawLine, section: Str): (leaves: seq<RawLeaf>) {
    match r
    case RawSetting(key, token) => [RawLeaf(section, key, token, false)]
    case RawItem(key, token) => [RawLeaf(section, key, token, true)]
    case _ => []
  }

  /** The leaves of lines that have been read, under a running section. */
  function ReadRaw(rs: seq<RawLine>, section: Str): (leaves: seq<RawLeaf>) {
    if rs == [] then []
    else
      var n := |rs| - 1;
      ReadRaw(rs[..n], section) + RawLeafOf(rs[n], RawCurrent(rs[..n], section))
  }

  function Tokens(leaves: seq<Leaf>, f: Numbers): (r: seq<RawLeaf>)
    ensures |r| == |leaves|
  {
    seq(|leaves|, i requires 0 <= i < |leaves| =>
      RawLeaf(leaves[i].section, leaves[i].key, TokenOf(leaves[i].value, f), leaves[i].inArray))
  }

  /** Raw lines have the leaves of the lines they tell. */
  lemma {:induction false} RawLeaves(lines: seq<Line>, section: Str, f: Numbers)
    ensures |RawLines(lines, f)| == |lines| && RawCurrent(RawLines(lines, f), section) == Current(lines, section)
    ensures ReadRaw(RawLines(lines, f), section) == Tokens(ReadLines(lines, section), f)
  {
    hide TokenOf;
    if lines != [] {
      var n := |lines| - 1;
      RawLeaves(lines[..n], section, f);
      var before, last := RawLines(lines[..n], f), Raw(lines[n], f);
      assert RawLines(lines, f)[..n] == before && RawLines(lines, f)[n] == last;
      LeafTokens(lines[n], Current(lines[..n], section), f);
      TokensConcat(ReadLines(lines[..n], section), LeafOf(lines[n], Current(lines[..n], section)), f);
    }
  }

  lemma LeafTokens(line: Line, section: Str, f: Numbers)
    ensures RawLeafOf(Raw(line, f), section) == Tokens(LeafOf(line, section), f)
  {
  }

  lemma TokensConcat(a: seq<Leaf>, b: seq<Leaf>, f: Numbers)
    ensures Tokens(a + b, f) == Tokens(a, f) + Tokens(b, f)
  {
    hide TokenOf;
  }

  // ----- what the leaves mean -----

  /** What a token says of a value: its own bytes, or the library's number. */
  ghost predicate Means(t: Token, v: Value, f: Numbers) {
    match v
    case Null => t == Word([])
    case Bool(b) => t == Word(if b then [0x74, 0x72, 0x75, 0x65] else [0x66, 0x61, 0x6C, 0x73, 0x65])
    case Int64(i) => t == Word(f.int64(i))
    case UInt64(u) => t == Word(f.uint64(u))
    case Float64(bits) => t == Word(if bits / 0x10_0000_0000_0000 % 0x800 == 0x7FF then [] else f.float64(bits))
    case String(s) => t == Quoted(s)
    case _ => false
  }

  ghost predicate LeafMeans(raw: RawLeaf, leaf: Leaf, f: Numbers) {
    raw.section == leaf.section && raw.key == leaf.key && raw.inArray == leaf.inArray && Means(raw.token, leaf.value, f)
  }

  /** The leaves that were read are these leaves, in order. */
  ghost predicate LeavesMean(raw: seq<RawLeaf>, leaves: seq<Leaf>, f: Numbers) {
    |raw| == |leaves| && forall i :: 0 <= i < |leaves| ==> LeafMeans(raw[i], leaves[i], f)
  }

  lemma TokenMeans(v: Value, f: Numbers)
    requires !v.IsContainer()
    ensures Means(TokenOf(v, f), v, f)
  {
  }

  lemma TokensMean(leaves: seq<Leaf>, f: Numbers)
    requires forall i :: 0 <= i < |leaves| ==> !leaves[i].value.IsContainer()
    ensures LeavesMean(Tokens(leaves, f), leaves, f)
  {
    hide TokenOf, Means;
    forall i | 0 <= i < |leaves|
      ensures LeafMeans(Tokens(leaves, f)[i], leaves[i], f)
    {
      TokenMeans(leaves[i].value, f);
    }
  }

  // ----- a key that is misread -----

  /** The key "a=b" is cut at its own equals sign, and the line is no line any more. */
  lemma MisreadKey(f: Numbers)
    ensures var line := Setting([0x61, EQUALS, 0x62], Null);
      && Text([line], f) == [0x61, EQUALS, 0x62, SPACE, EQUALS, SPACE, NEWLINE]
      && ReadText(Text([line], f)) == [RawGarbled] != RawLines([line], f)
  {
    var line := Setting([0x61, EQUALS, 0x62], Null);
    var body := [0x61, EQUALS, 0x62, SPACE, EQUALS, SPACE];
    assert [line][..0] == [];
    assert Text([line], f) == body + [NEWLINE];
    StartsAt(body, 0, 6);
    EqualsAt(body, 0, 1);
    assert (body + [NEWLINE])[..6] == body && body[..0] == [] && body[0..] == body;
    assert RawLines([line], f)[0] == Raw(line, f);
  }
}
