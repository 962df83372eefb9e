/** The layout of exported JSON: line breaks, indentation and spaces, told from the bytes by a reader of its own. */
module JsonLayout {
  import opened Bytes
  import opened Document
  import opened JsonGrammar
  import opened JsonPrint
  import opened Utf8
  import JS = JsonString
  import JsonRoundTrip

  // ----- the reader -----

  /**
   * Where the reader stands: in or behind a word, behind an opening bracket, a comma, a colon, the space behind a colon;
   * `spaces` spaces into the line of an item, or of a closing bracket; in a string, behind a backslash there; behind the
   * last newline; or at a fault.
   */
  datatype Mode = Plain | Opened | AfterComma | AfterColon | Spaced | Line(spaces: nat) | Last(spaces: nat) | Inside | Escaped | Ended | Wrong

  /** `depth` containers are open. */
  datatype Place = Place(depth: nat, mode: Mode)

  predicate IsClosing(b: byte) {
    b == 0x7D || b == 0x5D
  }

  /** The first byte of a value or a name. */
  function Begin(depth: nat, b: byte): (p: Place) {
    if b == 0x22 then Place(depth, Inside)
    else if b == 0x7B || b == 0x5B then Place(depth + 1, Opened)
    else if b <= 0x20 || IsClosing(b) || b == 0x2C || b == 0x3A then Place(depth, Wrong)
    else Place(depth, Plain)
  }

  function InString(p: Place, b: byte): (q: Place) {
    if b < 0x20 then Place(p.depth, Wrong)
    else if p.mode.Escaped? then Place(p.depth, Inside)
    else if b == 0x5C then Place(p.depth, Escaped)
    else if b == 0x22 then Place(p.depth, Plain)
    else p
  }

  /**
   * One byte more, with `n` spaces of indent. A line break comes behind an opening bracket that is not closed at once,
   * behind a comma, before a closing bracket, and at the very end; a line starts with `n` spaces for each container that is
   * open, one that is being closed not counted; one space stands behind a colon; no other space anywhere.
   */
  function Indented(p: Place, b: byte, n: nat): (q: Place) {
    match p.mode
    case Inside => InString(p, b)
    case Escaped => InString(p, b)
    case Plain =>
      if b == 0x2C then Place(p.depth, AfterComma)
      else if b == 0x3A then Place(p.depth, AfterColon)
      else if b == 0x0A then Place(p.depth, if p.depth == 0 then Ended else Last(0))
      else if b <= 0x20 || b == 0x22 || b == 0x7B || b == 0x5B || IsClosing(b) then Place(p.depth, Wrong)
      else p
    case Opened =>
      if IsClosing(b) && p.depth > 0 then Place(p.depth - 1, Plain)
      else if b == 0x0A then Place(p.depth, Line(0))
      else Place(p.depth, Wrong)
    case AfterComma => Place(p.depth, if b == 0x0A then Line(0) else Wrong)
    case AfterColon => Place(p.depth, if b == 0x20 then Spaced else Wrong)
    case Spaced => Begin(p.depth, b)
    case Line(spaces) =>
      if b == 0x20 then Place(p.depth, Line(spaces + 1))
      else if spaces == n * p.depth then Begin(p.depth, b)
      else Place(p.depth, Wrong)
    case Last(spaces) =>
      if b == 0x20 then Place(p.depth, Last(spaces + 1))
      else if IsClosing(b) && p.depth > 0 && spaces == n * (p.depth - 1) then Place(p.depth - 1, Plain)
      else Place(p.depth, Wrong)
    case Ended => Place(p.depth, Wrong)
    case Wrong => p
  }

  /** One byte more, without indent: no space and no line break outside strings. */
  function Compact(p: Place, b: byte): (q: Place) {
    match p.mode
    case Inside => InString(p, b)
    case Escaped => InString(p, b)
    case Plain =>
      if b == 0x22 then Place(p.depth, Inside)
      else if b == 0x7B || b == 0x5B then Place(p.depth + 1, Plain)
      else if IsClosing(b) then (if p.depth > 0 then Place(p.depth - 1, Plain) else Place(p.depth, Wrong))
      else if b <= 0x20 then Place(p.depth, Wrong)
      else p
    case _ => Place(p.depth, Wrong)
  }

  function Next(p: Place, b: byte, n: nat): (q: Place) {
    if n == 0 then Compact(p, b) else Indented(p, b, n)
  }

  function Run(text: seq<byte>, p: Place, n: nat): (q: Place) {
    if text == [] then p else Next(Run(text[..|text| - 1], p, n), text[|text| - 1], n)
  }

  lemma {:induction false} RunConcat(a: seq<byte>, b: seq<byte>, p: Place, n: nat)
    ensures Run(a + b, p, n) == Run(b, Run(a, p, n), n)
  {
    hide Next;
    if b == [] {
      assert a + b == a;
    } else {
      assert (a + b)[..|a + b| - 1] == a + b[..|b| - 1];
      RunConcat(a, b[..|b| - 1], p, n);
    }
  }

  lemma RunOne(b: byte, p: Place, n: nat)
    ensures Run([b], p, n) == Next(p, b, n) && Run([], p, n) == p
  {
    hide Next;
    assert [b][..0] == [];
  }

  // ----- words, numbers and strings -----

  /** A place where a value may begin. */
  predicate Ready(p: Place, n: nat) {
    if n == 0 then p.mode.Plain? else p.mode.Spaced? || (p.mode.Line? && p.mode.spaces == n * p.depth)
  }

  /** A byte of a number or of a word. */
  predicate IsWordByte(b: byte) {
    b > 0x20 && b != 0x22 && b != 0x2C && b != 0x3A && b != 0x7B && b != 0x5B && !IsClosing(b)
  }

  lemma {:induction false} WordRuns(text: seq<byte>, p: Place, n: nat)
    requires Ready(p, n) && text != [] && forall i :: 0 <= i < |text| ==> IsWordByte(text[i])
    ensures Run(text, p, n) == Place(p.depth, Plain)
  {
    var m := |text| - 1;
    if m == 0 {
      RunOne(text[0], p, n);
      assert text == [text[0]];
    } else {
      WordRuns(text[..m], p, n);
    }
  }

  lemma NumberRuns(token: seq<byte>, p: Place, n: nat)
    requires Ready(p, n) && IsNumber(token)
    ensures Run(token, p, n) == Place(p.depth, Plain)
  {
    hide IsNumber;
    JsonRoundTrip.NumberStart(token);
    forall i | 0 <= i < |token|
      ensures IsWordByte(token[i])
    {
      NumberByteAt(token, i);
    }
    WordRuns(token, p, n);
  }

  lemma NumberByteAt(token: seq<byte>, i: nat)
    requires IsNumber(token) && i < |token|
    ensures IsWordByte(token[i])
  {
    NumberBytes(token, i);
  }

  lemma {:induction false} StringBytesRun(text: seq<byte>, depth: nat, n: nat)
    requires forall i :: 0 <= i < |text| ==> text[i] >= 0x20 && text[i] != 0x22 && text[i] != 0x5C
    ensures Run(text, Place(depth, Inside), n) == Place(depth, Inside)
  {
    if text != [] {
      StringBytesRun(text[..|text| - 1], depth, n);
    }
  }

  /** A backslash, any byte from the space on, and plain bytes. */
  lemma EscapeRuns(text: seq<byte>, depth: nat, n: nat)
    requires |text| >= 2 && text[0] == 0x5C && text[1] >= 0x20
    requires forall i :: 2 <= i < |text| ==> text[i] >= 0x20 && text[i] != 0x22 && text[i] != 0x5C
    ensures Run(text, Place(depth, Inside), n) == Place(depth, Inside)
  {
    hide Run;
    var inside := Place(depth, Inside);
    assert text == ([text[0]] + [text[1]]) + text[2..];
    RunConcat([text[0]] + [text[1]], text[2..], inside, n);
    RunConcat([text[0]], [text[1]], inside, n);
    RunOne(text[0], inside, n);
    RunOne(text[1], Place(depth, Escaped), n);
    StringBytesRun(text[2..], depth, n);
  }

  lemma UnicodeRuns(c: nat, depth: nat, n: nat)
    requires c < 0x1_0000
    ensures Run(JS.Unicode(c), Place(depth, Inside), n) == Place(depth, Inside)
  {
    EscapeRuns(JS.Unicode(c), depth, n);
  }

  lemma CharRuns(c: Scalar, asciiOnly: bool, depth: nat, n: nat)
    ensures Run(JS.EscapeScalar(c, asciiOnly), Place(depth, Inside), n) == Place(depth, Inside)
  {
    hide JS.EscapeScalar, Run, JS.Unicode;
    var text := JS.EscapeScalar(c, asciiOnly);
    if c < 0x80 {
      JS.AsciiTable(c, asciiOnly);
      if text == [c] && c >= 0x20 && c != 0x22 && c != 0x5C {
        StringBytesRun(text, depth, n);
      } else if text == JS.Unicode(c) {
        UnicodeRuns(c, depth, n);
      } else {
        EscapeRuns(text, depth, n);
      }
    } else {
      WideRuns(c, asciiOnly, depth, n);
    }
  }

  lemma WideRuns(c: Scalar, asciiOnly: bool, depth: nat, n: nat)
    requires c >= 0x80
    ensures Run(JS.EscapeScalar(c, asciiOnly), Place(depth, Inside), n) == Place(depth, Inside)
  {
    hide JS.EscapeScalar, Run, JS.Unicode, Utf8.EncodeScalar;
    JS.WideTable(c, asciiOnly);
    if !asciiOnly {
      HighBytes(c);
      StringBytesRun(Utf8.EncodeScalar(c), depth, n);
    } else if c < 0x1_0000 {
      UnicodeRuns(c, depth, n);
    } else {
      var h, l := 0xD800 + (c - 0x1_0000) / 0x400, 0xDC00 + (c - 0x1_0000) % 0x400;
      UnicodeRuns(h, depth, n);
      UnicodeRuns(l, depth, n);
      RunConcat(JS.Unicode(h), JS.Unicode(l), Place(depth, Inside), n);
    }
  }

  lemma HighBytes(c: Scalar)
    requires c >= 0x80
    ensures forall i :: 0 <= i < |Utf8.EncodeScalar(c)| ==> Utf8.EncodeScalar(c)[i] >= 0x80
  {
  }

  lemma {:induction false} CharsRun(cs: seq<Scalar>, asciiOnly: bool, depth: nat, n: nat)
    ensures Run(JS.EscapeAll(cs, asciiOnly), Place(depth, Inside), n) == Place(depth, Inside)
    decreases |cs|
  {
    hide JS.EscapeScalar, Run;
    if cs == [] {
      RunOne(0, Place(depth, Inside), n);
    } else {
      CharRuns(cs[0], asciiOnly, depth, n);
      CharsRun(cs[1..], asciiOnly, depth, n);
      RunConcat(JS.EscapeScalar(cs[0], asciiOnly), JS.EscapeAll(cs[1..], asciiOnly), Place(depth, Inside), n);
    }
  }

  lemma StringRuns(s: Str, st: Style, p: Place)
    requires IsUtf8(s) && Ready(p, st.indentSpaces)
    ensures Run(StringText(s, st), p, st.indentSpaces) == Place(p.depth, Plain)
  {
    hide Run, JS.Quoted, JS.EscapeAll;
    var n := st.indentSpaces;
    var cs := Chars(s);
    JS.QuotedScalars(cs, st.asciiOnly);
    var body := JS.EscapeAll(cs, st.asciiOnly);
    assert StringText(s, st) == [0x22] + body + [0x22];
    RunConcat([0x22] + body, [0x22], p, n);
    RunConcat([0x22], body, p, n);
    RunOne(0x22, p, n);
    CharsRun(cs, st.asciiOnly, p.depth, n);
    RunOne(0x22, Place(p.depth, Inside), n);
  }

  lemma LeafRuns(v: Value, depth: nat, st: Style, p: Place)
    requires !v.IsContainer() && AllUtf8(v) && NumbersOk(st.numbers) && Ready(p, st.indentSpaces)
    ensures Run(Print(v, depth, st), p, st.indentSpaces) == Place(p.depth, Plain)
  {
    hide Run, IsNumber, FloatText, IsFinite, StringText, Ready;
    var n := st.indentSpaces;
    match v
    case Null => WordRuns(NULL_WORD, p, n);
    case Bool(b) => WordRuns(if b then TRUE_WORD else FALSE_WORD, p, n);
    case Int64(i) => NumberRuns(st.numbers.int64(i), p, n);
    case UInt64(u) => NumberRuns(st.numbers.uint64(u), p, n);
    case Float64(bits) =>
      if IsFinite(bits) {
        JsonRoundTrip.FloatIsNumber(bits, st.numbers);
        NumberRuns(FloatText(bits, st.numbers), p, n);
      } else {
        JsonRoundTrip.NotFinite(bits, st.numbers);
        WordRuns(NULL_WORD, p, n);
      }
    case String(s) => StringRuns(s, st, p);
  }

  // ----- containers -----

  lemma {:induction false} SpacesRun(k: nat, p: Place, n: nat)
    requires n > 0 && (p.mode.Line? || p.mode.Last?)
    ensures Run(Spaces(k), p, n) ==
      Place(p.depth, if p.mode.Line? then Line(p.mode.spaces + k) else Last(p.mode.spaces + k))
  {
    if k > 0 {
      SpacesRun(k - 1, p, n);
      assert Spaces(k)[..k - 1] == Spaces(k - 1);
    }
  }

  /** A newline and the indent. */
  lemma LineRuns(st: Style, depth: nat, p: Place)
    requires st.indentSpaces > 0 && (p.mode.Opened? || p.mode.AfterComma? || (p.mode.Plain? && p.depth > 0))
    ensures Run(Newline(st) + Indent(st, depth), p, st.indentSpaces) ==
      Place(p.depth, if p.mode.Plain? then Last(st.indentSpaces * depth) else Line(st.indentSpaces * depth))
  {
    hide Run;
    var n := st.indentSpaces;
    RunConcat(Newline(st), Indent(st, depth), p, n);
    RunOne(0x0A, p, n);
    SpacesRun(n * depth, Next(p, 0x0A, n), n);
  }

  lemma NoLine(st: Style, depth: nat)
    requires st.indentSpaces == 0
    ensures Newline(st) == [] && Indent(st, depth) == [] && Newline(st) + Indent(st, depth) == []
  {
    ZeroTimes(depth);
  }

  lemma ZeroTimes(depth: nat)
    ensures 0 * depth == 0
  {
  }

  /** Where the reader stands before item `k`'s separator. */
  function BeforeItem(k: nat, depth: nat, n: nat): (p: Place) {
    Place(depth, if n == 0 || k > 0 then Plain else Line(0))
  }

  lemma SeparatorRuns(st: Style, k: nat, depth: nat)
    ensures var n := st.indentSpaces; var p := Run(Separator(st, k, depth), BeforeItem(k, depth, n), n);
      p.depth == depth && Ready(p, n)
  {
    hide Run, Newline, Indent;
    var n := st.indentSpaces;
    var p := BeforeItem(k, depth, n);
    if n == 0 {
      NoLine(st, depth);
      RunOne(0x2C, p, n);
      assert Separator(st, k, depth) == if k == 0 then [] else [0x2C];
    } else if k == 0 {
      assert Separator(st, k, depth) == Spaces(n * depth) by { IndentIs(st, depth); }
      SpacesRun(n * depth, p, n);
    } else {
      assert Separator(st, k, depth) == [0x2C] + (Newline(st) + Indent(st, depth));
      RunConcat([0x2C], Newline(st) + Indent(st, depth), p, n);
      RunOne(0x2C, p, n);
      LineRuns(st, depth, Place(depth, AfterComma));
    }
  }

  lemma IndentIs(st: Style, depth: nat)
    ensures Separator(st, 0, depth) == Spaces(st.indentSpaces * depth)
  {
    assert [] + Indent(st, depth) == Indent(st, depth);
  }

  lemma ClosingRuns(st: Style, depth: nat, keyed: bool)
    requires depth > 0
    ensures Run(Closing(st, depth, keyed), Place(depth, Plain), st.indentSpaces) == Place(depth - 1, Plain)
  {
    hide Run, Newline, Indent;
    var n, b := st.indentSpaces, if keyed then 0x7D else 0x5D;
    if n == 0 {
      NoLine(st, depth - 1);
      assert Closing(st, depth, keyed) == [b];
      RunOne(b, Place(depth, Plain), n);
    } else {
      RunConcat(Newline(st) + Indent(st, depth - 1), [b], Place(depth, Plain), n);
      LineRuns(st, depth - 1, Place(depth, Plain));
      RunOne(b, Place(depth, Last(n * (depth - 1))), n);
    }
  }

  lemma {:induction false} ValueRuns(v: Value, depth: nat, st: Style, p: Place)
    requires AllUtf8(v) && NumbersOk(st.numbers) && Ready(p, st.indentSpaces) && p.depth == depth
    ensures Run(Print(v, depth, st), p, st.indentSpaces) == Place(depth, Plain)
    decreases v, 2
  {
    hide Run, PrintFrom, NumbersOk, KidsUtf8, Ready;
    if !v.IsContainer() {
      LeafRuns(v, depth, st, p);
    } else if v.kids == [] {
      EmptyRuns(v, depth, st, p);
    } else {
      OpeningRuns(v.Block?, st, p);
      var open: byte := if v.Block? then 0x7B else 0x5B;
      ItemsRun(v.kids, 0, depth + 1, v.Block?, st);
      RunConcat([open] + Newline(st), PrintFrom(v.kids, 0, depth + 1, v.Block?, st), p, st.indentSpaces);
    }
  }

  lemma EmptyRuns(v: Value, depth: nat, st: Style, p: Place)
    requires v.IsContainer() && v.kids == [] && Ready(p, st.indentSpaces)
    ensures Run(Print(v, depth, st), p, st.indentSpaces) == Place(p.depth, Plain)
  {
    hide Run;
    var n := st.indentSpaces;
    var open, close := if v.Block? then 0x7B else 0x5B, if v.Block? then 0x7D else 0x5D;
    assert Print(v, depth, st) == [open] + [close];
    RunConcat([open], [close], p, n);
    RunOne(open, p, n);
    RunOne(close, Next(p, open, n), n);
  }

  /** The opening bracket, and the newline behind it. */
  lemma OpeningRuns(keyed: bool, st: Style, p: Place)
    requires Ready(p, st.indentSpaces)
    ensures var open: byte := if keyed then 0x7B else 0x5B;
      Run([open] + Newline(st), p, st.indentSpaces) == BeforeItem(0, p.depth + 1, st.indentSpaces)
  {
    hide Run;
    var n := st.indentSpaces;
    var open: byte := if keyed then 0x7B else 0x5B;
    RunConcat([open], Newline(st), p, n);
    RunOne(open, p, n);
    RunOne(0x0A, Next(p, open, n), n);
  }

  lemma {:induction false} ItemsRun(kids: seq<Member>, k: nat, depth: nat, keyed: bool, st: Style)
    requires KidsUtf8(kids, keyed) && NumbersOk(st.numbers) && depth > 0 && kids != [] && k <= |kids|
    ensures Run(PrintFrom(kids, k, depth, keyed, st), BeforeItem(k, depth, st.indentSpaces), st.indentSpaces) == Place(depth - 1, Plain)
    decreases kids, 1, |kids| - k
  {
    hide Run, PrintItem, Separator, Closing, NumbersOk, KidsUtf8, Ready;
    var n := st.indentSpaces;
    if k == |kids| {
      ClosingRuns(st, depth, keyed);
    } else {
      var p := BeforeItem(k, depth, n);
      var separator, item, rest := Separator(st, k, depth), PrintItem(kids[k], depth, keyed, st), PrintFrom(kids, k + 1, depth, keyed, st);
      SeparatorRuns(st, k, depth);
      var q := Run(separator, p, n);
      ItemRuns(kids, k, depth, keyed, st, q);
      ItemsRun(kids, k + 1, depth, keyed, st);
      RunConcat(separator + item, rest, p, n);
      RunConcat(separator, item, p, n);
    }
  }

  lemma {:induction false} ItemRuns(kids: seq<Member>, k: nat, depth: nat, keyed: bool, st: Style, p: Place)
    requires k < |kids| && KidsUtf8(kids, keyed) && NumbersOk(st.numbers) && Ready(p, st.indentSpaces) && p.depth == depth
    ensures Run(PrintItem(kids[k], depth, keyed, st), p, st.indentSpaces) == Place(depth, Plain)
    decreases kids, 0
  {
    hide Run, Print, StringText, NumbersOk;
    var n, m := st.indentSpaces, kids[k];
    if keyed {
      var name, value := StringText(m.key, st), Print(m.value, depth, st);
      StringRuns(m.key, st, p);
      RunConcat(name + Colon(st), value, p, n);
      RunConcat(name, Colon(st), p, n);
      ColonRuns(st, depth);
      ValueRuns(m.value, depth, st, Run(Colon(st), Place(depth, Plain), n));
    } else {
      assert [] + Print(m.value, depth, st) == Print(m.value, depth, st);
      ValueRuns(m.value, depth, st, p);
    }
  }

  lemma ColonRuns(st: Style, depth: nat)
    ensures var p := Run(Colon(st), Place(depth, Plain), st.indentSpaces);
      p.depth == depth && Ready(p, st.indentSpaces)
  {
    hide Run;
    var n := st.indentSpaces;
    RunOne(0x3A, Place(depth, Plain), n);
    RunOne(0x20, Place(depth, AfterColon), n);
    RunConcat([0x3A], [0x20], Place(depth, Plain), n);
    assert [0x3A] + [0x20] == [0x3A, 0x20];
  }

  // ----- documents -----

  function Start(n: nat): (p: Place) {
    Place(0, if n == 0 then Plain else Line(0))
  }

  /** A whole text is laid out: from its first byte, as on an empty line, to its last newline; without indent in one piece. */
  predicate LaidOut(text: seq<byte>, n: nat) {
    Run(text, Start(n), n) == Place(0, if n == 0 then Plain else Ended)
  }

  /** Exported text is laid out, for every indent. */
  lemma DocumentLaidOut(doc: seq<Member>, st: Style)
    requires KidsUtf8(doc, true) && NumbersOk(st.numbers)
    ensures LaidOut(PrintDocument(doc, st), st.indentSpaces)
  {
    hide Run, Print, NumbersOk, KidsUtf8;
    var n := st.indentSpaces;
    var p := Start(n);
    assert AllUtf8(Block(doc));
    ValueRuns(Block(doc), 0, st, p);
    RunConcat(Print(Block(doc), 0, st), Newline(st), p, n);
    RunOne(0x0A, Place(0, Plain), n);
  }

  // ----- what that says of each line -----

  /** What a count of brackets outside strings knows. */
  datatype Count = Count(open: int, quoted: bool, escaped: bool)

  function Counted(text: seq<byte>): (c: Count) {
    if text == [] then Count(0, false, false)
    else
      var c, b := Counted(text[..|text| - 1]), text[|text| - 1];
      if c.escaped then c.(escaped := false)
      else if c.quoted then (if b == 0x5C then c.(escaped := true) else if b == 0x22 then c.(quoted := false) else c)
      else if b == 0x22 then c.(quoted := true)
      else if b == 0x7B || b == 0x5B then c.(open := c.open + 1)
      else if b == 0x7D || b == 0x5D then c.(open := c.open - 1)
      else c
  }

  /** The spaces from `i` on. */
  function SpacesAt(text: seq<byte>, i: nat): (k: nat)
    requires i <= |text|
    ensures i + k <= |text| && (i + k < |text| ==> text[i + k] != 0x20)
    decreases |text| - i
  {
    if i < |text| && text[i] == 0x20 then 1 + SpacesAt(text, i + 1) else 0
  }

  /** The line behind the newline at `i` has `n` spaces for each container open there, one that it closes not counted. */
  predicate LineIsIndented(text: seq<byte>, i: nat, n: nat)
    requires i < |text|
  {
    var k := SpacesAt(text, i + 1);
    i + 1 + k < |text| && k == n * (Counted(text[..i]).open - if IsClosing(text[i + 1 + k]) then 1 else 0)
  }

  predicate IsSpaces(text: seq<byte>, from: nat, to: nat) {
    to <= |text| && forall j :: from <= j < to ==> text[j] == 0x20
  }

  /** Between the newline at `j` and `i` there is nothing but spaces. */
  predicate StartsLine(text: seq<byte>, i: nat, j: nat) {
    j < i <= |text| && text[j] == 0x0A && IsSpaces(text, j + 1, i)
  }

  predicate Outside(text: seq<byte>, i: nat)
    requires i < |text|
  {
    !Counted(text[..i]).quoted
  }

  lemma {:induction false} WrongStays(text: seq<byte>, i: nat, n: nat)
    requires i <= |text| && !Run(text, Start(n), n).mode.Wrong?
    ensures !Run(text[..i], Start(n), n).mode.Wrong?
    decreases |text|
  {
    if i < |text| {
      WrongStays(text[..|text| - 1], i, n);
      assert text[..|text| - 1][..i] == text[..i];
    } else {
      assert text[..i] == text;
    }
  }

  /** What the bytes read so far say of the reader's place. */
  ghost predicate Agrees(text: seq<byte>, p: Place) {
    && Counted(text) == Count(p.depth, p.mode.Inside? || p.mode.Escaped?, p.mode.Escaped?)
    && (p.mode.Opened? ==> text != [] && (text[|text| - 1] == 0x7B || text[|text| - 1] == 0x5B))
    && (p.mode.Last? ==> p.mode.spaces < |text| && StartsLine(text, |text|, |text| - p.mode.spaces - 1))
  }

  lemma {:induction false} ReaderAgrees(text: seq<byte>, n: nat)
    requires !Run(text, Start(n), n).mode.Wrong?
    ensures Agrees(text, Run(text, Start(n), n))
  {
    if text != [] {
      var m := |text| - 1;
      assert !Run(text[..m], Start(n), n).mode.Wrong? by { assert text[..|text|] == text; WrongStays(text, m, n); }
      ReaderAgrees(text[..m], n);
      var p := Run(text[..m], Start(n), n);
      assert Run(text, Start(n), n) == Next(p, text[m], n);
    }
  }

  /** Behind a newline the reader counts the spaces. */
  lemma {:induction false} SpacesCounted(text: seq<byte>, i: nat, k: nat, n: nat)
    requires 0 < i && i + k <= |text| && IsSpaces(text, i, i + k) && n > 0
    requires var p := Run(text[..i], Start(n), n); p.mode == Line(0) || p.mode == Last(0)
    ensures var p := Run(text[..i], Start(n), n);
      Run(text[..i + k], Start(n), n) == Place(p.depth, if p.mode.Line? then Line(k) else Last(k))
  {
    if k > 0 {
      SpacesCounted(text, i, k - 1, n);
      assert text[..i + k][..i + k - 1] == text[..i + k - 1];
    }
  }

  lemma {:induction false} SpacesAtAre(text: seq<byte>, i: nat)
    requires i <= |text|
    ensures IsSpaces(text, i, i + SpacesAt(text, i))
    decreases |text| - i
  {
    if i < |text| && text[i] == 0x20 {
      SpacesAtAre(text, i + 1);
    }
  }

  predicate StepsTo(text: seq<byte>, i: nat, n: nat, p: Place)
    requires i < |text|
  {
    Run(text[..i + 1], Start(n), n) == Next(p, text[i], n) && !Next(p, text[i], n).mode.Wrong?
  }

  /** The reader's step at byte `i` of a text that is laid out. */
  lemma StepAt(text: seq<byte>, i: nat, n: nat)
    requires LaidOut(text, n) && i < |text|
    ensures var p := Run(text[..i], Start(n), n);
      Agrees(text[..i], p) && !p.mode.Wrong? && StepsTo(text, i, n, p)
  {
    hide Next, Agrees;
    WrongStays(text, i, n);
    WrongStays(text, i + 1, n);
    ReaderAgrees(text[..i], n);
    assert text[..i + 1][..i] == text[..i];
  }

  /** With an indent, every newline but the last is followed by its line's spaces and then something else. */
  lemma NewlinesIndent(text: seq<byte>, i: nat, n: nat)
    requires LaidOut(text, n) && n > 0 && i < |text| - 1 && text[i] == 0x0A
    ensures LineIsIndented(text, i, n)
  {
    hide Run, Counted;
    StepAt(text, i, n);
    StepAt(text, i + 1, n);
    var p := Run(text[..i + 1], Start(n), n);
    var k := SpacesAt(text, i + 1);
    assert !p.mode.Ended?;
    SpacesAtAre(text, i + 1);
    SpacesCounted(text, i + 1, k, n);
    assert text[..|text|] == text;
    if i + 1 + k < |text| {
      StepAt(text, i + 1 + k, n);
    }
  }

  /** Outside strings: a line ends behind every comma and every opening bracket that is not closed at once. */
  lemma ItemsStartLines(text: seq<byte>, i: nat, n: nat)
    requires LaidOut(text, n) && n > 0 && i < |text| && Outside(text, i)
    requires text[i] == 0x2C || ((text[i] == 0x7B || text[i] == 0x5B) && (i + 1 < |text| ==> !IsClosing(text[i + 1])))
    ensures i + 1 < |text| && text[i + 1] == 0x0A
  {
    hide Run, Counted;
    StepAt(text, i, n);
    assert text[..|text|] == text;
    if i + 1 < |text| {
      StepAt(text, i + 1, n);
    }
  }

  /** Outside strings: a closing bracket starts a line or closes what was just opened. */
  lemma ClosersStartLines(text: seq<byte>, i: nat, n: nat)
    requires LaidOut(text, n) && n > 0 && i < |text| && Outside(text, i) && IsClosing(text[i])
    ensures (i > 0 && (text[i - 1] == 0x7B || text[i - 1] == 0x5B)) || exists j: nat :: StartsLine(text, i, j)
  {
    hide Run, Counted;
    StepAt(text, i, n);
    var p := Run(text[..i], Start(n), n);
    if p.mode.Last? {
      assert StartsLine(text, i, i - p.mode.spaces - 1);
    }
  }

  /** Without indent there is no white space outside strings. */
  lemma NothingBlank(text: seq<byte>, i: nat)
    requires LaidOut(text, 0) && i < |text| && Outside(text, i)
    ensures text[i] > 0x20
  {
    hide Run, Counted;
    StepAt(text, i, 0);
  }
}
