/** JSON texts as sections 2 to 7 of RFC 8259 read them. */
module JsonGrammar {
  import opened Bytes
  import opened Options
  import opened Utf8
  import JS = JsonString

  // ----- section 7: strings -----

  datatype Read<+T> = Read(value: T, next: nat)

  function HexValue(b: byte): (n: Option<nat>)
    ensures n.Some? ==> n.value < 16
  {
    if 0x30 <= b < 0x3A then Some(b - 0x30)
    else if 0x41 <= b < 0x47 then Some(b - 0x41 + 10)
    else if 0x61 <= b < 0x67 then Some(b - 0x61 + 10)
    else None
  }

  /** Four hexadecimal digits. */
  function Hex4(text: seq<byte>, i: nat): (n: Option<nat>)
    ensures n.Some? ==> n.value < 0x1_0000 && i + 4 <= |text|
  {
    if i + 4 > |text| then None
    else
      var a, b, c, d := HexValue(text[i]), HexValue(text[i + 1]), HexValue(text[i + 2]), HexValue(text[i + 3]);
      if a.None? || b.None? || c.None? || d.None? then None
      else Some(((a.value * 16 + b.value) * 16 + c.value) * 16 + d.value)
  }

  function Unletter(b: byte): (c: Option<byte>) {
    if b == 0x22 then Some(0x22)
    else if b == 0x5C then Some(0x5C)
    else if b == 0x2F then Some(0x2F)
    else if b == 0x62 then Some(0x08)
    else if b == 0x66 then Some(0x0C)
    else if b == 0x6E then Some(0x0A)
    else if b == 0x72 then Some(0x0D)
    else if b == 0x74 then Some(0x09)
    else None
  }

  /** The four digits at `i` of a \u escape: a character, or the first half of a surrogate pair. */
  function UnicodeAt(text: seq<byte>, i: nat): (r: Option<Read<Scalar>>)
    ensures r.Some? ==> i < r.value.next <= |text|
  {
    match Hex4(text, i)
    case None => None
    case Some(n) =>
      if IsScalar(n) then Some(Read(n, i + 4))
      else if n < 0xDC00 && i + 6 <= |text| && text[i + 4] == 0x5C && text[i + 5] == 0x75 then
        match Hex4(text, i + 6)
        case None => None
        case Some(l) => if 0xDC00 <= l < 0xE000 then Some(Read(0x1_0000 + (n - 0xD800) * 1024 + (l - 0xDC00), i + 10)) else None
      else None
  }

  /** One character of a string. */
  function CharAt(text: seq<byte>, i: nat): (r: Option<Read<Scalar>>)
    requires i < |text|
    ensures r.Some? ==> i < r.value.next <= |text|
  {
    if text[i] == 0x5C then
      if i + 1 == |text| then None
      else if text[i + 1] == 0x75 then UnicodeAt(text, i + 2)
      else if Unletter(text[i + 1]).Some? then Some(Read(Unletter(text[i + 1]).value, i + 2))
      else None
    else if text[i] < 0x20 || text[i] == 0x22 || StrictAt(text, i).None? then None
    else
      AcceptedIsEncoded(text, i);
      Some(Read(StrictAt(text, i).value.codepoint, i + StrictAt(text, i).value.length))
  }

  /** Characters up to the closing quote. */
  function CharsAt(text: seq<byte>, i: nat): (r: Option<Read<seq<Scalar>>>)
    requires i <= |text|
    ensures r.Some? ==> i < r.value.next <= |text|
    decreases |text| - i
  {
    if i == |text| then None
    else if text[i] == 0x22 then Some(Read([], i + 1))
    else
      match CharAt(text, i)
      case None => None
      case Some(first) =>
        match CharsAt(text, first.next)
        case None => None
        case Some(rest) => Some(Read([first.value] + rest.value, rest.next))
  }

  function StringAt(text: seq<byte>, i: nat): (r: Option<Read<seq<Scalar>>>)
    requires i <= |text|
    ensures r.Some? ==> i < r.value.next <= |text|
  {
    if i < |text| && text[i] == 0x22 then CharsAt(text, i + 1) else None
  }

  // ----- escaping is invertible -----

  lemma HexDigitReads(n: nat)
    requires n < 16
    ensures HexValue(JS.HexDigit(n)) == Some(n)
  {
  }

  lemma HexSplit(n: nat)
    requires n < 0x1_0000
    ensures n == ((n / 4096 * 16 + n / 256 % 16) * 16 + n / 16 % 16) * 16 + n % 16
  {
    assert n / 256 == n / 4096 * 16 + n / 256 % 16;
    assert n / 16 == n / 256 * 16 + n / 16 % 16;
  }

  lemma HexReads(text: seq<byte>, i: nat, n: nat)
    requires n < 0x1_0000 && At(text, i, JS.HexEscape(n))
    ensures i + 6 <= |text| && text[i] == 0x5C && text[i + 1] == 0x75 && Hex4(text, i + 2) == Some(n)
  {
    hide JS.HexDigit, HexValue;
    var e := JS.HexEscape(n);
    var piece := text[i..i + 6];
    assert piece[0] == text[i] && piece[1] == text[i + 1] && piece[2] == text[i + 2];
    assert piece[3] == text[i + 3] && piece[4] == text[i + 4] && piece[5] == text[i + 5];
    HexDigitReads(n / 4096);
    HexDigitReads(n / 256 % 16);
    HexDigitReads(n / 16 % 16);
    HexDigitReads(n % 16);
    HexSplit(n);
  }

  lemma LetterReads(b: byte)
    requires JS.Letter(b).Some?
    ensures JS.Letter(b).value != 0x75 && Unletter(JS.Letter(b).value) == Some(b)
  {
  }

  lemma AsciiReads(text: seq<byte>, i: nat, b: byte)
    requires b < 0x80 && At(text, i, JS.EscapeAscii(b))
    ensures i < |text| && text[i] != 0x22 && CharAt(text, i) == Some(Read(b, i + |JS.EscapeAscii(b)|))
  {
    hide Hex4, JS.Letter, JS.HexDigit;
    var e := JS.EscapeAscii(b);
    assert text[i] == text[i..i + |e|][0];
    if JS.Letter(b).Some? {
      assert text[i + 1] == text[i..i + |e|][1];
      LetterReads(b);
    } else if b < 0x20 {
      HexReads(text, i, b);
    } else {
      PlainByte(b);
      OneByte(text, i);
    }
  }

  lemma PlainByte(b: byte)
    requires JS.Letter(b).None?
    ensures b != 0x22 && b != 0x5C
  {
  }

  lemma SurrogatesJoin(c: nat)
    requires 0x1_0000 <= c <= 0x10FFFF
    ensures 0xD800 <= JS.High(c) < 0xDC00 && 0x1_0000 + (JS.High(c) - 0xD800) * 1024 + (JS.Low(c) - 0xDC00) == c
  {
  }

  lemma WideReads(text: seq<byte>, i: nat, c: Scalar)
    requires c >= 0x80 && c < 0x20_0000 && At(text, i, JS.EscapeWide(c))
    ensures i < |text| && text[i] != 0x22 && CharAt(text, i) == Some(Read(c, i + |JS.EscapeWide(c)|))
  {
    hide Hex4, JS.HexEscape;
    assert IsScalar(c);
    if c <= 0xFFFF {
      HexReads(text, i, c);
    } else {
      var h, l := JS.HexEscape(JS.High(c)), JS.HexEscape(JS.Low(c));
      assert h + l + [] == h + l;
      AtParts(text, i, h, l, []);
      HexReads(text, i, JS.High(c));
      HexReads(text, i + 6, JS.Low(c));
      SurrogatesJoin(c);
    }
  }

  lemma RawReads(text: seq<byte>, i: nat, c: Scalar)
    requires c >= 0x80 && At(text, i, Utf8.EncodeScalar(c))
    ensures i < |text| && text[i] != 0x22 && CharAt(text, i) == Some(Read(c, i + |Utf8.EncodeScalar(c)|))
  {
    hide Utf8.EncodeScalar, StrictAt, UnicodeAt;
    EncodedIsAccepted(text, i, c);
    SliceBytes(text, i, Utf8.EncodeScalar(c));
    JS.FirstByte(c);
  }

  /** What is written for a character is read as that character. */
  lemma CharReads(text: seq<byte>, i: nat, c: Scalar, asciiOnly: bool)
    requires At(text, i, JS.EscapeScalar(c, asciiOnly))
    ensures i < |text| && text[i] != 0x22 && CharAt(text, i) == Some(Read(c, i + |JS.EscapeScalar(c, asciiOnly)|))
  {
    hide CharAt, JS.EscapeWide, JS.EscapeAscii, Utf8.EncodeScalar;
    if c < 0x80 {
      AsciiReads(text, i, c);
    } else if asciiOnly {
      assert IsScalar(c);
      WideReads(text, i, c);
    } else {
      RawReads(text, i, c);
    }
  }

  lemma {:induction false} CharsRead(text: seq<byte>, i: nat, cs: seq<Scalar>, asciiOnly: bool)
    requires At(text, i, JS.EscapeAll(cs, asciiOnly) + [JS.QUOTE])
    ensures i <= |text| && CharsAt(text, i) == Some(Read(cs, i + |JS.EscapeAll(cs, asciiOnly)| + 1))
    decreases |cs|
  {
    hide CharAt, JS.EscapeScalar;
    if cs == [] {
      assert JS.EscapeAll(cs, asciiOnly) + [JS.QUOTE] == [JS.QUOTE];
      ByteAt(text, i, JS.QUOTE);
    } else {
      var first, rest := JS.EscapeScalar(cs[0], asciiOnly), JS.EscapeAll(cs[1..], asciiOnly);
      assert JS.EscapeAll(cs, asciiOnly) + [JS.QUOTE] == first + (rest + [JS.QUOTE]) + [];
      AtParts(text, i, first, rest + [JS.QUOTE], []);
      CharReads(text, i, cs[0], asciiOnly);
      CharsRead(text, i + |first|, cs[1..], asciiOnly);
      assert [cs[0]] + cs[1..] == cs;
    }
  }

  /** String escaping is invertible: the quoted form of a UTF-8 string reads as its characters. */
  lemma QuotedReads(text: seq<byte>, i: nat, cs: seq<Scalar>, asciiOnly: bool)
    requires JS.Quoted(Encode(cs), asciiOnly).Some? && At(text, i, JS.Quoted(Encode(cs), asciiOnly).value)
    ensures i <= |text| && StringAt(text, i) == Some(Read(cs, i + |JS.Quoted(Encode(cs), asciiOnly).value|))
  {
    hide JS.Quoted, CharsAt;
    JS.QuotedScalars(cs, asciiOnly);
    var body := JS.EscapeAll(cs, asciiOnly) + [JS.QUOTE];
    assert JS.Quoted(Encode(cs), asciiOnly).value == [JS.QUOTE] + body + [];
    AtParts(text, i, [JS.QUOTE], body, []);
    ByteAt(text, i, JS.QUOTE);
    CharsRead(text, i + 1, cs, asciiOnly);
  }

  /** With ASCII output no byte is above 0x7F. */
  lemma {:induction false} AsciiOnlyIsAscii(cs: seq<Scalar>)
    ensures forall k :: 0 <= k < |JS.EscapeAll(cs, true)| ==> JS.EscapeAll(cs, true)[k] < 0x80
    decreases |cs|
  {
    if cs != [] {
      AsciiOnlyIsAscii(cs[1..]);
      assert IsScalar(cs[0]);
    }
  }

  // ----- section 6: numbers -----

  datatype NumberState = Start | Minus | Zero | Integer | Point | Fraction | Mark | MarkSign | Exponent | Bad

  predicate IsDigit(b: byte) {
    0x30 <= b < 0x3A
  }

  /** The number grammar as an automaton: minus, integer part, fraction, exponent. */
  function NumberStep(s: NumberState, b: byte): (r: NumberState) {
    match s
    case Start => if b == 0x2D then Minus else if b == 0x30 then Zero else if IsDigit(b) then Integer else Bad
    case Minus => if b == 0x30 then Zero else if IsDigit(b) then Integer else Bad
    case Zero => if b == 0x2E then Point else if b == 0x65 || b == 0x45 then Mark else Bad
    case Integer => if IsDigit(b) then Integer else if b == 0x2E then Point else if b == 0x65 || b == 0x45 then Mark else Bad
    case Point => if IsDigit(b) then Fraction else Bad
    case Fraction => if IsDigit(b) then Fraction else if b == 0x65 || b == 0x45 then Mark else Bad
    case Mark => if b == 0x2B || b == 0x2D then MarkSign else if IsDigit(b) then Exponent else Bad
    case MarkSign => if IsDigit(b) then Exponent else Bad
    case Exponent => if IsDigit(b) then Exponent else Bad
    case Bad => Bad
  }

  function NumberRun(token: seq<byte>): (s: NumberState) {
    if token == [] then Start else NumberStep(NumberRun(token[..|token| - 1]), token[|token| - 1])
  }

  predicate IsNumber(token: seq<byte>) {
    NumberRun(token) in {Zero, Integer, Fraction, Exponent}
  }

  predicate IsNumberByte(b: byte) {
    IsDigit(b) || b == 0x2B || b == 0x2D || b == 0x2E || b == 0x45 || b == 0x65
  }

  /** Where the bytes a number can be made of end. */
  function TokenEnd(text: seq<byte>, i: nat): (end: nat)
    requires i <= |text|
    ensures i <= end <= |text|
    decreases |text| - i
  {
    if i == |text| || !IsNumberByte(text[i]) then i else TokenEnd(text, i + 1)
  }

  lemma {:induction false} NumberBytes(token: seq<byte>, k: nat)
    requires NumberRun(token) != Bad && k < |token|
    ensures IsNumberByte(token[k])
    decreases |token|
  {
    if k < |token| - 1 {
      NumberBytes(token[..|token| - 1], k);
    }
  }

  lemma {:induction false} TokenEnds(text: seq<byte>, i: nat, end: nat)
    requires i <= end <= |text| && (forall k :: i <= k < end ==> IsNumberByte(text[k])) && (end < |text| ==> !IsNumberByte(text[end]))
    ensures TokenEnd(text, i) == end
    decreases end - i
  {
    if i < end {
      TokenEnds(text, i + 1, end);
    }
  }

  // ----- sections 2 to 5: texts, values, objects, arrays -----

  datatype Json =
    | JNull
    | JBool(b: bool)
    | JNumber(token: seq<byte>)
    | JString(cs: seq<Scalar>)
    | JArray(items: seq<Json>)
    | JObject(members: seq<JMember>)

  datatype JMember = JMember(name: seq<Scalar>, value: Json)

  predicate IsSpace(b: byte) {
    b == 0x20 || b == 0x09 || b == 0x0A || b == 0x0D
  }

  function SkipSpace(text: seq<byte>, i: nat): (j: nat)
    requires i <= |text|
    ensures i <= j <= |text|
    decreases |text| - i
  {
    if i < |text| && IsSpace(text[i]) then SkipSpace(text, i + 1) else i
  }

  predicate Has(text: seq<byte>, i: nat, b: byte) {
    i < |text| && text[i] == b
  }

  predicate HasWord(text: seq<byte>, i: nat, word: seq<byte>) {
    i + |word| <= |text| && text[i..i + |word|] == word
  }

  const NULL_WORD: seq<byte> := [0x6E, 0x75, 0x6C, 0x6C]
  const TRUE_WORD: seq<byte> := [0x74, 0x72, 0x75, 0x65]
  const FALSE_WORD: seq<byte> := [0x66, 0x61, 0x6C, 0x73, 0x65]

  /** A value that is neither an object nor an array. */
  function LeafAt(text: seq<byte>, i: nat): (r: Option<Read<Json>>)
    requires i <= |text|
    ensures r.Some? ==> i < r.value.next <= |text|
  {
    if HasWord(text, i, NULL_WORD) then Some(Read(JNull, i + 4))
    else if HasWord(text, i, TRUE_WORD) then Some(Read(JBool(true), i + 4))
    else if HasWord(text, i, FALSE_WORD) then Some(Read(JBool(false), i + 5))
    else if Has(text, i, 0x22) then
      match StringAt(text, i)
      case None => None
      case Some(s) => Some(Read(JString(s.value), s.next))
    else
      var end := TokenEnd(text, i);
      if IsNumber(text[i..end]) then (assert text[i..i] == []; Some(Read(JNumber(text[i..end]), end))) else None
  }

  /** A value that starts right at `i`. */
  function ValueAt(text: seq<byte>, i: nat): (r: Option<Read<Json>>)
    requires i <= |text|
    ensures r.Some? ==> i < r.value.next <= |text|
    decreases |text| - i, 1
  {
    if Has(text, i, 0x7B) then
      var first := SkipSpace(text, i + 1);
      if Has(text, first, 0x7D) then Some(Read(JObject([]), first + 1))
      else
        match MembersAt(text, first)
        case None => None
        case Some(ms) => Some(Read(JObject(ms.value), ms.next))
    else if Has(text, i, 0x5B) then
      var first := SkipSpace(text, i + 1);
      if Has(text, first, 0x5D) then Some(Read(JArray([]), first + 1))
      else
        match ItemsAt(text, first)
        case None => None
        case Some(items) => Some(Read(JArray(items.value), items.next))
    else LeafAt(text, i)
  }

  /** The rest of an array from the value at `i`: values with commas between, then the closing bracket. */
  function ItemsAt(text: seq<byte>, i: nat): (r: Option<Read<seq<Json>>>)
    requires i <= |text|
    ensures r.Some? ==> i < r.value.next <= |text|
    decreases |text| - i, 2
  {
    match ValueAt(text, i)
    case None => None
    case Some(first) =>
      var after := SkipSpace(text, first.next);
      if Has(text, after, 0x5D) then Some(Read([first.value], after + 1))
      else if !Has(text, after, 0x2C) then None
      else
        match ItemsAt(text, SkipSpace(text, after + 1))
        case None => None
        case Some(rest) => Some(Read([first.value] + rest.value, rest.next))
  }

  /** One member: a name, a colon, a value. */
  function MemberAt(text: seq<byte>, i: nat): (r: Option<Read<JMember>>)
    requires i <= |text|
    ensures r.Some? ==> i < r.value.next <= |text|
    decreases |text| - i, 2
  {
    match StringAt(text, i)
    case None => None
    case Some(name) =>
      var colon := SkipSpace(text, name.next);
      if !Has(text, colon, 0x3A) then None
      else
        match ValueAt(text, SkipSpace(text, colon + 1))
        case None => None
        case Some(value) => Some(Read(JMember(name.value, value.value), value.next))
  }

  function MembersAt(text: seq<byte>, i: nat): (r: Option<Read<seq<JMember>>>)
    requires i <= |text|
    ensures r.Some? ==> i < r.value.next <= |text|
    decreases |text| - i, 3
  {
    match MemberAt(text, i)
    case None => None
    case Some(first) =>
      var after := SkipSpace(text, first.next);
      if Has(text, after, 0x7D) then Some(Read([first.value], after + 1))
      else if !Has(text, after, 0x2C) then None
      else
        match MembersAt(text, SkipSpace(text, after + 1))
        case None => None
        case Some(rest) => Some(Read([first.value] + rest.value, rest.next))
  }

  /** A JSON text: one value with space around it. */
  function Parse(text: seq<byte>): (json: Option<Json>) {
    match ValueAt(text, SkipSpace(text, 0))
    case None => None
    case Some(r) => if SkipSpace(text, r.next) == |text| then Some(r.value) else None
  }
}
