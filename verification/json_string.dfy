/** JSON strings: how the exporter escapes, and how section 7 of RFC 8259 reads them. */
module JsonString {
  import opened Bytes
  import opened Options
  import opened Utf8

  const QUOTE: byte := 0x22
  const BACKSLASH: byte := 0x5C

  // ----- escaping -----

  function HexDigit(n: nat): (b: byte)
    requires n < 16
  {
    if n < 10 then 0x30 + n else 0x41 + (n - 10)
  }

  /** \u and four upper-case hexadecimal digits. */
  function HexEscape(n: nat): (r: seq<byte>)
    requires n < 0x1_0000
    ensures |r| == 6
  {
    [BACKSLASH, 0x75, HexDigit(n / 4096), HexDigit(n / 256 % 16), HexDigit(n / 16 % 16), HexDigit(n % 16)]
  }

  /** The letter of a two-character escape, if the byte has one. */
  function Letter(b: byte): (r: Option<byte>) {
    if b == QUOTE then Some(QUOTE)
    else if b == BACKSLASH then Some(BACKSLASH)
    else if b == 0x08 then Some(0x62)
    else if b == 0x0C then Some(0x66)
    else if b == 0x0A then Some(0x6E)
    else if b == 0x0D then Some(0x72)
    else if b == 0x09 then Some(0x74)
    else None
  }

  function EscapeAscii(b: byte): (r: seq<byte>)
    requires b < 0x80
  {
    if Letter(b).Some? then [BACKSLASH, Letter(b).value]
    else if b < 0x20 then HexEscape(b)
    else [b]
  }

  /** A character of at least U+0080 with ASCII output: one escape, or the two of its surrogate pair. */
  function EscapeWide(c: nat): (r: seq<byte>)
    requires c < 0x20_0000
  {
    if c <= 0xFFFF then HexEscape(c)
    else
      var adjusted := c - 0x1_0000;
      HexEscape(High(c)) + HexEscape(Low(c))
  }

  /** The surrogates of a character above U+FFFF; the exporter's looser decoder gives at most 21 bits. */
  function High(c: nat): (h: nat)
    requires 0x1_0000 <= c < 0x20_0000
    ensures 0xD800 <= h < 0xE000
  {
    0xD800 + (c - 0x1_0000) / 1024
  }

  function Low(c: nat): (l: nat)
    requires 0x1_0000 <= c < 0x20_0000
    ensures 0xDC00 <= l < 0xE000
  {
    0xDC00 + (c - 0x1_0000) % 1024
  }

  lemma {:induction false} ShiftedBound(data: seq<byte>, from: nat, count: nat, bits: nat, bound: nat)
    requires from + count <= |data| && bits < bound && Shifted(data, from, count, bits).Some?
    ensures count == 0 ==> Shifted(data, from, count, bits).value < bound
    ensures count == 1 ==> Shifted(data, from, count, bits).value < bound * 64
    ensures count == 2 ==> Shifted(data, from, count, bits).value < bound * 64 * 64
    ensures count == 3 ==> Shifted(data, from, count, bits).value < bound * 64 * 64 * 64
  {
    if count > 0 {
      ShiftedBound(data, from, count - 1, bits, bound);
    }
  }

  lemma LooseBound(data: seq<byte>, i: nat)
    requires i < |data| && LooseAt(data, i).Some?
    ensures LooseAt(data, i).value.codepoint < 0x20_0000 && LooseAt(data, i).value.length >= 1
    ensures i + LooseAt(data, i).value.length <= |data|
  {
    var lead := Lead(data[i]).value;
    ShiftedBound(data, i + 1, lead.length - 1, lead.codepoint,
                 if lead.length == 1 then 128 else if lead.length == 2 then 32 else if lead.length == 3 then 16 else 8);
  }

  /** What is written for the character at `i`, and how many bytes it takes; nothing when the decoder fails. */
  datatype Piece = Piece(text: seq<byte>, length: nat)

  function PieceAt(data: seq<byte>, i: nat, asciiOnly: bool): (p: Option<Piece>)
    requires i < |data|
    ensures p.Some? ==> p.value.length >= 1 && i + p.value.length <= |data|
  {
    if data[i] < 0x80 then Some(Piece(EscapeAscii(data[i]), 1))
    else if LooseAt(data, i).None? then None
    else
      LooseBound(data, i);
      var d := LooseAt(data, i).value;
      Some(Piece(if asciiOnly then EscapeWide(d.codepoint) else data[i..i + d.length], d.length))
  }

  /** What is written for the bytes from `i` on. */
  function EscapedFrom(data: seq<byte>, i: nat, asciiOnly: bool): (text: Option<seq<byte>>)
    requires i <= |data|
    decreases |data| - i
  {
    if i == |data| then Some([])
    else
      match PieceAt(data, i, asciiOnly)
      case None => None
      case Some(piece) =>
        match EscapedFrom(data, i + piece.length, asciiOnly)
        case None => None
        case Some(rest) => Some(piece.text + rest)
  }

  /** What is written from `i` on before the first character that cannot be decoded. */
  function EscapedUpTo(data: seq<byte>, i: nat, asciiOnly: bool): (text: seq<byte>)
    requires i <= |data|
    decreases |data| - i
  {
    if i == |data| || PieceAt(data, i, asciiOnly).None? then []
    else
      var piece := PieceAt(data, i, asciiOnly).value;
      piece.text + EscapedUpTo(data, i + piece.length, asciiOnly)
  }

  /** A string that is given up at a character that cannot be decoded. */
  function Started(data: seq<byte>, asciiOnly: bool): (text: seq<byte>) {
    [QUOTE] + EscapedUpTo(data, 0, asciiOnly)
  }

  /** The quoted string; nothing when some character cannot be decoded. */
  function Quoted(data: seq<byte>, asciiOnly: bool): (text: Option<seq<byte>>) {
    match EscapedFrom(data, 0, asciiOnly)
    case None => None
    case Some(text) => Some([QUOTE] + text + [QUOTE])
  }

  // ----- what is written for a character of an accepted string -----

  function EscapeScalar(c: Scalar, asciiOnly: bool): (text: seq<byte>) {
    if c < 0x80 then EscapeAscii(c)
    else if asciiOnly then (assert IsScalar(c); EscapeWide(c))
    else Utf8.EncodeScalar(c)
  }

  function EscapeAll(cs: seq<Scalar>, asciiOnly: bool): (text: seq<byte>) {
    if cs == [] then [] else EscapeScalar(cs[0], asciiOnly) + EscapeAll(cs[1..], asciiOnly)
  }

  lemma PieceOfScalar(cs: seq<Scalar>, k: nat, asciiOnly: bool)
    requires k < |cs|
    ensures var p := |Encode(cs[..k])|;
      p < |Encode(cs)| && PieceAt(Encode(cs), p, asciiOnly) == Some(Piece(EscapeScalar(cs[k], asciiOnly), |Utf8.EncodeScalar(cs[k])|))
  {
    hide Utf8.EncodeScalar, LooseAt, EscapeAscii, EscapeWide, Lead;
    EncodePrefix(cs, k);
    LooseAgrees(cs, k);
    var data, p, r := Encode(cs), |Encode(cs[..k])|, Utf8.EncodeScalar(cs[k]);
    SliceBytes(data, p, r);
    FirstByte(cs[k]);
  }

  lemma FirstByte(c: Scalar)
    ensures c < 0x80 ==> Utf8.EncodeScalar(c) == [c]
    ensures c >= 0x80 ==> Utf8.EncodeScalar(c)[0] >= 0x80
  {
  }

  /** An accepted string is never refused, and is written character by character. */
  lemma {:induction false} EscapedFromScalars(cs: seq<Scalar>, k: nat, asciiOnly: bool)
    requires k <= |cs|
    ensures |Encode(cs[..k])| <= |Encode(cs)|
    ensures EscapedFrom(Encode(cs), |Encode(cs[..k])|, asciiOnly) == Some(EscapeAll(cs[k..], asciiOnly))
    decreases |cs| - k
  {
    hide Utf8.EncodeScalar, PieceAt, EscapeScalar;
    EncodePrefix(cs, k);
    if k == |cs| {
      assert cs[..k] == cs;
    } else {
      PieceOfScalar(cs, k, asciiOnly);
      EscapedFromScalars(cs, k + 1, asciiOnly);
      assert cs[..k + 1] == cs[..k] + [cs[k]];
      EncodeSnoc(cs[..k], cs[k]);
      assert cs[k..][1..] == cs[k + 1..];
    }
  }

  lemma QuotedScalars(cs: seq<Scalar>, asciiOnly: bool)
    ensures Quoted(Encode(cs), asciiOnly) == Some([QUOTE] + EscapeAll(cs, asciiOnly) + [QUOTE])
  {
    EscapedFromScalars(cs, 0, asciiOnly);
    assert cs[..0] == [] && cs[0..] == cs;
  }

  // ----- the text of each character, byte for byte -----

  const CAPITALS: seq<byte> := [0x30, 0x31, 0x32, 0x33, 0x34, 0x35, 0x36, 0x37, 0x38, 0x39, 0x41, 0x42, 0x43, 0x44, 0x45, 0x46]

  /** Backslash, u, and four capital hexadecimal digits. */
  function Unicode(n: nat): (text: seq<byte>)
    requires n < 0x1_0000
  {
    [0x5C, 0x75, CAPITALS[n / 0x1000], CAPITALS[n / 0x100 % 0x10], CAPITALS[n / 0x10 % 0x10], CAPITALS[n % 0x10]]
  }

  lemma UnicodeIsHexEscape(n: nat)
    requires n < 0x1_0000
    ensures HexEscape(n) == Unicode(n)
  {
    DigitIsCapital(n / 4096);
    DigitIsCapital(n / 256 % 16);
    DigitIsCapital(n / 16 % 16);
    DigitIsCapital(n % 16);
  }

  lemma DigitIsCapital(n: nat)
    requires n < 16
    ensures HexDigit(n) == CAPITALS[n]
  {
  }

  /** What is written for a character below U+0080: itself, unless it is a quote, a backslash or a control character. */
  lemma AsciiTable(c: Scalar, asciiOnly: bool)
    requires c < 0x80
    ensures EscapeScalar(c, asciiOnly) ==
      if c == 0x22 then [0x5C, 0x22]
      else if c == 0x5C then [0x5C, 0x5C]
      else if c == 0x08 then [0x5C, 0x62]
      else if c == 0x0C then [0x5C, 0x66]
      else if c == 0x0A then [0x5C, 0x6E]
      else if c == 0x0D then [0x5C, 0x72]
      else if c == 0x09 then [0x5C, 0x74]
      else if c < 0x20 then Unicode(c)
      else [c]
  {
    UnicodeIsHexEscape(c);
  }

  /** From U+0080 on: the character's own UTF-8 bytes, or with ASCII output its escape, above U+FFFF those of its surrogates. */
  lemma WideTable(c: Scalar, asciiOnly: bool)
    requires c >= 0x80
    ensures c < 0x11_0000 && EscapeScalar(c, asciiOnly) ==
      if !asciiOnly then Utf8.EncodeScalar(c)
      else if c < 0x1_0000 then Unicode(c)
      else Unicode(0xD800 + (c - 0x1_0000) / 0x400) + Unicode(0xDC00 + (c - 0x1_0000) % 0x400)
  {
    hide HexEscape, Unicode, Utf8.EncodeScalar;
    assert IsScalar(c);
    if c < 0x1_0000 {
      UnicodeIsHexEscape(c);
    } else {
      UnicodeIsHexEscape(High(c));
      UnicodeIsHexEscape(Low(c));
    }
  }

  /** The escapes of a surrogate pair. */
  function Pair(n: nat): (text: seq<byte>)
    requires n < 0x1F_0000
  {
    Unicode(0xD800 + n / 0x400) + Unicode(0xDC00 + n % 0x400)
  }

  /** A sequence that only the looser decoder takes is written like a character: its own bytes, or the escape of its number. */
  lemma LooseTable(data: seq<byte>, i: nat, asciiOnly: bool)
    requires i < |data| && data[i] >= 0x80
    ensures PieceAt(data, i, asciiOnly).Some? <==> LooseAt(data, i).Some?
    ensures LooseAt(data, i).Some? ==>
      var d := LooseAt(data, i).value; var piece := PieceAt(data, i, asciiOnly).value;
      && piece.length == d.length && i + d.length <= |data|
      && (!asciiOnly ==> piece.text == data[i..i + d.length])
      && (asciiOnly && d.codepoint < 0x1_0000 ==> piece.text == Unicode(d.codepoint))
      && d.codepoint < 0x20_0000
      && (asciiOnly && d.codepoint >= 0x1_0000 ==> piece.text == Pair(d.codepoint - 0x1_0000))
  {
    hide HexEscape, Unicode, LooseAt;
    if LooseAt(data, i).Some? {
      LooseBound(data, i);
      var c := LooseAt(data, i).value.codepoint;
      if c < 0x1_0000 {
        UnicodeIsHexEscape(c);
      } else {
        UnicodeIsHexEscape(High(c));
        UnicodeIsHexEscape(Low(c));
      }
    }
  }

  // ----- strings that are given up -----

  lemma PieceStays(data: seq<byte>, n: nat, i: nat, asciiOnly: bool)
    requires i < n <= |data| && PieceAt(data, i, asciiOnly).Some? && i + PieceAt(data, i, asciiOnly).value.length <= n
    ensures PieceAt(data[..n], i, asciiOnly) == PieceAt(data, i, asciiOnly)
  {
    hide LooseAt, EscapeAscii, EscapeWide;
    if data[i] >= 0x80 {
      LooseTable(data, i, asciiOnly);
    }
    LooseBytes(data, i);
    LooseBytes(data[..n], i);
    var d := PieceAt(data, i, asciiOnly).value.length;
    assert data[..n][i..i + d] == data[i..i + d];
  }

  /** From `i` on: the characters up to `n` are written, and none can be decoded there. */
  lemma {:induction false} FrontFrom(data: seq<byte>, i: nat, asciiOnly: bool) returns (n: nat)
    requires i <= |data| && EscapedFrom(data, i, asciiOnly).None?
    ensures i <= n < |data| && PieceAt(data, n, asciiOnly).None?
    ensures EscapedFrom(data[..n], i, asciiOnly) == Some(EscapedUpTo(data, i, asciiOnly))
    decreases |data| - i
  {
    hide PieceAt;
    var piece := PieceAt(data, i, asciiOnly);
    if piece.None? {
      n := i;
    } else {
      n := FrontFrom(data, i + piece.value.length, asciiOnly);
      PieceStays(data, n, i, asciiOnly);
    }
  }

  /** A string that is given up has been written like the string of what comes before the byte that cannot be decoded, but for the closing quote. */
  lemma StartedIsFront(data: seq<byte>, asciiOnly: bool) returns (n: nat)
    requires Quoted(data, asciiOnly).None?
    ensures n < |data| && LooseAt(data, n).None?
    ensures Quoted(data[..n], asciiOnly) == Some(Started(data, asciiOnly) + [0x22])
  {
    n := FrontFrom(data, 0, asciiOnly);
    LooseBytes(data, n);
  }
}
