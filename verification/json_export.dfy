/** The JSON exporter: walks a written file and prints it. */
module JsonExport {
  import opened Arrangement
  import opened Bytes
  import opened ChildList
  import opened Document
  import opened Format
  import opened JsonPrint
  import opened Options
  import opened ReadBack
  import opened Sequences
  import Find
  import JS = JsonString
  import JsonRoundTrip
  import R = Reader
  import Utf8
  import Words = JsonGrammar

  // ----- what is exported -----

  /** Every string value and every key under a block can be decoded. */
  ghost predicate Printable(v: Value, st: Style)
    decreases v, 0
  {
    match v
    case String(s) => JS.Quoted(s, st.asciiOnly).Some?
    case Array(kids) => forall i :: 0 <= i < |kids| ==> ItemPrintable(kids[i], false, st)
    case Block(kids) => forall i :: 0 <= i < |kids| ==> ItemPrintable(kids[i], true, st)
    case _ => true
  }

  ghost predicate ItemPrintable(m: Member, keyed: bool, st: Style)
    decreases m, 1
  {
    (keyed ==> JS.Quoted(m.key, st.asciiOnly).Some?) && Printable(m.value, st)
  }

  /** The items printed so far, from the first. */
  ghost function Front(ws: seq<Member>, depth: nat, keyed: bool, st: Style): (text: seq<byte>) {
    if ws == [] then []
    else
      var n := |ws| - 1;
      Front(ws[..n], depth, keyed, st) + (Separator(st, n, depth) + PrintItem(ws[n], depth, keyed, st))
  }

  lemma {:induction false} FrontThenRest(ws: seq<Member>, k: nat, depth: nat, keyed: bool, st: Style)
    requires k <= |ws|
    ensures Front(ws[..k], depth, keyed, st) + PrintFrom(ws, k, depth, keyed, st) == PrintFrom(ws, 0, depth, keyed, st)
  {
    hide PrintItem, Separator, Closing;
    if k == 0 {
      assert Front(ws[..0], depth, keyed, st) == [];
      assert [] + PrintFrom(ws, 0, depth, keyed, st) == PrintFrom(ws, 0, depth, keyed, st);
    } else {
      FrontThenRest(ws, k - 1, depth, keyed, st);
      assert ws[..k][..k - 1] == ws[..k - 1];
      var front, sep, item, rest := Front(ws[..k - 1], depth, keyed, st), Separator(st, k - 1, depth),
                                    PrintItem(ws[k - 1], depth, keyed, st), PrintFrom(ws, k, depth, keyed, st);
      assert front + (sep + item) + rest == front + (sep + item + rest);
    }
  }

  lemma FrontCloses(ws: seq<Member>, depth: nat, keyed: bool, st: Style)
    ensures Front(ws, depth, keyed, st) + Closing(st, depth, keyed) == PrintFrom(ws, 0, depth, keyed, st)
  {
    FrontThenRest(ws, |ws|, depth, keyed, st);
    assert ws[..|ws|] == ws;
  }

  // ----- what is written before a failure -----

  /** `text` is what printing an arrangement of `v` has written when it comes to a character that cannot be decoded. */
  ghost predicate Cut(v: Value, text: seq<byte>, depth: nat, st: Style, byKey: bool)
    decreases v, 0
  {
    match v
    case String(s) => JS.Quoted(s, st.asciiOnly).None? && text == JS.Started(s, st.asciiOnly)
    case Array(kids) => exists rest: seq<byte> :: CutList(kids, kids, rest, depth + 1, false, st, byKey) && text == [0x5B] + Newline(st) + rest
    case Block(kids) =>
      exists ps: seq<Member>, rest: seq<byte> ::
        OrderOf(ps, kids, byKey) && CutList(ps, kids, rest, depth + 1, true, st, byKey) && text == [0x7B] + Newline(st) + rest
    case _ => false
  }

  ghost predicate CutList(ps: seq<Member>, kids: seq<Member>, text: seq<byte>, depth: nat, keyed: bool, st: Style, byKey: bool)
    decreases kids, 1
  {
    exists ws: seq<Member>, item: seq<byte> :: CutBehind(ps, kids, ws, item, text, depth, keyed, st, byKey)
  }

  /** The items `ws` are printed, and the next is cut. */
  ghost predicate CutBehind(ps: seq<Member>, kids: seq<Member>, ws: seq<Member>, item: seq<byte>, text: seq<byte>,
                            depth: nat, keyed: bool, st: Style, byKey: bool)
    decreases kids, 0
  {
    && |ws| < |ps|
    && (forall i :: 0 <= i < |ws| ==> ItemPrintable(ps[i], keyed, st) && ItemArranged(ps[i], ws[i], byKey))
    && ps[|ws|] in kids && CutItem(ps[|ws|], item, depth, keyed, st, byKey)
    && text == Front(ws, depth, keyed, st) + (Separator(st, |ws|, depth) + item)
  }

  ghost predicate CutItem(m: Member, text: seq<byte>, depth: nat, keyed: bool, st: Style, byKey: bool)
    decreases m, 1
  {
    if keyed && JS.Quoted(m.key, st.asciiOnly).None? then text == JS.Started(m.key, st.asciiOnly)
    else
      exists rest: seq<byte> ::
        Cut(m.value, rest, depth, st, byKey) && text == (if keyed then StringText(m.key, st) + Colon(st) else []) + rest
  }

  /** The exporter's own decoder. */
  method Utf8Decode(data: seq<byte>, index: nat) returns (d: Option<Utf8.Decoded>)
    requires index < |data|
    ensures d == Utf8.LooseAt(data, index)
  {
    hide Utf8.Shifted;
    var b := data[index];
    if b < 0x80 {
      Utf8.OneByte(data, index);
      return Some(Utf8.Decoded(b, 1));
    }
    var lead := Utf8.Lead(b);
    if lead.None? || index + lead.value.length > |data| {
      return None;
    }
    var codepoint := Utf8.ShiftIn(data, index, lead.value.length, lead.value.codepoint);
    d := if codepoint.None? then None else Some(Utf8.Decoded(codepoint.value, lead.value.length));
  }

  // ----- an accepted document is printed, and reads back -----

  lemma {:induction false} Utf8Printable(v: Value, st: Style)
    requires AllUtf8(v)
    ensures Printable(v, st)
    decreases v, 0
  {
    match v
    case String(s) => JS.QuotedScalars(Chars(s), st.asciiOnly);
    case Array(kids) => KidsPrintable(kids, false, st);
    case Block(kids) => KidsPrintable(kids, true, st);
    case _ =>
  }

  lemma {:induction false} KidsPrintable(kids: seq<Member>, keyed: bool, st: Style)
    requires KidsUtf8(kids, keyed)
    ensures forall i :: 0 <= i < |kids| ==> ItemPrintable(kids[i], keyed, st)
    decreases kids, 0
  {
    forall i | 0 <= i < |kids|
      ensures ItemPrintable(kids[i], keyed, st)
    {
      if keyed {
        JS.QuotedScalars(Chars(kids[i].key), st.asciiOnly);
      }
      Utf8Printable(kids[i].value, st);
    }
  }

  /** Rearranging members does not change what strings there are. */
  lemma {:induction false} ArrangedUtf8(v: Value, w: Value, byKey: bool)
    requires Arranged(v, w, byKey) && AllUtf8(v)
    ensures AllUtf8(w)
    decreases v, 0
  {
    match v
    case Array(kids) => PairedUtf8(kids, kids, w.kids, false, byKey);
    case Block(kids) =>
      var ps: seq<Member> :| OrderOf(ps, kids, byKey) && Paired(ps, kids, w.kids, byKey);
      PairedUtf8(ps, kids, w.kids, true, byKey);
    case _ =>
  }

  lemma {:induction false} PairedUtf8(ps: seq<Member>, kids: seq<Member>, ws: seq<Member>, keyed: bool, byKey: bool)
    requires Paired(ps, kids, ws, byKey) && KidsUtf8(kids, keyed)
    ensures KidsUtf8(ws, keyed)
    decreases kids, 0
  {
    forall i | 0 <= i < |ws|
      ensures (keyed ==> Utf8.IsUtf8(ws[i].key)) && AllUtf8(ws[i].value)
    {
      assert ps[i] in kids && ItemArranged(ps[i], ws[i], byKey);
      var j :| 0 <= j < |kids| && kids[j] == ps[i];
      ArrangedUtf8(kids[j].value, ws[i].value, byKey);
    }
  }

  /**
   * JSON export round trip: for a document of UTF-8 strings nothing is refused, and what is printed for it,
   * in whatever order the sort left the members, parses to that arrangement of the document.
   */
  lemma ExportReads(doc: seq<Member>, printed: seq<Member>, byKey: bool, st: Style)
    requires AllUtf8(Block(doc)) && NumbersOk(st.numbers)
    ensures Printable(Block(doc), st)
    ensures Arranged(Block(doc), Block(printed), byKey) ==>
      AllUtf8(Block(printed)) && Words.Parse(PrintDocument(printed, st)) == Some(JsonOf(Block(printed), st))
  {
    hide Arranged, Words.Parse, JsonOf, NumbersOk, Printable;
    Utf8Printable(Block(doc), st);
    if Arranged(Block(doc), Block(printed), byKey) {
      ArrangedUtf8(Block(doc), Block(printed), byKey);
      JsonRoundTrip.DocumentReads(printed, st);
    }
  }

  class Exporter {
    const reader: R.Handle
    const st: Style
    const sortKeys: bool
    var output: seq<byte>
    var writeFailed: bool

    constructor (reader: R.Handle, st: Style, sortKeys: bool)
      ensures this.reader == reader && this.st == st && this.sortKeys == sortKeys && output == [] && !writeFailed
    {
      this.reader := reader;
      this.st := st;
      this.sortKeys := sortKeys;
      output := [];
      writeFailed := false;
    }

    method WriteAll(data: seq<byte>) returns (ok: bool)
      modifies this`output
      ensures ok == !writeFailed
      ensures output == if ok then old(output) + data else old(output)
    {
      if writeFailed {
        return false;
      }
      output := output + data;
      ok := true;
    }

    /** Spaces in chunks of at most 64. */
    method WriteIndent(depth: nat) returns (ok: bool)
      requires !writeFailed
      modifies this`output
      ensures ok && output == old(output) + Indent(st, depth)
    {
      var total := st.indentSpaces * depth;
      ghost var written := 0;
      assert output == old(output) + Spaces(0);
      while total > 0
        invariant total >= 0 && written + total == st.indentSpaces * depth && output == old(output) + Spaces(written)
      {
        var chunk := if total > 64 then 64 else total;
        ok := WriteAll(Spaces(chunk));
        assert Spaces(written) + Spaces(chunk) == Spaces(written + chunk);
        written := written + chunk;
        total := total - chunk;
      }
      ok := true;
    }

    /** One character of a string. */
    method WritePiece(data: seq<byte>, index: nat) returns (ok: bool, consumed: nat)
      requires !writeFailed && index < |data|
      modifies this`output, this`writeFailed
      ensures ok == !writeFailed == JS.PieceAt(data, index, st.asciiOnly).Some?
      ensures !ok ==> output == old(output)
      ensures ok ==> var piece := JS.PieceAt(data, index, st.asciiOnly).value;
        output == old(output) + piece.text && consumed == piece.length
    {
      hide JS.HexEscape, JS.Letter, Utf8.LooseAt;
      consumed := 1;
      var b := data[index];
      if JS.Letter(b).Some? {
        LetterIsAscii(b);
        ok := WriteAll([JS.BACKSLASH, JS.Letter(b).value]);
        return;
      }
      if b < 0x20 {
        ok := WriteAll(JS.HexEscape(b));
        return;
      }
      if b < 0x80 {
        ok := WriteAll([b]);
        return;
      }
      var d := Utf8Decode(data, index);
      if d.None? {
        writeFailed := true;
        return false, 0;
      }
      JS.LooseBound(data, index);
      var codepoint := d.value.codepoint;
      consumed := d.value.length;
      if !st.asciiOnly {
        ok := WriteAll(data[index..index + consumed]);
        return;
      }
      if codepoint <= 0xFFFF {
        ok := WriteAll(JS.HexEscape(codepoint));
        return;
      }
      ghost var before := output;
      ok := WriteAll(JS.HexEscape(JS.High(codepoint)));
      ok := WriteAll(JS.HexEscape(JS.Low(codepoint)));
      assert output == before + (JS.HexEscape(JS.High(codepoint)) + JS.HexEscape(JS.Low(codepoint)));
    }

    lemma LetterIsAscii(b: byte)
      requires JS.Letter(b).Some?
      ensures b < 0x80
    {
    }

    method WriteString(data: seq<byte>) returns (ok: bool)
      requires !writeFailed
      modifies this`output, this`writeFailed
      ensures ok == !writeFailed == JS.Quoted(data, st.asciiOnly).Some?
      ensures ok ==> output == old(output) + StringText(data, st)
      ensures !ok ==> output == old(output) + JS.Started(data, st.asciiOnly)
    {
      hide JS.PieceAt, JS.EscapedFrom, JS.EscapedUpTo;
      ghost var before := output;
      ok := WriteAll([JS.QUOTE]);
      var index := 0;
      ghost var done: seq<byte> := [];
      PrefixedNone(JS.EscapedFrom(data, 0, st.asciiOnly));
      while index < |data|
        invariant 0 <= index <= |data| && !writeFailed && output == before + [JS.QUOTE] + done
        invariant JS.EscapedFrom(data, 0, st.asciiOnly) == Prefixed(done, JS.EscapedFrom(data, index, st.asciiOnly))
        invariant JS.EscapedUpTo(data, 0, st.asciiOnly) == done + JS.EscapedUpTo(data, index, st.asciiOnly)
        decreases |data| - index
      {
        var consumed;
        EscapedStep(data, index);
        ok, consumed := WritePiece(data, index);
        if !ok {
          Associate(before, [JS.QUOTE], done);
          assert done + [] == done;
          return;
        }
        ghost var piece := JS.PieceAt(data, index, st.asciiOnly).value;
        PrefixedMore(done, piece.text, JS.EscapedFrom(data, index + consumed, st.asciiOnly));
        Associate(done, piece.text, JS.EscapedUpTo(data, index + consumed, st.asciiOnly));
        Associate(before, [JS.QUOTE], done);
        Associate(before + [JS.QUOTE], done, piece.text);
        done := done + piece.text;
        index := index + consumed;
      }
      EscapedEnd(data);
      ok := WriteAll([JS.QUOTE]);
      assert output == before + ([JS.QUOTE] + done + [JS.QUOTE]);
      assert done + [] == done;
    }

    /** One character on, both for the whole text and for what is written before a failure. */
    lemma EscapedStep(data: seq<byte>, index: nat)
      requires index < |data|
      ensures var piece := JS.PieceAt(data, index, st.asciiOnly);
        && (piece.None? ==> JS.EscapedFrom(data, index, st.asciiOnly) == None && JS.EscapedUpTo(data, index, st.asciiOnly) == [])
        && (piece.Some? ==> var next := index + piece.value.length;
              && JS.EscapedFrom(data, index, st.asciiOnly) == Prefixed(piece.value.text, JS.EscapedFrom(data, next, st.asciiOnly))
              && JS.EscapedUpTo(data, index, st.asciiOnly) == piece.value.text + JS.EscapedUpTo(data, next, st.asciiOnly))
    {
      hide JS.PieceAt;
    }

    lemma EscapedEnd(data: seq<byte>)
      ensures JS.EscapedFrom(data, |data|, st.asciiOnly) == Some([])
    {
    }

    ghost function Prefixed(done: seq<byte>, rest: Option<seq<byte>>): (r: Option<seq<byte>>) {
      match rest
      case None => None
      case Some(text) => Some(done + text)
    }

    lemma PrefixedNone(rest: Option<seq<byte>>)
      ensures Prefixed([], rest) == rest
    {
      if rest.Some? {
        assert [] + rest.value == rest.value;
      }
    }

    lemma PrefixedMore(done: seq<byte>, text: seq<byte>, rest: Option<seq<byte>>)
      ensures Prefixed(done, Prefixed(text, rest)) == Prefixed(done + text, rest)
    {
      if rest.Some? {
        assert done + (text + rest.value) == done + text + rest.value;
      }
    }

    method HasDotOrExponent(text: seq<byte>) returns (has: bool)
      ensures has == HasPoint(text)
    {
      for i := 0 to |text|
        invariant forall k :: 0 <= k < i ==> !PointOrExponent(text[k])
      {
        if PointOrExponent(text[i]) {
          return true;
        }
      }
      has := false;
    }

    method WriteFloat(bits: u64) returns (ok: bool)
      requires !writeFailed
      modifies this`output
      ensures ok && output == old(output) + FloatText(bits, st.numbers)
    {
      if !IsFinite(bits) {
        ok := WriteAll(Words.NULL_WORD);
        return;
      }
      var text := st.numbers.float64(bits);
      var has := HasDotOrExponent(text);
      ok := WriteAll(text);
      if !has {
        ok := WriteAll([0x2E, 0x30]);
        assert output == old(output) + (text + [0x2E, 0x30]);
      }
    }

    // ----- layout around items -----

    method WriteNewline() returns (ok: bool)
      requires !writeFailed
      modifies this`output
      ensures ok && output == old(output) + Newline(st)
    {
      if st.indentSpaces == 0 {
        assert output == output + [];
        return true;
      }
      ok := WriteAll([0x0A]);
    }

    /** The comma after the item before, the newline and the indent. */
    method WriteSeparator(k: nat, depth: nat) returns (ok: bool)
      requires !writeFailed
      modifies this`output
      ensures ok && output == old(output) + Separator(st, k, depth)
    {
      hide Indent, Newline;
      ghost var before := output;
      assert before + [] == before;
      if k != 0 {
        ok := WriteAll([0x2C]);
        ok := WriteNewline();
      }
      ok := WriteIndent(depth);
      assert output == before + Separator(st, k, depth);
    }

    method WriteClosing(depth: nat, keyed: bool) returns (ok: bool)
      requires !writeFailed
      modifies this`output
      ensures ok && output == old(output) + Closing(st, depth + 1, keyed)
    {
      hide Indent, Newline;
      ghost var before := output;
      ok := WriteNewline();
      ok := WriteIndent(depth);
      ok := WriteAll([if keyed then 0x7D else 0x5D]);
      assert output == before + Closing(st, depth + 1, keyed);
    }

    // ----- values -----

    /** Prints the value `v` that the file holds at `offset`; fails exactly when some string cannot be decoded. */
    method ExportValue(offset: nat, depth: nat, ghost hash: Hash64, ghost v: Value) returns (ok: bool, ghost w: Value, ghost cut: seq<byte>)
      requires !writeFailed && R.Valid(reader) && Holds(reader, hash, offset, v)
      modifies this`output, this`writeFailed
      ensures ok == !writeFailed == Printable(v, st)
      ensures ok ==> Arranged(v, w, sortKeys) && output == old(output) + Print(w, depth, st)
      ensures !ok ==> Cut(v, cut, depth, st, sortKeys) && output == old(output) + cut
      decreases v, 1
    {
      hide R.ContainerBody, TableHolds, ElementHolds, PrintFrom, R.ScalarBody, FloatText, StringText, JS.Quoted;
      w, cut := v, [];
      Find.HeldKind(reader, hash, offset, v);
      var kind := R.KindAt(reader, offset).value;
      if kind == 0x00 {
        ok := WriteAll(Words.NULL_WORD);
      } else if kind == 0x01 {
        ok := WriteAll(Words.FALSE_WORD);
      } else if kind == 0x02 {
        ok := WriteAll(Words.TRUE_WORD);
      } else if kind == 0x03 {
        ok := WriteAll(st.numbers.int64(R.Int64At(reader, offset).value));
      } else if kind == 0x04 {
        ok := WriteAll(st.numbers.uint64(R.Word64At(reader, offset, 0x04).value));
      } else if kind == 0x05 {
        ok := WriteFloat(R.Word64At(reader, offset, 0x05).value);
      } else if kind == 0x06 {
        ok := WriteString(R.StringAt(reader, offset).value);
        cut := JS.Started(v.s, st.asciiOnly);
      } else if kind == 0x10 {
        ok, w, cut := ExportBlock(offset, depth, hash, v);
      } else {
        ok, w, cut := ExportArray(offset, depth, hash, v);
      }
    }

    method ExportArray(offset: nat, depth: nat, ghost hash: Hash64, ghost v: Value) returns (ok: bool, ghost w: Value, ghost cut: seq<byte>)
      requires !writeFailed && R.Valid(reader) && Holds(reader, hash, offset, v) && v.Array?
      modifies this`output, this`writeFailed
      ensures ok == !writeFailed == Printable(v, st)
      ensures ok ==> Arranged(v, w, sortKeys) && output == old(output) + Print(w, depth, st)
      ensures !ok ==> Cut(v, cut, depth, st, sortKeys) && output == old(output) + cut
      decreases v, 0
    {
      hide R.ContainerBody, ElementHolds, PrintFrom, ItemPrintable, ItemArranged, Front, Closing, Newline;
      var body := R.ArrayBody(reader, offset).value;
      ghost var before := output;
      w, cut := v, [];
      if body.count == 0 {
        ok := WriteAll([0x5B, 0x5D]);
        return;
      }
      ok := WriteAll([0x5B]);
      ok := WriteNewline();
      ghost var start := output;
      ghost var ws;
      ok, ws, cut := ExportElements(offset, body.count, depth + 1, hash, v);
      if !ok {
        Associate4(before, [0x5B], Newline(st), cut);
        ArrayIsCut(v, cut, depth);
        cut := [0x5B] + Newline(st) + cut;
        return;
      }
      ok := WriteClosing(depth, false);
      w := Array(ws);
      ArrayDone(v, ws);
      FrontCloses(ws, depth + 1, false, st);
      Assembled(before, [0x5B], start, Front(ws, depth + 1, false, st), Closing(st, depth + 1, false), PrintFrom(ws, 0, depth + 1, false, st));
    }

    method ExportElements(offset: nat, count: nat, depth: nat, ghost hash: Hash64, ghost v: Value)
      returns (ok: bool, ghost ws: seq<Member>, ghost cut: seq<byte>)
      requires !writeFailed && R.Valid(reader) && Holds(reader, hash, offset, v) && v.Array? && count == |v.kids|
      modifies this`output, this`writeFailed
      ensures ok == !writeFailed
      ensures !ok ==> !Printable(v, st)
      ensures !ok ==> CutList(v.kids, v.kids, cut, depth, false, st, sortKeys) && output == old(output) + cut
      ensures ok ==> |ws| == count && output == old(output) + Front(ws, depth, false, st)
      ensures ok ==> forall k :: 0 <= k < count ==> ItemPrintable(v.kids[k], false, st) && ItemArranged(v.kids[k], ws[k], sortKeys)
      decreases v, 0, 1
    {
      hide Holds, ItemPrintable, ItemArranged, Front, CutItem, CutList, Separator, PrintItem;
      ghost var before := output;
      ws, cut := [], [];
      ok := true;
      FrontNothing(output, depth, false);
      for i := 0 to count
        invariant ok && !writeFailed && |ws| == i && output == old(output) + Front(ws, depth, false, st)
        invariant forall k :: 0 <= k < i ==> ItemPrintable(v.kids[k], false, st) && ItemArranged(v.kids[k], ws[k], sortKeys)
      {
        ghost var wi;
        ok, wi, cut := ExportElement(offset, i, depth, hash, v);
        if !ok {
          Associate(before, Front(ws, depth, false, st), Separator(st, i, depth) + cut);
          ListIsCut(v.kids, v.kids, ws, cut, depth, false);
          cut := Front(ws, depth, false, st) + (Separator(st, i, depth) + cut);
          return;
        }
        FrontGrows(output, old(output), ws, Member(v.kids[i].key, wi), depth, false);
        ws := ws + [Member(v.kids[i].key, wi)];
      }
    }

    lemma FrontNothing(text: seq<byte>, depth: nat, keyed: bool)
      ensures text + Front([], depth, keyed, st) == text
    {
    }

    lemma FrontGrows(text: seq<byte>, before: seq<byte>, ws: seq<Member>, m: Member, depth: nat, keyed: bool)
      ensures text == before + Front(ws, depth, keyed, st) + (Separator(st, |ws|, depth) + PrintItem(m, depth, keyed, st))
        <==> text == before + Front(ws + [m], depth, keyed, st)
    {
      hide PrintItem, Separator;
      assert (ws + [m])[..|ws|] == ws;
      var front, item := Front(ws, depth, keyed, st), Separator(st, |ws|, depth) + PrintItem(m, depth, keyed, st);
      assert before + (front + item) == before + front + item;
    }

    lemma Assembled(before: seq<byte>, bracket: seq<byte>, start: seq<byte>, front: seq<byte>, closing: seq<byte>, all: seq<byte>)
      requires start == before + bracket + Newline(st) && all == front + closing
      ensures start + front + closing == before + (bracket + Newline(st) + all)
    {
    }

    lemma ArrayDone(v: Value, ws: seq<Member>)
      requires v.Array? && |ws| == |v.kids|
      requires forall k :: 0 <= k < |ws| ==> ItemPrintable(v.kids[k], false, st) && ItemArranged(v.kids[k], ws[k], sortKeys)
      ensures Printable(v, st) && Arranged(v, Array(ws), sortKeys)
    {
      hide ItemPrintable, ItemArranged;
      assert Paired(v.kids, v.kids, ws, sortKeys);
    }

    method ExportElement(offset: nat, i: nat, depth: nat, ghost hash: Hash64, ghost v: Value) returns (ok: bool, ghost w: Value, ghost cut: seq<byte>)
      requires !writeFailed && R.Valid(reader) && Holds(reader, hash, offset, v) && v.Array? && i < |v.kids|
      modifies this`output, this`writeFailed
      ensures ok == !writeFailed == ItemPrintable(v.kids[i], false, st)
      ensures ok ==> ItemArranged(v.kids[i], Member(v.kids[i].key, w), sortKeys)
      ensures ok ==> output == old(output) + (Separator(st, i, depth) + PrintItem(Member(v.kids[i].key, w), depth, false, st))
      ensures !ok ==> CutItem(v.kids[i], cut, depth, false, st, sortKeys) && output == old(output) + (Separator(st, i, depth) + cut)
      decreases v, 0, 0
    {
      hide R.ContainerBody, Print, Printable, Arranged, Separator, R.ArrayAt, Cut, CutItem;
      ghost var before := output;
      assert ElementHolds(reader, hash, offset, v.kids, i);
      ok := WriteSeparator(i, depth);
      var valueOffset := ElementOffset(offset, i, hash, v);
      ok, w, cut := ExportValue(valueOffset, depth, hash, v.kids[i].value);
      Associate(before, Separator(st, i, depth), cut);
      if !ok {
        ElementIsCut(v.kids[i], cut, depth);
      }
      if ok {
        assert [] + Print(w, depth, st) == Print(w, depth, st);
        assert before + Separator(st, i, depth) + Print(w, depth, st) == before + (Separator(st, i, depth) + Print(w, depth, st));
      }
    }

    /** Reads element `i`'s offset straight from the table. */
    method ElementOffset(offset: nat, i: nat, ghost hash: Hash64, ghost v: Value) returns (o: nat)
      requires R.Valid(reader) && Holds(reader, hash, offset, v) && v.Array? && i < |v.kids|
      ensures Some(o) == R.ArrayAt(reader, offset, i)
    {
      hide R.ContainerBody, ElementHolds;
      var body := R.ArrayBody(reader, offset).value;
      ItemInside(body.items, body.count, i);
      o := Load64(reader.base, body.items + i * ELEMENT_SIZE);
    }

    lemma ItemInside(items: nat, count: nat, i: nat)
      requires i < count && items + count * ELEMENT_SIZE <= |reader.base|
      ensures items + i * ELEMENT_SIZE + 8 <= |reader.base|
    {
    }

    method ExportBlock(offset: nat, depth: nat, ghost hash: Hash64, ghost v: Value) returns (ok: bool, ghost w: Value, ghost cut: seq<byte>)
      requires !writeFailed && R.Valid(reader) && Holds(reader, hash, offset, v) && v.Block?
      modifies this`output, this`writeFailed
      ensures ok == !writeFailed == Printable(v, st)
      ensures ok ==> Arranged(v, w, sortKeys) && output == old(output) + Print(w, depth, st)
      ensures !ok ==> Cut(v, cut, depth, st, sortKeys) && output == old(output) + cut
      decreases v, 0
    {
      hide R.ContainerBody, TableHolds, PrintFrom, ItemPrintable, ItemArranged, Front, Closing, Newline;
      var body := R.BlockBody(reader, offset).value;
      cut := [];
      if body.count == 0 {
        ok := WriteAll([0x7B, 0x7D]);
        w := v;
        NothingToArrange(sortKeys);
        return;
      }
      ok, w, cut := ExportTable(body.items, body.count, depth, hash, offset, v);
    }

    /** A table that is not empty: the root index, or a block's. */
    method ExportTable(items: nat, count: nat, depth: nat, ghost hash: Hash64, ghost floor: int, ghost v: Value)
      returns (ok: bool, ghost w: Value, ghost cut: seq<byte>)
      requires !writeFailed && R.Valid(reader) && v.Block? && count == |v.kids| > 0 && TableHolds(reader, hash, items, floor, v.kids)
      modifies this`output, this`writeFailed
      ensures ok == !writeFailed == Printable(v, st)
      ensures ok ==> Arranged(v, w, sortKeys) && output == old(output) + Print(w, depth, st)
      ensures !ok ==> Cut(v, cut, depth, st, sortKeys) && output == old(output) + cut
      decreases v, 0, 3
    {
      hide TableHolds, PrintFrom, ItemPrintable, ItemArranged, Front, Closing, Newline, OrderOf, Names;
      ghost var before := output;
      w, cut := v, [];
      ok := WriteAll([0x7B]);
      ok := WriteNewline();
      ghost var start := output;
      ghost var ps;
      var entries;
      entries, ps := SortedEntries(reader, items, count, sortKeys, hash, floor, v.kids);
      OrderKeeps(ps, v.kids, sortKeys);
      ghost var ws;
      ok, ws, cut := ExportMembers(entries[..], depth + 1, hash, v, ps);
      BlockFails(v, ps);
      if !ok {
        Associate4(before, [0x7B], Newline(st), cut);
        BlockIsCut(v, ps, cut, depth);
        cut := [0x7B] + Newline(st) + cut;
        return;
      }
      ok := WriteClosing(depth, true);
      w := Block(ws);
      BlockDone(v, ps, ws, sortKeys);
      FrontCloses(ws, depth + 1, true, st);
      Assembled(before, [0x7B], start, Front(ws, depth + 1, true, st), Closing(st, depth + 1, true), PrintFrom(ws, 0, depth + 1, true, st));
    }

    lemma BlockFails(v: Value, ps: seq<Member>)
      requires v.Block? && |ps| == |v.kids|
      requires (forall k :: 0 <= k < |ps| ==> ps[k] in v.kids) && forall k :: 0 <= k < |ps| ==> v.kids[k] in ps
      ensures (exists k :: 0 <= k < |ps| && !ItemPrintable(ps[k], true, st)) <==> !Printable(v, st)
    {
      hide ItemPrintable;
      if k :| 0 <= k < |ps| && !ItemPrintable(ps[k], true, st) {
        var j :| 0 <= j < |v.kids| && v.kids[j] == ps[k];
      }
      if !Printable(v, st) {
        var j :| 0 <= j < |v.kids| && !ItemPrintable(v.kids[j], true, st);
        var k :| 0 <= k < |ps| && ps[k] == v.kids[j];
      }
    }

    /** Prints the sorted entries, which name the members `ps`, one after the other. */
    method ExportMembers(entries: seq<SortEntry>, depth: nat, ghost hash: Hash64, ghost v: Value, ghost ps: seq<Member>)
      returns (ok: bool, ghost ws: seq<Member>, ghost cut: seq<byte>)
      requires !writeFailed && R.Valid(reader) && AllName(reader, hash, entries, ps)
      requires v.Block? && forall k :: 0 <= k < |ps| ==> ps[k] in v.kids
      modifies this`output, this`writeFailed
      ensures ok == !writeFailed
      ensures ok <==> forall k :: 0 <= k < |ps| ==> ItemPrintable(ps[k], true, st)
      ensures !ok ==> CutList(ps, v.kids, cut, depth, true, st, sortKeys) && output == old(output) + cut
      ensures ok ==> |ws| == |ps| && output == old(output) + Front(ws, depth, true, st)
      ensures ok ==> forall k :: 0 <= k < |ps| ==> ItemArranged(ps[k], ws[k], sortKeys)
      decreases v, 0, 2
    {
      hide Names, ItemPrintable, ItemArranged, Front, CutItem, CutList, Separator, PrintItem;
      ghost var before := output;
      ws, cut := [], [];
      ok := true;
      FrontNothing(output, depth, true);
      for i := 0 to |entries|
        invariant ok && !writeFailed && |ws| == i && output == old(output) + Front(ws, depth, true, st)
        invariant forall k :: 0 <= k < i ==> ItemPrintable(ps[k], true, st) && ItemArranged(ps[k], ws[k], sortKeys)
      {
        ghost var wi;
        ok, wi, cut := ExportMember(entries[i], i, depth, hash, v, ps[i]);
        if !ok {
          Associate(before, Front(ws, depth, true, st), Separator(st, i, depth) + cut);
          ListIsCut(ps, v.kids, ws, cut, depth, true);
          cut := Front(ws, depth, true, st) + (Separator(st, i, depth) + cut);
          return;
        }
        FrontGrows(output, old(output), ws, Member(ps[i].key, wi), depth, true);
        ws := ws + [Member(ps[i].key, wi)];
      }
    }

    method ExportMember(e: SortEntry, i: nat, depth: nat, ghost hash: Hash64, ghost v: Value, ghost m: Member)
      returns (ok: bool, ghost w: Value, ghost cut: seq<byte>)
      requires !writeFailed && R.Valid(reader) && Names(reader, hash, e, m) && v.Block? && m in v.kids
      modifies this`output, this`writeFailed
      ensures ok == !writeFailed == ItemPrintable(m, true, st)
      ensures ok ==> ItemArranged(m, Member(m.key, w), sortKeys)
      ensures ok ==> output == old(output) + (Separator(st, i, depth) + PrintItem(Member(m.key, w), depth, true, st))
      ensures !ok ==> CutItem(m, cut, depth, true, st, sortKeys) && output == old(output) + (Separator(st, i, depth) + cut)
      decreases v, 0, 1
    {
      hide Holds, Print, Printable, Arranged, Separator, Colon, StringText, JS.Quoted, JS.Started, Cut, CutItem;
      ghost var before := output;
      w := m.value;
      ok := WriteSeparator(i, depth);
      ok := WriteString(KeyOf(reader, e));
      if !ok {
        cut := JS.Started(m.key, st.asciiOnly);
        Associate(before, Separator(st, i, depth), cut);
        KeyIsCut(m, depth);
        return;
      }
      ok := WriteColon();
      Smaller(v, m);
      ok, w, cut := ExportValue(e.valueOffset, depth, hash, m.value);
      if ok {
        Associate5(before, Separator(st, i, depth), StringText(m.key, st), Colon(st), Print(w, depth, st));
      } else {
        Associate5(before, Separator(st, i, depth), StringText(m.key, st), Colon(st), cut);
        MemberIsCut(m, cut, depth);
        cut := StringText(m.key, st) + Colon(st) + cut;
      }
    }

    lemma KeyIsCut(m: Member, depth: nat)
      requires JS.Quoted(m.key, st.asciiOnly).None?
      ensures CutItem(m, JS.Started(m.key, st.asciiOnly), depth, true, st, sortKeys)
    {
    }

    lemma MemberIsCut(m: Member, rest: seq<byte>, depth: nat)
      requires JS.Quoted(m.key, st.asciiOnly).Some? && Cut(m.value, rest, depth, st, sortKeys)
      ensures CutItem(m, StringText(m.key, st) + Colon(st) + rest, depth, true, st, sortKeys)
    {
      hide Cut, StringText;
    }

    lemma ElementIsCut(m: Member, text: seq<byte>, depth: nat)
      requires Cut(m.value, text, depth, st, sortKeys)
      ensures CutItem(m, text, depth, false, st, sortKeys)
    {
      hide Cut;
      assert [] + text == text;
    }

    lemma ListIsCut(ps: seq<Member>, kids: seq<Member>, ws: seq<Member>, item: seq<byte>, depth: nat, keyed: bool)
      requires |ws| < |ps| && ps[|ws|] in kids && CutItem(ps[|ws|], item, depth, keyed, st, sortKeys)
      requires forall i :: 0 <= i < |ws| ==> ItemPrintable(ps[i], keyed, st) && ItemArranged(ps[i], ws[i], sortKeys)
      ensures CutList(ps, kids, Front(ws, depth, keyed, st) + (Separator(st, |ws|, depth) + item), depth, keyed, st, sortKeys)
    {
      hide ItemPrintable, ItemArranged, CutItem, Front, Separator;
      assert CutBehind(ps, kids, ws, item, Front(ws, depth, keyed, st) + (Separator(st, |ws|, depth) + item), depth, keyed, st, sortKeys);
    }

    lemma ArrayIsCut(v: Value, rest: seq<byte>, depth: nat)
      requires v.Array? && CutList(v.kids, v.kids, rest, depth + 1, false, st, sortKeys)
      ensures Cut(v, [0x5B] + Newline(st) + rest, depth, st, sortKeys)
    {
      hide CutList;
    }

    lemma BlockIsCut(v: Value, ps: seq<Member>, rest: seq<byte>, depth: nat)
      requires v.Block? && OrderOf(ps, v.kids, sortKeys) && CutList(ps, v.kids, rest, depth + 1, true, st, sortKeys)
      ensures Cut(v, [0x7B] + Newline(st) + rest, depth, st, sortKeys)
    {
      hide CutList, OrderOf;
    }

    method WriteColon() returns (ok: bool)
      requires !writeFailed
      modifies this`output
      ensures ok && output == old(output) + Colon(st)
    {
      ok := WriteAll(if st.indentSpaces == 0 then [0x3A] else [0x3A, 0x20]);
    }

    // ----- the document -----

    /** Prints a whole file that holds the document `doc`; fails exactly when some string cannot be decoded. */
    method ExportJson(ghost hash: Hash64, ghost doc: seq<Member>) returns (ok: bool, ghost printed: seq<Member>)
      requires !writeFailed && output == [] && R.Valid(reader) && reader.header.rootCount == |doc|
      requires TableHolds(reader, hash, reader.header.rootIndexOffset, 0, doc)
      modifies this`output, this`writeFailed
      ensures ok == !writeFailed == Printable(Block(doc), st)
      ensures ok ==> Arranged(Block(doc), Block(printed), sortKeys) && output == PrintDocument(printed, st)
      ensures !ok ==> Cut(Block(doc), output, 0, st, sortKeys)
    {
      hide TableHolds, PrintFrom, Printable, Arranged, Newline, Cut;
      printed := doc;
      if reader.header.rootCount == 0 {
        ok := WriteAll([0x7B, 0x7D]);
        ok := WriteNewline();
        NothingToArrange(sortKeys);
        EmptyPrintable();
        return;
      }
      ghost var w;
      ghost var cut;
      ok, w, cut := ExportTable(reader.header.rootIndexOffset, reader.header.rootCount, 0, hash, 0, Block(doc));
      if !ok {
        assert [] + cut == cut;
        return;
      }
      ArrangedIsBlock(doc, w);
      printed := w.kids;
      ok := WriteNewline();
      assert [] + Print(w, 0, st) == Print(w, 0, st);
    }

    lemma EmptyPrintable()
      ensures Printable(Block([]), st)
    {
    }

    lemma ArrangedIsBlock(doc: seq<Member>, w: Value)
      requires Arranged(Block(doc), w, sortKeys)
      ensures w.Block?
    {
    }
  }
}
