/** JSON export read back: the grammar finds the printed tree in the printed text. */
module JsonRoundTrip {
  import opened Bytes
  import opened Document
  import opened JsonGrammar
  import opened JsonPrint
  import opened Options
  import opened Sequences
  import opened Utf8
  import JS = JsonString

  // ----- places in a text -----

  /** White space up to a byte that is none is skipped. */
  lemma {:induction false} SpaceSkipped(text: seq<byte>, i: nat, space: seq<byte>)
    requires At(text, i, space) && (forall k :: 0 <= k < |space| ==> IsSpace(space[k]))
    requires i + |space| < |text| ==> !IsSpace(text[i + |space|])
    ensures SkipSpace(text, i) == i + |space|
    decreases |space|
  {
    if space != [] {
      assert space == [space[0]] + space[1..];
      AtTwo(text, i, [space[0]], space[1..]);
      ByteAt(text, i, space[0]);
      SpaceSkipped(text, i + 1, space[1..]);
    }
  }

  lemma LayoutIsSpace(st: Style, depth: nat)
    ensures forall k :: 0 <= k < |Newline(st) + Indent(st, depth)| ==> IsSpace((Newline(st) + Indent(st, depth))[k])
    ensures forall k :: 0 <= k < |Indent(st, depth)| ==> IsSpace(Indent(st, depth)[k])
    ensures forall k :: 0 <= k < |Newline(st)| ==> IsSpace(Newline(st)[k])
  {
  }

  /** A number may not run on: whatever stands at `i` cannot belong to one. */
  ghost predicate Ends(text: seq<byte>, i: nat) {
    i < |text| ==> !IsNumberByte(text[i])
  }

  /** How a value starts: neither with space nor like the end of a list. */
  predicate StartByte(b: byte) {
    !IsSpace(b) && b != 0x5D && b != 0x7D && b != 0x2C
  }

  // ----- leaves -----

  lemma {:induction false} NoPointRun(token: seq<byte>)
    requires !HasPoint(token)
    ensures NumberRun(token) in {Start, Minus, Zero, Integer, Bad}
  {
    if token != [] {
      var n := |token| - 1;
      assert forall i :: 0 <= i < n ==> token[..n][i] == token[i];
      NoPointRun(token[..n]);
      assert !PointOrExponent(token[n]);
    }
  }

  lemma NumberSnoc(token: seq<byte>, b: byte)
    ensures NumberRun(token + [b]) == NumberStep(NumberRun(token), b)
  {
    assert (token + [b])[..|token|] == token;
  }

  /** Appending ".0" to an integer gives a number. */
  lemma FloatIsNumber(bits: u64, f: Numbers)
    requires NumbersOk(f) && IsFinite(bits)
    ensures IsNumber(FloatText(bits, f))
  {
    var t := f.float64(bits);
    if !HasPoint(t) {
      NoPointRun(t);
      NumberSnoc(t, 0x2E);
      NumberSnoc(t + [0x2E], 0x30);
      assert t + [0x2E] + [0x30] == t + [0x2E, 0x30];
    }
  }

  /** A number token starts like a number, and no other leaf does. */
  lemma NumberStart(token: seq<byte>)
    requires IsNumber(token)
    ensures token != [] && IsNumberByte(token[0])
  {
    NumberBytes(token, 0);
  }

  lemma NumberReads(text: seq<byte>, i: nat, token: seq<byte>)
    requires At(text, i, token) && IsNumber(token) && Ends(text, i + |token|)
    ensures ValueAt(text, i) == Some(Read(JNumber(token), i + |token|))
  {
    NumberStart(token);
    forall k | i <= k < i + |token|
      ensures IsNumberByte(text[k])
    {
      NumberBytes(token, k - i);
      assert text[i..i + |token|][k - i] == text[k];
    }
    TokenEnds(text, i, i + |token|);
    NotAWord(text, i);
  }

  lemma WordStarts(text: seq<byte>, i: nat, word: seq<byte>)
    requires word != []
    ensures HasWord(text, i, word) ==> text[i] == word[0]
  {
    assert HasWord(text, i, word) ==> text[i..i + |word|][0] == text[i];
  }

  lemma NotAWord(text: seq<byte>, i: nat)
    requires i < |text| && text[i] != 0x6E && text[i] != 0x74 && text[i] != 0x66
    ensures !HasWord(text, i, NULL_WORD) && !HasWord(text, i, TRUE_WORD) && !HasWord(text, i, FALSE_WORD)
  {
    WordStarts(text, i, NULL_WORD);
    WordStarts(text, i, TRUE_WORD);
    WordStarts(text, i, FALSE_WORD);
  }

  lemma WordReads(text: seq<byte>, i: nat)
    ensures At(text, i, NULL_WORD) ==> ValueAt(text, i) == Some(Read(JNull, i + 4))
    ensures At(text, i, TRUE_WORD) ==> ValueAt(text, i) == Some(Read(JBool(true), i + 4))
    ensures At(text, i, FALSE_WORD) ==> ValueAt(text, i) == Some(Read(JBool(false), i + 5))
  {
    if At(text, i, NULL_WORD) {
      assert text[i] == text[i..i + 4][0];
    }
    if At(text, i, TRUE_WORD) {
      assert text[i] == text[i..i + 4][0];
    }
    if At(text, i, FALSE_WORD) {
      assert text[i] == text[i..i + 5][0];
    }
  }

  lemma TextReads(text: seq<byte>, i: nat, s: Str, st: Style)
    requires IsUtf8(s) && At(text, i, StringText(s, st))
    ensures i < |text| && text[i] == 0x22 && StringAt(text, i) == Some(Read(Chars(s), i + |StringText(s, st)|))
  {
    hide CharsAt, JS.Quoted, Chars, JS.EscapeAll;
    JS.QuotedScalars(Chars(s), st.asciiOnly);
    QuotedReads(text, i, Chars(s), st.asciiOnly);
  }

  lemma StringValueReads(text: seq<byte>, i: nat, s: Str, st: Style)
    requires IsUtf8(s) && At(text, i, StringText(s, st))
    ensures ValueAt(text, i) == Some(Read(JString(Chars(s)), i + |StringText(s, st)|))
  {
    hide StringAt, StringText, Chars;
    TextReads(text, i, s, st);
    NotAWord(text, i);
  }

  lemma LeafReads(text: seq<byte>, i: nat, v: Value, depth: nat, st: Style)
    requires !v.IsContainer() && At(text, i, Print(v, depth, st)) && AllUtf8(v) && NumbersOk(st.numbers)
    requires Ends(text, i + |Print(v, depth, st)|)
    ensures ValueAt(text, i) == Some(Read(JsonOf(v, st), i + |Print(v, depth, st)|))
  {
    hide ValueAt, FloatText, StringText, IsNumber, IsFinite, Chars;
    match v
    case Null => WordReads(text, i);
    case Bool(_) => WordReads(text, i);
    case Int64(n) => NumberReads(text, i, st.numbers.int64(n));
    case UInt64(n) => NumberReads(text, i, st.numbers.uint64(n));
    case Float64(bits) =>
      if IsFinite(bits) {
        FloatIsNumber(bits, st.numbers);
        NumberReads(text, i, FloatText(bits, st.numbers));
      } else {
        NotFinite(bits, st.numbers);
        WordReads(text, i);
      }
    case String(s) => StringValueReads(text, i, s, st);
  }

  lemma NotFinite(bits: u64, f: Numbers)
    requires !IsFinite(bits)
    ensures FloatText(bits, f) == NULL_WORD
  {
  }

  /** How the print of a value starts. */
  lemma PrintStarts(v: Value, depth: nat, st: Style)
    requires AllUtf8(v) && NumbersOk(st.numbers)
    ensures Print(v, depth, st) != [] && StartByte(Print(v, depth, st)[0])
  {
    hide PrintFrom, IsFinite, IsNumber, HasPoint;
    match v
    case Int64(n) => NumberStart(st.numbers.int64(n));
    case UInt64(n) => NumberStart(st.numbers.uint64(n));
    case Float64(bits) =>
      if IsFinite(bits) {
        FloatIsNumber(bits, st.numbers);
        NumberStart(FloatText(bits, st.numbers));
      } else {
        NotFinite(bits, st.numbers);
      }
    case String(s) => JS.QuotedScalars(Chars(s), st.asciiOnly);
    case _ =>
  }

  // ----- lists -----

  /** What follows an item: its first byte is white space, a comma or a closing bracket. */
  lemma RestStarts(kids: seq<Member>, k: nat, depth: nat, keyed: bool, st: Style)
    requires k > 0
    ensures PrintFrom(kids, k, depth, keyed, st) != []
    ensures !IsNumberByte(PrintFrom(kids, k, depth, keyed, st)[0])
  {
    hide Print, PrintItem;
    if k < |kids| {
      assert Separator(st, k, depth)[0] == 0x2C;
    } else if st.indentSpaces == 0 {
      NoIndent(st, if depth == 0 then 0 else depth - 1);
    }
  }

  lemma NoIndent(st: Style, depth: nat)
    requires st.indentSpaces == 0
    ensures Indent(st, depth) == []
  {
  }

  /** The rest of a list after its last item is skipped to the closing bracket. */
  lemma ClosingReads(text: seq<byte>, i: nat, depth: nat, keyed: bool, st: Style)
    requires At(text, i, Closing(st, depth, keyed))
    ensures var after := SkipSpace(text, i);
      Has(text, after, if keyed then 0x7D else 0x5D) && after + 1 == i + |Closing(st, depth, keyed)|
  {
    hide Newline, Indent;
    var d := if depth == 0 then 0 else depth - 1;
    var close: byte := if keyed then 0x7D else 0x5D;
    LayoutIsSpace(st, d);
    AtTwo(text, i, Newline(st) + Indent(st, d), [close]);
    ByteAt(text, i + |Newline(st) + Indent(st, d)|, close);
    SpaceSkipped(text, i, Newline(st) + Indent(st, d));
  }

  /** A comma and the layout before the next item. */
  lemma SeparatorReads(text: seq<byte>, i: nat, k: nat, depth: nat, st: Style)
    requires k > 0 && At(text, i, Separator(st, k, depth))
    requires var end := i + |Separator(st, k, depth)|; end < |text| && !IsSpace(text[end])
    ensures SkipSpace(text, i) == i && Has(text, i, 0x2C) && SkipSpace(text, i + 1) == i + |Separator(st, k, depth)|
  {
    hide Newline, Indent;
    var layout := Newline(st) + Indent(st, depth);
    assert Separator(st, k, depth) == [0x2C] + layout;
    AtTwo(text, i, [0x2C], layout);
    ByteAt(text, i, 0x2C);
    LayoutIsSpace(st, depth);
    SpaceSkipped(text, i + 1, layout);
  }

  lemma FirstByteThere(text: seq<byte>, i: nat, piece: seq<byte>)
    requires At(text, i, piece) && piece != []
    ensures i < |text| && text[i] == piece[0]
  {
    assert text[i..i + |piece|][0] == text[i];
  }

  lemma KidUtf8(kids: seq<Member>, keyed: bool, k: nat)
    requires KidsUtf8(kids, keyed) && k < |kids|
    ensures (keyed ==> IsUtf8(kids[k].key)) && AllUtf8(kids[k].value)
  {
  }

  lemma ItemStarts(m: Member, depth: nat, keyed: bool, st: Style)
    requires (keyed ==> IsUtf8(m.key)) && AllUtf8(m.value) && NumbersOk(st.numbers)
    ensures PrintItem(m, depth, keyed, st) != [] && StartByte(PrintItem(m, depth, keyed, st)[0])
  {
    hide Print, NumbersOk, AllUtf8, IsUtf8;
    if keyed {
      JS.QuotedScalars(Chars(m.key), st.asciiOnly);
    } else {
      PrintStarts(m.value, depth, st);
      assert [] + Print(m.value, depth, st) == Print(m.value, depth, st);
    }
  }

  // ----- one step of the grammar's lists -----

  lemma LastItem(text: seq<byte>, i: nat, j: Json, end: nat)
    requires i <= |text| && end <= |text| && ValueAt(text, i) == Some(Read(j, end)) && Has(text, SkipSpace(text, end), 0x5D)
    ensures ItemsAt(text, i) == Some(Read([j], SkipSpace(text, end) + 1))
  {
    hide ValueAt;
  }

  lemma NextItem(text: seq<byte>, i: nat, j: Json, end: nat, next: nat, rest: seq<Json>, last: nat)
    requires i <= |text| && end <= |text| && next <= |text| && ValueAt(text, i) == Some(Read(j, end))
    requires SkipSpace(text, end) == end && Has(text, end, 0x2C) && SkipSpace(text, end + 1) == next
    requires ItemsAt(text, next) == Some(Read(rest, last))
    ensures ItemsAt(text, i) == Some(Read([j] + rest, last))
  {
    hide ValueAt;
  }

  lemma LastMember(text: seq<byte>, i: nat, m: JMember, end: nat)
    requires i <= |text| && end <= |text| && MemberAt(text, i) == Some(Read(m, end)) && Has(text, SkipSpace(text, end), 0x7D)
    ensures MembersAt(text, i) == Some(Read([m], SkipSpace(text, end) + 1))
  {
    hide MemberAt;
  }

  lemma NextMember(text: seq<byte>, i: nat, m: JMember, end: nat, next: nat, rest: seq<JMember>, last: nat)
    requires i <= |text| && end <= |text| && next <= |text| && MemberAt(text, i) == Some(Read(m, end))
    requires SkipSpace(text, end) == end && Has(text, end, 0x2C) && SkipSpace(text, end + 1) == next
    requires MembersAt(text, next) == Some(Read(rest, last))
    ensures MembersAt(text, i) == Some(Read([m] + rest, last))
  {
    hide MemberAt;
  }

  lemma ArrayOpens(text: seq<byte>, i: nat, first: nat, items: seq<Json>, end: nat)
    requires Has(text, i, 0x5B) && SkipSpace(text, i + 1) == first && !Has(text, first, 0x5D)
    requires ItemsAt(text, first) == Some(Read(items, end))
    ensures ValueAt(text, i) == Some(Read(JArray(items), end))
  {
    hide ItemsAt;
  }

  lemma ObjectOpens(text: seq<byte>, i: nat, first: nat, members: seq<JMember>, end: nat)
    requires Has(text, i, 0x7B) && SkipSpace(text, i + 1) == first && !Has(text, first, 0x7D)
    requires MembersAt(text, first) == Some(Read(members, end))
    ensures ValueAt(text, i) == Some(Read(JObject(members), end))
  {
    hide MembersAt;
  }

  lemma ItemsFromStep(kids: seq<Member>, k: nat, st: Style)
    requires k < |kids| && KidsUtf8(kids, false)
    ensures k + 1 < |kids| ==> ItemsFrom(kids, k, st) == [JsonOf(kids[k].value, st)] + ItemsFrom(kids, k + 1, st)
    ensures k + 1 == |kids| ==> ItemsFrom(kids, k, st) == [JsonOf(kids[k].value, st)]
  {
    hide JsonOf;
    KidUtf8(kids, false, k);
    if k + 1 == |kids| {
      assert ItemsFrom(kids, k + 1, st) == [];
    }
  }

  lemma MembersFromStep(kids: seq<Member>, k: nat, st: Style)
    requires k < |kids| && KidsUtf8(kids, true)
    ensures var m := JMember(Chars(kids[k].key), JsonOf(kids[k].value, st));
      && (k + 1 < |kids| ==> MembersFrom(kids, k, st) == [m] + MembersFrom(kids, k + 1, st))
      && (k + 1 == |kids| ==> MembersFrom(kids, k, st) == [m])
  {
    hide JsonOf, Chars;
    KidUtf8(kids, true, k);
    if k + 1 == |kids| {
      assert MembersFrom(kids, k + 1, st) == [];
    }
  }

  /** A list's items, read from item `k` on. */
  lemma {:induction false} ItemsRead(text: seq<byte>, i: nat, kids: seq<Member>, k: nat, depth: nat, st: Style)
    requires k < |kids| && KidsUtf8(kids, false) && NumbersOk(st.numbers)
    requires At(text, i, PrintItem(kids[k], depth, false, st) + PrintFrom(kids, k + 1, depth, false, st))
    ensures ItemsAt(text, i) ==
      Some(Read(ItemsFrom(kids, k, st), i + |PrintItem(kids[k], depth, false, st)| + |PrintFrom(kids, k + 1, depth, false, st)|))
    decreases kids, 0, |kids| - k
  {
    hide ItemsFrom, ItemsAt, ValueAt, Print, PrintItem, PrintFrom, JsonOf, Separator, Closing, NumbersOk, AllUtf8, KidsUtf8, SkipSpace;
    var item, rest := PrintItem(kids[k], depth, false, st), PrintFrom(kids, k + 1, depth, false, st);
    var end := i + |item|;
    AtTwo(text, i, item, rest);
    KidUtf8(kids, false, k);
    ItemsFromStep(kids, k, st);
    RestStarts(kids, k + 1, depth, false, st);
    FirstByteThere(text, end, rest);
    ItemValueReads(text, i, kids[k], depth, st);
    if k + 1 == |kids| {
      LastRest(kids, depth, false, st);
      ClosingReads(text, end, depth, false, st);
      LastItem(text, i, JsonOf(kids[k].value, st), end);
    } else {
      NextRest(text, end, kids, k + 1, depth, false, st);
      var next := end + |Separator(st, k + 1, depth)|;
      ItemsRead(text, next, kids, k + 1, depth, st);
      NextItem(text, i, JsonOf(kids[k].value, st), end, next, ItemsFrom(kids, k + 1, st), end + |rest|);
    }
  }

  lemma ItemValueReads(text: seq<byte>, i: nat, m: Member, depth: nat, st: Style)
    requires AllUtf8(m.value) && NumbersOk(st.numbers) && At(text, i, PrintItem(m, depth, false, st))
    requires Ends(text, i + |PrintItem(m, depth, false, st)|)
    ensures ValueAt(text, i) == Some(Read(JsonOf(m.value, st), i + |PrintItem(m, depth, false, st)|))
    decreases m, 1
  {
    hide ValueAt, Print, JsonOf;
    assert [] + Print(m.value, depth, st) == Print(m.value, depth, st);
    assert PrintItem(m, depth, false, st) == Print(m.value, depth, st);
    ValueReads(text, i, m.value, depth, st);
  }

  lemma LastRest(kids: seq<Member>, depth: nat, keyed: bool, st: Style)
    ensures PrintFrom(kids, |kids|, depth, keyed, st) == Closing(st, depth, keyed)
  {
  }

  /** Between two items: the comma, and where the next item starts. */
  lemma NextRest(text: seq<byte>, i: nat, kids: seq<Member>, k: nat, depth: nat, keyed: bool, st: Style)
    requires 0 < k < |kids| && KidsUtf8(kids, keyed) && NumbersOk(st.numbers)
    requires At(text, i, PrintFrom(kids, k, depth, keyed, st))
    ensures var next := i + |Separator(st, k, depth)|;
      && SkipSpace(text, i) == i && Has(text, i, 0x2C) && SkipSpace(text, i + 1) == next
      && At(text, next, PrintItem(kids[k], depth, keyed, st) + PrintFrom(kids, k + 1, depth, keyed, st))
      && |PrintFrom(kids, k, depth, keyed, st)| ==
           |Separator(st, k, depth)| + |PrintItem(kids[k], depth, keyed, st)| + |PrintFrom(kids, k + 1, depth, keyed, st)|
  {
    hide PrintItem, Separator, NumbersOk, AllUtf8, KidsUtf8;
    var sep, item, rest := Separator(st, k, depth), PrintItem(kids[k], depth, keyed, st), PrintFrom(kids, k + 1, depth, keyed, st);
    assert PrintFrom(kids, k, depth, keyed, st) == sep + item + rest == sep + (item + rest);
    AtTwo(text, i, sep, item + rest);
    KidUtf8(kids, keyed, k);
    ItemStarts(kids[k], depth, keyed, st);
    FirstByteThere(text, i + |sep|, item + rest);
    SeparatorReads(text, i, k, depth, st);
  }

  /** An object's members, read from member `k` on. */
  lemma {:induction false} MembersRead(text: seq<byte>, i: nat, kids: seq<Member>, k: nat, depth: nat, st: Style)
    requires k < |kids| && KidsUtf8(kids, true) && NumbersOk(st.numbers)
    requires At(text, i, PrintItem(kids[k], depth, true, st) + PrintFrom(kids, k + 1, depth, true, st))
    ensures MembersAt(text, i) ==
      Some(Read(MembersFrom(kids, k, st), i + |PrintItem(kids[k], depth, true, st)| + |PrintFrom(kids, k + 1, depth, true, st)|))
    decreases kids, 0, |kids| - k
  {
    hide MembersFrom, MembersAt, MemberAt, Print, PrintItem, PrintFrom, JsonOf, Separator, Closing, NumbersOk, AllUtf8, KidsUtf8, Chars, SkipSpace;
    var item, rest := PrintItem(kids[k], depth, true, st), PrintFrom(kids, k + 1, depth, true, st);
    var end := i + |item|;
    AtTwo(text, i, item, rest);
    KidUtf8(kids, true, k);
    MembersFromStep(kids, k, st);
    RestStarts(kids, k + 1, depth, true, st);
    FirstByteThere(text, end, rest);
    MemberReads(text, i, kids[k], depth, st);
    if k + 1 == |kids| {
      LastRest(kids, depth, true, st);
      ClosingReads(text, end, depth, true, st);
      LastMember(text, i, JMember(Chars(kids[k].key), JsonOf(kids[k].value, st)), end);
    } else {
      NextRest(text, end, kids, k + 1, depth, true, st);
      var next := end + |Separator(st, k + 1, depth)|;
      MembersRead(text, next, kids, k + 1, depth, st);
      NextMember(text, i, JMember(Chars(kids[k].key), JsonOf(kids[k].value, st)), end, next, MembersFrom(kids, k + 1, st), end + |rest|);
    }
  }

  lemma ColonReads(text: seq<byte>, i: nat, st: Style)
    requires At(text, i, Colon(st)) && (i + |Colon(st)| < |text| ==> !IsSpace(text[i + |Colon(st)|]))
    ensures SkipSpace(text, i) == i && Has(text, i, 0x3A) && SkipSpace(text, i + 1) == i + |Colon(st)|
  {
    FirstByteThere(text, i, Colon(st));
    if st.indentSpaces != 0 {
      assert text[i..i + 2][1] == text[i + 1];
    }
  }

  lemma MemberReads(text: seq<byte>, i: nat, m: Member, depth: nat, st: Style)
    requires IsUtf8(m.key) && AllUtf8(m.value) && NumbersOk(st.numbers) && At(text, i, PrintItem(m, depth, true, st))
    requires Ends(text, i + |PrintItem(m, depth, true, st)|)
    ensures MemberAt(text, i) == Some(Read(JMember(Chars(m.key), JsonOf(m.value, st)), i + |PrintItem(m, depth, true, st)|))
    decreases m, 1
  {
    hide ValueAt, Print, JsonOf, StringAt, StringText, Colon, NumbersOk, AllUtf8, IsUtf8, Chars;
    var name, colon, value := StringText(m.key, st), Colon(st), Print(m.value, depth, st);
    assert PrintItem(m, depth, true, st) == name + colon + value;
    AtParts(text, i, name, colon, value);
    TextReads(text, i, m.key, st);
    PrintStarts(m.value, depth, st);
    FirstByteThere(text, i + |name| + |colon|, value);
    ColonReads(text, i + |name|, st);
    ValueReads(text, i + |name| + |colon|, m.value, depth, st);
  }

  // ----- values -----

  lemma {:induction false} ValueReads(text: seq<byte>, i: nat, v: Value, depth: nat, st: Style)
    requires At(text, i, Print(v, depth, st)) && AllUtf8(v) && NumbersOk(st.numbers)
    requires Ends(text, i + |Print(v, depth, st)|)
    ensures ValueAt(text, i) == Some(Read(JsonOf(v, st), i + |Print(v, depth, st)|))
    decreases v, 0
  {
    hide ValueAt, PrintFrom, ItemsFrom, MembersFrom, NumbersOk, KidsUtf8, At, Ends, StringText, FloatText, IsFinite;
    if !v.IsContainer() {
      LeafReads(text, i, v, depth, st);
    } else if v.kids == [] {
      EmptyContainerReads(text, i, v, depth, st);
    } else if v.Array? {
      ArrayReads(text, i, v.kids, depth, st);
    } else {
      ObjectReads(text, i, v.kids, depth, st);
    }
  }

  lemma ArrayReads(text: seq<byte>, i: nat, kids: seq<Member>, depth: nat, st: Style)
    requires kids != [] && At(text, i, Print(Array(kids), depth, st)) && KidsUtf8(kids, false) && NumbersOk(st.numbers)
    ensures ValueAt(text, i) == Some(Read(JArray(ItemsFrom(kids, 0, st)), i + |Print(Array(kids), depth, st)|))
    decreases kids, 1
  {
    hide ValueAt, ItemsAt, PrintFrom, PrintItem, NumbersOk, KidsUtf8, ItemsFrom, Newline, Indent;
    var first := i + 1 + |Newline(st)| + |Indent(st, depth + 1)|;
    OpeningReads(text, i, 0x5B, kids, depth + 1, false, st);
    ItemsRead(text, first, kids, 0, depth + 1, st);
    ArrayOpens(text, i, first, ItemsFrom(kids, 0, st), i + |Print(Array(kids), depth, st)|);
  }

  lemma ObjectReads(text: seq<byte>, i: nat, kids: seq<Member>, depth: nat, st: Style)
    requires kids != [] && At(text, i, Print(Block(kids), depth, st)) && KidsUtf8(kids, true) && NumbersOk(st.numbers)
    ensures ValueAt(text, i) == Some(Read(JObject(MembersFrom(kids, 0, st)), i + |Print(Block(kids), depth, st)|))
    decreases kids, 1
  {
    hide ValueAt, MembersAt, PrintFrom, PrintItem, NumbersOk, KidsUtf8, MembersFrom, Newline, Indent;
    var first := i + 1 + |Newline(st)| + |Indent(st, depth + 1)|;
    OpeningReads(text, i, 0x7B, kids, depth + 1, true, st);
    MembersRead(text, first, kids, 0, depth + 1, st);
    ObjectOpens(text, i, first, MembersFrom(kids, 0, st), i + |Print(Block(kids), depth, st)|);
  }

  lemma EmptyContainerReads(text: seq<byte>, i: nat, v: Value, depth: nat, st: Style)
    requires v.IsContainer() && v.kids == [] && AllUtf8(v) && At(text, i, Print(v, depth, st))
    ensures ValueAt(text, i) == Some(Read(JsonOf(v, st), i + |Print(v, depth, st)|))
  {
    hide ValueAt, At;
    EmptyReads(text, i);
  }

  lemma EmptyReads(text: seq<byte>, i: nat)
    ensures At(text, i, [0x5B, 0x5D]) ==> ValueAt(text, i) == Some(Read(JArray([]), i + 2))
    ensures At(text, i, [0x7B, 0x7D]) ==> ValueAt(text, i) == Some(Read(JObject([]), i + 2))
  {
    if At(text, i, [0x5B, 0x5D]) {
      assert text[i..i + 2][0] == text[i] && text[i..i + 2][1] == text[i + 1];
    }
    if At(text, i, [0x7B, 0x7D]) {
      assert text[i..i + 2][0] == text[i] && text[i..i + 2][1] == text[i + 1];
    }
  }

  lemma FirstRest(kids: seq<Member>, depth: nat, keyed: bool, st: Style)
    requires kids != []
    ensures PrintFrom(kids, 0, depth, keyed, st) ==
      Indent(st, depth) + (PrintItem(kids[0], depth, keyed, st) + PrintFrom(kids, 1, depth, keyed, st))
  {
    hide PrintItem, Newline, Indent;
    var item, rest := PrintItem(kids[0], depth, keyed, st), PrintFrom(kids, 1, depth, keyed, st);
    assert Separator(st, 0, depth) == [] + Indent(st, depth) == Indent(st, depth);
    assert Indent(st, depth) + item + rest == Indent(st, depth) + (item + rest);
  }

  /** From the opening bracket to the first item. */
  lemma OpeningReads(text: seq<byte>, i: nat, open: byte, kids: seq<Member>, depth: nat, keyed: bool, st: Style)
    requires kids != [] && KidsUtf8(kids, keyed) && NumbersOk(st.numbers)
    requires At(text, i, [open] + Newline(st) + PrintFrom(kids, 0, depth, keyed, st))
    ensures var first := i + 1 + |Newline(st)| + |Indent(st, depth)|;
      && Has(text, i, open) && SkipSpace(text, i + 1) == first && first < |text| && StartByte(text[first])
      && At(text, first, PrintItem(kids[0], depth, keyed, st) + PrintFrom(kids, 1, depth, keyed, st))
      && |PrintFrom(kids, 0, depth, keyed, st)| ==
           |Indent(st, depth)| + |PrintItem(kids[0], depth, keyed, st)| + |PrintFrom(kids, 1, depth, keyed, st)|
  {
    hide PrintItem, PrintFrom, Newline, Indent, NumbersOk, AllUtf8, KidsUtf8;
    var layout := Newline(st) + Indent(st, depth);
    var item, rest := PrintItem(kids[0], depth, keyed, st), PrintFrom(kids, 1, depth, keyed, st);
    FirstRest(kids, depth, keyed, st);
    Associate4([open], Newline(st), Indent(st, depth), item + rest);
    AtTwo(text, i, [open], layout + (item + rest));
    ByteAt(text, i, open);
    AtTwo(text, i + 1, layout, item + rest);
    KidUtf8(kids, keyed, 0);
    ItemStarts(kids[0], depth, keyed, st);
    FirstByteThere(text, i + 1 + |layout|, item + rest);
    LayoutIsSpace(st, depth);
    SpaceSkipped(text, i + 1, layout);
  }

  /** The printed document parses, and to the document's tree. */
  lemma DocumentReads(doc: seq<Member>, st: Style)
    requires KidsUtf8(doc, true) && NumbersOk(st.numbers)
    ensures Parse(PrintDocument(doc, st)) == Some(JsonOf(Block(doc), st))
  {
    hide ValueAt, Print, JsonOf, NumbersOk, KidsUtf8, Newline;
    var text, body := PrintDocument(doc, st), Print(Block(doc), 0, st);
    assert AllUtf8(Block(doc));
    assert text[..|body|] == body && text[|body|..] == Newline(st);
    PrintStarts(Block(doc), 0, st);
    NewlineEnds(text, body, st);
    ValueReads(text, 0, Block(doc), 0, st);
  }

  lemma NewlineEnds(text: seq<byte>, body: seq<byte>, st: Style)
    requires text == body + Newline(st) && body != [] && StartByte(body[0])
    ensures At(text, 0, body) && Ends(text, |body|) && SkipSpace(text, 0) == 0 && SkipSpace(text, |body|) == |text|
  {
    assert text[0..|body|] == body;
    assert text[|body|..] == Newline(st);
  }

  // ----- the text of a leaf -----

  /** A float is an infinity or no number at all. */
  predicate HasTopExponent(bits: u64) {
    bits / 0x10_0000_0000_0000 % 0x800 == 2047
  }

  predicate ShowsPoint(token: seq<byte>) {
    exists i :: 0 <= i < |token| && token[i] in {0x2E, 0x65, 0x45}
  }

  /** Every leaf's text, byte for byte; ".0" is appended to a float whose text shows neither point nor exponent. */
  lemma LeafTable(v: Value, depth: nat, st: Style)
    ensures v == Null ==> Print(v, depth, st) == [0x6E, 0x75, 0x6C, 0x6C]
    ensures v == Bool(true) ==> Print(v, depth, st) == [0x74, 0x72, 0x75, 0x65]
    ensures v == Bool(false) ==> Print(v, depth, st) == [0x66, 0x61, 0x6C, 0x73, 0x65]
    ensures v.Int64? ==> Print(v, depth, st) == st.numbers.int64(v.i)
    ensures v.UInt64? ==> Print(v, depth, st) == st.numbers.uint64(v.u)
    ensures v.Float64? && HasTopExponent(v.bits) ==> Print(v, depth, st) == [0x6E, 0x75, 0x6C, 0x6C]
    ensures v.Float64? && !HasTopExponent(v.bits) && ShowsPoint(st.numbers.float64(v.bits)) ==>
      Print(v, depth, st) == st.numbers.float64(v.bits)
    ensures v.Float64? && !HasTopExponent(v.bits) && !ShowsPoint(st.numbers.float64(v.bits)) ==>
      Print(v, depth, st) == st.numbers.float64(v.bits) + [0x2E, 0x30]
  {
    if v.Float64? {
      var token := st.numbers.float64(v.bits);
      assert forall i :: 0 <= i < |token| ==> (token[i] in {0x2E, 0x65, 0x45} <==> PointOrExponent(token[i]));
      assert HasPoint(token) <==> ShowsPoint(token);
    }
  }
}
