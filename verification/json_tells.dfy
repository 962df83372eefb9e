/** What the printed text tells: everything but how a number or an absent number was stored. */
module JsonTells {
  import opened Bytes
  import opened Document
  import opened JsonGrammar
  import opened JsonPrint
  import opened Utf8
  import JsonRoundTrip

  // ----- what is not told -----

  /** A small unsigned number as the same signed one, NaN and infinities as null, array members without a key. */
  function Plain(v: Value): (w: Value)
    decreases v, 0
  {
    match v
    case UInt64(u) => if u < 0x8000_0000_0000_0000 then Int64(u) else v
    case Float64(bits) => if IsFinite(bits) then v else Null
    case Array(kids) => Array(PlainKids(kids, false))
    case Block(kids) => Block(PlainKids(kids, true))
    case _ => v
  }

  function PlainKids(kids: seq<Member>, keyed: bool): (r: seq<Member>)
    ensures |r| == |kids|
    decreases kids, 0
  {
    if kids == [] then []
    else
      var n := |kids| - 1;
      PlainKids(kids[..n], keyed) + [Member(if keyed then kids[n].key else [], Plain(kids[n].value))]
  }

  lemma {:induction false} PlainKidAt(kids: seq<Member>, keyed: bool, i: nat)
    requires i < |kids|
    ensures PlainKids(kids, keyed)[i] == Member(if keyed then kids[i].key else [], Plain(kids[i].value))
  {
    if i < |kids| - 1 {
      PlainKidAt(kids[..|kids| - 1], keyed, i);
    }
  }

  /** What is asked of the formatters: a token tells its number, alike for signed and unsigned ones, and integers show no point. */
  ghost predicate TellNumbers(f: Numbers) {
    && (forall i: i64, j: i64 :: f.int64(i) == f.int64(j) ==> i == j)
    && (forall u: u64, w: u64 :: f.uint64(u) == f.uint64(w) ==> u == w)
    && (forall i: i64, u: u64 :: f.int64(i) == f.uint64(u) <==> i == u)
    && (forall i: i64 :: !HasPoint(f.int64(i)))
    && (forall u: u64 :: !HasPoint(f.uint64(u)))
    && (forall a: u64, b: u64 :: IsFinite(a) && IsFinite(b) && FloatText(a, f) == FloatText(b, f) ==> a == b)
  }

  // ----- what is not told is not printed -----

  lemma {:induction false} PlainPrints(v: Value, depth: nat, st: Style)
    requires TellNumbers(st.numbers)
    ensures Print(Plain(v), depth, st) == Print(v, depth, st)
    decreases v, 1, 0
  {
    hide PrintFrom, FloatText, IsFinite, HasPoint;
    match v
    case UInt64(u) =>
      if u < 0x8000_0000_0000_0000 {
        var i: i64 := u;
        assert st.numbers.int64(i) == st.numbers.uint64(u);
      }
    case Float64(bits) =>
      if !IsFinite(bits) {
        JsonRoundTrip.NotFinite(bits, st.numbers);
      }
    case Array(kids) => PlainKidsPrint(kids, 0, depth + 1, false, st);
    case Block(kids) => PlainKidsPrint(kids, 0, depth + 1, true, st);
    case _ =>
  }

  lemma {:induction false} PlainKidsPrint(kids: seq<Member>, k: nat, depth: nat, keyed: bool, st: Style)
    requires TellNumbers(st.numbers)
    ensures PrintFrom(PlainKids(kids, keyed), k, depth, keyed, st) == PrintFrom(kids, k, depth, keyed, st)
    decreases kids, 0, |kids| - k
  {
    hide Print, StringText, PlainKids, Plain, TellNumbers, Separator, Closing;
    if k < |kids| {
      PlainKidAt(kids, keyed, k);
      PlainPrints(kids[k].value, depth, st);
      PlainKidsPrint(kids, k + 1, depth, keyed, st);
    }
  }

  // ----- the rest is told -----

  lemma {:induction false} PlainUtf8(v: Value)
    requires AllUtf8(v)
    ensures AllUtf8(Plain(v))
    decreases v, 1
  {
    hide IsUtf8, IsFinite;
    match v
    case Array(kids) => PlainKidsUtf8(kids, false);
    case Block(kids) => PlainKidsUtf8(kids, true);
    case _ =>
  }

  lemma {:induction false} PlainKidsUtf8(kids: seq<Member>, keyed: bool)
    requires KidsUtf8(kids, keyed)
    ensures KidsUtf8(PlainKids(kids, keyed), keyed)
    decreases kids, 0
  {
    hide IsUtf8, PlainKids, Plain;
    forall i | 0 <= i < |kids|
      ensures (keyed ==> IsUtf8(PlainKids(kids, keyed)[i].key)) && AllUtf8(PlainKids(kids, keyed)[i].value)
    {
      PlainKidAt(kids, keyed, i);
      PlainUtf8(kids[i].value);
    }
  }

  /** Nothing in the tree is told otherwise than it is stored. */
  ghost predicate IsPlain(v: Value)
    decreases v, 0
  {
    match v
    case UInt64(u) => u >= 0x8000_0000_0000_0000
    case Float64(bits) => IsFinite(bits)
    case Array(kids) => KidsPlain(kids, false)
    case Block(kids) => KidsPlain(kids, true)
    case _ => true
  }

  ghost predicate KidsPlain(kids: seq<Member>, keyed: bool)
    decreases kids, 0
  {
    forall i :: 0 <= i < |kids| ==> (!keyed ==> kids[i].key == []) && IsPlain(kids[i].value)
  }

  lemma {:induction false} PlainIsPlain(v: Value)
    ensures IsPlain(Plain(v))
    decreases v, 1
  {
    hide IsFinite;
    match v
    case Array(kids) => PlainKidsArePlain(kids, false);
    case Block(kids) => PlainKidsArePlain(kids, true);
    case _ =>
  }

  lemma {:induction false} PlainKidsArePlain(kids: seq<Member>, keyed: bool)
    ensures KidsPlain(PlainKids(kids, keyed), keyed)
    decreases kids, 0
  {
    hide PlainKids, Plain;
    forall i | 0 <= i < |kids|
      ensures (!keyed ==> PlainKids(kids, keyed)[i].key == []) && IsPlain(PlainKids(kids, keyed)[i].value)
    {
      PlainKidAt(kids, keyed, i);
      PlainIsPlain(kids[i].value);
    }
  }

  /** A float's token is no integer's. */
  lemma FloatHasPoint(bits: u64, f: Numbers)
    requires IsFinite(bits)
    ensures HasPoint(FloatText(bits, f))
  {
    var t := f.float64(bits);
    if !HasPoint(t) {
      assert FloatText(bits, f)[|t|] == 0x2E;
    }
  }

  lemma {:induction false} LeafTells(v: Value, w: Value, st: Style)
    requires AllUtf8(v) && AllUtf8(w) && IsPlain(v) && IsPlain(w) && TellNumbers(st.numbers)
    requires JsonOf(v, st) == JsonOf(w, st) && !v.IsContainer()
    ensures v == w
  {
    hide HasPoint, FloatText, IsFinite, IsUtf8;
    if v.Float64? {
      FloatHasPoint(v.bits, st.numbers);
    }
    if w.Float64? {
      FloatHasPoint(w.bits, st.numbers);
    }
    if v.String? && w.String? {
      assert Encode(Chars(v.s)) == Encode(Chars(w.s));
    }
  }

  /** Different plain trees have different JSON values. */
  lemma {:induction false} TreeTells(v: Value, w: Value, st: Style)
    requires AllUtf8(v) && AllUtf8(w) && IsPlain(v) && IsPlain(w) && TellNumbers(st.numbers)
    requires JsonOf(v, st) == JsonOf(w, st)
    ensures v == w
    decreases v, 1, 0
  {
    hide TellNumbers, IsUtf8, ItemsFrom, MembersFrom;
    match v
    case Array(kids) =>
      assert w.Array?;
      ItemsTell(kids, w.kids, 0, st);
    case Block(kids) =>
      assert w.Block?;
      MembersTell(kids, w.kids, 0, st);
    case _ => LeafTells(v, w, st);
  }

  lemma SameHeads<T>(x: T, xs: seq<T>, y: T, ys: seq<T>)
    requires [x] + xs == [y] + ys
    ensures x == y && xs == ys
  {
    assert x == ([x] + xs)[0] && y == ([y] + ys)[0];
    assert xs == ([x] + xs)[1..] && ys == ([y] + ys)[1..];
  }

  lemma {:induction false} ItemsTell(a: seq<Member>, b: seq<Member>, k: nat, st: Style)
    requires KidsUtf8(a, false) && KidsUtf8(b, false) && KidsPlain(a, false) && KidsPlain(b, false) && TellNumbers(st.numbers)
    requires k <= |a| && k <= |b| && ItemsFrom(a, k, st) == ItemsFrom(b, k, st)
    ensures |a| == |b| && a[k..] == b[k..]
    decreases a, 0, |a| - k
  {
    hide TellNumbers, IsUtf8, JsonOf;
    if k < |a| {
      SameHeads(JsonOf(a[k].value, st), ItemsFrom(a, k + 1, st), JsonOf(b[k].value, st), ItemsFrom(b, k + 1, st));
      TreeTells(a[k].value, b[k].value, st);
      ItemsTell(a, b, k + 1, st);
      assert a[k..] == [a[k]] + a[k + 1..] && b[k..] == [b[k]] + b[k + 1..];
    }
  }

  lemma {:induction false} MembersTell(a: seq<Member>, b: seq<Member>, k: nat, st: Style)
    requires KidsUtf8(a, true) && KidsUtf8(b, true) && KidsPlain(a, true) && KidsPlain(b, true) && TellNumbers(st.numbers)
    requires k <= |a| && k <= |b| && MembersFrom(a, k, st) == MembersFrom(b, k, st)
    ensures |a| == |b| && a[k..] == b[k..]
    decreases a, 0, |a| - k
  {
    hide TellNumbers, IsUtf8, JsonOf;
    if k < |a| {
      SameHeads(JMember(Chars(a[k].key), JsonOf(a[k].value, st)), MembersFrom(a, k + 1, st),
                JMember(Chars(b[k].key), JsonOf(b[k].value, st)), MembersFrom(b, k + 1, st));
      assert Encode(Chars(a[k].key)) == Encode(Chars(b[k].key));
      TreeTells(a[k].value, b[k].value, st);
      MembersTell(a, b, k + 1, st);
      assert a[k..] == [a[k]] + a[k + 1..] && b[k..] == [b[k]] + b[k + 1..];
    }
  }

  /**
   * The text tells the document: two documents of UTF-8 strings print alike, in one style, if and only if they differ
   * only in how a number below 2^63 is stored, and in null, NaN and infinities.
   */
  lemma TextTells(a: seq<Member>, b: seq<Member>, st: Style)
    requires KidsUtf8(a, true) && KidsUtf8(b, true) && NumbersOk(st.numbers) && TellNumbers(st.numbers)
    ensures PrintDocument(a, st) == PrintDocument(b, st) <==> Plain(Block(a)) == Plain(Block(b))
  {
    hide Print, NumbersOk, TellNumbers, KidsUtf8, PlainKids, Parse, JsonOf, IsPlain;
    PlainPrints(Block(a), 0, st);
    PlainPrints(Block(b), 0, st);
    if PrintDocument(a, st) == PrintDocument(b, st) {
      PlainKidsUtf8(a, true);
      PlainKidsUtf8(b, true);
      JsonRoundTrip.DocumentReads(PlainKids(a, true), st);
      JsonRoundTrip.DocumentReads(PlainKids(b, true), st);
      PlainIsPlain(Block(a));
      PlainIsPlain(Block(b));
      BlockUtf8(PlainKids(a, true));
      BlockUtf8(PlainKids(b, true));
      TreeTells(Plain(Block(a)), Plain(Block(b)), st);
    }
  }

  lemma BlockUtf8(kids: seq<Member>)
    requires KidsUtf8(kids, true)
    ensures AllUtf8(Block(kids))
  {
  }
}
