/** The JSON the exporter prints for a tree, and that it reads back as that tree. */
module JsonPrint {
  import opened Bytes
  import opened Document
  import opened JsonGrammar
  import opened Utf8
  import JS = JsonString

  // ----- what is printed -----

  /** The number formatters belong to another library; what is asked of them is NumbersOk. Floats are given as their bits. */
  datatype Numbers = Numbers(int64: i64 -> seq<byte>, uint64: u64 -> seq<byte>, float64: u64 -> seq<byte>)

  datatype Style = Style(indentSpaces: nat, asciiOnly: bool, numbers: Numbers)

  predicate IsFinite(bits: u64) {
    bits / 0x10_0000_0000_0000 % 0x800 != 0x7FF
  }

  ghost predicate NumbersOk(f: Numbers) {
    && (forall i: i64 :: IsNumber(f.int64(i)))
    && (forall u: u64 :: IsNumber(f.uint64(u)))
    && (forall bits: u64 :: IsFinite(bits) ==> IsNumber(f.float64(bits)))
  }

  predicate PointOrExponent(b: byte) {
    b == 0x2E || b == 0x65 || b == 0x45
  }

  predicate HasPoint(token: seq<byte>) {
    exists i :: 0 <= i < |token| && PointOrExponent(token[i])
  }

  /** A finite float always shows a point or an exponent; the others print as null. */
  function FloatText(bits: u64, f: Numbers): (text: seq<byte>) {
    if !IsFinite(bits) then NULL_WORD
    else if HasPoint(f.float64(bits)) then f.float64(bits)
    else f.float64(bits) + [0x2E, 0x30]
  }

  function StringText(s: Str, st: Style): (text: seq<byte>) {
    match JS.Quoted(s, st.asciiOnly)
    case Some(text) => text
    case None => []
  }

  function Spaces(n: nat): (text: seq<byte>)
    ensures |text| == n
  {
    seq(n, _ => 0x20)
  }

  function Newline(st: Style): (text: seq<byte>) {
    if st.indentSpaces == 0 then [] else [0x0A]
  }

  function Indent(st: Style, depth: nat): (text: seq<byte>) {
    Spaces(st.indentSpaces * depth)
  }

  function Colon(st: Style): (text: seq<byte>) {
    if st.indentSpaces == 0 then [0x3A] else [0x3A, 0x20]
  }

  /** What precedes item `k`. */
  function Separator(st: Style, k: nat, depth: nat): (text: seq<byte>) {
    (if k == 0 then [] else [0x2C] + Newline(st)) + Indent(st, depth)
  }

  /** What follows the last item: `depth` is the items' own. */
  function Closing(st: Style, depth: nat, keyed: bool): (text: seq<byte>) {
    Newline(st) + Indent(st, if depth == 0 then 0 else depth - 1) + [if keyed then 0x7D else 0x5D]
  }

  function Print(v: Value, depth: nat, st: Style): (text: seq<byte>)
    decreases v, 0
  {
    match v
    case Null => NULL_WORD
    case Bool(b) => if b then TRUE_WORD else FALSE_WORD
    case Int64(i) => st.numbers.int64(i)
    case UInt64(u) => st.numbers.uint64(u)
    case Float64(bits) => FloatText(bits, st.numbers)
    case String(s) => StringText(s, st)
    case Array(kids) => if kids == [] then [0x5B, 0x5D] else [0x5B] + Newline(st) + PrintFrom(kids, 0, depth + 1, false, st)
    case Block(kids) => if kids == [] then [0x7B, 0x7D] else [0x7B] + Newline(st) + PrintFrom(kids, 0, depth + 1, true, st)
  }

  function PrintItem(m: Member, depth: nat, keyed: bool, st: Style): (text: seq<byte>)
    decreases m, 1
  {
    (if keyed then StringText(m.key, st) + Colon(st) else []) + Print(m.value, depth, st)
  }

  /** Items from `k` on, with what closes them. */
  function PrintFrom(kids: seq<Member>, k: nat, depth: nat, keyed: bool, st: Style): (text: seq<byte>)
    decreases kids, 0, |kids| - k
  {
    if k >= |kids| then Closing(st, depth, keyed)
    else Separator(st, k, depth) + PrintItem(kids[k], depth, keyed, st) + PrintFrom(kids, k + 1, depth, keyed, st)
  }

  /** A whole document prints like a block, and a newline. */
  function PrintDocument(doc: seq<Member>, st: Style): (text: seq<byte>) {
    Print(Block(doc), 0, st) + Newline(st)
  }

  // ----- what it means -----

  /** Every string value, and every key under a block, is UTF-8. */
  ghost predicate AllUtf8(v: Value)
    decreases v, 0
  {
    match v
    case String(s) => IsUtf8(s)
    case Array(kids) => KidsUtf8(kids, false)
    case Block(kids) => KidsUtf8(kids, true)
    case _ => true
  }

  ghost predicate KidsUtf8(kids: seq<Member>, keyed: bool)
    decreases kids, 0
  {
    forall i :: 0 <= i < |kids| ==> (keyed ==> IsUtf8(kids[i].key)) && AllUtf8(kids[i].value)
  }

  ghost function Chars(s: Str): (cs: seq<Scalar>)
    requires IsUtf8(s)
    ensures Encode(cs) == s
  {
    var cs: seq<Scalar> :| Encode(cs) == s;
    cs
  }

  /** The tree as JSON: numbers as their tokens, NaN and infinities as null, members in the order they stand. */
  ghost function JsonOf(v: Value, st: Style): (j: Json)
    requires AllUtf8(v)
    decreases v, 0
  {
    match v
    case Null => JNull
    case Bool(b) => JBool(b)
    case Int64(i) => JNumber(st.numbers.int64(i))
    case UInt64(u) => JNumber(st.numbers.uint64(u))
    case Float64(bits) => if IsFinite(bits) then JNumber(FloatText(bits, st.numbers)) else JNull
    case String(s) => JString(Chars(s))
    case Array(kids) => JArray(ItemsFrom(kids, 0, st))
    case Block(kids) => JObject(MembersFrom(kids, 0, st))
  }

  ghost function ItemsFrom(kids: seq<Member>, k: nat, st: Style): (js: seq<Json>)
    requires KidsUtf8(kids, false)
    decreases kids, 0, |kids| - k
  {
    if k >= |kids| then [] else [JsonOf(kids[k].value, st)] + ItemsFrom(kids, k + 1, st)
  }

  ghost function MembersFrom(kids: seq<Member>, k: nat, st: Style): (js: seq<JMember>)
    requires KidsUtf8(kids, true)
    decreases kids, 0, |kids| - k
  {
    if k >= |kids| then [] else [JMember(Chars(kids[k].key), JsonOf(kids[k].value, st))] + MembersFrom(kids, k + 1, st)
  }
}
