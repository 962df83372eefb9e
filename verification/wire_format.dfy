/** What a written file holds, word for word and with its numbers written out: independent of how the encoder lays it out. */
module WireFormat {
  import opened Bytes
  import opened Document
  import opened Format

  /** The bytes of a file, where its pool starts, the strings of the pool in order, and the hash of keys. */
  datatype Image = Image(data: seq<byte>, pool: nat, strings: seq<Str>, hash: Hash64)

  predicate AllZero(data: seq<byte>, from: nat, to: nat)
    requires to <= |data|
  {
    forall i :: from <= i < to ==> data[i] == 0
  }

  // ----- the pool -----

  /** A length word, the bytes, zeros up to a multiple of four. */
  function RecordLength(s: Str): (n: nat) {
    4 + |s| + (4 - |s| % 4) % 4
  }

  /** The bytes of the first `j` records. */
  function RecordsBefore(strings: seq<Str>, j: nat): (n: nat)
    requires j <= |strings|
  {
    if j == 0 then 0 else RecordsBefore(strings, j - 1) + RecordLength(strings[j - 1])
  }

  ghost predicate RecordStands(f: Image, j: nat)
    requires j < |f.strings|
  {
    var s, o := f.strings[j], f.pool + RecordsBefore(f.strings, j);
    && o + RecordLength(s) <= |f.data|
    && Load32(f.data, o) == |s| % 0x1_0000_0000
    && f.data[o + 4..o + 4 + |s|] == s
    && AllZero(f.data, o + 4 + |s|, o + RecordLength(s))
  }

  ghost predicate PoolStands(f: Image) {
    forall j :: 0 <= j < |f.strings| ==> RecordStands(f, j)
  }

  /** A reference to a string: where its record is in the file, then its length, in 32 bits each. */
  ghost predicate Refers(f: Image, o: nat, s: Str) {
    && o + 8 <= |f.data|
    && Load32(f.data, o + 4) == |s| % 0x1_0000_0000
    && exists j :: 0 <= j < |f.strings| && f.strings[j] == s && RecordIsAt(f, j, Load32(f.data, o))
  }

  predicate RecordIsAt(f: Image, j: nat, word: u32)
    requires j < |f.strings|
  {
    word == (f.pool + RecordsBefore(f.strings, j)) % 0x1_0000_0000
  }

  // ----- nodes -----

  predicate KindIs(b: byte, v: Value) {
    match v
    case Null => b == 0x00
    case Bool(true) => b == 0x02
    case Bool(false) => b == 0x01
    case Int64(_) => b == 0x03
    case UInt64(_) => b == 0x04
    case Float64(_) => b == 0x05
    case String(_) => b == 0x06
    case Block(_) => b == 0x10
    case Array(_) => b == 0x11
  }

  /** The kind byte of a value whose turn comes at `a`: at once, or just before a multiple of four, or of eight. */
  function Place(v: Value, a: nat): (o: nat)
    ensures a <= o
  {
    match v
    case Null => a
    case Bool(_) => a
    case String(_) => a + (3 - a % 4)
    case _ => a + (7 - a % 8)
  }

  /** What comes behind the value and all that is below it. */
  function End(v: Value, a: nat): (e: nat)
    ensures e > Place(v, a)
    ensures v.Int64? || v.UInt64? || v.Float64? || v.String? ==> e == Place(v, a) + 9
    ensures v.Array? ==> e >= Place(v, a) + 9 + 8 * |v.kids|
    ensures v.Block? ==> e >= Place(v, a) + 9 + 24 * |v.kids|
    decreases v, 0
  {
    match v
    case Null => Place(v, a) + 1
    case Bool(_) => Place(v, a) + 1
    case Array(kids) => KidsEnd(kids, Place(v, a) + 9 + 8 * |kids|)
    case Block(kids) => KidsEnd(kids, Place(v, a) + 9 + 24 * |kids|)
    case _ => Place(v, a) + 9
  }

  /** What comes behind children that follow one another from `a` on. */
  function KidsEnd(kids: seq<Member>, a: nat): (e: nat)
    ensures e >= a
    decreases kids, 0
  {
    if kids == [] then a else End(kids[|kids| - 1].value, KidsEnd(kids[..|kids| - 1], a))
  }

  /** Where the turn of child `k` comes. */
  function Start(kids: seq<Member>, k: nat, a: nat): (b: nat)
    requires k < |kids|
  {
    KidsEnd(kids[..k], a)
  }

  /** Members stand in their table by the hash of their keys, members of one hash in the order they were added. */
  predicate Precedes(kids: seq<Member>, i: nat, k: nat, hash: Hash64)
    requires i < |kids| && k < |kids|
  {
    hash(kids[i].key) < hash(kids[k].key) || (hash(kids[i].key) == hash(kids[k].key) && i < k)
  }

  /** How many of the first `n` members precede member `k`. */
  function Preceding(kids: seq<Member>, n: nat, k: nat, hash: Hash64): (r: nat)
    requires n <= |kids| && k < |kids|
    ensures r <= n
  {
    if n == 0 then 0 else Preceding(kids, n - 1, k, hash) + if Precedes(kids, n - 1, k, hash) then 1 else 0
  }

  function Rank(kids: seq<Member>, k: nat, hash: Hash64): (r: nat)
    requires k < |kids|
  {
    Preceding(kids, |kids|, k, hash)
  }

  /** An entry of a table: the hash of the key, the key, where the value's kind byte is. */
  ghost predicate EntryStands(f: Image, o: nat, m: Member, place: nat) {
    && o + 24 <= |f.data|
    && Load64(f.data, o) == f.hash(m.key)
    && Refers(f, o + 8, m.key)
    && Load64(f.data, o + 16) == place % 0x1_0000_0000_0000_0000
  }

  /** The table at `o` of members whose turns come from `a` on. */
  ghost predicate TableStands(f: Image, o: nat, kids: seq<Member>, a: nat) {
    forall k :: 0 <= k < |kids| ==> MemberStands(f, o, kids, k, a)
  }

  ghost predicate MemberStands(f: Image, o: nat, kids: seq<Member>, k: nat, a: nat)
    requires k < |kids|
  {
    EntryStands(f, o + 24 * Rank(kids, k, f.hash), kids[k], Place(kids[k].value, Start(kids, k, a)))
  }

  /** The offsets at `o` of children whose turns come from `a` on. */
  ghost predicate ElementsStand(f: Image, o: nat, kids: seq<Member>, a: nat) {
    forall k :: 0 <= k < |kids| ==> ElementStands(f, o, kids, k, a)
  }

  ghost predicate ElementStands(f: Image, o: nat, kids: seq<Member>, k: nat, a: nat)
    requires k < |kids|
  {
    o + 8 * k + 8 <= |f.data| && Load64(f.data, o + 8 * k) == Place(kids[k].value, Start(kids, k, a)) % 0x1_0000_0000_0000_0000
  }

  /** How many children, and how many bytes their table takes. */
  ghost predicate CountsStand(f: Image, o: nat, count: nat, bytes: nat) {
    && o + 8 <= |f.data|
    && Load32(f.data, o) == count % 0x1_0000_0000
    && Load32(f.data, o + 4) == bytes % 0x1_0000_0000
  }

  /** What is behind the kind byte of a value that is no container. */
  ghost predicate BodyStands(f: Image, o: nat, v: Value) {
    match v
    case Int64(i) => o + 8 <= |f.data| && Load64(f.data, o) == i % 0x1_0000_0000_0000_0000
    case UInt64(u) => o + 8 <= |f.data| && Load64(f.data, o) == u
    case Float64(bits) => o + 8 <= |f.data| && Load64(f.data, o) == bits
    case String(s) => Refers(f, o, s)
    case _ => true
  }

  ghost predicate KindStands(f: Image, v: Value, a: nat) {
    && End(v, a) <= |f.data|
    && AllZero(f.data, a, Place(v, a))
    && KindIs(f.data[Place(v, a)], v)
  }

  /** The value whose turn comes at `a`, with all that is below it: children behind the table, in the order they were added. */
  ghost predicate Stands(f: Image, v: Value, a: nat)
    decreases v, 1
  {
    var body := Place(v, a) + 1;
    && KindStands(f, v, a)
    && match v
       case Array(kids) =>
         && CountsStand(f, body, |kids|, 8 * |kids|)
         && ElementsStand(f, body + 8, kids, body + 8 + 8 * |kids|)
         && KidsStand(f, kids, body + 8 + 8 * |kids|)
       case Block(kids) =>
         && CountsStand(f, body, |kids|, 24 * |kids|)
         && TableStands(f, body + 8, kids, body + 8 + 24 * |kids|)
         && KidsStand(f, kids, body + 8 + 24 * |kids|)
       case _ => BodyStands(f, body, v)
  }

  ghost predicate KidsStand(f: Image, kids: seq<Member>, a: nat)
    decreases kids, 0
  {
    forall k :: 0 <= k < |kids| ==> Stands(f, kids[k].value, Start(kids, k, a))
  }

  // ----- which strings -----

  /** Keys and string values as they come: a member's key, if any, before what its value mentions, members in order. */
  function Mentions(kids: seq<Member>): (r: seq<Str>)
    decreases kids, 0
  {
    if kids == [] then []
    else (if kids[0].key == [] then [] else [kids[0].key]) + MentionsOf(kids[0].value) + Mentions(kids[1..])
  }

  function MentionsOf(v: Value): (r: seq<Str>)
    decreases v, 1
  {
    if v.String? then [v.s] else if v.Array? || v.Block? then Mentions(v.kids) else []
  }

  /** Some root, or member of a block, has no key. */
  predicate HasEmptyKey(kids: seq<Member>, keyed: bool)
    decreases kids, 0
  {
    exists k :: 0 <= k < |kids| && EmptyKeyIn(kids[k], keyed)
  }

  predicate EmptyKeyIn(m: Member, keyed: bool)
    decreases m, 2
  {
    (keyed && m.key == []) || EmptyKeyBelow(m.value)
  }

  predicate EmptyKeyBelow(v: Value)
    decreases v, 1
  {
    (v.Array? && HasEmptyKey(v.kids, false)) || (v.Block? && HasEmptyKey(v.kids, true))
  }

  /** `s` comes up before `t` does. */
  ghost predicate ComesFirst(mentions: seq<Str>, s: Str, t: Str) {
    exists i :: 0 <= i < |mentions| && mentions[i] == s && t !in mentions[..i]
  }

  /** Each string once, in the order they first come up; the empty key behind all others, unless it is a string value, too. */
  ghost predicate Lists(strings: seq<Str>, doc: seq<Member>) {
    && (forall s :: s in strings <==> s in Mentions(doc) || (s == [] && HasEmptyKey(doc, true)))
    && (forall i, j :: 0 <= i < j < |strings| ==> strings[i] != strings[j] && ComesFirst(Mentions(doc), strings[i], strings[j]))
  }

  // ----- the whole file -----

  /** Magic, version, flags; sizes and offsets of root index, nodes, pool and footer; the checksum of all between header and footer. */
  ghost predicate HeaderStands(f: Image, roots: nat, footer: nat) {
    && 128 + 24 * roots <= f.pool <= footer && |f.data| == footer + 32
    && Load32(f.data, 0) == 0x4C42_5248
    && Load16(f.data, 4) == 1 && Load16(f.data, 6) == 0
    && Load64(f.data, 8) == |f.data| % 0x1_0000_0000_0000_0000
    && Load64(f.data, 16) == 0xF
    && Load64(f.data, 24) == roots % 0x1_0000_0000_0000_0000
    && Load64(f.data, 32) == 128
    && Load64(f.data, 40) == 24 * roots % 0x1_0000_0000_0000_0000
    && Load64(f.data, 48) == (128 + 24 * roots) % 0x1_0000_0000_0000_0000
    && Load64(f.data, 56) == (f.pool - (128 + 24 * roots)) % 0x1_0000_0000_0000_0000
    && Load64(f.data, 64) == f.pool % 0x1_0000_0000_0000_0000
    && Load64(f.data, 72) == (footer - f.pool) % 0x1_0000_0000_0000_0000
    && Load64(f.data, 80) == |f.strings| % 0x1_0000_0000_0000_0000
    && Load64(f.data, 88) == footer % 0x1_0000_0000_0000_0000
    && Load64(f.data, 96) == f.hash(f.data[128..footer])
    && AllZero(f.data, 104, 128)
  }

  /** The checksum and the size again, the magic, zeros. */
  ghost predicate FooterStands(f: Image, footer: nat) {
    && 128 <= footer && |f.data| == footer + 32
    && Load64(f.data, footer) == f.hash(f.data[128..footer])
    && Load64(f.data, footer + 8) == |f.data| % 0x1_0000_0000_0000_0000
    && Load32(f.data, footer + 16) == 0x4C42_5248
    && AllZero(f.data, footer + 20, footer + 32)
  }

  /** The file of a document: root index behind the header, then the roots' nodes, the pool, the footer. */
  ghost predicate IsFileOf(f: Image, doc: seq<Member>) {
    var nodes := 128 + 24 * |doc|;
    var footer := f.pool + RecordsBefore(f.strings, |f.strings|);
    && f.pool == KidsEnd(doc, nodes)
    && HeaderStands(f, |doc|, footer)
    && TableStands(f, 128, doc, nodes)
    && KidsStand(f, doc, nodes)
    && Lists(f.strings, doc) && PoolStands(f)
    && FooterStands(f, footer)
  }
}
