/** The whole file a document is encoded to. */
module Encode {
  import opened Bytes
  import opened Document
  import opened Format
  import opened PoolLayout
  import opened StableSort
  import L = Layout

  // ----- the strings, in the order they are interned -----

  /** What the collecting pass interns: each non-empty key, each string value, depth first. */
  function Collected(v: Value): (r: seq<Str>)
    decreases v, 0
  {
    match v
    case String(s) => [s]
    case Array(kids) => CollectedKids(kids)
    case Block(kids) => CollectedKids(kids)
    case _ => []
  }

  function CollectedKids(kids: seq<Member>): (r: seq<Str>)
    decreases kids, 0
  {
    if kids == [] then []
    else
      var n := |kids| - 1;
      CollectedKids(kids[..n]) + CollectedMember(kids[n])
  }

  function CollectedMember(m: Member): (r: seq<Str>)
    decreases m, 1
  {
    (if m.key == [] then [] else [m.key]) + Collected(m.value)
  }

  /** What emission still interns: the empty key, for every keyed member without a key. */
  function EmptyKeys(v: Value): (r: seq<Str>)
    decreases v, 0
  {
    match v
    case Array(kids) => EmptyKeysOf(kids, false)
    case Block(kids) => EmptyKeysOf(kids, true)
    case _ => []
  }

  function EmptyKeysOf(kids: seq<Member>, keyed: bool): (r: seq<Str>)
    decreases kids, 0
  {
    if kids == [] then []
    else
      var n := |kids| - 1;
      EmptyKeysOf(kids[..n], keyed) + EmptyKeysOfMember(kids[n], keyed)
  }

  function EmptyKeysOfMember(m: Member, keyed: bool): (r: seq<Str>)
    decreases m, 1
  {
    (if keyed && m.key == [] then [[]] else []) + EmptyKeys(m.value)
  }

  /** The pool after both passes. */
  function Strings(doc: seq<Member>): (r: seq<Str>) {
    InternAll(InternAll([], CollectedKids(doc)), EmptyKeysOf(doc, true))
  }

  // ----- the file -----

  function NodesBase(doc: seq<Member>): (n: nat)
    ensures n % 8 == 0
  {
    HEADER_SIZE + ENTRY_SIZE * |doc|
  }

  function StringsOffset(doc: seq<Member>): (n: nat) {
    NodesBase(doc) + L.KidsSize(doc, 0)
  }

  function FileContext(doc: seq<Member>, hash: Hash64): (c: L.Context) {
    L.Context(NodesBase(doc), Strings(doc), StringsOffset(doc), hash)
  }

  function RootIndex(doc: seq<Member>, hash: Hash64): (r: seq<byte>)
    ensures |r| == ENTRY_SIZE * |doc|
  {
    L.EntriesBytes(StableSorted(L.Pending(doc, 0, FileContext(doc, hash))), StringsOffset(doc))
  }

  function Nodes(doc: seq<Member>, hash: Hash64): (r: seq<byte>) {
    L.EmitKids(doc, 0, FileContext(doc, hash))
  }

  /** Everything the checksum covers. */
  function Payload(doc: seq<Member>, hash: Hash64): (r: seq<byte>) {
    RootIndex(doc, hash) + Nodes(doc, hash) + PoolBytes(Strings(doc))
  }

  function U64(n: nat): (r: u64) {
    n % TWO_64
  }

  function FileSize(doc: seq<Member>): (n: nat) {
    StringsOffset(doc) + |PoolBytes(Strings(doc))| + FOOTER_SIZE
  }

  function FileHeader(doc: seq<Member>, hash: Hash64): (h: Header) {
    Header(MAGIC, VERSION_MAJOR, VERSION_MINOR, U64(FileSize(doc)), FLAGS_REQUIRED,
           U64(|doc|), HEADER_SIZE, U64(ENTRY_SIZE * |doc|), U64(NodesBase(doc)), U64(L.KidsSize(doc, 0)),
           U64(StringsOffset(doc)), U64(|PoolBytes(Strings(doc))|), U64(|Strings(doc)|),
           U64(StringsOffset(doc) + |PoolBytes(Strings(doc))|), hash(Payload(doc, hash)), Zeros(24))
  }

  function FileFooter(doc: seq<Member>, hash: Hash64): (f: Footer) {
    Footer(hash(Payload(doc, hash)), U64(FileSize(doc)), MAGIC)
  }

  function File(doc: seq<Member>, hash: Hash64): (r: seq<byte>) {
    HeaderBytes(FileHeader(doc, hash)) + Payload(doc, hash) + FooterBytes(FileFooter(doc, hash))
  }

  // ----- sizes -----

  lemma FileLength(doc: seq<Member>, hash: Hash64)
    ensures |File(doc, hash)| == FileSize(doc)
    ensures |Nodes(doc, hash)| == L.KidsSize(doc, 0)
    ensures |Payload(doc, hash)| == FileSize(doc) - HEADER_SIZE - FOOTER_SIZE
  {
    L.EmitKidsSize(doc, 0, FileContext(doc, hash));
  }

  /** The pieces of the file, where they stand. */
  lemma FileParts(doc: seq<Member>, hash: Hash64, data: seq<byte>)
    requires data == File(doc, hash)
    ensures At(data, 0, HeaderBytes(FileHeader(doc, hash)))
    ensures At(data, HEADER_SIZE, Payload(doc, hash))
    ensures At(data, HEADER_SIZE, RootIndex(doc, hash))
    ensures At(data, NodesBase(doc), Nodes(doc, hash))
    ensures At(data, StringsOffset(doc), PoolBytes(Strings(doc)))
    ensures At(data, StringsOffset(doc) + |PoolBytes(Strings(doc))|, FooterBytes(FileFooter(doc, hash)))
  {
    hide HeaderBytes, FooterBytes, RootIndex, Nodes, FileHeader, FileFooter, PoolBytes, Strings;
    FileLength(doc, hash);
    assert At(data, 0, HeaderBytes(FileHeader(doc, hash)) + Payload(doc, hash) + FooterBytes(FileFooter(doc, hash)));
    AtParts(data, 0, HeaderBytes(FileHeader(doc, hash)), Payload(doc, hash), FooterBytes(FileFooter(doc, hash)));
    AtParts(data, HEADER_SIZE, RootIndex(doc, hash), Nodes(doc, hash), PoolBytes(Strings(doc)));
  }

  // ----- the pool holds every string the layout refers to -----

  lemma {:induction false} CollectedIsKnown(v: Value, strings: seq<Str>)
    requires forall s :: s in Collected(v) + EmptyKeys(v) ==> s in strings
    ensures L.Known(v, strings)
    decreases v, 0
  {
    match v
    case String(s) => assert s in Collected(v);
    case Array(kids) => CollectedKidsKnown(kids, false, strings);
    case Block(kids) => CollectedKidsKnown(kids, true, strings);
    case _ =>
  }

  lemma {:induction false} CollectedKidsKnown(kids: seq<Member>, keyed: bool, strings: seq<Str>)
    requires forall s :: s in CollectedKids(kids) + EmptyKeysOf(kids, keyed) ==> s in strings
    ensures L.KidsKnown(kids, keyed, strings)
    decreases kids, 0
  {
    if kids != [] {
      var n := |kids| - 1;
      assert forall s :: s in CollectedKids(kids[..n]) + EmptyKeysOf(kids[..n], keyed) ==>
        s in CollectedKids(kids) + EmptyKeysOf(kids, keyed);
      CollectedKidsKnown(kids[..n], keyed, strings);
      assert forall s :: s in CollectedMember(kids[n]) + EmptyKeysOfMember(kids[n], keyed) ==>
        s in CollectedKids(kids) + EmptyKeysOf(kids, keyed);
      CollectedMemberKnown(kids[n], keyed, strings);
    }
  }

  lemma {:induction false} CollectedMemberKnown(m: Member, keyed: bool, strings: seq<Str>)
    requires forall s :: s in CollectedMember(m) + EmptyKeysOfMember(m, keyed) ==> s in strings
    ensures (keyed ==> m.key in strings) && L.Known(m.value, strings)
    decreases m, 1
  {
    assert forall s :: s in Collected(m.value) + EmptyKeys(m.value) ==> s in CollectedMember(m) + EmptyKeysOfMember(m, keyed);
    CollectedIsKnown(m.value, strings);
    if keyed {
      assert m.key in CollectedMember(m) + EmptyKeysOfMember(m, keyed);
    }
  }

  lemma CollectsNext(ms: seq<Member>, m: Member)
    ensures CollectedKids(ms + [m]) == CollectedKids(ms) + CollectedMember(m)
    ensures EmptyKeysOf(ms + [m], true) == EmptyKeysOf(ms, true) + EmptyKeysOfMember(m, true)
  {
    assert (ms + [m])[..|ms|] == ms;
  }

  lemma NothingCollected()
    ensures CollectedKids([]) == [] && EmptyKeysOf([], true) == []
  {
  }

  /** Every key and string value of the document is in the pool, once. */
  lemma DocumentKnown(doc: seq<Member>)
    ensures L.KidsKnown(doc, true, Strings(doc))
    ensures Distinct(Strings(doc))
    ensures forall s :: s in Strings(doc) <==> s in CollectedKids(doc) || s in EmptyKeysOf(doc, true)
  {
    InternAllIsSet([], CollectedKids(doc));
    InternAllIsSet(InternAll([], CollectedKids(doc)), EmptyKeysOf(doc, true));
    CollectedKidsKnown(doc, true, Strings(doc));
  }

  // ----- the file opens and reads -----

  lemma HeaderReads(doc: seq<Member>, hash: Hash64, data: seq<byte>)
    requires data == File(doc, hash) && |data| < TWO_64
    ensures |data| == FileSize(doc)
    ensures LoadHeader(data) == FileHeader(doc, hash)
    ensures var h := LoadHeader(data);
      && LayoutOk(h) && NoWrap(h) && h.fileSize == |data|
      && h.rootCount == |doc| && h.nodesOffset == NodesBase(doc) && h.nodesSize == L.KidsSize(doc, 0)
      && h.stringsOffset == StringsOffset(doc) && h.stringsSize == |PoolBytes(Strings(doc))|
      && h.stringsCount == |Strings(doc)| && h.footerOffset == StringsOffset(doc) + |PoolBytes(Strings(doc))|
  {
    FileLength(doc, hash);
    FileParts(doc, hash, data);
    HeaderRoundTrip(data, FileHeader(doc, hash));
    PoolSize(Strings(doc));
    HeaderNumbers(doc, hash);
  }

  lemma HeaderNumbers(doc: seq<Member>, hash: Hash64)
    requires FileSize(doc) < TWO_64 && |Strings(doc)| <= FileSize(doc)
    ensures var h := FileHeader(doc, hash);
      && LayoutOk(h) && NoWrap(h) && h.fileSize == FileSize(doc)
      && h.rootCount == |doc| && h.nodesOffset == NodesBase(doc) && h.nodesSize == L.KidsSize(doc, 0)
      && h.stringsOffset == StringsOffset(doc) && h.stringsSize == |PoolBytes(Strings(doc))|
      && h.stringsCount == |Strings(doc)| && h.footerOffset == StringsOffset(doc) + |PoolBytes(Strings(doc))|
  {
    hide L.KidsSize, PoolBytes, Strings, Payload;
    SmallMod(FileSize(doc));
    SmallMod(|doc|);
    SmallMod(ENTRY_SIZE * |doc|);
    SmallMod(NodesBase(doc));
    SmallMod(L.KidsSize(doc, 0));
    SmallMod(StringsOffset(doc));
    SmallMod(|PoolBytes(Strings(doc))|);
    SmallMod(|Strings(doc)|);
    SmallMod(StringsOffset(doc) + |PoolBytes(Strings(doc))|);
  }
}
