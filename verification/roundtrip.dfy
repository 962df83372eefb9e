/** Decoding an encoded file gives the document back, every block in hash order. */
module RoundTrip {
  import opened Bytes
  import opened Canonical
  import opened Document
  import opened Format
  import opened Options
  import opened PoolLayout
  import opened ReadBack
  import opened StableSort
  import E = Encode
  import L = Layout
  import R = Reader

  // ----- decoding with the reader's accessors -----

  /** The value at `offset`. The guard that children lie behind their parent makes the recursion end on any buffer;
      on a written file it never fires. */
  function Decode(r: R.Handle, offset: nat): (v: Option<Value>)
    requires R.Valid(r)
    decreases |r.base| - offset, 1, 0
  {
    match R.KindAt(r, offset)
    case None => None
    case Some(kind) =>
      if kind == 0x00 then Some(Null)
      else if kind == 0x01 || kind == 0x02 then Some(Bool(kind == 0x02))
      else if kind == 0x10 then
        match R.BlockBody(r, offset)
        case None => None
        case Some(body) => Wrap(DecodeEntries(r, offset, body.items, body.count), true)
      else if kind == 0x11 then
        match R.ArrayBody(r, offset)
        case None => None
        case Some(body) => Wrap(DecodeElements(r, offset, body.count), false)
      else DecodeScalar(r, offset, kind)
  }

  function Wrap(kids: Option<seq<Member>>, block: bool): (v: Option<Value>) {
    match kids
    case None => None
    case Some(ms) => Some(if block then Block(ms) else Array(ms))
  }

  function DecodeScalar(r: R.Handle, offset: nat, kind: byte): (v: Option<Value>)
    requires R.Valid(r) && 0x03 <= kind
  {
    match kind
    case 0x03 => (match R.Int64At(r, offset) case None => None case Some(i) => Some(Int64(i)))
    case 0x04 => (match R.Word64At(r, offset, 0x04) case None => None case Some(u) => Some(UInt64(u)))
    case 0x05 => (match R.Word64At(r, offset, 0x05) case None => None case Some(bits) => Some(Float64(bits)))
    case 0x06 => (match R.StringAt(r, offset) case None => None case Some(s) => Some(String(s)))
    case _ => None
  }

  /** The first `n` entries of the table at `items`, whose values must lie behind `floor`. */
  function DecodeEntries(r: R.Handle, floor: nat, items: nat, n: nat): (ms: Option<seq<Member>>)
    requires R.Valid(r)
    decreases |r.base| - floor, 0, n
  {
    if n == 0 then Some([])
    else
      match DecodeEntries(r, floor, items, n - 1)
      case None => None
      case Some(ms) =>
        match R.ReadEntry(r, items + (n - 1) * ENTRY_SIZE)
        case None => None
        case Some(e) => AppendMember(ms, R.EntryChild(r, e), DecodeBehind(r, floor, e.item.valueOffset))
  }

  function DecodeElements(r: R.Handle, floor: nat, n: nat): (ms: Option<seq<Member>>)
    requires R.Valid(r)
    decreases |r.base| - floor, 0, n
  {
    if n == 0 then Some([])
    else
      match DecodeElements(r, floor, n - 1)
      case None => None
      case Some(ms) =>
        match R.ArrayAt(r, floor, n - 1)
        case None => None
        case Some(o) => AppendMember(ms, Some(R.Child([], o)), DecodeBehind(r, floor, o))
  }

  function DecodeBehind(r: R.Handle, floor: nat, offset: nat): (v: Option<Value>)
    requires R.Valid(r)
    decreases |r.base| - floor, 0, 0
  {
    if floor < offset && floor < |r.base| then Decode(r, offset) else None
  }

  function AppendMember(ms: seq<Member>, child: Option<R.Child>, v: Option<Value>): (r: Option<seq<Member>>) {
    if child.Some? && v.Some? then Some(ms + [Member(child.value.key, v.value)]) else None
  }

  function DecodeDocument(data: seq<byte>): (doc: Option<seq<Member>>)
    requires R.Open(data).Some? ==> NoWrap(LoadHeader(data))
  {
    match R.Open(data)
    case None => None
    case Some(r) =>
      R.OpenedIsValid(data);
      DecodeEntries(r, 0, r.header.rootIndexOffset, r.header.rootCount)
  }

  // ----- what holds at an offset is what is decoded there -----

  lemma {:induction false} HoldsIsDecoded(r: R.Handle, hash: Hash64, offset: nat, v: Value)
    requires R.Valid(r) && Holds(r, hash, offset, v)
    ensures Decode(r, offset) == Some(v)
    decreases v, 1
  {
    match v
    case Array(kids) =>
      ElementsAreDecoded(r, hash, offset, kids, |kids|);
      assert kids[..|kids|] == kids;
    case Block(kids) =>
      EntriesAreDecoded(r, hash, offset, R.BlockBody(r, offset).value.items, kids, |kids|);
      assert kids[..|kids|] == kids;
    case _ => ScalarIsDecoded(r, hash, offset, v);
  }

  lemma ScalarIsDecoded(r: R.Handle, hash: Hash64, offset: nat, v: Value)
    requires R.Valid(r) && Holds(r, hash, offset, v) && !v.IsContainer()
    ensures Decode(r, offset) == Some(v)
  {
    hide Load64, Load32, AlignUp;
  }

  lemma {:induction false} ElementsAreDecoded(r: R.Handle, hash: Hash64, offset: nat, kids: seq<Member>, n: nat)
    requires R.Valid(r) && n <= |kids| && offset < |r.base|
    requires forall i :: 0 <= i < |kids| ==> ElementHolds(r, hash, offset, kids, i)
    ensures DecodeElements(r, offset, n) == Some(kids[..n])
    decreases kids, 0, n
  {
    hide Decode, Holds, R.ArrayBody;
    if n > 0 {
      ElementsAreDecoded(r, hash, offset, kids, n - 1);
      assert ElementHolds(r, hash, offset, kids, n - 1);
      HoldsIsDecoded(r, hash, R.ArrayAt(r, offset, n - 1).value, kids[n - 1].value);
      assert kids[..n] == kids[..n - 1] + [Member([], kids[n - 1].value)];
    }
  }

  lemma {:induction false} EntriesAreDecoded(r: R.Handle, hash: Hash64, floor: nat, items: nat, kids: seq<Member>, n: nat)
    requires R.Valid(r) && n <= |kids| && floor < |r.base|
    requires TableHolds(r, hash, items, floor, kids)
    ensures DecodeEntries(r, floor, items, n) == Some(kids[..n])
    decreases kids, 0, n
  {
    hide Decode, Holds, R.ReadEntry, R.EntryChild;
    if n > 0 {
      EntriesAreDecoded(r, hash, floor, items, kids, n - 1);
      assert EntryHolds(r, hash, items, floor, kids, n - 1);
      var e := R.ReadEntry(r, items + (n - 1) * ENTRY_SIZE).value;
      HoldsIsDecoded(r, hash, e.item.valueOffset, kids[n - 1].value);
      assert kids[..n] == kids[..n - 1] + [Member(kids[n - 1].key, kids[n - 1].value)];
    }
  }

  // ----- the file of a document -----

  /** A written file whose references to strings all lead to their strings. */
  ghost predicate Legible(doc: seq<Member>, hash: Hash64) {
    E.FileSize(doc) < TWO_64 && AllReadable(E.File(doc, hash), E.FileContext(doc, hash), E.Strings(doc))
  }

  /** Relocated pool offsets, and lengths, that fit in their 32 bits. */
  ghost predicate OffsetsFit(doc: seq<Member>) {
    forall s :: s in E.Strings(doc) ==> OffsetFits(doc, s)
  }

  ghost predicate OffsetFits(doc: seq<Member>, s: seq<byte>) {
    |s| < TWO_32 && E.StringsOffset(doc) + OffsetOf(E.Strings(doc), s) < TWO_32
  }

  lemma FittingIsLegible(doc: seq<Member>, hash: Hash64)
    requires E.FileSize(doc) < TWO_64 && OffsetsFit(doc)
    ensures Legible(doc, hash)
  {
    hide E.File, E.Strings, E.FileHeader, E.FileFooter, HeaderBytes, FooterBytes, E.RootIndex, E.Nodes, Record, PoolBytes, OffsetOf, L.KidsSize;
    var c, data := E.FileContext(doc, hash), E.File(doc, hash);
    E.FileParts(doc, hash, data);
    var pool := PoolBytes(c.strings);
    forall s | s in c.strings
      ensures Readable(data, c, s)
    {
      assert OffsetFits(doc, s);
      RecordAtOffset(c.strings, s);
      PieceOfPiece(data, E.StringsOffset(doc), pool, OffsetOf(c.strings, s), Record(s));
      RecordParts(data, E.StringsOffset(doc) + OffsetOf(c.strings, s), s);
    }
  }

  /** A file that fits in 32 bits is legible. */
  lemma SmallIsLegible(doc: seq<Member>, hash: Hash64)
    requires |E.File(doc, hash)| <= TWO_32
    ensures OffsetsFit(doc) && Legible(doc, hash)
  {
    hide E.File, E.Strings, Record, PoolBytes, OffsetOf, L.KidsSize, AllReadable;
    E.FileLength(doc, hash);
    forall s | s in E.Strings(doc)
      ensures OffsetFits(doc, s)
    {
      RecordAtOffset(E.Strings(doc), s);
      RecordParts(PoolBytes(E.Strings(doc)), OffsetOf(E.Strings(doc), s), s);
    }
    FittingIsLegible(doc, hash);
  }

  lemma PieceOfPiece(data: seq<byte>, offset: nat, outer: seq<byte>, at: nat, inner: seq<byte>)
    requires At(data, offset, outer) && At(outer, at, inner)
    ensures At(data, offset + at, inner)
  {
    SliceOfSlice(data, offset, offset + |outer|, at, at + |inner|);
  }

  /** The reader accepts a written file. */
  lemma FileOpens(doc: seq<Member>, hash: Hash64, data: seq<byte>)
    requires data == E.File(doc, hash) && |data| < TWO_64
    ensures R.Open(data) == Some(R.Handle(data, E.FileHeader(doc, hash)))
    ensures LoadHeader(data) == E.FileHeader(doc, hash) && NoWrap(LoadHeader(data))
    ensures R.Valid(R.Handle(data, E.FileHeader(doc, hash)))
  {
    hide E.Payload, E.File, E.Strings, PoolBytes, L.KidsSize, LoadHeader, LoadFooter, HeaderBytes, FooterBytes, At, LayoutOk;
    E.HeaderReads(doc, hash, data);
    E.FileParts(doc, hash, data);
    FooterRoundTrip(data, E.StringsOffset(doc) + |PoolBytes(E.Strings(doc))|, E.FileFooter(doc, hash));
    SmallMod(E.FileSize(doc));
  }

  ghost function FileHandle(doc: seq<Member>, hash: Hash64): (r: R.Handle) {
    R.Handle(E.File(doc, hash), E.FileHeader(doc, hash))
  }

  /** The root index and the nodes, where a written file has them. */
  lemma SectionsThere(doc: seq<Member>, hash: Hash64)
    requires E.FileSize(doc) < TWO_64
    ensures var r, c := FileHandle(doc, hash), E.FileContext(doc, hash);
      && FileOf(r, c) && L.KidsSize(doc, 0) <= r.header.nodesSize
      && At(r.base, HEADER_SIZE, L.EntriesBytes(StableSorted(L.Pending(doc, 0, c)), c.delta))
      && At(r.base, c.base, L.EmitKids(doc, 0, c))
  {
    hide E.File, E.FileHeader, E.Strings, L.EmitKids, L.EntriesBytes, L.KidsSize, L.Pending, StableSorted, PoolBytes, At, LoadHeader,
         NoWrap, LayoutOk, R.Valid, R.Open, HeaderBytes, FooterBytes;
    var data := E.File(doc, hash);
    E.FileLength(doc, hash);
    FileOpens(doc, hash, data);
    E.HeaderReads(doc, hash, data);
    E.FileParts(doc, hash, data);
  }

  /** The root index of a written file files the document's members in hash order, every value behind it readable. */
  lemma FileHolds(doc: seq<Member>, hash: Hash64)
    requires Legible(doc, hash) && KidsWellFormed(doc)
    ensures R.Valid(FileHandle(doc, hash))
    ensures TableHolds(FileHandle(doc, hash), hash, HEADER_SIZE, 0, CanonDocument(doc, hash))
  {
    hide E.Strings, E.Payload, E.FileHeader, L.EmitKids, L.EntriesBytes, L.KidsSize, L.Pending, StableSorted,
         PoolBytes, At, HeaderBytes, FooterBytes, TableHolds, AllKidsRead, LoadHeader, CanonKids, KidsWellFormed,
         L.KidsKnown, LayoutOk, NoWrap, E.FileSize, Distinct, R.Open, AllReadable;
    E.FileLength(doc, hash);
    var r, c := FileHandle(doc, hash), E.FileContext(doc, hash);
    FileOpens(doc, hash, r.base);
    E.HeaderReads(doc, hash, r.base);
    E.FileParts(doc, hash, r.base);
    E.DocumentKnown(doc);
    KidsRead(r, c, doc, true, 0);
    TableReads(r, c, HEADER_SIZE, doc, 0, 0);
  }

  /** Encode, then decode: the document comes back with the members of every block, and the roots, in hash order. */
  lemma DecodeOfEncode(doc: seq<Member>, hash: Hash64)
    requires Legible(doc, hash) && KidsWellFormed(doc)
    ensures R.Open(E.File(doc, hash)).Some? && NoWrap(LoadHeader(E.File(doc, hash)))
    ensures DecodeDocument(E.File(doc, hash)) == Some(CanonDocument(doc, hash))
  {
    hide E.File, E.FileHeader, E.Strings, E.Payload, L.EmitKids, L.KidsSize, PoolBytes, TableHolds, CanonDocument,
         LoadHeader, DecodeEntries, NoWrap, LayoutOk;
    var data, r := E.File(doc, hash), FileHandle(doc, hash);
    E.FileLength(doc, hash);
    FileOpens(doc, hash, data);
    E.HeaderReads(doc, hash, data);
    FileHolds(doc, hash);
    var ms := CanonDocument(doc, hash);
    EntriesAreDecoded(r, hash, 0, HEADER_SIZE, ms, |ms|);
    assert ms[..|ms|] == ms;
  }
}
