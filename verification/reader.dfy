/** The zero-copy reader: bounds-checked reads of an immutable buffer, lookup by hash, iteration. */
module Reader {
  import opened Bytes
  import opened Format
  import opened Lookup
  import opened Options
  import opened StableSort
  import L = Layout

  datatype Handle = Handle(base: seq<byte>, header: Header)

  /** The sections the header names lie inside the buffer. */
  ghost predicate Valid(r: Handle) {
    |r.base| < TWO_64 && r.header.rootIndexOffset == HEADER_SIZE && SectionsInside(r.header, |r.base|)
  }

  // ----- opening -----

  predicate HeaderAccepted(h: Header, size: nat) {
    && h.magic == MAGIC
    && h.versionMajor == VERSION_MAJOR
    && h.versionMinor <= VERSION_MINOR
    && h.flags == FLAGS_REQUIRED
    && h.fileSize == size
    && LayoutOk(h)
    && h.reserved == Zeros(|h.reserved|)
  }

  predicate FooterMatches(data: seq<byte>, h: Header)
    requires h.footerOffset + FOOTER_SIZE <= |data|
  {
    var footer := LoadFooter(data, h.footerOffset);
    footer.magicEnd == MAGIC && footer.fileSize == h.fileSize && footer.checksum == h.checksum
  }

  lemma FooterInside(h: Header, size: nat)
    requires LayoutOk(h) && h.fileSize == size >= FOOTER_SIZE
    ensures h.footerOffset + FOOTER_SIZE == size
  {
  }

  function Open(data: seq<byte>): (r: Option<Handle>) {
    if |data| < HEADER_SIZE + FOOTER_SIZE then None
    else
      var header := LoadHeader(data);
      if !HeaderAccepted(header, |data|) then None
      else
        FooterInside(header, |data|);
        if !FooterMatches(data, header) then None else Some(Handle(data, header))
  }

  /** An opened buffer has all its sections inside exactly when its header's sums do not wrap: opening checks them modulo 2^64 only. */
  lemma OpenedIsValid(data: seq<byte>)
    requires Open(data).Some?
    ensures Valid(Open(data).value) <==> NoWrap(LoadHeader(data))
  {
    SectionsFollow(LoadHeader(data), |data|);
  }

  // ----- a header whose sums wrap -----

  /** A file of a header and a footer only. */
  function BareFile(h: Header): (data: seq<byte>) {
    HeaderBytes(h) + FooterBytes(Footer(h.checksum, HEADER_SIZE + FOOTER_SIZE, MAGIC))
  }

  /** It opens if its header is accepted and puts the footer behind itself. */
  lemma BareOpens(h: Header)
    requires HeaderAccepted(h, HEADER_SIZE + FOOTER_SIZE) && h.footerOffset == HEADER_SIZE && |h.reserved| == 24
    ensures var data := BareFile(h);
      |data| == HEADER_SIZE + FOOTER_SIZE && LoadHeader(data) == h && Open(data) == Some(Handle(data, h))
  {
    hide LE, Load32, Load64, Load16, LayoutOk;
    var data, footer := BareFile(h), Footer(h.checksum, HEADER_SIZE + FOOTER_SIZE, MAGIC);
    assert At(data, 0, HeaderBytes(h)) && At(data, HEADER_SIZE, FooterBytes(footer));
    HeaderRoundTrip(data, h);
    FooterRoundTrip(data, HEADER_SIZE, footer);
  }

  /** Its string pool is said to start a megabyte into the file, and to be so large that the sum comes back to the footer. */
  function WrappedHeader(checksum: u64): (h: Header) {
    Header(MAGIC, VERSION_MAJOR, VERSION_MINOR, 160, FLAGS_REQUIRED, 0, HEADER_SIZE, 0, HEADER_SIZE, 1_000_000,
           1_000_128, TWO_64 - 1_000_000, 0, HEADER_SIZE, checksum, Zeros(24))
  }

  /** The source opens that file of 160 bytes, though its pool would start far behind its end. */
  lemma WrappedOpens(checksum: u64)
    ensures var h := WrappedHeader(checksum); var data := BareFile(h);
      && |data| == 160 && LoadHeader(data) == h && Open(data) == Some(Handle(data, h))
      && !NoWrap(h) && h.stringsOffset > |data| && !Valid(Handle(data, h))
  {
    hide LoadHeader, HeaderBytes, FooterBytes;
    BareOpens(WrappedHeader(checksum));
  }

  // ----- entries -----

  function ReadEntry(r: Handle, offset: nat): (e: Option<Entry>) {
    if offset + ENTRY_SIZE > |r.base| then None
    else Some(Keyed(Load64(r.base, offset),
                    L.EntryBody(Load32(r.base, offset + 8), Load32(r.base, offset + 12), Load64(r.base, offset + 16))))
  }

  predicate KeyEquals(r: Handle, e: Entry, key: seq<byte>) {
    if e.item.keyLength != |key| then false
    else if |key| == 0 then true
    else
      var start := e.item.keyOffset + 4;
      start + |key| <= |r.base| && r.base[start..start + |key|] == key
  }

  /** Looking for `key` in the table of entries that starts at `start`. */
  function TableQuery(r: Handle, start: nat, hash: u64, key: seq<byte>): (q: Query) {
    Query((i: nat) => ReadEntry(r, start + i * ENTRY_SIZE), (e: Entry) => KeyEquals(r, e, key), hash)
  }

  // ----- nodes -----

  predicate IsKind(k: byte) {
    k <= 0x06 || k == 0x10 || k == 0x11
  }

  function KindAt(r: Handle, offset: nat): (k: Option<byte>)
    requires Valid(r)
  {
    if offset < r.header.nodesOffset || offset >= r.header.nodesOffset + r.header.nodesSize then None
    else if IsKind(r.base[offset]) then Some(r.base[offset])
    else None
  }

  /** Where the table of a container at `offset` starts, and how many items it has. */
  datatype Body = Body(count: nat, items: nat)

  function ContainerBody(r: Handle, offset: nat, kind: byte, itemSize: nat): (b: Option<Body>)
    ensures b.Some? ==> b.value.items + b.value.count * itemSize <= |r.base|
  {
    if offset >= |r.base| || r.base[offset] != kind then None
    else
      var body := AlignUp(offset + 1, 8);
      if body + 8 > |r.base| then None
      else
        var count := Load32(r.base, body);
        if body + 8 + count * itemSize > |r.base| then None else Some(Body(count, body + 8))
  }

  function BlockBody(r: Handle, offset: nat): (b: Option<Body>) {
    ContainerBody(r, offset, 0x10, ENTRY_SIZE)
  }

  function ArrayBody(r: Handle, offset: nat): (b: Option<Body>) {
    ContainerBody(r, offset, 0x11, ELEMENT_SIZE)
  }

  /** A child as the reader hands it out: its key's bytes and where its value is. */
  datatype Child = Child(key: seq<byte>, valueOffset: nat)

  function EntryChild(r: Handle, e: Entry): (c: Option<Child>) {
    var start := e.item.keyOffset + 4;
    if start + e.item.keyLength > |r.base| then None
    else Some(Child(r.base[start..start + e.item.keyLength], e.item.valueOffset))
  }

  function BlockEntryAt(r: Handle, offset: nat, index: nat): (c: Option<Child>) {
    match BlockBody(r, offset)
    case None => None
    case Some(body) =>
      if index >= body.count then None
      else
        match ReadEntry(r, body.items + index * ENTRY_SIZE)
        case None => None
        case Some(e) => EntryChild(r, e)
  }

  function ArrayAt(r: Handle, offset: nat, index: nat): (o: Option<nat>) {
    match ArrayBody(r, offset)
    case None => None
    case Some(body) =>
      if index >= body.count then None else Some(Load64(r.base, body.items + index * ELEMENT_SIZE))
  }

  function FindIn(r: Handle, hash: Hash64, start: nat, count: nat, key: seq<byte>): (o: Option<nat>) {
    match Search(TableQuery(r, start, hash(key), key), count, 0, count)
    case None => None
    case Some(e) => Some(e.item.valueOffset)
  }

  function FindRoot(r: Handle, hash: Hash64, key: seq<byte>): (o: Option<nat>) {
    FindIn(r, hash, r.header.rootIndexOffset, r.header.rootCount, key)
  }

  function BlockFind(r: Handle, hash: Hash64, offset: nat, key: seq<byte>): (o: Option<nat>) {
    match BlockBody(r, offset)
    case None => None
    case Some(body) => FindIn(r, hash, body.items, body.count, key)
  }

  // ----- scalars -----

  function KindAlign(kind: byte): (a: nat)
    ensures a in {1, 4, 8}
  {
    if kind <= 0x02 then 1 else if kind == 0x06 then 4 else 8
  }

  function KindSize(kind: byte): (n: nat) {
    if 0x03 <= kind <= 0x06 then 8 else 0
  }

  function ScalarBody(r: Handle, offset: nat, kind: byte): (o: Option<nat>)
    requires Valid(r)
    ensures o.Some? ==> o.value + KindSize(kind) <= |r.base|
  {
    if KindAt(r, offset) != Some(kind) then None
    else
      var body := AlignUp(offset + 1, KindAlign(kind));
      if body + KindSize(kind) > |r.base| then None else Some(body)
  }

  function FromBits64(n: u64): (i: i64) {
    if n >= 0x8000_0000_0000_0000 then n - TWO_64 else n
  }

  function Word64At(r: Handle, offset: nat, kind: byte): (n: Option<u64>)
    requires Valid(r) && KindSize(kind) == 8
  {
    match ScalarBody(r, offset, kind)
    case None => None
    case Some(body) => Some(Load64(r.base, body))
  }

  function Int64At(r: Handle, offset: nat): (i: Option<i64>)
    requires Valid(r)
  {
    match Word64At(r, offset, 0x03)
    case None => None
    case Some(n) => Some(FromBits64(n))
  }

  function BoolAt(r: Handle, offset: nat): (b: Option<bool>)
    requires Valid(r)
  {
    match KindAt(r, offset)
    case None => None
    case Some(kind) => if kind == 0x02 then Some(true) else if kind == 0x01 then Some(false) else None
  }

  function StringAt(r: Handle, offset: nat): (s: Option<seq<byte>>)
    requires Valid(r)
  {
    match ScalarBody(r, offset, 0x06)
    case None => None
    case Some(body) =>
      var start := Load32(r.base, body) + 4;
      var length := Load32(r.base, body + 4);
      if start + length > |r.base| then None else Some(r.base[start..start + length])
  }

  // ----- iteration -----

  /** A cursor over the children of one container. */
  class Iterator {
    const reader: Handle
    const isBlock: bool
    var cursor: nat
    var remaining: nat

    constructor (reader: Handle, isBlock: bool, body: Body)
      ensures this.reader == reader && this.isBlock == isBlock
      ensures cursor == body.items && remaining == body.count
    {
      this.reader := reader;
      this.isBlock := isBlock;
      this.cursor := body.items;
      this.remaining := body.count;
    }

    /** Standing before item `index` of the container at `offset`. */
    ghost predicate Before(offset: nat, index: nat)
      reads this
    {
      var body := if isBlock then BlockBody(reader, offset) else ArrayBody(reader, offset);
      && body.Some?
      && index + remaining == body.value.count
      && cursor == body.value.items + index * (if isBlock then ENTRY_SIZE else ELEMENT_SIZE)
    }

    /** Hands out the next child, as the indexed accessors would, and moves on; at the end or on a bad child it stays put. */
    method Next(ghost offset: nat, ghost index: nat) returns (c: Option<Child>)
      requires Valid(reader) && Before(offset, index)
      modifies this
      ensures c.Some? ==> Before(offset, index + 1) && KindAt(reader, c.value.valueOffset).Some?
      ensures c.None? ==> Before(offset, index) && cursor == old(cursor)
      ensures c == NextAt(reader, isBlock, offset, index)
    {
      hide ReadEntry, EntryChild, KindAt, ContainerBody, Load64;
      if remaining == 0 {
        return None;
      }
      var child: Option<Child> := None;
      if isBlock {
        var entry := ReadEntry(reader, cursor);
        if entry.None? {
          return None;
        }
        child := EntryChild(reader, entry.value);
      } else {
        if cursor + ELEMENT_SIZE > |reader.base| {
          return None;
        }
        child := Some(Child([], Load64(reader.base, cursor)));
      }
      c := Checked(reader, child);
      if c.Some? {
        cursor := cursor + if isBlock then ENTRY_SIZE else ELEMENT_SIZE;
        remaining := remaining - 1;
      }
    }
  }

  /** What a cursor before item `index` hands out: the child the indexed accessors give there, if its kind is known. */
  function NextAt(r: Handle, isBlock: bool, offset: nat, index: nat): (c: Option<Child>)
    requires Valid(r)
  {
    Checked(r, if isBlock then BlockEntryAt(r, offset, index) else Keyless(ArrayAt(r, offset, index)))
  }

  /** A child whose value has a known kind. */
  function Checked(r: Handle, child: Option<Child>): (c: Option<Child>)
    requires Valid(r)
  {
    if child.Some? && KindAt(r, child.value.valueOffset).Some? then child else None
  }

  function Keyless(o: Option<nat>): (c: Option<Child>) {
    if o.Some? then Some(Child([], o.value)) else None
  }
}
