/** Serialisation: collect, emit, sort the roots, relocate, and put the sections together. */
module Serializer {
  import opened Bytes
  import opened Collector
  import opened Document
  import opened EncoderBuffer
  import opened EncoderSession
  import opened Fixups
  import opened Format
  import opened PoolLayout
  import opened Sequences
  import opened StableSort
  import opened StringPool
  import opened WriterNode
  import E = Encode
  import Emitter
  import L = Layout
  import PendingSort
  import Wire = WireFormat
  import WireLayout

  // ----- relocation -----

  lemma DeltaWraps(value: nat, delta: nat)
    ensures LE((value + delta % TWO_32) % TWO_32, 4) == LE(value + delta, 4)
  {
    PowersOf256();
    LEModulo((value + delta % TWO_32) % TWO_32, value + delta, 4);
  }

  /** Raises every recorded pool offset by where the pool starts, in 32 bits. */
  method ApplyFixups(s: Session, stringsOffset: nat)
    requires s.Valid() && InRange(s.Made().fixups, 0, |s.Made().bytes|)
    modifies s.Repr
    ensures s.Valid() && fresh(s.Repr - old(s.Repr))
    ensures s.Made() == old(s.Made()).(bytes := Patched(old(s.Made()).bytes, old(s.Made()).fixups, stringsOffset))
  {
    hide Session.Valid, Session.Made, LE, Load32, Spliced;
    ghost var before := s.Made();
    var delta := stringsOffset % TWO_32;
    var offsets := s.FixupOffsets();
    for i := 0 to |offsets|
      invariant s.Valid() && fresh(s.Repr - old(s.Repr))
      invariant s.Made() == before.(bytes := Patched(before.bytes, offsets[..i], stringsOffset))
    {
      var at, data := offsets[i], s.NodesData();
      var value := Load32(data, at);
      DeltaWraps(value, stringsOffset);
      s.Overwrite(at, LE((value + delta) % TWO_32, 4));
      assert offsets[..i + 1] == offsets[..i] + [at];
      PatchedSnoc(before.bytes, offsets[..i], at, stringsOffset);
    }
    assert offsets[..|offsets|] == offsets;
  }

  function Raised(e: L.Entry, delta: nat): (r: L.Entry) {
    Keyed(e.hash, L.EntryBody((e.item.keyOffset + delta) % TWO_32, e.item.keyLength, e.item.valueOffset))
  }

  lemma RaisedBytes(e: L.Entry, delta: nat)
    ensures L.EntryBytes(Raised(e, delta), 0) == L.EntryBytes(e, delta)
  {
    PowersOf256();
    LEModulo((e.item.keyOffset + delta) % TWO_32, delta + e.item.keyOffset, 4);
  }

  /** Raises the root entries' pool offsets, in place. */
  method RelocateRoots(entries: array<L.Entry>, stringsOffset: nat)
    modifies entries
    ensures L.EntriesBytes(entries[..], 0) == L.EntriesBytes(old(entries[..]), stringsOffset)
  {
    hide L.EntryBytes, Raised;
    ghost var es := entries[..];
    for i := 0 to entries.Length
      invariant L.EntriesBytes(entries[..i], 0) == L.EntriesBytes(es[..i], stringsOffset)
      invariant entries[i..] == es[i..]
    {
      assert entries[i] == entries[i..][0] == es[i..][0] == es[i];
      RaisedBytes(entries[i], stringsOffset);
      ghost var done := entries[..i];
      entries[i] := Raised(entries[i], stringsOffset);
      assert entries[..i + 1][..i] == done && es[..i + 1][..i] == es[..i];
      assert entries[i + 1..] == es[i..][1..];
    }
    assert entries[..entries.Length] == entries[..] && es[..entries.Length] == es;
  }

  // ----- the output -----

  /** Writing the next piece over the zeros behind what is there already. */
  lemma SplicedZeros(done: seq<byte>, n: nat, piece: seq<byte>)
    requires |piece| <= n
    ensures Spliced(done + Zeros(n), |done|, piece) == done + piece + Zeros(n - |piece|)
  {
  }

  /** Writes the next section of the output. */
  method Put(out: Buffer, ghost done: seq<byte>, at: nat, piece: seq<byte>, ghost room: nat)
    requires out.Valid() && at == |done| && |piece| <= room && out.Contents() == done + Zeros(room)
    modifies out.data
    ensures out.Valid() && out.Contents() == (done + piece) + Zeros(room - |piece|)
  {
    hide Spliced;
    SplicedZeros(done, room, piece);
    out.Overwrite(at, piece);
  }

  /** Writes the root index. */
  method PutRoots(out: Buffer, ghost done: seq<byte>, at: nat, entries: array<L.Entry>, ghost room: nat)
    requires out.Valid() && at == |done| && ENTRY_SIZE * entries.Length <= room && out.Contents() == done + Zeros(room)
    requires entries as object != out.data
    modifies out.data
    ensures out.Valid() && out.Contents() == (done + L.EntriesBytes(entries[..], 0)) + Zeros(room - ENTRY_SIZE * entries.Length)
  {
    hide L.EntryBytes;
    ghost var es := entries[..];
    assert done + L.EntriesBytes(es[..0], 0) == done;
    for i := 0 to entries.Length
      invariant out.Valid() && entries[..] == es
      invariant out.Contents() == (done + L.EntriesBytes(es[..i], 0)) + Zeros(room - ENTRY_SIZE * i)
    {
      Put(out, done + L.EntriesBytes(es[..i], 0), at + i * ENTRY_SIZE, L.EntryBytes(entries[i], 0), room - ENTRY_SIZE * i);
      assert es[..i + 1][..i] == es[..i];
      Associate(done, L.EntriesBytes(es[..i], 0), L.EntryBytes(es[i], 0));
    }
    assert es[..entries.Length] == es;
  }

  /** The checksum is stored into the header last. */
  lemma ChecksumStored(h: Header, checksum: u64, rest: seq<byte>)
    requires |h.reserved| == 24
    ensures |HeaderBytes(h)| == HEADER_SIZE
    ensures Spliced(HeaderBytes(h) + rest, 96, LE(checksum, 8)) == HeaderBytes(h.(checksum := checksum)) + rest
  {
    hide LE;
    var h' := h.(checksum := checksum);
    var ws, ws' := HeaderWords(h), HeaderWords(h');
    assert ws[..11] == ws'[..11];
    var front := LE(h.magic, 4) + LE(h.versionMajor, 2) + LE(h.versionMinor, 2) + Words(ws[..11]);
    assert HeaderBytes(h) == front + LE(h.checksum, 8) + h.reserved;
    assert HeaderBytes(h') == front + LE(checksum, 8) + h.reserved;
    Emitter.SplicedTable(front, LE(h.checksum, 8), LE(checksum, 8), h.reserved + rest);
    assert HeaderBytes(h) + rest == front + LE(h.checksum, 8) + (h.reserved + rest);
    assert HeaderBytes(h') + rest == front + LE(checksum, 8) + (h.reserved + rest);
  }

  /** Header, root index, nodes and pool, with room left for the footer. `h` still lacks the checksum. */
  method PutSections(nodes: seq<byte>, pool: seq<byte>, entries: array<L.Entry>, h: Header) returns (out: Buffer)
    requires |h.reserved| == 24
    ensures out.Valid() && fresh(out) && fresh(out.data)
    ensures out.Contents() == HeaderBytes(h) + ((L.EntriesBytes(entries[..], 0) + nodes + pool) + Zeros(FOOTER_SIZE))
  {
    hide L.EntriesBytes, Spliced;
    ghost var roots := L.EntriesBytes(entries[..], 0);
    var nodesAt := HEADER_SIZE + ENTRY_SIZE * entries.Length;
    var size := nodesAt + |nodes| + |pool| + FOOTER_SIZE;
    out := new Buffer(size);
    out.AppendZero(size);
    assert out.Contents() == [] + Zeros(size);
    Put(out, [], 0, HeaderBytes(h), size);
    assert [] + HeaderBytes(h) == HeaderBytes(h);
    PutRoots(out, HeaderBytes(h), HEADER_SIZE, entries, size - HEADER_SIZE);
    Put(out, HeaderBytes(h) + roots, nodesAt, nodes, size - nodesAt);
    Put(out, HeaderBytes(h) + roots + nodes, nodesAt + |nodes|, pool, |pool| + FOOTER_SIZE);
    PayloadThere(out.Contents(), HeaderBytes(h), roots, nodes, pool, Zeros(FOOTER_SIZE));
  }

  /** Hashes everything between header and footer, then stores the checksum in both. */
  method Seal(out: Buffer, hash: Hash64, h: Header, footerAt: nat, ghost payload: seq<byte>)
    requires out.Valid() && |h.reserved| == 24 && footerAt == HEADER_SIZE + |payload|
    requires out.Contents() == HeaderBytes(h) + (payload + Zeros(FOOTER_SIZE))
    modifies out.data
    ensures out.Valid()
    ensures out.Contents() == HeaderBytes(h.(checksum := hash(payload))) + payload + FooterBytes(Footer(hash(payload), h.fileSize, MAGIC))
  {
    hide HeaderBytes, FooterBytes, LE, Spliced;
    ChecksumStored(h, hash(payload), payload + Zeros(FOOTER_SIZE));
    PayloadThere(out.Contents(), HeaderBytes(h), payload, [], [], Zeros(FOOTER_SIZE));
    assert payload + [] + [] == payload;
    var checksum := hash(out.data[..out.size][HEADER_SIZE..footerAt]);
    out.Overwrite(96, LE(checksum, 8));
    ghost var sealed := HeaderBytes(h.(checksum := checksum)) + payload;
    Associate(HeaderBytes(h.(checksum := checksum)), payload, Zeros(FOOTER_SIZE));
    Put(out, sealed, footerAt, FooterBytes(Footer(checksum, h.fileSize, MAGIC)), FOOTER_SIZE);
    NoZeros(sealed + FooterBytes(Footer(checksum, h.fileSize, MAGIC)));
  }

  lemma NoZeros(a: seq<byte>)
    ensures a + Zeros(0) == a
  {
  }

  lemma PayloadThere(data: seq<byte>, header: seq<byte>, roots: seq<byte>, nodes: seq<byte>, pool: seq<byte>, rest: seq<byte>)
    requires data == (((header + roots) + nodes) + pool) + rest || data == header + ((roots + nodes + pool) + rest)
    ensures data[|header|..|header| + |roots| + |nodes| + |pool|] == roots + nodes + pool
    ensures data == header + ((roots + nodes + pool) + rest)
  {
  }

  // ----- the whole serialisation -----

  /** Exactly when a document serialises: when neither pass's interning overflows. */
  ghost function Interning(doc: seq<Member>): (r: Result<seq<Str>>) {
    InternRun([], E.CollectedKids(doc) + E.EmptyKeysOf(doc, true))
  }

  /** Collects the document's strings into a new session. */
  method CollectDocument(s: Session, first: Node?, ghost all: set<Node>, ghost doc: seq<Member>) returns (r: Result<()>, ghost done: set<Node>)
    requires s.Valid() && s.Made() == Product([], [], []) && Collector.Unshared(all, s.Repr)
    requires ChainHolds(all, s.pool.hash, first, doc, null) && KeylessUncached(all)
    modifies s.Repr, all`cachedKeyOffset, all`cachedStringOffset
    ensures s.Valid() && fresh(s.Repr - old(s.Repr)) && KeylessUncached(all)
    ensures r.Err? ==> Interning(doc) == Err(r.error)
    ensures r.Ok? ==> Collected(doc, s.Made()) && Emitter.Ready(s, done) && ChainHolds(done, s.pool.hash, first, doc, null)
  {
    hide Session.Valid, Session.Made, ChainHolds, KeylessUncached, AllCached, E.CollectedKids, E.EmptyKeysOf, InternRun;
    NoneCached([]);
    r, done := CollectChildren(s, first, all, doc, {});
    RunConcat([], E.CollectedKids(doc), E.EmptyKeysOf(doc, true));
    if r.Ok? {
      RunGrows(r, Product([], [], []), s.Made(), E.CollectedKids(doc));
    }
  }

  lemma NoneCached(strings: seq<Str>)
    ensures AllCached({}, strings)
  {
  }

  ghost predicate Collected(doc: seq<Member>, collected: Product) {
    InternRun([], E.CollectedKids(doc)) == Ok(collected.strings) && collected.bytes == [] && collected.fixups == []
  }

  /** Emits the nodes of a collected document, and sorts and relocates its root entries. */
  method EmitRoots(s: Session, first: Node?, rootCount: nat, ghost all: set<Node>, ghost doc: seq<Member>)
    returns (r: Result<()>, entries: array<L.Entry>)
    requires Emitter.Ready(s, all) && Collected(doc, s.Made())
    requires ChainHolds(all, s.pool.hash, first, doc, null) && rootCount == |doc|
    modifies s.Repr
    ensures s.Valid() && fresh(s.Repr - old(s.Repr)) && fresh(entries) && entries !in s.Repr
    ensures Interning(doc).Err? ==> r == Err(Interning(doc).error)
    ensures Interning(doc).Ok? ==> r.Ok? && entries.Length == |doc| && L.EntriesBytes(entries[..], 0) == E.RootIndex(doc, s.pool.hash)
    ensures Interning(doc).Ok? ==> s.Made().bytes == E.Nodes(doc, s.pool.hash) && s.Made().strings == E.Strings(doc)
  {
    hide Session.Valid, Session.Made, ChainHolds, AllCached, E.Strings, Emitter.ChainEmitted, Emitter.KidsEmitted,
         L.Pending, L.EntriesBytes, StableSorted, Interning, InRange, Patched;
    ghost var collected := s.Made();
    entries := new L.Entry[rootCount];
    var nodesOffset := HEADER_SIZE + ENTRY_SIZE * rootCount;
    r := Emitter.EmitMembers(s, nodesOffset, first, entries, all, doc);
    EmittedDocument(r, collected, s.Made(), doc, s.pool.hash);
    if r.Err? {
      return;
    }
    NodesRelocated(s.Made(), doc, s.pool.hash);
    RootsRelocated(doc, s.pool.hash);
    PendingSort.Sort(entries, s.pool.workerCount);
    var stringsOffset := nodesOffset + |s.NodesData()|;
    RelocateRoots(entries, stringsOffset);
    ApplyFixups(s, stringsOffset);
  }

  lemma EmittedDocument(r: Result<()>, collected: Product, emitted: Product, doc: seq<Member>, hash: Hash64)
    requires Collected(doc, collected)
    requires Emitter.KidsEmitted(r, collected, emitted, doc, true, E.NodesBase(doc), hash)
    ensures r.Ok? <==> Interning(doc).Ok?
    ensures r.Ok? ==> emitted.strings == Interning(doc).value == E.Strings(doc)
    ensures r.Ok? ==> Emitter.ChainEmitted(Product([], [], []), emitted, doc, true, E.Strings(doc), E.NodesBase(doc), hash)
    ensures r.Err? ==> r == Err(Interning(doc).error)
  {
    hide L.KidsKnown, L.EmitKids, L.KidsFixups, E.CollectedKids, E.EmptyKeysOf, InternAll, InternRun;
    RunConcat([], E.CollectedKids(doc), E.EmptyKeysOf(doc, true));
    RunIsInternAll([], E.CollectedKids(doc));
    RunIsInternAll(collected.strings, E.EmptyKeysOf(doc, true));
  }

  /** Relocating what was emitted gives the nodes section. */
  lemma NodesRelocated(emitted: Product, doc: seq<Member>, hash: Hash64)
    requires Emitter.ChainEmitted(Product([], [], []), emitted, doc, true, E.Strings(doc), E.NodesBase(doc), hash)
    ensures NodesBaseAndSize(emitted, doc)
    ensures InRange(emitted.fixups, 0, |emitted.bytes|)
    ensures Patched(emitted.bytes, emitted.fixups, E.StringsOffset(doc)) == E.Nodes(doc, hash)
  {
    hide L.KidsKnown, L.EmitKids, L.KidsFixups, E.Strings;
    var c := L.Context(E.NodesBase(doc), E.Strings(doc), 0, hash);
    var emptyBytes: seq<byte>, noFixups: seq<nat> := [], [];
    assert emptyBytes + L.EmitKids(doc, 0, c) == L.EmitKids(doc, 0, c);
    assert noFixups + L.KidsFixups(doc, 0) == L.KidsFixups(doc, 0);
    L.EmitKidsSize(doc, 0, c);
    PatchKids(doc, [], [], c, E.StringsOffset(doc));
    Bare(L.EmitKids(doc, 0, c));
    Bare(L.EmitKids(doc, 0, Relocated(c, E.StringsOffset(doc))));
  }

  lemma Bare(a: seq<byte>)
    ensures [] + a + [] == a
  {
  }

  ghost predicate NodesBaseAndSize(emitted: Product, doc: seq<Member>) {
    E.NodesBase(doc) + |emitted.bytes| == E.StringsOffset(doc) && emitted.strings == E.Strings(doc)
  }

  /** The root index: the sorted root entries, relocated. */
  lemma RootsRelocated(doc: seq<Member>, hash: Hash64)
    ensures L.EntriesBytes(StableSorted(L.Pending(doc, 0, L.Context(E.NodesBase(doc), E.Strings(doc), 0, hash))), E.StringsOffset(doc))
            == E.RootIndex(doc, hash)
  {
    PendingIgnoresDelta(doc, 0, L.Context(E.NodesBase(doc), E.Strings(doc), 0, hash), E.StringsOffset(doc));
  }

  /**
   * Serialises the document that the nodes hold. On success the bytes are those of the file of that document:
   * they depend neither on the number of workers nor on which sort was used.
   */
  method Serialize(hash: Hash64, workerCount: nat, rootFirst: Node?, rootCount: nat, ghost all: set<Node>, ghost doc: seq<Member>)
    returns (r: Result<seq<byte>>)
    requires ChainHolds(all, hash, rootFirst, doc, null) && KeylessUncached(all) && rootCount == |doc|
    modifies all`cachedKeyOffset, all`cachedStringOffset
    ensures KeylessUncached(all)
    ensures Interning(doc).Err? ==> r == Err(Interning(doc).error)
    ensures Interning(doc).Ok? ==> r == Ok(E.File(doc, hash))
    ensures r.Ok? ==> Wire.IsFileOf(Wire.Image(r.value, E.StringsOffset(doc), E.Strings(doc), hash), doc)
  {
    hide Wire.IsFileOf, E.File, Session.Valid, Session.Made, ChainHolds, KeylessUncached, Interning, Emitter.Ready, Collected;
    var s := new Session(hash, workerCount);
    ghost var done;
    var collected;
    collected, done := CollectDocument(s, rootFirst, all, doc);
    if collected.Err? {
      return Err(collected.error);
    }
    var emitted, entries := EmitRoots(s, rootFirst, rootCount, done, doc);
    if emitted.Err? {
      return Err(emitted.error);
    }
    WireLayout.FileIsDescribed(doc, hash);
    var out := Output(s, entries, doc);
    r := Ok(out.data[..out.size]);
  }

  /** Lays out header, sections and footer. */
  method Output(s: Session, entries: array<L.Entry>, ghost doc: seq<Member>) returns (out: Buffer)
    requires s.Valid() && entries.Length == |doc| && L.EntriesBytes(entries[..], 0) == E.RootIndex(doc, s.pool.hash)
    requires s.Made().bytes == E.Nodes(doc, s.pool.hash) && s.Made().strings == E.Strings(doc)
    ensures out.Valid() && out.Contents() == E.File(doc, s.pool.hash)
  {
    hide Session.Valid, Session.Made, L.EntriesBytes, HeaderBytes, FooterBytes, E.Strings, E.Nodes, E.RootIndex, PoolBytes;
    var nodes, pool := s.NodesData(), s.PoolData();
    var nodesOffset := HEADER_SIZE + ENTRY_SIZE * entries.Length;
    var stringsOffset := nodesOffset + |nodes|;
    var footerOffset := stringsOffset + |pool|;
    var h := Header(MAGIC, VERSION_MAJOR, VERSION_MINOR, E.U64(footerOffset + FOOTER_SIZE), FLAGS_REQUIRED,
                    E.U64(entries.Length), HEADER_SIZE, E.U64(ENTRY_SIZE * entries.Length), E.U64(nodesOffset), E.U64(|nodes|),
                    E.U64(stringsOffset), E.U64(|pool|), E.U64(s.StringsCount()), E.U64(footerOffset), 0, Zeros(24));
    E.FileLength(doc, s.pool.hash);
    out := PutSections(nodes, pool, entries, h);
    Seal(out, s.pool.hash, h, footerOffset, E.Payload(doc, s.pool.hash));
  }
}
