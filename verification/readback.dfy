/** Reading back what the encoder laid out: the reader's accessors find the tree again, block by block in hash order. */
module ReadBack {
  import opened Bytes
  import opened Canonical
  import opened Document
  import opened Format
  import opened Options
  import opened PoolLayout
  import opened StableSort
  import L = Layout
  import R = Reader

  // ----- what it means to find a value at an offset -----

  /** The reader's accessors, applied at `offset`, give exactly the value `v`; every child lies behind its parent. */
  ghost predicate Holds(r: R.Handle, hash: Hash64, offset: nat, v: Value)
    requires R.Valid(r)
    decreases v, 1
  {
    match v
    case Null => R.KindAt(r, offset) == Some(0x00)
    case Bool(b) => R.BoolAt(r, offset) == Some(b)
    case Int64(i) => R.Int64At(r, offset) == Some(i)
    case UInt64(u) => R.Word64At(r, offset, 0x04) == Some(u)
    case Float64(bits) => R.Word64At(r, offset, 0x05) == Some(bits)
    case String(s) => R.StringAt(r, offset) == Some(s)
    case Array(kids) =>
      && R.KindAt(r, offset) == Some(0x11)
      && R.ArrayBody(r, offset).Some? && R.ArrayBody(r, offset).value.count == |kids|
      && forall i :: 0 <= i < |kids| ==> ElementHolds(r, hash, offset, kids, i)
    case Block(kids) =>
      && R.KindAt(r, offset) == Some(0x10)
      && R.BlockBody(r, offset).Some? && R.BlockBody(r, offset).value.count == |kids|
      && TableHolds(r, hash, R.BlockBody(r, offset).value.items, offset, kids)
  }

  ghost predicate ElementHolds(r: R.Handle, hash: Hash64, offset: nat, kids: seq<Member>, i: nat)
    requires R.Valid(r) && i < |kids|
    decreases kids[i], 2
  {
    && kids[i].key == []
    && R.ArrayAt(r, offset, i).Some?
    && R.ArrayAt(r, offset, i).value > offset
    && Holds(r, hash, R.ArrayAt(r, offset, i).value, kids[i].value)
  }

  /** The entry table at `items` files the members `kids`, their values behind `floor`. */
  ghost predicate TableHolds(r: R.Handle, hash: Hash64, items: nat, floor: int, kids: seq<Member>)
    requires R.Valid(r)
    decreases kids, 0
  {
    forall i :: 0 <= i < |kids| ==> EntryHolds(r, hash, items, floor, kids, i)
  }

  ghost predicate EntryHolds(r: R.Handle, hash: Hash64, items: nat, floor: int, kids: seq<Member>, i: nat)
    requires R.Valid(r) && i < |kids|
    decreases kids[i], 2
  {
    var e := R.ReadEntry(r, items + i * ENTRY_SIZE);
    && e.Some?
    && e.value.hash == hash(kids[i].key)
    && R.EntryChild(r, e.value) == Some(R.Child(kids[i].key, e.value.item.valueOffset))
    && e.value.item.valueOffset > floor
    && Holds(r, hash, e.value.item.valueOffset, kids[i].value)
  }

  // ----- where things are in the file -----

  /** Where a reference to `s` points in the file: the relocated pool offset, in 32 bits. */
  function StoredOffset(c: L.Context, s: seq<byte>): (o: u32) {
    (c.delta + OffsetOf(c.strings, s)) % TWO_32
  }

  /** A stored reference to `s` leads to the bytes of `s`. */
  ghost predicate Readable(data: seq<byte>, c: L.Context, s: seq<byte>) {
    |s| < TWO_32 && At(data, StoredOffset(c, s) + 4, s)
  }

  ghost predicate AllReadable(data: seq<byte>, c: L.Context, strings: seq<seq<byte>>) {
    forall s :: s in strings ==> Readable(data, c, s)
  }

  /** The reader's file has its nodes at the context's base. */
  ghost predicate FileOf(r: R.Handle, c: L.Context) {
    R.Valid(r) && c.base == r.header.nodesOffset && c.base % 8 == 0
  }

  /** And every string of the context is readable in it. */
  ghost predicate LegibleFile(r: R.Handle, c: L.Context) {
    FileOf(r, c) && AllReadable(r.base, c, c.strings)
  }

  /** `v` has been emitted at `p` of the nodes section. */
  ghost predicate EmittedAt(r: R.Handle, c: L.Context, v: Value, p: nat) {
    p + L.Size(v, p) <= r.header.nodesSize && At(r.base, c.base + p, L.Emit(v, p, c))
  }

  lemma LegibleIsFile(r: R.Handle, c: L.Context)
    requires LegibleFile(r, c)
    ensures FileOf(r, c) && R.Valid(r)
  {
  }

  lemma StringThere(r: R.Handle, c: L.Context, s: seq<byte>)
    requires LegibleFile(r, c) && s in c.strings
    ensures var o := StoredOffset(c, s);
      |s| < TWO_32 && o + 4 + |s| <= |r.base| && r.base[o + 4..o + 4 + |s|] == s
  {
    hide StoredOffset;
    assert Readable(r.base, c, s);
  }

  lemma KindByteIsKind(v: Value)
    ensures R.IsKind(L.KindByte(v))
    ensures R.KindAlign(L.KindByte(v)) == L.BodyAlign(v)
    ensures R.KindSize(L.KindByte(v)) == if v.IsContainer() || v.Null? || v.Bool? then 0 else 8
  {
  }

  /** What the reader sees of a value whose kind byte `kind` is at `o` and whose body follows it, aligned. */
  ghost predicate NodeThere(r: R.Handle, o: nat, v: Value, body: seq<byte>)
    requires R.Valid(r)
  {
    && R.KindAt(r, o) == Some(L.KindByte(v))
    && AlignUp(o + 1, L.BodyAlign(v)) == o + 1
    && At(r.base, o + 1, body)
  }

  /** The kind byte and the start of the body of an emitted value. */
  lemma LeadThere(r: R.Handle, c: L.Context, v: Value, p: nat, body: seq<byte>)
    requires FileOf(r, c) && p + |L.Lead(v, p)| + |body| <= r.header.nodesSize
    requires At(r.base, c.base + p, L.Lead(v, p) + body)
    ensures NodeThere(r, c.base + L.KindPos(v, p), v, body)
  {
    hide AlignUp, L.BodyAlign, L.KindByte, R.IsKind, At, R.Valid;
    var k := L.KindPos(v, p);
    AtParts(r.base, c.base + p, Zeros(k - p), [L.KindByte(v)], body);
    ByteAt(r.base, c.base + k, L.KindByte(v));
    AlignUpAligned(p + 1, L.BodyAlign(v));
    AlignUpShift(k + 1, c.base, L.BodyAlign(v));
    KindByteIsKind(v);
  }

  lemma NodeOf(r: R.Handle, c: L.Context, v: Value, p: nat) returns (body: seq<byte>)
    requires FileOf(r, c) && EmittedAt(r, c, v, p)
    ensures NodeThere(r, c.base + L.KindPos(v, p), v, body)
    ensures !v.IsContainer() ==> body == L.ScalarBody(v, c)
    ensures v.IsContainer() ==> body == L.CountHeader(v) + (L.Table(v, L.KidsStart(v, p), c) + L.EmitKids(v.kids, L.KidsStart(v, p), c))
    ensures v.IsContainer() ==> L.KidsStart(v, p) + L.KidsSize(v.kids, L.KidsStart(v, p)) <= r.header.nodesSize
    ensures v.IsContainer() ==> L.KidsStart(v, p) == L.KindPos(v, p) + 9 + L.ItemSize(v) * |v.kids|
    ensures R.Valid(r) && R.KindAt(r, c.base + L.KindPos(v, p)) == Some(L.KindByte(v))
  {
    L.EmitSize(v, p, c);
    if v.IsContainer() {
      L.SizeOfContainer(v, p);
      body := L.CountHeader(v) + (L.Table(v, L.KidsStart(v, p), c) + L.EmitKids(v.kids, L.KidsStart(v, p), c));
      assert L.Emit(v, p, c) == L.Lead(v, p) + body;
    } else {
      body := L.ScalarBody(v, c);
    }
    LeadThere(r, c, v, p, body);
  }

  // ----- scalars -----

  lemma WordReads(r: R.Handle, o: nat, v: Value, n: u64)
    requires R.Valid(r) && NodeThere(r, o, v, LE(n, 8)) && (v.Int64? || v.UInt64? || v.Float64?)
    ensures R.Word64At(r, o, L.KindByte(v)) == Some(n)
  {
    KindByteIsKind(v);
    AtLoad64(r.base, o + 1, n);
  }

  lemma StringReads(r: R.Handle, o: nat, v: Value, poolOffset: nat)
    requires R.Valid(r) && v.String? && NodeThere(r, o, v, LE(poolOffset, 4) + LE(|v.s|, 4))
    requires |v.s| < TWO_32 && At(r.base, poolOffset % TWO_32 + 4, v.s)
    ensures R.StringAt(r, o) == Some(v.s)
  {
    hide Load32, AlignUp, R.KindAt, LE;
    KindByteIsKind(v);
    RefReads(r.base, o + 1, poolOffset, |v.s|);
  }

  lemma ScalarReads(r: R.Handle, c: L.Context, v: Value, o: nat)
    requires LegibleFile(r, c) && L.Known(v, c.strings) && !v.IsContainer()
    requires NodeThere(r, o, v, L.ScalarBody(v, c))
    ensures Holds(r, c.hash, o, v)
  {
    match v
    case Int64(i) => WordReads(r, o, v, L.Bits64(i));
    case UInt64(u) => WordReads(r, o, v, u);
    case Float64(bits) => WordReads(r, o, v, bits);
    case String(s) =>
      StringThere(r, c, s);
      StringReads(r, o, v, c.delta + OffsetOf(c.strings, s));
    case Null =>
    case Bool(_) =>
  }

  lemma RefReads(data: seq<byte>, offset: nat, poolOffset: nat, length: nat)
    requires At(data, offset, LE(poolOffset, 4) + LE(length, 4)) && length < TWO_32
    ensures offset + 8 <= |data| && Load32(data, offset) == poolOffset % TWO_32 && Load32(data, offset + 4) == length
  {
    AtParts(data, offset, LE(poolOffset, 4), LE(length, 4), []);
    assert LE(poolOffset, 4) + LE(length, 4) + [] == LE(poolOffset, 4) + LE(length, 4);
    AtLoad32(data, offset, poolOffset);
    AtLoad32(data, offset + 4, length);
  }

  // ----- entry tables -----

  /** An entry whose length and value offset fit their widths is read back, its key offset in 32 bits. */
  lemma EntryReads(r: R.Handle, offset: nat, e: L.Entry, delta: nat)
    requires At(r.base, offset, L.EntryBytes(e, delta))
    requires e.item.keyLength < TWO_32 && e.item.valueOffset < TWO_64
    ensures R.ReadEntry(r, offset)
         == Some(Keyed(e.hash, L.EntryBody((delta + e.item.keyOffset) % TWO_32, e.item.keyLength, e.item.valueOffset)))
  {
    hide Load32, Load64, LE;
    var a, b, cd := LE(e.hash, 8), LE(delta + e.item.keyOffset, 4), LE(e.item.keyLength, 4) + LE(e.item.valueOffset, 8);
    assert L.EntryBytes(e, delta) == a + b + cd;
    AtParts(r.base, offset, a, b, cd);
    AtLoad64(r.base, offset, e.hash);
    AtLoad32(r.base, offset + 8, delta + e.item.keyOffset);
    TailReads(r.base, offset + 12, e.item.keyLength, e.item.valueOffset);
  }

  lemma TailReads(data: seq<byte>, offset: nat, length: nat, value: nat)
    requires At(data, offset, LE(length, 4) + LE(value, 8)) && length < TWO_32 && value < TWO_64
    ensures offset + 12 <= |data| && Load32(data, offset) == length && Load64(data, offset + 4) == value
  {
    AtParts(data, offset, LE(length, 4), LE(value, 8), []);
    assert LE(length, 4) + LE(value, 8) + [] == LE(length, 4) + LE(value, 8);
    AtLoad32(data, offset, length);
    AtLoad64(data, offset + 4, value);
  }

  lemma {:induction false} EntryThere(data: seq<byte>, offset: nat, es: seq<L.Entry>, delta: nat, i: nat)
    requires At(data, offset, L.EntriesBytes(es, delta)) && i < |es|
    ensures At(data, offset + i * ENTRY_SIZE, L.EntryBytes(es[i], delta))
  {
    var n := |es| - 1;
    var init, last := L.EntriesBytes(es[..n], delta), L.EntryBytes(es[n], delta);
    assert L.EntriesBytes(es, delta) == init + last == init + last + [];
    AtParts(data, offset, init, last, []);
    if i < n {
      EntryThere(data, offset, es[..n], delta, i);
    }
  }

  lemma {:induction false} PendingAt(kids: seq<Member>, p: nat, c: L.Context, i: nat)
    requires i < |kids|
    ensures L.Pending(kids, p, c)[i] == L.EntryFor(kids[i], L.KidPos(kids, i, p), c)
  {
    hide L.EntryFor, L.KidsSize;
    var n := |kids| - 1;
    if i < n {
      PendingAt(kids[..n], p, c, i);
      assert kids[..n][..i] == kids[..i];
    }
  }

  lemma {:induction false} ElementThere(data: seq<byte>, offset: nat, kids: seq<Member>, p: nat, c: L.Context, i: nat)
    requires At(data, offset, L.ElementBytes(kids, p, c)) && i < |kids|
    ensures At(data, offset + i * ELEMENT_SIZE, LE(c.base + L.KindPos(kids[i].value, L.KidPos(kids, i, p)), 8))
  {
    hide L.KindPos, L.KidsSize, LE, At;
    var n := |kids| - 1;
    var init, last := L.ElementBytes(kids[..n], p, c), LE(c.base + L.KindPos(kids[n].value, L.KidPos(kids, n, p)), 8);
    assert L.ElementBytes(kids, p, c) == init + last == init + last + [];
    AtParts(data, offset, init, last, []);
    if i < n {
      ElementThere(data, offset, kids[..n], p, c, i);
      assert kids[..n][..i] == kids[..i];
    }
  }

  /** What is known of child `i` of emitted children, in emission order. */
  ghost predicate KidReads(r: R.Handle, c: L.Context, kids: seq<Member>, p: nat, i: nat)
    requires R.Valid(r) && i < |kids|
  {
    var o := c.base + L.KindPos(kids[i].value, L.KidPos(kids, i, p));
    && c.base + p <= o < c.base + r.header.nodesSize
    && Holds(r, c.hash, o, Canon(kids[i].value, c.hash))
  }

  ghost predicate AllKidsRead(r: R.Handle, c: L.Context, kids: seq<Member>, p: nat)
    requires R.Valid(r)
  {
    forall i :: 0 <= i < |kids| ==> KidReads(r, c, kids, p, i)
  }

  /** A sorted entry and the sorted member beside it come from the same child. */
  lemma SortedTogether(kids: seq<Member>, p: nat, c: L.Context, i: nat) returns (k: nat)
    requires i < |kids|
    ensures k < |kids|
    ensures StableSorted(L.Pending(kids, p, c))[i] == L.EntryFor(kids[k], L.KidPos(kids, k, p), c)
    ensures SortMembers(CanonKids(kids, c.hash), c.hash)[i] == Member(kids[k].key, Canon(kids[k].value, c.hash))
  {
    var es, ms := L.Pending(kids, p, c), KeyedMembers(CanonKids(kids, c.hash), c.hash);
    forall j | 0 <= j < |kids|
      ensures es[j].hash == ms[j].hash
    {
      PendingAt(kids, p, c, j);
      CanonKidAt(kids, c.hash, j);
    }
    SortsAlike(es, ms);
    assert HasSource(es, ms, StableSorted(es)[i], StableSorted(ms)[i]);
    k :| 0 <= k < |es| && es[k] == StableSorted(es)[i] && ms[k] == StableSorted(ms)[i];
    PendingAt(kids, p, c, k);
    CanonKidAt(kids, c.hash, k);
  }

  /** The filled entry table of a block, or the root index: every member in hash order. */
  lemma TableReads(r: R.Handle, c: L.Context, items: nat, kids: seq<Member>, p: nat, floor: int)
    requires LegibleFile(r, c) && L.KidsKnown(kids, true, c.strings)
    requires At(r.base, items, L.EntriesBytes(StableSorted(L.Pending(kids, p, c)), c.delta))
    requires AllKidsRead(r, c, kids, p) && floor < c.base + p
    ensures TableHolds(r, c.hash, items, floor, SortMembers(CanonKids(kids, c.hash), c.hash))
  {
    var sorted := SortMembers(CanonKids(kids, c.hash), c.hash);
    forall i | 0 <= i < |sorted|
      ensures EntryHolds(r, c.hash, items, floor, sorted, i)
    {
      TableEntryReads(r, c, items, kids, p, floor, i);
    }
  }

  lemma TableEntryReads(r: R.Handle, c: L.Context, items: nat, kids: seq<Member>, p: nat, floor: int, i: nat)
    requires LegibleFile(r, c) && L.KidsKnown(kids, true, c.strings) && i < |kids|
    requires At(r.base, items, L.EntriesBytes(StableSorted(L.Pending(kids, p, c)), c.delta))
    requires AllKidsRead(r, c, kids, p) && floor < c.base + p
    ensures EntryHolds(r, c.hash, items, floor, SortMembers(CanonKids(kids, c.hash), c.hash), i)
  {
    hide L.EntriesBytes, L.EntryBytes, L.KindPos, L.KidsSize, StableSorted, At, Holds, Canon, Record;
    var k := SortedTogether(kids, p, c, i);
    KeyKnown(kids, c.strings, k);
    StringThere(r, c, kids[k].key);
    assert KidReads(r, c, kids, p, k);
    EntryThere(r.base, items, StableSorted(L.Pending(kids, p, c)), c.delta, i);
    EntryIsMember(r, c, items, floor, SortMembers(CanonKids(kids, c.hash), c.hash), i,
                  L.EntryFor(kids[k], L.KidPos(kids, k, p), c));
  }

  lemma EntryIsMember(r: R.Handle, c: L.Context, items: nat, floor: int, kids: seq<Member>, i: nat, e: L.Entry)
    requires FileOf(r, c) && i < |kids| && At(r.base, items + i * ENTRY_SIZE, L.EntryBytes(e, c.delta))
    requires e.hash == c.hash(kids[i].key) && e.item.keyLength == |kids[i].key| < TWO_32 && floor < e.item.valueOffset < TWO_64
    requires var o := (c.delta + e.item.keyOffset) % TWO_32;
      o + 4 + |kids[i].key| <= |r.base| && r.base[o + 4..o + 4 + |kids[i].key|] == kids[i].key
    requires Holds(r, c.hash, e.item.valueOffset, kids[i].value)
    ensures EntryHolds(r, c.hash, items, floor, kids, i)
  {
    hide L.EntryBytes, At, Holds, Load32, Load64;
    EntryReads(r, items + i * ENTRY_SIZE, e, c.delta);
  }

  ghost predicate AllShortKeys(kids: seq<Member>) {
    forall i :: 0 <= i < |kids| ==> |kids[i].key| < TWO_32
  }

  lemma {:induction false} KeyKnown(kids: seq<Member>, strings: seq<seq<byte>>, k: nat)
    requires L.KidsKnown(kids, true, strings) && k < |kids|
    ensures kids[k].key in strings
  {
    if k < |kids| - 1 {
      KeyKnown(kids[..|kids| - 1], strings, k);
    }
  }

  lemma {:induction false} KidKnown(kids: seq<Member>, keyed: bool, strings: seq<seq<byte>>, k: nat)
    requires L.KidsKnown(kids, keyed, strings) && k < |kids|
    ensures L.Known(kids[k].value, strings)
    decreases |kids|
  {
    if k < |kids| - 1 {
      KidKnown(kids[..|kids| - 1], keyed, strings, k);
    }
  }

  // ----- whole trees -----

  lemma CountReads(data: seq<byte>, offset: nat, v: Value)
    requires v.IsContainer() && At(data, offset, L.CountHeader(v)) && |v.kids| < TWO_32
    ensures Load32(data, offset) == |v.kids|
  {
    AtParts(data, offset, LE(|v.kids|, 4), LE(|v.kids| * L.ItemSize(v), 4), []);
    assert L.CountHeader(v) + [] == L.CountHeader(v);
    AtLoad32(data, offset, |v.kids|);
  }

  /** The header, the table and the children of a container node. */
  lemma ContainerReads(r: R.Handle, o: nat, v: Value, table: seq<byte>, kids: seq<byte>)
    requires R.Valid(r) && v.IsContainer() && |v.kids| < TWO_32 && |table| == L.ItemSize(v) * |v.kids|
    requires NodeThere(r, o, v, L.CountHeader(v) + (table + kids))
    ensures R.ContainerBody(r, o, L.KindByte(v), L.ItemSize(v)) == Some(R.Body(|v.kids|, o + 9))
    ensures At(r.base, o + 9, table) && At(r.base, o + 9 + |table|, kids)
  {
    hide LE, Load32, L.CountHeader;
    var header := L.CountHeader(v);
    assert header + (table + kids) == header + table + kids;
    AtParts(r.base, o + 1, header, table, kids);
    CountReads(r.base, o + 1, v);
  }

  /** Where the parts of an emitted container are. */
  lemma ContainerThere(r: R.Handle, c: L.Context, v: Value, p: nat)
    requires FileOf(r, c) && EmittedAt(r, c, v, p) && v.IsContainer() && |v.kids| < TWO_32
    ensures var o, q := c.base + L.KindPos(v, p), L.KidsStart(v, p);
      && o < c.base + q && q + L.KidsSize(v.kids, q) <= r.header.nodesSize
      && R.KindAt(r, o) == Some(L.KindByte(v))
      && R.ContainerBody(r, o, L.KindByte(v), L.ItemSize(v)) == Some(R.Body(|v.kids|, o + 9))
      && At(r.base, o + 9, L.Table(v, q, c)) && At(r.base, c.base + q, L.EmitKids(v.kids, q, c))
  {
    hide L.KindPos, L.Size, L.KidsSize, L.KidsStart, AlignUp, EmittedAt, FileOf, NodeThere, L.Emit, L.KindByte, L.Table,
         L.CountHeader, R.ContainerBody, R.KindAt, R.Valid;
    var q := L.KidsStart(v, p);
    var body := NodeOf(r, c, v, p);
    ContainerReads(r, c.base + L.KindPos(v, p), v, L.Table(v, q, c), L.EmitKids(v.kids, q, c));
  }

  /** Every emitted value is found again at the offset the encoder gave it, with blocks in hash order throughout. */
  lemma {:induction false} NodeReads(r: R.Handle, c: L.Context, v: Value, p: nat)
    requires LegibleFile(r, c) && EmittedAt(r, c, v, p) && L.Known(v, c.strings) && WellFormed(v)
    ensures Holds(r, c.hash, c.base + L.KindPos(v, p), Canon(v, c.hash))
    decreases v, 0
  {
    hide L.KindPos, L.Size, L.KidsSize, L.KidsStart, AlignUp, EmittedAt, LegibleFile, FileOf, NodeThere,
         L.Emit, L.KindByte, L.Table, L.CountHeader, R.ContainerBody, R.KindAt, R.Valid, AllKidsRead;
    assert FileOf(r, c) && R.Valid(r) by { LegibleIsFile(r, c); }
    var o := c.base + L.KindPos(v, p);
    if v.IsContainer() {
      var q := L.KidsStart(v, p);
      ContainerThere(r, c, v, p);
      KidsRead(r, c, v.kids, v.Block?, q);
      ContainerHolds(r, c, v, o, q);
    } else {
      var body := NodeOf(r, c, v, p);
      ScalarReads(r, c, v, o);
    }
  }

  lemma ContainerHolds(r: R.Handle, c: L.Context, v: Value, o: nat, q: nat)
    requires LegibleFile(r, c) && v.IsContainer() && WellFormed(v) && L.Known(v, c.strings)
    requires R.KindAt(r, o) == Some(L.KindByte(v))
    requires R.ContainerBody(r, o, L.KindByte(v), L.ItemSize(v)) == Some(R.Body(|v.kids|, o + 9))
    requires At(r.base, o + 9, L.Table(v, q, c)) && AllKidsRead(r, c, v.kids, q) && o < c.base + q
    ensures Holds(r, c.hash, o, Canon(v, c.hash))
  {
    hide R.ContainerBody, At, AlignUp, L.EntriesBytes, L.ElementBytes, TableHolds, ElementHolds, StableSorted;
    if v.Block? {
      TableReads(r, c, o + 9, v.kids, q, o);
    } else {
      var kids := CanonKids(v.kids, c.hash);
      forall i | 0 <= i < |kids|
        ensures ElementHolds(r, c.hash, o, kids, i)
      {
        ElementReads(r, c, v, o, q, i);
      }
    }
  }

  lemma ElementReads(r: R.Handle, c: L.Context, v: Value, o: nat, q: nat, i: nat)
    requires FileOf(r, c) && v.Array? && WellFormed(v) && i < |v.kids|
    requires R.ArrayBody(r, o) == Some(R.Body(|v.kids|, o + 9))
    requires At(r.base, o + 9, L.ElementBytes(v.kids, q, c)) && AllKidsRead(r, c, v.kids, q) && o < c.base + q
    ensures ElementHolds(r, c.hash, o, CanonKids(v.kids, c.hash), i)
  {
    hide AlignUp, L.KindPos, L.KidsSize, L.ElementBytes, R.ArrayBody, R.ContainerBody, LE, At, Holds, Canon;
    CanonKidAt(v.kids, c.hash, i);
    assert KidReads(r, c, v.kids, q, i);
    ElementThere(r.base, o + 9, v.kids, q, c, i);
    assert v.kids[i].key == [];
    ElementIsMember(r, c.hash, o, CanonKids(v.kids, c.hash), i, c.base + L.KindPos(v.kids[i].value, L.KidPos(v.kids, i, q)));
  }

  lemma ElementIsMember(r: R.Handle, hash: Hash64, o: nat, kids: seq<Member>, i: nat, at: nat)
    requires R.Valid(r) && i < |kids| && kids[i].key == [] && o < at < TWO_64
    requires R.ArrayBody(r, o) == Some(R.Body(|kids|, o + 9))
    requires At(r.base, o + 9 + i * ELEMENT_SIZE, LE(at, 8))
    requires Holds(r, hash, at, kids[i].value)
    ensures ElementHolds(r, hash, o, kids, i)
  {
    hide R.ArrayBody, Holds, Load64;
    AtLoad64(r.base, o + 9 + i * ELEMENT_SIZE, at);
  }

  lemma {:induction false} KidsRead(r: R.Handle, c: L.Context, kids: seq<Member>, keyed: bool, p: nat)
    requires LegibleFile(r, c) && L.KidsKnown(kids, keyed, c.strings) && KidsWellFormed(kids)
    requires p + L.KidsSize(kids, p) <= r.header.nodesSize && At(r.base, c.base + p, L.EmitKids(kids, p, c))
    ensures AllKidsRead(r, c, kids, p)
    decreases kids, 0
  {
    hide L.Emit, L.EmitKids, L.KindPos, L.Size, L.KidsSize, Holds;
    if kids != [] {
      var n := |kids| - 1;
      LastKidThere(r, c, kids, p);
      KidsRead(r, c, kids[..n], keyed, p);
      assert WellFormed(kids[n].value);
      NodeReads(r, c, kids[n].value, L.KidPos(kids, n, p));
      forall i | 0 <= i < |kids|
        ensures KidReads(r, c, kids, p, i)
      {
        if i < n {
          EarlierKidReads(r, c, kids, p, i);
        }
      }
    }
  }

  lemma EarlierKidReads(r: R.Handle, c: L.Context, kids: seq<Member>, p: nat, i: nat)
    requires R.Valid(r) && i < |kids| - 1 && AllKidsRead(r, c, kids[..|kids| - 1], p)
    ensures KidReads(r, c, kids, p, i)
  {
    hide L.KindPos, L.KidsSize, Holds, Canon;
    assert KidReads(r, c, kids[..|kids| - 1], p, i);
    assert kids[..|kids| - 1][..i] == kids[..i];
  }

  /** Every child is emitted at its place. */
  lemma {:induction false} KidThere(r: R.Handle, c: L.Context, kids: seq<Member>, p: nat, k: nat)
    requires k < |kids| && p + L.KidsSize(kids, p) <= r.header.nodesSize && At(r.base, c.base + p, L.EmitKids(kids, p, c))
    ensures EmittedAt(r, c, kids[k].value, L.KidPos(kids, k, p))
    decreases |kids|
  {
    hide L.Emit, L.EmitKids, L.KindPos, L.Size, L.KidsSize, At, EmittedAt;
    var n := |kids| - 1;
    LastKidThere(r, c, kids, p);
    if k < n {
      KidThere(r, c, kids[..n], p, k);
      assert kids[..n][..k] == kids[..k];
    }
  }

  lemma LastKidThere(r: R.Handle, c: L.Context, kids: seq<Member>, p: nat)
    requires kids != [] && p + L.KidsSize(kids, p) <= r.header.nodesSize && At(r.base, c.base + p, L.EmitKids(kids, p, c))
    ensures var n := |kids| - 1;
      && p + L.KidsSize(kids[..n], p) <= r.header.nodesSize && At(r.base, c.base + p, L.EmitKids(kids[..n], p, c))
      && EmittedAt(r, c, kids[n].value, L.KidPos(kids, n, p))
  {
    hide L.Emit, L.EmitKids, L.KindPos, L.KidPos, L.Size, L.KidsSize, At;
    L.EmitKidsSnoc(kids, p, c);
    var n := |kids| - 1;
    var q := L.KidPos(kids, n, p);
    L.EmitKidsSize(kids[..n], p, c);
    AtTwo(r.base, c.base + p, L.EmitKids(kids[..n], p, c), L.Emit(kids[n].value, q, c));
  }
}
