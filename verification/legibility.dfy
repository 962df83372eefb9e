/** Exactly when a written file decodes to its document: when every stored reference to a string leads to that string. */
module Legibility {
  import opened Bytes
  import opened Canonical
  import opened Document
  import opened Format
  import opened Options
  import opened PoolLayout
  import opened ReadBack
  import opened RoundTrip
  import opened StableSort
  import E = Encode
  import L = Layout
  import R = Reader

  // ----- what has been decoded, piece by piece -----

  lemma {:induction false} EntriesDecoded(r: R.Handle, floor: nat, items: nat, n: nat, ms: seq<Member>, i: nat)
    requires R.Valid(r) && DecodeEntries(r, floor, items, n) == Some(ms) && i < n
    ensures |ms| == n && R.ReadEntry(r, items + i * ENTRY_SIZE).Some?
    ensures var e := R.ReadEntry(r, items + i * ENTRY_SIZE).value;
      && R.EntryChild(r, e) == Some(R.Child(ms[i].key, e.item.valueOffset))
      && Decode(r, e.item.valueOffset) == Some(ms[i].value)
    decreases n
  {
    hide Decode, R.ReadEntry;
    var init := DecodeEntries(r, floor, items, n - 1).value;
    DecodedCount(r, floor, items, n - 1, init);
    if i < n - 1 {
      EntriesDecoded(r, floor, items, n - 1, init, i);
    }
  }

  lemma {:induction false} DecodedCount(r: R.Handle, floor: nat, items: nat, n: nat, ms: seq<Member>)
    requires R.Valid(r) && DecodeEntries(r, floor, items, n) == Some(ms)
    ensures |ms| == n
    decreases n
  {
    hide Decode, R.ReadEntry, R.EntryChild;
    if n > 0 {
      DecodedCount(r, floor, items, n - 1, DecodeEntries(r, floor, items, n - 1).value);
    }
  }

  lemma {:induction false} ElementsDecoded(r: R.Handle, floor: nat, n: nat, ms: seq<Member>, i: nat)
    requires R.Valid(r) && DecodeElements(r, floor, n) == Some(ms) && i < n
    ensures |ms| == n && R.ArrayAt(r, floor, i).Some? && Decode(r, R.ArrayAt(r, floor, i).value) == Some(ms[i].value)
    decreases n
  {
    hide Decode, R.ArrayAt, R.Valid;
    var init := DecodeElements(r, floor, n - 1).value;
    ElementCount(r, floor, n - 1, init);
    if i < n - 1 {
      ElementsDecoded(r, floor, n - 1, init, i);
    }
  }

  lemma {:induction false} ElementCount(r: R.Handle, floor: nat, n: nat, ms: seq<Member>)
    requires R.Valid(r) && DecodeElements(r, floor, n) == Some(ms)
    ensures |ms| == n
    decreases n
  {
    hide Decode, R.ArrayBody;
    if n > 0 {
      ElementCount(r, floor, n - 1, DecodeElements(r, floor, n - 1).value);
    }
  }

  // ----- decoding needs its strings -----

  /** The strings the node of `v` and the nodes below it refer to. */
  function Needs(v: Value): (r: seq<Str>) {
    E.Collected(v) + E.EmptyKeys(v)
  }

  /** Child `i`, in the order of emission, decodes to what it should. */
  ghost predicate KidDecoded(r: R.Handle, c: L.Context, kids: seq<Member>, p: nat, i: nat)
    requires R.Valid(r) && i < |kids|
  {
    Decode(r, c.base + L.KindPos(kids[i].value, L.KidPos(kids, i, p))) == Some(Canon(kids[i].value, c.hash))
  }

  ghost predicate AllKidsDecoded(r: R.Handle, c: L.Context, kids: seq<Member>, p: nat)
    requires R.Valid(r)
  {
    forall i :: 0 <= i < |kids| ==> KidDecoded(r, c, kids, p, i)
  }

  ghost predicate KeysReadable(r: R.Handle, c: L.Context, kids: seq<Member>, keyed: bool) {
    forall i :: 0 <= i < |kids| ==> keyed || kids[i].key != [] ==> Readable(r.base, c, kids[i].key)
  }

  /** A string a list of children needs is a key there, or needed by a child. */
  lemma {:induction false} NeededByKids(kids: seq<Member>, keyed: bool, s: Str) returns (k: nat)
    requires s in E.CollectedKids(kids) + E.EmptyKeysOf(kids, keyed)
    ensures k < |kids| && ((s == kids[k].key && (keyed || s != [])) || s in Needs(kids[k].value))
    decreases |kids|
  {
    var n := |kids| - 1;
    if s in E.CollectedKids(kids[..n]) + E.EmptyKeysOf(kids[..n], keyed) {
      k := NeededByKids(kids[..n], keyed, s);
    } else {
      assert s in E.CollectedMember(kids[n]) + E.EmptyKeysOfMember(kids[n], keyed);
      k := n;
    }
  }

  /** A string node that decodes to its string has a reference that leads there. */
  lemma StringNeeded(r: R.Handle, c: L.Context, v: Value, o: nat)
    requires FileOf(r, c) && v.String? && |v.s| < TWO_32 && NodeThere(r, o, v, L.ScalarBody(v, c))
    requires Decode(r, o) == Some(v)
    ensures Readable(r.base, c, v.s)
  {
    hide Load32, LE;
    KindByteIsKind(v);
    RefReads(r.base, o + 1, c.delta + OffsetOf(c.strings, v.s), |v.s|);
  }

  /** Where child `k` stands in the sorted table. */
  lemma SortedPlace(kids: seq<Member>, p: nat, c: L.Context, k: nat) returns (i: nat)
    requires k < |kids|
    ensures i < |kids|
    ensures StableSorted(L.Pending(kids, p, c))[i] == L.EntryFor(kids[k], L.KidPos(kids, k, p), c)
    ensures SortMembers(CanonKids(kids, c.hash), c.hash)[i] == Member(kids[k].key, Canon(kids[k].value, c.hash))
  {
    hide L.KindPos, L.KidPos, StableSorted, SortMembers, CanonKids, OffsetOf;
    var es := L.Pending(kids, p, c);
    PendingAt(kids, p, c, k);
    SortedHasAll(es, k);
    i :| 0 <= i < |StableSorted(es)| && StableSorted(es)[i] == es[k];
    var k' := SortedTogether(kids, p, c, i);
    L.PlacesDiffer(kids, p, k, k');
  }

  lemma SortedHasAll(es: seq<L.Entry>, k: nat)
    requires k < |es|
    ensures es[k] in StableSorted(es) && |StableSorted(es)| == |es|
  {
    var d := WHOLE(es[k].hash);
    StableSortedIsStable(es);
    BucketHas(es, k, WHOLE);
    assert SameBucket(es, StableSorted(es), WHOLE, d);
    BucketIsUniform(StableSorted(es), WHOLE, d);
  }

  /** A table that decodes to the sorted members: every child decodes, and every key is readable. */
  lemma TableNeeds(r: R.Handle, c: L.Context, items: nat, kids: seq<Member>, p: nat, floor: nat)
    requires FileOf(r, c) && AllShortKeys(kids) && p + L.KidsSize(kids, p) <= r.header.nodesSize
    requires At(r.base, items, L.EntriesBytes(StableSorted(L.Pending(kids, p, c)), c.delta))
    requires DecodeEntries(r, floor, items, |kids|) == Some(SortMembers(CanonKids(kids, c.hash), c.hash))
    ensures AllKidsDecoded(r, c, kids, p) && KeysReadable(r, c, kids, true)
  {
    hide L.EntriesBytes, L.EntryBytes, L.KindPos, L.KidPos, L.KidsSize, StableSorted, SortMembers, CanonKids, At, Decode, DecodeEntries,
         R.ReadEntry, OffsetOf, Readable, AllShortKeys;
    forall k | 0 <= k < |kids|
      ensures KidDecoded(r, c, kids, p, k) && Readable(r.base, c, kids[k].key)
    {
      TableEntryNeeds(r, c, items, kids, p, floor, k);
    }
  }

  lemma TableEntryNeeds(r: R.Handle, c: L.Context, items: nat, kids: seq<Member>, p: nat, floor: nat, k: nat)
    requires FileOf(r, c) && AllShortKeys(kids) && k < |kids| && p + L.KidsSize(kids, p) <= r.header.nodesSize
    requires At(r.base, items, L.EntriesBytes(StableSorted(L.Pending(kids, p, c)), c.delta))
    requires DecodeEntries(r, floor, items, |kids|) == Some(SortMembers(CanonKids(kids, c.hash), c.hash))
    ensures KidDecoded(r, c, kids, p, k) && Readable(r.base, c, kids[k].key)
  {
    hide L.EntriesBytes, L.EntryBytes, L.KindPos, L.KidPos, L.KidsSize, StableSorted, SortMembers, CanonKids, At, Decode, DecodeEntries,
         R.ReadEntry, OffsetOf, R.EntryChild;
    var i := SortedPlace(kids, p, c, k);
    var e := L.EntryFor(kids[k], L.KidPos(kids, k, p), c);
    L.KidInside(kids, p, k);
    EntryThere(r.base, items, StableSorted(L.Pending(kids, p, c)), c.delta, i);
    EntryReads(r, items + i * ENTRY_SIZE, e, c.delta);
    EntriesDecoded(r, floor, items, |kids|, SortMembers(CanonKids(kids, c.hash), c.hash), i);
    ChildIsReadable(r, c, R.ReadEntry(r, items + i * ENTRY_SIZE).value, kids[k].key);
  }

  lemma ChildIsReadable(r: R.Handle, c: L.Context, e: L.Entry, key: Str)
    requires e.item.keyOffset == StoredOffset(c, key) && |key| < TWO_32
    requires R.EntryChild(r, e) == Some(R.Child(key, e.item.valueOffset))
    ensures Readable(r.base, c, key)
  {
  }

  lemma ArrayNeeds(r: R.Handle, c: L.Context, v: Value, o: nat, q: nat)
    requires FileOf(r, c) && v.Array? && q + L.KidsSize(v.kids, q) <= r.header.nodesSize
    requires R.ArrayBody(r, o) == Some(R.Body(|v.kids|, o + 9)) && At(r.base, o + 9, L.ElementBytes(v.kids, q, c))
    requires DecodeElements(r, o, |v.kids|) == Some(CanonKids(v.kids, c.hash))
    ensures AllKidsDecoded(r, c, v.kids, q)
  {
    hide L.ElementBytes, L.KindPos, L.KidPos, L.KidsSize, At, Decode, DecodeElements, CanonKids, R.ArrayBody, LE, Load64;
    forall k | 0 <= k < |v.kids|
      ensures KidDecoded(r, c, v.kids, q, k)
    {
      L.KidInside(v.kids, q, k);
      ElementThere(r.base, o + 9, v.kids, q, c, k);
      AtLoad64(r.base, o + 9 + k * ELEMENT_SIZE, c.base + L.KindPos(v.kids[k].value, L.KidPos(v.kids, k, q)));
      ElementsDecoded(r, o, |v.kids|, CanonKids(v.kids, c.hash), k);
      CanonKidAt(v.kids, c.hash, k);
    }
  }

  /** What decodes to a tree has a readable reference to every string of the tree. */
  lemma {:induction false} NodeNeeds(r: R.Handle, c: L.Context, v: Value, p: nat)
    requires FileOf(r, c) && EmittedAt(r, c, v, p) && WellFormed(v) && AllShort(Needs(v))
    requires Decode(r, c.base + L.KindPos(v, p)) == Some(Canon(v, c.hash))
    ensures AllReadable(r.base, c, Needs(v))
    decreases v, 0
  {
    hide L.KindPos, L.Size, L.KidsSize, L.KidsStart, AlignUp, EmittedAt, FileOf, NodeThere, L.Emit, L.KindByte, L.Table,
         L.CountHeader, R.ContainerBody, R.KindAt, Decode, Readable, AllKidsDecoded, KeysReadable, Canon, E.CollectedKids, E.EmptyKeysOf;
    var o := c.base + L.KindPos(v, p);
    if v.IsContainer() {
      var q := L.KidsStart(v, p);
      ContainerThere(r, c, v, p);
      ContainerNeeds(r, c, v, o, q);
      KidsNeed(r, c, v.kids, v.Block?, q);
    } else if v.String? {
      var body := NodeOf(r, c, v, p);
      assert v.s in Needs(v) && Canon(v, c.hash) == v by { StringIsItself(v, c.hash); }
      StringNeeded(r, c, v, o);
    }
  }

  lemma StringIsItself(v: Value, hash: Hash64)
    requires v.String?
    ensures v.s in Needs(v) && Canon(v, hash) == v
  {
  }

  lemma ContainerNeeds(r: R.Handle, c: L.Context, v: Value, o: nat, q: nat)
    requires FileOf(r, c) && v.IsContainer() && AllShort(Needs(v)) && WellFormed(v)
    requires q + L.KidsSize(v.kids, q) <= r.header.nodesSize
    requires R.KindAt(r, o) == Some(L.KindByte(v))
    requires R.ContainerBody(r, o, L.KindByte(v), L.ItemSize(v)) == Some(R.Body(|v.kids|, o + 9))
    requires At(r.base, o + 9, L.Table(v, q, c)) && Decode(r, o) == Some(Canon(v, c.hash))
    ensures AllKidsDecoded(r, c, v.kids, q) && KeysReadable(r, c, v.kids, v.Block?)
  {
    hide R.ContainerBody, At, L.EntriesBytes, L.ElementBytes, StableSorted, DecodeEntries, DecodeElements, SortMembers, CanonKids,
         L.KidsSize, AllKidsDecoded, Readable, R.KindAt;
    if v.Block? {
      KeysShort(v.kids);
      TableNeeds(r, c, o + 9, v.kids, q, o);
    } else {
      ArrayNeeds(r, c, v, o, q);
    }
  }

  lemma {:induction false} KeysShort(kids: seq<Member>)
    requires AllShort(E.CollectedKids(kids))
    ensures AllShortKeys(kids)
  {
    if kids != [] {
      var n := |kids| - 1;
      assert forall s :: s in E.CollectedKids(kids[..n]) ==> s in E.CollectedKids(kids);
      KeysShort(kids[..n]);
      assert kids[n].key != [] ==> kids[n].key in E.CollectedMember(kids[n]);
    }
  }

  lemma {:induction false} KidsNeed(r: R.Handle, c: L.Context, kids: seq<Member>, keyed: bool, p: nat)
    requires FileOf(r, c) && KidsWellFormed(kids) && AllShort(E.CollectedKids(kids) + E.EmptyKeysOf(kids, keyed))
    requires p + L.KidsSize(kids, p) <= r.header.nodesSize && At(r.base, c.base + p, L.EmitKids(kids, p, c))
    requires AllKidsDecoded(r, c, kids, p) && KeysReadable(r, c, kids, keyed)
    ensures AllReadable(r.base, c, E.CollectedKids(kids) + E.EmptyKeysOf(kids, keyed))
    decreases kids, 0
  {
    hide L.Emit, L.EmitKids, L.KindPos, L.Size, L.KidsSize, L.KidPos, Decode, Readable, Canon, E.CollectedKids, E.EmptyKeysOf, At, EmittedAt;
    if kids != [] {
      var n := |kids| - 1;
      var last := kids[n];
      LastKidThere(r, c, kids, p);
      NeedsSnoc(kids, keyed);
      EarlierDecoded(r, c, kids, p);
      KidsNeed(r, c, kids[..n], keyed, p);
      assert WellFormed(last.value);
      assert KidDecoded(r, c, kids, p, n);
      NodeNeeds(r, c, last.value, L.KidPos(kids, n, p));
    } else {
      NothingNeeded(keyed);
    }
  }

  lemma NothingNeeded(keyed: bool)
    ensures E.CollectedKids([]) + E.EmptyKeysOf([], keyed) == []
  {
  }

  lemma NeedsSnoc(kids: seq<Member>, keyed: bool)
    requires kids != []
    ensures var n := |kids| - 1;
      forall s :: s in E.CollectedKids(kids) + E.EmptyKeysOf(kids, keyed) <==>
        || s in E.CollectedKids(kids[..n]) + E.EmptyKeysOf(kids[..n], keyed)
        || s in Needs(kids[n].value)
        || (s == kids[n].key && (keyed || s != []))
  {
    hide E.Collected, E.EmptyKeys;
    var n := |kids| - 1;
    assert E.CollectedKids(kids) == E.CollectedKids(kids[..n]) + E.CollectedMember(kids[n]);
    assert E.EmptyKeysOf(kids, keyed) == E.EmptyKeysOf(kids[..n], keyed) + E.EmptyKeysOfMember(kids[n], keyed);
  }

  lemma EarlierDecoded(r: R.Handle, c: L.Context, kids: seq<Member>, p: nat)
    requires R.Valid(r) && kids != [] && AllKidsDecoded(r, c, kids, p)
    ensures AllKidsDecoded(r, c, kids[..|kids| - 1], p)
  {
    hide L.KindPos, L.KidsSize, Decode, Canon;
    var init := kids[..|kids| - 1];
    forall i | 0 <= i < |init|
      ensures KidDecoded(r, c, init, p, i)
    {
      assert KidDecoded(r, c, kids, p, i);
      assert init[..i] == kids[..i];
    }
  }

  // ----- the document -----

  /**
   * Encode, then decode, exactly: whatever the size of the file, the document comes back (in hash order) if and only if
   * every stored reference to one of its strings, a pool offset cut off to 32 bits, leads to that string.
   */
  lemma DecodesExactly(doc: seq<Member>, hash: Hash64)
    requires E.FileSize(doc) < TWO_64 && KidsWellFormed(doc) && AllShort(E.Strings(doc))
    ensures R.Open(E.File(doc, hash)).Some? && NoWrap(LoadHeader(E.File(doc, hash)))
    ensures DecodeDocument(E.File(doc, hash)) == Some(CanonDocument(doc, hash)) <==> Legible(doc, hash)
  {
    hide E.File, E.FileHeader, E.Strings, E.Payload, L.EmitKids, L.KidsSize, PoolBytes, CanonDocument, LoadHeader, DecodeEntries,
         NoWrap, LayoutOk, Legible;
    var data, r := E.File(doc, hash), FileHandle(doc, hash);
    E.FileLength(doc, hash);
    FileOpens(doc, hash, data);
    E.HeaderReads(doc, hash, data);
    if Legible(doc, hash) {
      DecodeOfEncode(doc, hash);
    }
    if DecodeDocument(data) == Some(CanonDocument(doc, hash)) {
      DocumentNeeds(doc, hash);
    }
  }

  lemma StringsNeeded(doc: seq<Member>)
    requires AllShort(E.Strings(doc))
    ensures AllShort(E.CollectedKids(doc) + E.EmptyKeysOf(doc, true))
    ensures forall s :: s in E.Strings(doc) ==> s in E.CollectedKids(doc) + E.EmptyKeysOf(doc, true)
  {
    hide E.CollectedKids, E.EmptyKeysOf, E.Strings;
    E.DocumentKnown(doc);
  }

  lemma DocumentNeeds(doc: seq<Member>, hash: Hash64)
    requires E.FileSize(doc) < TWO_64 && KidsWellFormed(doc) && AllShort(E.Strings(doc))
    requires R.Valid(FileHandle(doc, hash))
    requires DecodeEntries(FileHandle(doc, hash), 0, HEADER_SIZE, |doc|) == Some(CanonDocument(doc, hash))
    ensures Legible(doc, hash)
  {
    hide E.File, E.FileHeader, E.Strings, L.EmitKids, L.EntriesBytes, L.KidsSize, L.Pending, StableSorted, At, DecodeEntries,
         CanonKids, SortMembers, KidsWellFormed, Readable, AllKidsDecoded, KeysReadable, AllShortKeys, E.CollectedKids,
         E.EmptyKeysOf, E.StringsOffset, E.FileSize;
    var r, c := FileHandle(doc, hash), E.FileContext(doc, hash);
    SectionsThere(doc, hash);
    StringsNeeded(doc);
    KeysShort(doc);
    TableNeeds(r, c, HEADER_SIZE, doc, 0, 0);
    KidsNeed(r, c, doc, true, 0);
  }
}
