/** The file a writer produces, seen by the verifier. */
module WrittenFile {
  import opened Bytes
  import opened Canonical
  import opened Document
  import opened Format
  import opened PoolLayout
  import opened StableSort
  import opened StringPool
  import E = Encode
  import L = Layout
  import R = Reader
  import RB = ReadBack
  import RT = RoundTrip
  import Utf8
  import V = Verify

  // ----- distinct hashes, and permutations -----

  ghost predicate DistinctHashes(ms: seq<Member>, hash: Hash64) {
    forall i, j :: 0 <= i < j < |ms| ==> hash(ms[i].key) != hash(ms[j].key)
  }

  /** A permutation keeps hashes distinct. */
  lemma PermutedDistinct(a: seq<Member>, b: seq<Member>, hash: Hash64)
    requires multiset(a) == multiset(b) && DistinctHashes(a, hash)
    ensures DistinctHashes(b, hash)
  {
    forall i, j | 0 <= i < j < |b|
      ensures hash(b[i].key) != hash(b[j].key)
    {
      if b[i] == b[j] {
        TwoEqual(b, i, j);
        var k, l := TwoPlaces(a, b[i]);
      } else {
        assert b[i] in multiset(b) && b[j] in multiset(b);
        assert b[i] in a && b[j] in a;
        var k :| 0 <= k < |a| && a[k] == b[i];
        var l :| 0 <= l < |a| && a[l] == b[j];
      }
    }
  }

  lemma CanonDistinct(doc: seq<Member>, hash: Hash64)
    ensures DistinctHashes(CanonDocument(doc, hash), hash) <==> DistinctHashes(doc, hash)
  {
    var ms := CanonKids(doc, hash);
    forall i | 0 <= i < |doc|
      ensures ms[i].key == doc[i].key
    {
      CanonKidAt(doc, hash, i);
    }
    SortMembersIsPermutation(ms, hash);
    if DistinctHashes(doc, hash) {
      assert DistinctHashes(ms, hash);
      PermutedDistinct(ms, SortMembers(ms, hash), hash);
    }
    if DistinctHashes(SortMembers(ms, hash), hash) {
      PermutedDistinct(SortMembers(ms, hash), ms, hash);
      assert forall i :: 0 <= i < |doc| ==> hash(doc[i].key) == hash(ms[i].key);
    }
  }

  // ----- the root entries -----

  /** What interning guarantees: pool offsets, before relocation, and lengths fit in 32 bits. */
  ghost predicate PoolFits(doc: seq<Member>) {
    forall s :: s in E.Strings(doc) ==> FitsIn(E.Strings(doc), s)
  }

  /** The pool offsets of root keys still fit in 32 bits after relocation. */
  ghost predicate RootKeysFit(doc: seq<Member>) {
    forall i :: 0 <= i < |doc| ==> RT.OffsetFits(doc, doc[i].key)
  }

  /** Root entry `i` of a written file passes exactly when its key's pool offset was not cut off: if it was, it points before the pool. */
  lemma RootEntryAt(doc: seq<Member>, hash: Hash64, i: nat)
    requires E.FileSize(doc) < TWO_64 && PoolFits(doc) && i < |doc|
    ensures V.RootOk(RT.FileHandle(doc, hash), i) <==> RT.OffsetFits(doc, CanonDocument(doc, hash)[i].key)
    ensures V.RootHash(RT.FileHandle(doc, hash), i) == hash(CanonDocument(doc, hash)[i].key)
  {
    hide E.File, E.Strings, E.Payload, E.FileHeader, L.KidsSize, L.Pending, L.EntriesBytes, L.EntryBytes, L.KindPos, L.KidPos,
         StableSorted, PoolBytes, LoadHeader, CanonKids, SortMembers, Record, OffsetOf, At, R.ReadEntry, L.KidsKnown;
    var r, c := RT.FileHandle(doc, hash), E.FileContext(doc, hash);
    E.FileLength(doc, hash);
    E.HeaderReads(doc, hash, r.base);
    E.FileParts(doc, hash, r.base);
    E.DocumentKnown(doc);
    var k := RB.SortedTogether(doc, 0, c, i);
    RB.KeyKnown(doc, c.strings, k);
    KeyBound(c.strings, doc[k].key);
    assert FitsIn(E.Strings(doc), doc[k].key);
    RB.EntryThere(r.base, HEADER_SIZE, StableSorted(L.Pending(doc, 0, c)), c.delta, i);
    L.KidInside(doc, 0, k);
    RB.EntryReads(r, HEADER_SIZE + i * ENTRY_SIZE, L.EntryFor(doc[k], L.KidPos(doc, k, 0), c), c.delta);
    CutOff(E.StringsOffset(doc), OffsetOf(c.strings, doc[k].key));
  }

  /** A pool offset that is cut off to 32 bits ends up before the pool. */
  lemma CutOff(base: nat, offset: nat)
    requires offset < TWO_32
    ensures base + offset < TWO_32 ==> (base + offset) % TWO_32 == base + offset
    ensures base + offset >= TWO_32 ==> (base + offset) % TWO_32 < base
  {
  }

  lemma KeyBound(strings: seq<Str>, s: Str)
    requires s in strings
    ensures OffsetOf(strings, s) + 4 + |s| <= |PoolBytes(strings)|
  {
    RecordAtOffset(strings, s);
  }

  // ----- what the verifier makes of it -----

  /** The pool of a written file passes exactly when every key and string value is UTF-8. */
  lemma PoolPasses(doc: seq<Member>)
    requires PoolFits(doc)
    ensures V.PoolOk(PoolBytes(E.Strings(doc)), |E.Strings(doc)|) <==> forall s :: s in E.Strings(doc) ==> Utf8.IsUtf8(s)
  {
    hide E.Strings, PoolBytes, Utf8.IsUtf8, OffsetOf;
    var strings := E.Strings(doc);
    forall s | s in strings
      ensures |s| < TWO_32
    {
      assert FitsIn(E.Strings(doc), s);
    }
    if forall s :: s in strings ==> Utf8.IsUtf8(s) {
      assert V.IsPool(PoolBytes(strings), strings);
    }
    if V.PoolOk(PoolBytes(strings), |strings|) {
      var all :| |all| == |strings| && V.IsPool(PoolBytes(strings), all);
      V.PoolUnique(PoolBytes(strings), strings, all);
      assert forall i :: 0 <= i < |strings| ==> V.StringOk(strings[i]);
    }
  }

  /** Every root key is one in encoding order, and the other way round. */
  lemma CanonKeysFit(doc: seq<Member>, hash: Hash64)
    ensures RootKeysFit(doc) <==> forall i :: 0 <= i < |doc| ==> RT.OffsetFits(doc, CanonDocument(doc, hash)[i].key)
  {
    hide CanonKids, SortMembers, Canon, RT.OffsetFits;
    var ms, sorted := CanonKids(doc, hash), CanonDocument(doc, hash);
    if forall i :: 0 <= i < |doc| ==> RT.OffsetFits(doc, sorted[i].key) {
      forall j | 0 <= j < |doc|
        ensures RT.OffsetFits(doc, doc[j].key)
      {
        CanonKidAt(doc, hash, j);
        SortedMembers(ms, hash, ms[j]);
        var i :| 0 <= i < |sorted| && sorted[i] == ms[j];
      }
    }
    if RootKeysFit(doc) {
      forall i | 0 <= i < |doc|
        ensures RT.OffsetFits(doc, sorted[i].key)
      {
        var j := CanonSource(doc, hash, i);
      }
    }
  }

  /** Root entries pass exactly when no two root keys have the same hash and none's pool offset was cut off. */
  lemma RootsPass(doc: seq<Member>, hash: Hash64)
    requires E.FileSize(doc) < TWO_64 && PoolFits(doc)
    ensures V.RootsOk(RT.FileHandle(doc, hash), |doc|) <==> DistinctHashes(doc, hash) && RootKeysFit(doc)
  {
    hide E.File, E.Strings, E.FileHeader, V.RootOk, V.RootHash, CanonKids, PoolFits, RT.OffsetFits, RootKeysFit;
    var r, ms := RT.FileHandle(doc, hash), CanonDocument(doc, hash);
    CanonDistinct(doc, hash);
    CanonKeysFit(doc, hash);
    SortMembersSorted(CanonKids(doc, hash), hash);
    assert HashSorted(ms, hash);
    forall i | 0 <= i < |doc|
      ensures V.RootOk(r, i) <==> RT.OffsetFits(doc, ms[i].key)
      ensures V.RootHash(r, i) == hash(ms[i].key)
    {
      RootEntryAt(doc, hash, i);
    }
  }

  /**
   * Writer output and the verifier: a written file passes exactly when every key and string value in it is UTF-8, no two
   * root keys have the same hash, and the pool offsets of root keys fit in 32 bits.
   */
  lemma WrittenIsAccepted(doc: seq<Member>, hash: Hash64)
    requires E.FileSize(doc) < TWO_64 && PoolFits(doc)
    ensures V.BufferOk(E.File(doc, hash), hash) <==>
      (forall s :: s in E.Strings(doc) ==> Utf8.IsUtf8(s)) && DistinctHashes(doc, hash) && RootKeysFit(doc)
  {
    hide E.File, E.Strings, E.Payload, E.FileHeader, LoadHeader, L.KidsSize, PoolBytes, V.PoolOk, V.RootsOk,
         DistinctHashes, At, RootKeysFit, Utf8.IsUtf8, R.Open, R.Valid, NoWrap, LayoutOk, PoolFits;
    var data := E.File(doc, hash);
    E.FileLength(doc, hash);
    RT.FileOpens(doc, hash, data);
    E.HeaderReads(doc, hash, data);
    E.FileParts(doc, hash, data);
    Slices(doc, hash, data);
    assert E.FileHeader(doc, hash).checksum == hash(E.Payload(doc, hash)) by { HeaderChecksum(doc, hash); }
    PoolPasses(doc);
    RootsPass(doc, hash);
  }

  /** For a file that fits in 32 bits the last condition always holds. */
  lemma SmallFits(doc: seq<Member>, hash: Hash64)
    requires |E.File(doc, hash)| <= TWO_32
    ensures PoolFits(doc) && RootKeysFit(doc)
  {
    hide E.File, E.Strings, E.StringsOffset, OffsetOf;
    RT.SmallIsLegible(doc, hash);
    E.DocumentKnown(doc);
    forall s | s in E.Strings(doc)
      ensures FitsIn(E.Strings(doc), s)
    {
      assert RT.OffsetFits(doc, s);
    }
    forall i | 0 <= i < |doc|
      ensures RT.OffsetFits(doc, doc[i].key)
    {
      RB.KeyKnown(doc, E.Strings(doc), i);
    }
  }

  lemma HeaderChecksum(doc: seq<Member>, hash: Hash64)
    ensures E.FileHeader(doc, hash).checksum == hash(E.Payload(doc, hash))
  {
  }

  lemma Slices(doc: seq<Member>, hash: Hash64, data: seq<byte>)
    requires At(data, HEADER_SIZE, E.Payload(doc, hash)) && At(data, E.StringsOffset(doc), PoolBytes(E.Strings(doc)))
    requires |E.Payload(doc, hash)| == E.FileSize(doc) - HEADER_SIZE - FOOTER_SIZE
    ensures var end := E.StringsOffset(doc) + |PoolBytes(E.Strings(doc))|;
      && end <= |data| && HEADER_SIZE <= end
      && data[HEADER_SIZE..end] == E.Payload(doc, hash)
      && data[E.StringsOffset(doc)..end] == PoolBytes(E.Strings(doc))
  {
    hide E.Payload, E.Strings, PoolBytes, L.KidsSize;
  }
}
