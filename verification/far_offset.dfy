/** A document that the encoder writes without complaint and that does not come back: its pool reaches beyond 2^32. */
module FarOffset {
  import opened Bytes
  import opened Canonical
  import opened Document
  import opened Format
  import opened Options
  import opened PoolLayout
  import opened ReadBack
  import opened RoundTrip
  import opened StringPool
  import E = Encode
  import L = Layout
  import Legibility
  import M = Machine
  import R = Reader
  import S = Serializer
  import V = Verify
  import W = WrittenFile

  // ----- what a cut-off reference leads to -----

  /** A reference that does not fit leads to before the pool, 2^32 bytes from where its string is. */
  lemma CutOffPlace(doc: seq<Member>, hash: Hash64, s: Str)
    requires W.PoolFits(doc) && s in E.Strings(doc) && !OffsetFits(doc, s) && E.StringsOffset(doc) <= TWO_32
    ensures StoredOffset(E.FileContext(doc, hash), s) == E.StringsOffset(doc) + OffsetOf(E.Strings(doc), s) - TWO_32 < E.StringsOffset(doc)
  {
    hide E.Strings, OffsetOf, E.StringsOffset;
    assert FitsIn(E.Strings(doc), s);
  }

  /** The header and the root index, which stand before the nodes. */
  ghost function FrontBytes(doc: seq<Member>, hash: Hash64): (r: seq<byte>) {
    HeaderBytes(E.FileHeader(doc, hash)) + E.RootIndex(doc, hash)
  }

  /**
   * A document cannot come back if the reference to one of its strings leads to a place before the nodes whose bytes, of
   * the header or the root index, do not spell the string.
   */
  lemma FrontLosesString(doc: seq<Member>, hash: Hash64, s: Str, k: nat)
    requires E.FileSize(doc) < TWO_64 && KidsWellFormed(doc) && AllShort(E.Strings(doc)) && s in E.Strings(doc) && k < |s|
    requires var at := StoredOffset(E.FileContext(doc, hash), s) + 4 + k;
      at < |FrontBytes(doc, hash)| && s[k] != FrontBytes(doc, hash)[at]
    ensures R.Open(E.File(doc, hash)).Some? && NoWrap(LoadHeader(E.File(doc, hash)))
    ensures DecodeDocument(E.File(doc, hash)) != Some(CanonDocument(doc, hash))
  {
    hide E.Strings, E.FileHeader, HeaderBytes, FooterBytes, E.RootIndex, E.Nodes, PoolBytes, CanonDocument, LoadHeader, R.Open,
         DecodeDocument, NoWrap, KidsWellFormed, StoredOffset, FrontBytes, AllShort, E.FileSize, Readable, E.File;
    Legibility.DecodesExactly(doc, hash);
    if Legible(doc, hash) {
      var data, c := E.File(doc, hash), E.FileContext(doc, hash);
      assert Readable(data, c, s);
      ReadableByte(data, c, s, k);
      FrontThere(doc, hash, StoredOffset(c, s) + 4 + k);
    }
  }

  lemma ReadableByte(data: seq<byte>, c: L.Context, s: Str, k: nat)
    requires Readable(data, c, s) && k < |s|
    ensures StoredOffset(c, s) + 4 + k < |data| && data[StoredOffset(c, s) + 4 + k] == s[k]
  {
    hide StoredOffset;
    var at := StoredOffset(c, s) + 4;
    assert data[at..at + |s|][k] == data[at + k];
  }

  lemma FrontThere(doc: seq<Member>, hash: Hash64, i: nat)
    requires i < |FrontBytes(doc, hash)|
    ensures i < |E.File(doc, hash)| && E.File(doc, hash)[i] == FrontBytes(doc, hash)[i]
  {
    hide E.Strings, E.FileHeader, E.FileFooter, HeaderBytes, FooterBytes, E.RootIndex, E.Nodes, PoolBytes;
  }

  // ----- a document that is lost -----

  const A: Str := [0x61]
  const B: Str := [0x62]
  const LENGTH := TWO_32 - 100

  /** Under "a" a string of 2^32 - 100 zeros, then the key "b". */
  function Far(): (doc: seq<Member>) {
    [Member(A, String(Zeros(LENGTH))), Member(B, Null)]
  }

  lemma FarCollects()
    ensures E.CollectedKids(Far()) == [A] + [Zeros(LENGTH)] + [B] && E.EmptyKeysOf(Far(), true) == []
  {
    hide E.CollectedKids, E.EmptyKeysOf, Zeros;
    var first, second := Far()[0], Far()[1];
    assert Far() == [] + [first] + [second];
    E.CollectsNext([], first);
    E.CollectsNext([] + [first], second);
    E.NothingCollected();
    assert E.CollectedMember(first) == [A] + [Zeros(LENGTH)] && E.CollectedMember(second) == [B];
  }

  /** The pool after "a" and the zeros is 88 bytes short of 2^32, so "b" is still interned. */
  lemma FarInterns()
    ensures S.Interning(Far()).Ok? && E.Strings(Far()) == [A] + [Zeros(LENGTH)] + [B]
    ensures |PoolBytes(E.Strings(Far()))| == TWO_32 - 80 && OffsetOf(E.Strings(Far()), B) == TWO_32 - 88
  {
    hide InternRun, InternAll, OffsetOf, PoolBytes, Record, E.CollectedKids, E.EmptyKeysOf, Zeros;
    FarCollects();
    RecordLengths();
    NothingInterned();
    InternsNext([], A);
    assert [] + [A] == [A];
    InternsNext([A], Zeros(LENGTH));
    InternsNext([A] + [Zeros(LENGTH)], B);
    InternNothing(E.CollectedKids(Far()));
    assert E.CollectedKids(Far()) + [] == E.CollectedKids(Far());
  }

  lemma InternNothing(strings: seq<Str>)
    ensures InternAll(strings, []) == strings
  {
  }

  lemma RecordLengths()
    ensures |Record(A)| == 8 && |Record(B)| == 8 && |Record(Zeros(LENGTH))| == TWO_32 - 96
    ensures |A| == 1 && |B| == 1 && |Zeros(LENGTH)| == LENGTH
  {
  }

  /** Thirteen bytes of nodes behind header and root index: the pool starts at byte 189. */
  lemma FarSize()
    ensures L.KidsSize(Far(), 0) == 13 && E.StringsOffset(Far()) == 189
  {
    var doc := Far();
    assert doc[..1] == [doc[0]] && doc[..1][..0] == [];
    assert L.KidsSize(doc[..1], 0) == 12;
  }

  /**
   * The document is written, its file has fewer than 2^33 bytes, and the reader opens it; but the reference to "b" is cut
   * off to byte 101, inside the header, so what is decoded is not the document, and the verifier rejects the file.
   */
  lemma FarIsLost(hash: Hash64)
    ensures M.KidsSound(Far(), true) && KidsWellFormed(Far()) && S.Interning(Far()).Ok? && E.FileSize(Far()) < 2 * TWO_32
    ensures R.Open(E.File(Far(), hash)).Some? && NoWrap(LoadHeader(E.File(Far(), hash)))
    ensures DecodeDocument(E.File(Far(), hash)) != Some(CanonDocument(Far(), hash))
    ensures !V.BufferOk(E.File(Far(), hash), hash)
  {
    hide E.File, E.Strings, E.Payload, E.FileHeader, HeaderBytes, FooterBytes, L.KidsSize, PoolBytes, OffsetOf, CanonDocument, LoadHeader,
         DecodeDocument, NoWrap, LayoutOk, R.Open, V.BufferOk, S.Interning, W.DistinctHashes, At, Legible;
    FarInterns();
    FarSize();
    FarIsSound();
    FarFits();
    ReservedIsZero(hash);
    FrontLosesString(Far(), hash, B, 0);
    W.WrittenIsAccepted(Far(), hash);
    assert !OffsetFits(Far(), Far()[1].key);
  }

  lemma FarIsSound()
    ensures M.KidsSound(Far(), true) && KidsWellFormed(Far())
  {
    assert M.MemberSound(Far()[0], true) && M.MemberSound(Far()[1], true);
  }

  lemma FarFits()
    ensures AllShort(E.Strings(Far())) && W.PoolFits(Far())
  {
    hide E.Strings, PoolBytes, OffsetOf;
    FarInterns();
    RecordLengths();
    forall s | s in E.Strings(Far())
      ensures |s| < TWO_32 && FitsIn(E.Strings(Far()), s)
    {
      W.KeyBound(E.Strings(Far()), s);
    }
  }

  /** Byte 105 of a written file is one of the header's reserved zeros. */
  lemma ReservedIsZero(hash: Hash64)
    ensures |FrontBytes(Far(), hash)| > 105 && FrontBytes(Far(), hash)[105] == 0
  {
    hide E.Payload, E.Strings, L.KidsSize, PoolBytes, LE, Words, E.RootIndex;
    var h := E.FileHeader(Far(), hash);
    var front := LE(h.magic, 4) + LE(h.versionMajor, 2) + LE(h.versionMinor, 2) + Words(HeaderWords(h));
    assert HeaderBytes(h) == front + h.reserved;
    assert h.reserved == Zeros(24);
  }
}
