/** From API calls to the file, and from the file back to the document. */
module EndToEnd {
  import opened Bytes
  import opened Document
  import opened Format
  import opened Options
  import opened PoolLayout
  import opened StringPool
  import C = Canonical
  import E = Encode
  import L = Layout
  import Legibility
  import M = Machine
  import R = Reader
  import RT = RoundTrip
  import S = Serializer
  import Utf8
  import V = Verify
  import W = Writer
  import Wire = WireFormat
  import WireLayout
  import WF = WrittenFile

  /** What the API builds is well formed as long as its nodes take less than 2^32 bytes: then counts fit, too. */
  lemma {:induction false} SoundIsWellFormed(v: Value, p: nat)
    requires M.Sound(v) && L.Size(v, p) < TWO_32
    ensures WellFormed(v)
    decreases v, 0
  {
    hide L.KindPos;
    match v
    case Array(kids) =>
      L.SizeOfContainer(v, p);
      KidsSoundWellFormed(kids, false, L.KidsStart(v, p));
    case Block(kids) =>
      L.SizeOfContainer(v, p);
      KidsSoundWellFormed(kids, true, L.KidsStart(v, p));
    case _ =>
  }

  lemma {:induction false} KidsSoundWellFormed(kids: seq<Member>, keyed: bool, p: nat)
    requires M.KidsSound(kids, keyed) && L.KidsSize(kids, p) < TWO_32
    ensures KidsWellFormed(kids) && (!keyed ==> forall i :: 0 <= i < |kids| ==> kids[i].key == [])
    decreases kids, 0
  {
    hide L.Size, L.KidPos, L.KindPos;
    forall i | 0 <= i < |kids|
      ensures WellFormed(kids[i].value) && (!keyed ==> kids[i].key == [])
    {
      assert M.MemberSound(kids[i], keyed);
      L.KidInside(kids, p, i);
      SoundIsWellFormed(kids[i].value, L.KidPos(kids, i, p));
    }
  }

  // ----- what fits never overflows -----

  lemma LastFits(strings: seq<Str>, s: Str)
    requires |s| < TWO_32 && |PoolBytes(Interned(strings, s))| < TWO_32
    ensures |PoolBytes(strings)| < TWO_32 && Outcome(strings, s).Ok?
  {
    hide PoolBytes;
    PoolBytesPrefix(strings, Interned(strings, s));
  }

  /** Interning short strings fails only if the pool it would give is too large. */
  lemma {:induction false} RunFits(strings: seq<Str>, more: seq<Str>)
    requires AllShort(more) && |PoolBytes(InternAll(strings, more))| < TWO_32
    ensures InternRun(strings, more).Ok?
  {
    hide OffsetOf, Record, PoolBytes, Outcome, Interned;
    if more != [] {
      var init, last := more[..|more| - 1], more[|more| - 1];
      assert last in more && forall s :: s in init ==> s in more;
      LastFits(InternAll(strings, init), last);
      RunFits(strings, init);
      RunIsInternAll(strings, init);
    }
  }

  lemma {:induction false} CollectedShort(v: Value)
    requires M.Sound(v)
    ensures AllShort(E.Collected(v)) && AllShort(E.EmptyKeys(v))
    decreases v, 0
  {
    match v
    case Array(kids) => CollectedKidsShort(kids, false);
    case Block(kids) => CollectedKidsShort(kids, true);
    case _ =>
  }

  lemma {:induction false} CollectedKidsShort(kids: seq<Member>, keyed: bool)
    requires M.KidsSound(kids, keyed)
    ensures AllShort(E.CollectedKids(kids)) && AllShort(E.EmptyKeysOf(kids, keyed))
    decreases kids, 0
  {
    if kids != [] {
      var n := |kids| - 1;
      assert M.KidsSound(kids[..n], keyed);
      CollectedKidsShort(kids[..n], keyed);
      assert M.MemberSound(kids[n], keyed);
      CollectedShort(kids[n].value);
    }
  }

  /** A sound document whose file fits in 32 bits serialises. */
  lemma FittingSerialises(doc: seq<Member>, hash: Hash64)
    requires M.KidsSound(doc, true) && |E.File(doc, hash)| <= TWO_32
    ensures S.Interning(doc).Ok?
  {
    hide E.File, E.CollectedKids, E.EmptyKeysOf, PoolBytes, L.KidsSize, InternRun, M.KidsSound;
    E.FileLength(doc, hash);
    CollectedKidsShort(doc, true);
    InternAllConcat([], E.CollectedKids(doc), E.EmptyKeysOf(doc, true));
    RunFits([], E.CollectedKids(doc) + E.EmptyKeysOf(doc, true));
  }

  lemma SmallIsWellFormed(doc: seq<Member>, hash: Hash64)
    requires M.KidsSound(doc, true) && |E.File(doc, hash)| <= TWO_32
    ensures KidsWellFormed(doc)
  {
    hide E.File, E.Strings, PoolBytes, L.KidsSize, M.KidsSound, KidsWellFormed;
    E.FileLength(doc, hash);
    KidsSoundWellFormed(doc, true, 0);
  }

  // ----- what finalising gives -----

  predicate StartsTooFar(strings: seq<Str>, j: nat)
    requires j < |strings|
  {
    Wire.RecordsBefore(strings, j) > 0xFFFF_FFFF
  }

  /** The record of some string would start at 2^32 or behind. */
  predicate PoolOverflows(strings: seq<Str>) {
    exists j :: 0 <= j < |strings| && StartsTooFar(strings, j)
  }

  lemma {:induction false} RecordsBeforePrefix(strings: seq<Str>, s: Str, j: nat)
    requires j <= |strings|
    ensures Wire.RecordsBefore(strings + [s], j) == Wire.RecordsBefore(strings, j)
  {
    if j > 0 {
      RecordsBeforePrefix(strings, s, j - 1);
    }
  }

  lemma OverflowSnoc(strings: seq<Str>, s: Str)
    ensures PoolOverflows(strings + [s]) <==> PoolOverflows(strings) || |PoolBytes(strings)| > 0xFFFF_FFFF
  {
    hide Wire.RecordsBefore, PoolBytes;
    var n := |strings|;
    WireLayout.RecordsAre(strings, n);
    assert strings[..n] == strings;
    forall j | 0 <= j <= n
      ensures Wire.RecordsBefore(strings + [s], j) == Wire.RecordsBefore(strings, j)
    {
      RecordsBeforePrefix(strings, s, j);
    }
    if PoolOverflows(strings) {
      var j :| 0 <= j < n && StartsTooFar(strings, j);
      assert StartsTooFar(strings + [s], j);
    }
    if |PoolBytes(strings)| > 0xFFFF_FFFF {
      assert StartsTooFar(strings + [s], n);
    }
    if PoolOverflows(strings + [s]) {
      var j :| 0 <= j < n + 1 && StartsTooFar(strings + [s], j);
      assert j < n ==> StartsTooFar(strings, j);
    }
  }

  /** Short strings overflow the pool exactly when one of them would start too far. */
  lemma {:induction false} RunOverflows(more: seq<Str>)
    requires AllShort(more)
    ensures InternRun([], more) ==
      if PoolOverflows(InternAll([], more)) then Err(StringPoolOverflow) else Ok(InternAll([], more))
  {
    hide PoolBytes, OffsetOf, PoolOverflows;
    if more == [] {
      assert !PoolOverflows([]) by { NothingOverflows(); }
    } else {
      var init, last := more[..|more| - 1], more[|more| - 1];
      assert last in more && forall s :: s in init ==> s in more;
      RunOverflows(init);
      OverflowSnoc(InternAll([], init), last);
    }
  }

  lemma NothingOverflows()
    ensures !PoolOverflows([])
  {
  }

  /**
   * Finalising after any calls: a refused call or an open container is an error whatever the document; otherwise the only
   * error is a pool that overflows, and without it the file is given.
   */
  lemma FinalizeGives(calls: seq<M.Call>, hash: Hash64)
    requires forall i :: 0 <= i < |calls| ==> M.CallOk(calls[i])
    ensures var s := M.Run(M.START, calls);
      W.Result(s, hash) ==
      if s.failed then W.Refused(W.Construction)
      else if s.open != [] then W.Refused(W.UnclosedScope)
      else if PoolOverflows(E.Strings(s.roots)) then W.Refused(W.Encoding(StringPoolOverflow))
      else W.Bytes(E.File(s.roots, hash))
  {
    hide E.File, E.CollectedKids, E.EmptyKeysOf, InternRun, InternAll, PoolOverflows, M.Run;
    M.RunSound(calls);
    var doc := M.Run(M.START, calls).roots;
    CollectedKidsShort(doc, true);
    InternAllConcat([], E.CollectedKids(doc), E.EmptyKeysOf(doc, true));
    RunOverflows(E.CollectedKids(doc) + E.EmptyKeysOf(doc, true));
  }

  // ----- the whole way -----

  /**
   * Whatever calls were made: if finalising gives a file of at most 2^32 bytes, the reader opens it and decodes the
   * document those calls built, every block's members, and the roots, stably ordered by the hash of their key.
   */
  lemma CallsReadBack(calls: seq<M.Call>, hash: Hash64)
    requires forall i :: 0 <= i < |calls| ==> M.CallOk(calls[i])
    requires W.Result(M.Run(M.START, calls), hash).Bytes? && |W.Result(M.Run(M.START, calls), hash).data| <= TWO_32
    ensures var data := W.Result(M.Run(M.START, calls), hash).data; var doc := M.Run(M.START, calls).roots;
      && R.Open(data).Some? && NoWrap(LoadHeader(data))
      && RT.DecodeDocument(data) == Some(C.CanonDocument(doc, hash))
      && M.AllSpelled(calls) == M.BuildAll(doc, true)
  {
    hide M.Run, E.File, RT.Legible, RT.OffsetsFit, C.CanonDocument, M.KidsSound, KidsWellFormed, LoadHeader,
         S.Interning, M.AllSpelled, M.BuildAll, RT.DecodeDocument;
    var s := M.Run(M.START, calls);
    M.RunSound(calls);
    assert s == M.State(s.roots, [], false);
    M.CallsBuildExactly(calls, s.roots);
    SmallIsWellFormed(s.roots, hash);
    RT.SmallIsLegible(s.roots, hash);
    RT.DecodeOfEncode(s.roots, hash);
  }

  /** And every sound document that fits can be written: its calls are accepted, and the file decodes to it in hash order. */
  lemma EveryDocumentIsWritten(doc: seq<Member>, hash: Hash64)
    requires M.KidsSound(doc, true) && |E.File(doc, hash)| <= TWO_32
    ensures W.Result(M.Run(M.START, M.BuildAll(doc, true)), hash) == W.Bytes(E.File(doc, hash))
    ensures R.Open(E.File(doc, hash)).Some? && NoWrap(LoadHeader(E.File(doc, hash)))
    ensures RT.DecodeDocument(E.File(doc, hash)) == Some(C.CanonDocument(doc, hash))
  {
    hide M.Run, E.File, RT.Legible, RT.OffsetsFit, C.CanonDocument, M.KidsSound, KidsWellFormed, LoadHeader,
         S.Interning, M.BuildAll, RT.DecodeDocument;
    M.CallsBuildExactly([], doc);
    FittingSerialises(doc, hash);
    SmallIsWellFormed(doc, hash);
    RT.SmallIsLegible(doc, hash);
    RT.DecodeOfEncode(doc, hash);
  }

  // ----- files of any size -----

  /** What the calls built has been interned: its strings are short, and their pool offsets fit in 32 bits. */
  lemma InterningFits(doc: seq<Member>)
    requires S.Interning(doc).Ok?
    ensures WF.PoolFits(doc) && AllShort(E.Strings(doc))
  {
    hide InternRun, InternAll, E.CollectedKids, E.EmptyKeysOf, OffsetOf;
    var all := E.CollectedKids(doc) + E.EmptyKeysOf(doc, true);
    RunFitsIn(all);
    RunIsInternAll([], all);
    InternAllConcat([], E.CollectedKids(doc), E.EmptyKeysOf(doc, true));
    assert forall s :: s in E.Strings(doc) ==> FitsIn(E.Strings(doc), s);
  }

  /**
   * Whatever calls were made: a file that finalising gives is opened, and decodes to the document those calls built if
   * and only if every reference to a string leads to it; and the verifier accepts it if and only if strings are UTF-8,
   * root hashes distinct and the offsets of root keys not cut off.
   */
  lemma CallsReadBackExactly(calls: seq<M.Call>, hash: Hash64)
    requires forall i :: 0 <= i < |calls| ==> M.CallOk(calls[i])
    requires W.Result(M.Run(M.START, calls), hash).Bytes? && |W.Result(M.Run(M.START, calls), hash).data| < TWO_64
    requires KidsWellFormed(M.Run(M.START, calls).roots)
    ensures var data := W.Result(M.Run(M.START, calls), hash).data; var doc := M.Run(M.START, calls).roots;
      && R.Open(data).Some? && NoWrap(LoadHeader(data))
      && (RT.DecodeDocument(data) == Some(C.CanonDocument(doc, hash)) <==> RT.Legible(doc, hash))
      && (V.BufferOk(data, hash) <==>
            (forall s :: s in E.Strings(doc) ==> Utf8.IsUtf8(s)) && WF.DistinctHashes(doc, hash) && WF.RootKeysFit(doc))
  {
    hide M.Run, E.File, E.Strings, RT.Legible, C.CanonDocument, KidsWellFormed, LoadHeader, S.Interning, RT.DecodeDocument,
         V.BufferOk, WF.DistinctHashes, WF.RootKeysFit, WF.PoolFits, NoWrap, R.Open, Utf8.IsUtf8;
    var s := M.Run(M.START, calls);
    E.FileLength(s.roots, hash);
    InterningFits(s.roots);
    Legibility.DecodesExactly(s.roots, hash);
    WF.WrittenIsAccepted(s.roots, hash);
  }
}
