/** Exporting the file of a document: what the exporters find there, and that nothing they need is lost on the way. */
module WrittenExports {
  import opened Bytes
  import opened Canonical
  import opened Document
  import opened Format
  import opened Options
  import opened PoolLayout
  import opened StringPool
  import Arrangement
  import E = Encode
  import Find
  import I = Ini
  import IniExport
  import JP = JsonPrint
  import JsonExport
  import JsonGrammar
  import JsonLayout
  import L = Layout
  import Paths
  import R = Reader
  import RB = ReadBack
  import RT = RoundTrip
  import Utf8

  // ----- UTF-8 -----

  lemma {:induction false} CanonUtf8(v: Value, hash: Hash64)
    requires JP.AllUtf8(v)
    ensures JP.AllUtf8(Canon(v, hash))
    decreases v, 0
  {
    hide SortMembers, Utf8.IsUtf8;
    match v
    case Array(kids) =>
      forall i | 0 <= i < |kids|
        ensures JP.AllUtf8(CanonKids(kids, hash)[i].value)
      {
        CanonKidAt(kids, hash, i);
        CanonUtf8(kids[i].value, hash);
      }
    case Block(kids) => CanonKidsUtf8(kids, hash);
    case _ =>
  }

  lemma {:induction false} CanonKidsUtf8(kids: seq<Member>, hash: Hash64)
    requires JP.KidsUtf8(kids, true)
    ensures JP.KidsUtf8(SortMembers(CanonKids(kids, hash), hash), true)
    decreases kids, 0
  {
    hide SortMembers, CanonKids, Utf8.IsUtf8;
    var sorted := SortMembers(CanonKids(kids, hash), hash);
    forall i | 0 <= i < |sorted|
      ensures Utf8.IsUtf8(sorted[i].key) && JP.AllUtf8(sorted[i].value)
    {
      var j := CanonSource(kids, hash, i);
      CanonUtf8(kids[j].value, hash);
    }
  }

  // ----- named blocks and distinct keys -----

  lemma {:induction false} CanonNamed(kids: seq<Member>, hash: Hash64)
    requires I.BlocksNamed(kids)
    ensures I.BlocksNamed(SortMembers(CanonKids(kids, hash), hash))
    decreases kids
  {
    hide SortMembers, CanonKids;
    var sorted := SortMembers(CanonKids(kids, hash), hash);
    forall i | 0 <= i < |sorted| && sorted[i].value.Block?
      ensures sorted[i].key != [] && I.BlocksNamed(sorted[i].value.kids)
    {
      var j := CanonSource(kids, hash, i);
      CanonNamed(kids[j].value.kids, hash);
    }
  }

  lemma CanonKeysDistinct(kids: seq<Member>, hash: Hash64)
    requires Find.DistinctKeys(kids)
    ensures Find.DistinctKeys(SortMembers(CanonKids(kids, hash), hash))
  {
    hide SortMembers, CanonKids, Canon;
    var ms := CanonKids(kids, hash);
    forall i | 0 <= i < |kids|
      ensures ms[i].key == kids[i].key
    {
      CanonKidAt(kids, hash, i);
    }
    assert Find.DistinctKeys(ms);
    SortMembersIsPermutation(ms, hash);
    IniExport.OrderKeepsDistinct(SortMembers(ms, hash), ms);
  }

  lemma {:induction false} CanonDistinct(v: Value, hash: Hash64)
    requires Paths.DistinctSiblings(v)
    ensures Paths.DistinctSiblings(Canon(v, hash))
    decreases v, 0
  {
    hide SortMembers;
    match v
    case Array(kids) =>
      forall i | 0 <= i < |kids|
        ensures Paths.DistinctSiblings(CanonKids(kids, hash)[i].value)
      {
        CanonKidAt(kids, hash, i);
        CanonDistinct(kids[i].value, hash);
      }
    case Block(kids) =>
      CanonKeysDistinct(kids, hash);
      CanonAllDistinct(kids, hash);
    case _ =>
  }

  lemma {:induction false} CanonAllDistinct(kids: seq<Member>, hash: Hash64)
    requires Paths.AllDistinct(kids)
    ensures Paths.AllDistinct(SortMembers(CanonKids(kids, hash), hash))
    decreases kids, 0
  {
    hide SortMembers, CanonKids;
    var sorted := SortMembers(CanonKids(kids, hash), hash);
    forall i | 0 <= i < |sorted|
      ensures Paths.DistinctSiblings(sorted[i].value)
    {
      var j := CanonSource(kids, hash, i);
      CanonDistinct(kids[j].value, hash);
    }
  }

  // ----- the file -----

  /**
   * The file of a document meets what the exporters ask for, with the document in encoding order; that order keeps
   * strings UTF-8, blocks named and sibling keys distinct, so the export results hold for what was written.
   */
  lemma FileCanBeExported(doc: seq<Member>, hash: Hash64)
    requires RT.Legible(doc, hash) && KidsWellFormed(doc)
    ensures var r, found := RT.FileHandle(doc, hash), CanonDocument(doc, hash);
      && R.Valid(r) && r.header.rootCount == |found| && RB.TableHolds(r, hash, r.header.rootIndexOffset, 0, found)
      && (JP.AllUtf8(Block(doc)) ==> JP.AllUtf8(Block(found)))
      && (I.BlocksNamed(doc) ==> I.BlocksNamed(found))
      && (Paths.DistinctSiblings(Block(doc)) ==> Paths.DistinctSiblings(Block(found)))
  {
    hide E.File, E.FileHeader, E.Strings, RB.TableHolds, JP.KidsUtf8, I.BlocksNamed, Paths.AllDistinct,
         Find.DistinctKeys, SortMembers, CanonKids, LoadHeader;
    RT.FileHolds(doc, hash);
    RT.FileOpens(doc, hash, E.File(doc, hash));
    E.HeaderReads(doc, hash, E.File(doc, hash));
    if JP.AllUtf8(Block(doc)) {
      CanonKidsUtf8(doc, hash);
    }
    if I.BlocksNamed(doc) {
      CanonNamed(doc, hash);
    }
    if Paths.DistinctSiblings(Block(doc)) {
      CanonKeysDistinct(doc, hash);
      CanonAllDistinct(doc, hash);
    }
  }

  /**
   * Write, open, export, parse: the text exported from a written file of UTF-8 strings parses, by sections 2 to 7 of
   * RFC 8259, to the document in encoding order with each block in the exporter's order.
   */
  method OpenAndExport(data: seq<byte>, st: JP.Style, sortKeys: bool, ghost doc: seq<Member>, ghost hash: Hash64)
    returns (text: seq<byte>, ghost printed: seq<Member>)
    requires data == E.File(doc, hash) && RT.Legible(doc, hash) && KidsWellFormed(doc)
    requires JP.AllUtf8(Block(doc)) && JP.NumbersOk(st.numbers)
    ensures Arrangement.Arranged(Block(CanonDocument(doc, hash)), Block(printed), sortKeys) && JP.AllUtf8(Block(printed))
    ensures text == JP.PrintDocument(printed, st) && JsonGrammar.Parse(text) == Some(JP.JsonOf(Block(printed), st))
    ensures JsonLayout.LaidOut(text, st.indentSpaces)
  {
    hide JsonLayout.LaidOut, E.File, E.FileHeader,
         RB.TableHolds, JP.AllUtf8, JP.NumbersOk, JP.JsonOf, JP.PrintDocument, JsonGrammar.Parse, R.Open, R.Valid,
         RT.Legible, CanonDocument, Arrangement.Arranged, JsonExport.Printable, KidsWellFormed, I.BlocksNamed, Paths.DistinctSiblings;
    FileIsOpened(doc, hash);
    FileCanBeExported(doc, hash);
    var exporter := new JsonExport.Exporter(R.Open(data).value, st, sortKeys);
    ghost var found := CanonDocument(doc, hash);
    JsonExport.ExportReads(found, found, sortKeys, st);
    var ok;
    ok, printed := exporter.ExportJson(hash, found);
    JsonExport.ExportReads(found, printed, sortKeys, st);
    text := exporter.output;
    assert JP.KidsUtf8(printed, true) by { BlockUtf8(printed); }
    JsonLayout.DocumentLaidOut(printed, st);
  }

  lemma BlockUtf8(kids: seq<Member>)
    requires JP.AllUtf8(Block(kids))
    ensures JP.KidsUtf8(kids, true)
  {
    hide JP.KidsUtf8;
  }

  lemma FileIsOpened(doc: seq<Member>, hash: Hash64)
    requires RT.Legible(doc, hash)
    ensures R.Open(E.File(doc, hash)) == Some(RT.FileHandle(doc, hash))
  {
    hide E.File, E.FileHeader, E.Strings, LoadHeader, R.Open, R.Valid;
    E.FileLength(doc, hash);
    RT.FileOpens(doc, hash, E.File(doc, hash));
  }

  // ----- INI without sorting -----

  /**
   * Without sorting, the INI exporter writes what it finds: the document in encoding order. Its leaves are read under
   * their own sections exactly when that order has no leaves of an unheaded block behind another block's header.
   */
  lemma UnsortedAttribution(doc: seq<Member>, hash: Hash64, written: seq<Member>)
    requires Arrangement.Arranged(Block(CanonDocument(doc, hash)), Block(written), false)
    ensures written == CanonDocument(doc, hash)
    ensures I.ReadLines(I.RootLines(written), []) == I.OwnLeaves([], written) + I.SubLeaves(written, [])
       <==> I.SubPlaced(CanonDocument(doc, hash), [], false)
  {
    hide CanonDocument, I.ReadLines, I.RootLines, I.OwnLeaves, I.SubLeaves, I.SubPlaced, Arrangement.Arranged;
    Arrangement.UnsortedStays(Block(CanonDocument(doc, hash)), Block(written));
    I.RootAttribution(written);
  }

  /**
   * The document of `Ini.MisplacedLeaf` is one an exporter can meet: under a hash that does not put the empty key first
   * it is its own encoding order, and its file is small and can be exported.
   */
  lemma MisplacedIsWritten(hash: Hash64)
    requires hash([0x62]) <= hash([])
    ensures var doc := I.Misplaced();
      && KidsWellFormed(doc) && |E.File(doc, hash)| <= TWO_32 && IniExport.Flat(Block(doc))
      && CanonDocument(doc, hash) == doc
      && R.Valid(RT.FileHandle(doc, hash)) && RT.FileHandle(doc, hash).header.rootCount == |doc|
      && RB.TableHolds(RT.FileHandle(doc, hash), hash, RT.FileHandle(doc, hash).header.rootIndexOffset, 0, doc)
  {
    hide E.File, E.FileHeader, RB.TableHolds, CanonDocument, RT.Legible, RT.OffsetsFit, LoadHeader;
    var doc := I.Misplaced();
    MisplacedIsOrdered(hash);
    MisplacedSize();
    E.FileLength(doc, hash);
    RT.SmallIsLegible(doc, hash);
    FileCanBeExported(doc, hash);
  }

  lemma MisplacedIsOrdered(hash: Hash64)
    requires hash([0x62]) <= hash([])
    ensures KidsWellFormed(I.Misplaced()) && IniExport.Flat(Block(I.Misplaced()))
    ensures CanonDocument(I.Misplaced(), hash) == I.Misplaced()
  {
    hide SortMembers, CanonKids;
    var doc := I.Misplaced();
    assert Find.KidsOrdered(doc[1].value.kids, hash) && Find.Ordered(doc[1].value, hash) && Find.Ordered(doc[0].value, hash);
    Find.KidsOrderedStay(doc, hash);
    SortedStays(doc, hash);
  }

  lemma MisplacedSize()
    ensures E.FileSize(I.Misplaced()) == 285
  {
    hide PoolBytes, Record, InternAll, E.CollectedKids, E.EmptyKeysOf, InternRun, L.KidsSize;
    var doc := I.Misplaced();
    var x := Member([0x78], Null);
    NodesSize(doc[0], doc[1], x);
    assert doc == [] + [doc[0]] + [doc[1]] && [] + [x] == [x];
    E.NothingCollected();
    NothingInterned();
    E.CollectsNext([], x);
    E.CollectsNext([], doc[0]);
    E.CollectsNext([] + [doc[0]], doc[1]);
    assert E.CollectedKids(doc) == [] + [[0x62]] + [[0x78]] && E.EmptyKeysOf(doc, true) == [[]];
    InternsNext([], [0x62]);
    InternsNext([] + [[0x62]], [0x78]);
    InternsNext([] + [[0x62]] + [[0x78]], []);
    InternAllConcat([], E.CollectedKids(doc), E.EmptyKeysOf(doc, true));
    RecordSizes();
  }

  lemma RecordSizes()
    ensures |Record([0x62])| == 8 && |Record([0x78])| == 8 && |Record([])| == 4
  {
  }

  lemma NodesSize(first: Member, second: Member, leaf: Member)
    requires first.value == Block([]) && second.value == Block([leaf]) && leaf.value == Null
    ensures L.KidsSize([first, second], 0) == 57
  {
    var both := [first, second];
    assert both[..1] == [first] && [first][..0] == [] && [leaf][..0] == [];
    assert L.KidsSize([first], 0) == 16;
    assert L.KidsSize([leaf], 56) == 1;
  }
}
