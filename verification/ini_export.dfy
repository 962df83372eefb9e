/** The INI exporter: walks a written file, a block's leaves before the blocks in it. */
module IniExport {
  import opened Arrangement
  import opened Bytes
  import opened Canonical
  import opened ChildList
  import opened Document
  import opened Ini
  import opened IniText
  import opened JsonPrint
  import opened KeyOrder
  import opened ReadBack
  import opened Sequences
  import Find
  import JsonGrammar
  import Paths
  import R = Reader

  /** What can be exported: no array holds a container. */
  ghost predicate Flat(v: Value)
    decreases v
  {
    match v
    case Array(kids) => forall i :: 0 <= i < |kids| ==> !kids[i].value.IsContainer()
    case Block(kids) => forall i :: 0 <= i < |kids| ==> Flat(kids[i].value)
    case _ => true
  }

  // ----- leaves and blocks of one list -----

  ghost function OnlyBlocks(ms: seq<Member>): (bs: seq<Member>)
    ensures forall i :: 0 <= i < |bs| ==> bs[i] in ms && bs[i].value.Block?
  {
    if ms == [] then []
    else
      var n := |ms| - 1;
      OnlyBlocks(ms[..n]) + if ms[n].value.Block? then [ms[n]] else []
  }

  /** The list with its blocks replaced, in order. */
  ghost function Merged(ms: seq<Member>, bs: seq<Member>): (ws: seq<Member>)
    requires |bs| == |OnlyBlocks(ms)|
    ensures |ws| == |ms|
  {
    if ms == [] then []
    else
      var n := |ms| - 1;
      if ms[n].value.Block? then Merged(ms[..n], bs[..|bs| - 1]) + [bs[|bs| - 1]] else Merged(ms[..n], bs) + [ms[n]]
  }

  /** Leaves and flat arrays are arranged as they are. */
  lemma LeafArranged(m: Member, byKey: bool)
    requires !m.value.Block? && Flat(m.value)
    ensures ItemArranged(m, m, byKey)
  {
    if m.value.Array? {
      forall i | 0 <= i < |m.value.kids|
        ensures ItemArranged(m.value.kids[i], m.value.kids[i], byKey)
      {
        assert !m.value.kids[i].value.IsContainer();
      }
      assert Paired(m.value.kids, m.value.kids, m.value.kids, byKey);
    }
  }

  ghost predicate AllArranged(ms: seq<Member>, ws: seq<Member>, byKey: bool) {
    |ws| == |ms| && forall i :: 0 <= i < |ms| ==> ItemArranged(ms[i], ws[i], byKey)
  }

  ghost predicate LeavesFlat(ms: seq<Member>) {
    forall i :: 0 <= i < |ms| && !ms[i].value.Block? ==> Flat(ms[i].value)
  }

  ghost predicate AllFlat(ms: seq<Member>) {
    forall i :: 0 <= i < |ms| ==> Flat(ms[i].value)
  }

  lemma MergedUnrolls(ms: seq<Member>, bs: seq<Member>)
    requires ms != [] && |bs| == |OnlyBlocks(ms)|
    ensures var n := |ms| - 1;
      && (ms[n].value.Block? ==>
            && bs != [] && OnlyBlocks(ms) == OnlyBlocks(ms[..n]) + [ms[n]]
            && Merged(ms, bs) == Merged(ms[..n], bs[..|bs| - 1]) + [bs[|bs| - 1]])
      && (!ms[n].value.Block? ==> OnlyBlocks(ms) == OnlyBlocks(ms[..n]) && Merged(ms, bs) == Merged(ms[..n], bs) + [ms[n]])
  {
  }

  lemma ArrangedSnoc(ms: seq<Member>, ws: seq<Member>, m: Member, w: Member, byKey: bool)
    ensures |ws| == |ms| ==> (AllArranged(ms + [m], ws + [w], byKey) <==> AllArranged(ms, ws, byKey) && ItemArranged(m, w, byKey))
  {
    hide ItemArranged;
    if |ws| == |ms| && AllArranged(ms + [m], ws + [w], byKey) {
      forall i | 0 <= i < |ms|
        ensures ItemArranged(ms[i], ws[i], byKey)
      {
        assert ItemArranged((ms + [m])[i], (ws + [w])[i], byKey);
      }
      assert ItemArranged((ms + [m])[|ms|], (ws + [w])[|ms|], byKey);
    }
  }

  /** The merged list is the list, arranged, with the same lines of its own and the lines of the arranged blocks. */
  lemma {:induction false} MergedIsArranged(ms: seq<Member>, bs: seq<Member>, section: Str, byKey: bool)
    requires LeavesFlat(ms) && AllArranged(OnlyBlocks(ms), bs, byKey)
    ensures AllArranged(ms, Merged(ms, bs), byKey)
    ensures OwnLines(Merged(ms, bs)) == OwnLines(ms) && SubLines(Merged(ms, bs), section) == SubLines(bs, section)
    ensures HasBlock(Merged(ms, bs)) <==> bs != []
    decreases |ms|
  {
    if ms == [] {
      assert OnlyBlocks(ms) == [] && Merged(ms, bs) == [];
    } else {
      MergedStep(ms, bs, section, byKey);
    }
  }

  lemma {:induction false} MergedStep(ms: seq<Member>, bs: seq<Member>, section: Str, byKey: bool)
    requires ms != [] && LeavesFlat(ms) && AllArranged(OnlyBlocks(ms), bs, byKey)
    ensures AllArranged(ms, Merged(ms, bs), byKey)
    ensures OwnLines(Merged(ms, bs)) == OwnLines(ms) && SubLines(Merged(ms, bs), section) == SubLines(bs, section)
    ensures HasBlock(Merged(ms, bs)) <==> bs != []
    decreases |ms|, 0
  {
    hide ItemArranged, MemberLines, BlockLines, Flat, Merged, OnlyBlocks, OwnLines, SubLines, HasBlock, AllArranged;
    var n := |ms| - 1;
    var front, last := ms[..n], ms[n];
    assert ms == front + [last];
    SameSize(OnlyBlocks(ms), bs, byKey);
    MergedUnrolls(ms, bs);
    MergedSnoc(front, last, section);
    if last.value.Block? {
      var init, b := bs[..|bs| - 1], bs[|bs| - 1];
      assert bs == init + [b];
      ArrangedSnoc(OnlyBlocks(front), init, last, b, byKey);
      MergedIsArranged(front, init, section, byKey);
      BlockStays(last, b, byKey);
      ArrangedSnoc(front, Merged(front, init), last, b, byKey);
      MergedSnoc(Merged(front, init), b, section);
      MergedSnoc(init, b, section);
    } else {
      MergedIsArranged(front, bs, section, byKey);
      LeafArranged(last, byKey);
      ArrangedSnoc(front, Merged(front, bs), last, last, byKey);
      MergedSnoc(Merged(front, bs), last, section);
      assert SubLines(bs, section) + [] == SubLines(bs, section);
    }
  }

  lemma SameSize(ms: seq<Member>, ws: seq<Member>, byKey: bool)
    requires AllArranged(ms, ws, byKey)
    ensures |ws| == |ms|
  {
  }

  lemma BlockStays(m: Member, w: Member, byKey: bool)
    requires m.value.Block? && ItemArranged(m, w, byKey)
    ensures w.value.Block? && MemberLines(w) == [] && MemberLines(m) == []
  {
  }

  lemma MergedSnoc(ws: seq<Member>, w: Member, section: Str)
    ensures OwnLines(ws + [w]) == OwnLines(ws) + MemberLines(w)
    ensures SubLines(ws + [w], section) ==
      SubLines(ws, section) + if w.value.Block? then BlockLines(w.value.kids, Join(section, w.key)) else []
    ensures HasBlock(ws + [w]) <==> HasBlock(ws) || w.value.Block?
  {
    hide MemberLines, BlockLines;
    assert (ws + [w])[..|ws|] == ws;
    if HasBlock(ws) {
      var i :| 0 <= i < |ws| && ws[i].value.Block?;
      assert (ws + [w])[i].value.Block?;
    }
    if w.value.Block? {
      assert (ws + [w])[|ws|].value.Block?;
    }
  }

  // ----- what the order means for attribution -----

  lemma {:induction false} ArrangedNamed(v: Value, w: Value, byKey: bool)
    requires v.Block? && w.Block? && Arranged(v, w, byKey) && BlocksNamed(v.kids)
    ensures BlocksNamed(w.kids)
    decreases v
  {
    var ps: seq<Member> :| OrderOf(ps, v.kids, byKey) && Paired(ps, v.kids, w.kids, byKey);
    hide Arranged, OrderOf;
    forall i | 0 <= i < |w.kids| && w.kids[i].value.Block?
      ensures w.kids[i].key != [] && BlocksNamed(w.kids[i].value.kids)
    {
      var j := PairedKid(ps, v.kids, w.kids, i, byKey);
      ArrangedNamed(v.kids[j].value, w.kids[i].value, byKey);
    }
  }

  /** A permutation keeps keys distinct. */
  lemma OrderKeepsDistinct(ps: seq<Member>, kids: seq<Member>)
    requires multiset(ps) == multiset(kids) && Find.DistinctKeys(kids)
    ensures Find.DistinctKeys(ps)
  {
    forall i, j | 0 <= i < j < |ps|
      ensures ps[i].key != ps[j].key
    {
      if ps[i] == ps[j] {
        TwoEqual(ps, i, j);
        var k, l := TwoPlaces(kids, ps[i]);
      } else {
        assert ps[i] in multiset(ps) && ps[j] in multiset(ps);
        assert ps[i] in kids && ps[j] in kids;
        var k :| 0 <= k < |kids| && kids[k] == ps[i];
        var l :| 0 <= l < |kids| && kids[l] == ps[j];
      }
    }
  }

  lemma SortedAscends(ps: seq<Member>, kids: seq<Member>)
    requires OrderOf(ps, kids, true) && Find.DistinctKeys(kids)
    ensures forall i, j :: 0 <= i < j < |ps| ==> Before(ps[i].key, ps[j].key)
  {
    hide KeyLess;
    OrderKeepsDistinct(ps, kids);
    forall i, j | 0 <= i < j < |ps|
      ensures Before(ps[i].key, ps[j].key)
    {
      assert !KeyLess(ps[j].key, ps[i].key);
      KeyLessIsLexicographic(ps[j].key, ps[i].key);
      BeforeIsStrict(ps[i].key, ps[j].key);
    }
  }

  /** Sorted by distinct keys, members ascend. */
  lemma {:induction false} ArrangedAscends(v: Value, w: Value)
    requires v.Block? && w.Block? && Arranged(v, w, true) && Paths.DistinctSiblings(v)
    ensures KeysAscend(w.kids)
    decreases v
  {
    var ps: seq<Member> :| OrderOf(ps, v.kids, true) && Paired(ps, v.kids, w.kids, true);
    hide Arranged, OrderOf, Before;
    SortedAscends(ps, v.kids);
    forall i | 0 <= i < |w.kids|
      ensures w.kids[i].key == ps[i].key
    {
      var j := PairedKid(ps, v.kids, w.kids, i, true);
    }
    forall i | 0 <= i < |w.kids| && w.kids[i].value.Block?
      ensures KeysAscend(w.kids[i].value.kids)
    {
      var j := PairedKid(ps, v.kids, w.kids, i, true);
      DistinctKid(v, j);
      ArrangedAscends(v.kids[j].value, w.kids[i].value);
    }
  }

  lemma DistinctKid(v: Value, j: nat)
    requires v.Block? && Paths.DistinctSiblings(v) && j < |v.kids|
    ensures Paths.DistinctSiblings(v.kids[j].value)
  {
    assert Paths.AllDistinct(v.kids);
  }

  /**
   * INI export: what is written for a document reads back as its leaves, each once, under the dotted path of its block,
   * when every block has a key, or when keys are sorted and no two siblings share one.
   */
  lemma ExportIsAttributed(doc: seq<Member>, written: seq<Member>, byKey: bool)
    requires Arranged(Block(doc), Block(written), byKey)
    requires BlocksNamed(doc) || (byKey && Paths.DistinctSiblings(Block(doc)))
    ensures ReadLines(RootLines(written), []) == OwnLeaves([], written) + SubLeaves(written, [])
  {
    hide Arranged, BlocksNamed, KeysAscend, SubPlaced, RootLines, SubLeaves, OwnLeaves, ReadLines;
    if BlocksNamed(doc) {
      ArrangedNamed(Block(doc), Block(written), byKey);
      NamedIsPlaced(written, [], false);
    } else {
      ArrangedAscends(Block(doc), Block(written));
      SortedIsPlaced(written, [], false);
    }
    RootAttribution(written);
  }

  // ----- what the bytes tell -----

  /** No key holds a newline or an equals sign, all the way down. */
  ghost predicate KeysTell(ms: seq<Member>)
    decreases ms
  {
    forall i :: 0 <= i < |ms| ==> TellsKey(ms[i].key) && (ms[i].value.Block? ==> KeysTell(ms[i].value.kids))
  }

  predicate TellsKey(key: Str) {
    NEWLINE !in key && EQUALS !in key
  }

  ghost predicate AllTellable(lines: seq<Line>) {
    forall i :: 0 <= i < |lines| ==> Tellable(lines[i])
  }

  lemma {:induction false} ItemsTell(key: Str, items: seq<Member>)
    requires TellsKey(key)
    ensures AllTellable(ItemLines(key, items))
  {
    if items != [] {
      ItemsTell(key, items[..|items| - 1]);
    }
  }

  lemma {:induction false} OwnTell(ms: seq<Member>)
    requires KeysTell(ms)
    ensures AllTellable(OwnLines(ms))
    decreases |ms|
  {
    if ms != [] {
      var n := |ms| - 1;
      OwnTell(ms[..n]);
      if ms[n].value.Array? {
        ItemsTell(ms[n].key, ms[n].value.kids);
      }
    }
  }

  lemma {:induction false} SubTell(ms: seq<Member>, section: Str)
    requires KeysTell(ms) && TellsKey(section)
    ensures AllTellable(SubLines(ms, section))
    decreases ms
  {
    hide OwnLines, Tellable, HasBlock;
    if ms != [] {
      var n := |ms| - 1;
      SubTell(ms[..n], section);
      if ms[n].value.Block? {
        var kids, path := ms[n].value.kids, Join(section, ms[n].key);
        OwnTell(kids);
        SubTell(kids, path);
        HeaderTells(path, kids);
      }
    }
  }

  lemma HeaderTells(path: Str, kids: seq<Member>)
    requires TellsKey(path)
    ensures AllTellable(HeaderLines(path)) && AllTellable(if HasBlock(kids) then [Blank] else [])
  {
  }

  lemma {:induction false} ArrangedTells(v: Value, w: Value, byKey: bool)
    requires v.Block? && w.Block? && Arranged(v, w, byKey) && KeysTell(v.kids)
    ensures KeysTell(w.kids)
    decreases v
  {
    var ps: seq<Member> :| OrderOf(ps, v.kids, byKey) && Paired(ps, v.kids, w.kids, byKey);
    hide Arranged, OrderOf;
    forall i | 0 <= i < |w.kids|
      ensures TellsKey(w.kids[i].key) && (w.kids[i].value.Block? ==> KeysTell(w.kids[i].value.kids))
    {
      var j := PairedKid(ps, v.kids, w.kids, i, byKey);
      if w.kids[i].value.Block? {
        ArrangedTells(v.kids[j].value, w.kids[i].value, byKey);
      }
    }
  }

  /**
   * INI export, byte for byte: if no key holds a newline or an equals sign, the bytes are read back as the lines that
   * were written, and so (see `ExportIsAttributed`) as every leaf under its section.
   */
  lemma ExportIsTold(doc: seq<Member>, written: seq<Member>, byKey: bool, numbers: Numbers)
    requires Arranged(Block(doc), Block(written), byKey) && KeysTell(doc) && NumbersOk(numbers)
    ensures ReadText(Text(RootLines(written), numbers)) == RawLines(RootLines(written), numbers)
  {
    hide Arranged, KeysTell, NumbersOk, Text, ReadText, RawLines, OwnLines, SubLines, Tellable;
    ArrangedTells(Block(doc), Block(written), byKey);
    OwnTell(written);
    SubTell(written, []);
    TextReads(RootLines(written), numbers);
  }

  lemma {:induction false} ArrangedFlat(v: Value, w: Value, byKey: bool)
    requires Arranged(v, w, byKey) && Flat(v)
    ensures Flat(w)
    decreases v
  {
    match v
    case Array(kids) => PairedFlat(kids, v, w, byKey);
    case Block(kids) =>
      var ps: seq<Member> :| OrderOf(ps, kids, byKey) && Paired(ps, kids, w.kids, byKey);
      PairedFlat(ps, v, w, byKey);
    case _ =>
  }

  lemma {:induction false} PairedFlat(ps: seq<Member>, v: Value, w: Value, byKey: bool)
    requires v.IsContainer() && w.IsContainer() && v.Array? == w.Array? && Paired(ps, v.kids, w.kids, byKey) && Flat(v)
    ensures Flat(w)
    decreases v, 0
  {
    hide OrderOf;
    forall i | 0 <= i < |w.kids|
      ensures Flat(w.kids[i].value) && (v.Array? ==> !w.kids[i].value.IsContainer())
    {
      var j := PairedKid(ps, v.kids, w.kids, i, byKey);
      if v.Block? {
        ArrangedFlat(v.kids[j].value, w.kids[i].value, byKey);
      }
    }
  }

  ghost predicate Scalars(leaves: seq<Leaf>) {
    forall i :: 0 <= i < |leaves| ==> !leaves[i].value.IsContainer()
  }

  lemma {:induction false} ItemsScalar(section: Str, key: Str, items: seq<Member>)
    requires forall i :: 0 <= i < |items| ==> !items[i].value.IsContainer()
    ensures Scalars(ItemLeaves(section, key, items))
  {
    if items != [] {
      ItemsScalar(section, key, items[..|items| - 1]);
    }
  }

  lemma {:induction false} OwnScalar(section: Str, ms: seq<Member>)
    requires LeavesFlat(ms)
    ensures Scalars(OwnLeaves(section, ms))
  {
    if ms != [] {
      var n := |ms| - 1;
      OwnScalar(section, ms[..n]);
      if ms[n].value.Array? {
        ItemsScalar(section, ms[n].key, ms[n].value.kids);
      }
    }
  }

  lemma {:induction false} SubScalar(ms: seq<Member>, section: Str)
    requires AllFlat(ms)
    ensures Scalars(SubLeaves(ms, section))
    decreases ms
  {
    hide OwnLeaves;
    if ms != [] {
      var n := |ms| - 1;
      SubScalar(ms[..n], section);
      if ms[n].value.Block? {
        var kids := ms[n].value.kids;
        assert Flat(ms[n].value) && AllFlat(kids);
        OwnScalar(Join(section, ms[n].key), kids);
        SubScalar(kids, Join(section, ms[n].key));
      }
    }
  }

  /**
   * INI export, all the way: the exported bytes, read line by line with a running section, give every leaf of the document
   * once, in order, under the dotted path of its block, and with its value.
   */
  lemma ExportReads(doc: seq<Member>, written: seq<Member>, byKey: bool, numbers: Numbers)
    requires Arranged(Block(doc), Block(written), byKey) && Flat(Block(doc)) && KeysTell(doc) && NumbersOk(numbers)
    requires BlocksNamed(doc) || (byKey && Paths.DistinctSiblings(Block(doc)))
    ensures LeavesMean(ReadRaw(ReadText(Text(RootLines(written), numbers)), []), OwnLeaves([], written) + SubLeaves(written, []), numbers)
  {
    hide Arranged, KeysTell, NumbersOk, BlocksNamed, Paths.DistinctSiblings, Text, ReadText, RawLines, RootLines, ReadRaw, ReadLines, Tokens,
         OwnLeaves, SubLeaves, LeavesMean;
    ExportIsTold(doc, written, byKey, numbers);
    RawLeaves(RootLines(written), [], numbers);
    ExportIsAttributed(doc, written, byKey);
    ArrangedFlat(Block(doc), Block(written), byKey);
    assert AllFlat(written);
    OwnScalar([], written);
    SubScalar(written, []);
    TokensMean(OwnLeaves([], written) + SubLeaves(written, []), numbers);
  }

  class Exporter {
    const reader: R.Handle
    const sortKeys: bool
    const numbers: Numbers
    var output: seq<byte>
    var failed: bool
    /** The lines written so far. */
    ghost var lines: seq<Line>

    constructor (reader: R.Handle, sortKeys: bool, numbers: Numbers)
      ensures this.reader == reader && this.sortKeys == sortKeys && this.numbers == numbers && Told() && lines == [] && !failed
    {
      this.reader := reader;
      this.sortKeys := sortKeys;
      this.numbers := numbers;
      output := [];
      failed := false;
      lines := [];
    }

    /** The output is the bytes of the lines. */
    ghost predicate Told()
      reads this`output, this`lines
    {
      output == Text(lines, numbers)
    }

    /** Ends a line. */
    method PutLine(text: seq<byte>, ghost line: Line)
      requires Told() && text == LineText(line, numbers)
      modifies this`output, this`lines
      ensures Told() && lines == old(lines) + [line]
    {
      assert (lines + [line])[..|lines|] == lines;
      output := output + (text + [NEWLINE]);
      lines := lines + [line];
    }

    method WriteValue(value: Value) returns (text: seq<byte>)
      requires !value.IsContainer()
      ensures text == ValueText(value, numbers)
    {
      match value
      case Null => text := [];
      case Bool(b) => text := if b then JsonGrammar.TRUE_WORD else JsonGrammar.FALSE_WORD;
      case Int64(i) => text := numbers.int64(i);
      case UInt64(u) => text := numbers.uint64(u);
      case Float64(bits) => text := if IsFinite(bits) then numbers.float64(bits) else [];
      case String(s) => text := WriteEscaped(s);
    }

    /** The scalar at `offset`, to be written after a key. */
    method ReadScalar(offset: nat, ghost hash: Hash64, ghost v: Value) returns (value: Value)
      requires R.Valid(reader) && Holds(reader, hash, offset, v) && !v.IsContainer()
      ensures value == v
    {
      hide Told, Holds, R.Int64At, R.Word64At, R.StringAt, R.KindAt;
      Find.HeldKind(reader, hash, offset, v);
      var kind := R.KindAt(reader, offset).value;
      value :=
        if kind == 0x00 then Null
        else if kind == 0x01 then Bool(false)
        else if kind == 0x02 then Bool(true)
        else if kind == 0x03 then Int64(R.Int64At(reader, offset).value)
        else if kind == 0x04 then UInt64(R.Word64At(reader, offset, 0x04).value)
        else if kind == 0x05 then Float64(R.Word64At(reader, offset, 0x05).value)
        else String(R.StringAt(reader, offset).value);
    }

    /** One item of an array; a container is refused. */
    method EmitItem(key: Str, elementOffset: nat, ghost hash: Hash64, ghost v: Value) returns (ok: bool)
      requires !failed && Told() && R.Valid(reader) && Holds(reader, hash, elementOffset, v)
      modifies this`output, this`lines, this`failed
      ensures Told() && ok == !failed == !v.IsContainer()
      ensures ok ==> lines == old(lines) + [Item(key, v)]
    {
      hide Told, Holds, R.KindAt, R.Int64At, R.Word64At, R.StringAt, ValueText;
      Find.HeldKind(reader, hash, elementOffset, v);
      var elementKind := R.KindAt(reader, elementOffset).value;
      if elementKind == 0x10 || elementKind == 0x11 {
        failed := true;
        return false;
      }
      var value := ReadScalar(elementOffset, hash, v);
      var text := WriteValue(value);
      PutLine(key + ([OPEN, CLOSE, EQUALS] + text), Item(key, value));
      ok := true;
    }

    /** The items of an array, one line each. */
    method EmitItems(key: Str, offset: nat, ghost hash: Hash64, ghost v: Value) returns (ok: bool)
      requires !failed && R.Valid(reader) && Holds(reader, hash, offset, v) && v.Array?
      requires Told()
      modifies this`output, this`lines, this`failed
      ensures Told()
      ensures ok == !failed == Flat(v)
      ensures ok ==> lines == old(lines) + ItemLines(key, v.kids)
    {
      hide Told, R.ContainerBody, ElementHolds, R.KindAt;
      var body := R.ArrayBody(reader, offset).value;
      assert lines == lines + ItemLines(key, v.kids[..0]);
      for i := 0 to body.count
        invariant Told() && !failed && lines == old(lines) + ItemLines(key, v.kids[..i])
        invariant forall k :: 0 <= k < i ==> !v.kids[k].value.IsContainer()
      {
        assert ElementHolds(reader, hash, offset, v.kids, i);
        Find.ArrayIndexes(reader, hash, offset, v, i);
        ok := EmitItem(key, R.ArrayAt(reader, offset, i).value, hash, v.kids[i].value);
        if !ok {
          return;
        }
        assert v.kids[..i + 1][..i] == v.kids[..i];
      }
      assert v.kids[..body.count] == v.kids;
      ok := true;
    }

    /** A leaf or an array of a block. */
    method EmitLeaf(e: SortEntry, ghost hash: Hash64, ghost m: Member) returns (ok: bool)
      requires !failed && R.Valid(reader) && Names(reader, hash, e, m) && !m.value.Block?
      requires Told()
      modifies this`output, this`lines, this`failed
      ensures Told()
      ensures ok == !failed == Flat(m.value)
      ensures ok ==> lines == old(lines) + MemberLines(m)
    {
      hide Told, Holds, R.KindAt, ItemLines;
      Find.HeldKind(reader, hash, e.valueOffset, m.value);
      var kind := R.KindAt(reader, e.valueOffset).value;
      var key := KeyOf(reader, e);
      if kind == 0x11 {
        ok := EmitItems(key, e.valueOffset, hash, m.value);
        return;
      }
      var value := ReadScalar(e.valueOffset, hash, m.value);
      var text := WriteValue(value);
      PutLine(key + ([SPACE, EQUALS, SPACE] + text), Setting(key, value));
      ok := true;
    }

    /** First pass: everything but blocks is written; the blocks are put aside, in order. */
    method EmitLeaves(entries: seq<SortEntry>, ghost hash: Hash64, ghost ps: seq<Member>) returns (ok: bool, blocks: seq<SortEntry>)
      requires !failed && R.Valid(reader) && AllName(reader, hash, entries, ps)
      requires Told()
      modifies this`output, this`lines, this`failed
      ensures Told()
      ensures ok == !failed == LeavesFlat(ps)
      ensures ok ==> lines == old(lines) + OwnLines(ps) && AllName(reader, hash, blocks, OnlyBlocks(ps))
    {
      hide Told, Names, Flat, MemberLines, R.KindAt;
      blocks := [];
      assert lines == lines + OwnLines(ps[..0]);
      for i := 0 to |entries|
        invariant Told() && !failed && lines == old(lines) + OwnLines(ps[..i])
        invariant LeavesFlat(ps[..i]) && AllName(reader, hash, blocks, OnlyBlocks(ps[..i]))
      {
        assert ps[..i + 1][..i] == ps[..i];
        KindOfNamed(hash, entries[i], ps[i]);
        var kind := R.KindAt(reader, entries[i].valueOffset).value;
        if kind == 0x10 {
          blocks := blocks + [entries[i]];
          assert MemberLines(ps[i]) == [] && lines + [] == lines by { NoLines(ps[i]); }
          continue;
        }
        ok := EmitLeaf(entries[i], hash, ps[i]);
        if !ok {
          return;
        }
      }
      assert ps[..|entries|] == ps;
      ok := true;
    }

    lemma NoLines(m: Member)
      requires m.value.Block?
      ensures MemberLines(m) == [] && lines + [] == lines
    {
    }

    lemma KindOfNamed(hash: Hash64, e: SortEntry, m: Member)
      requires R.Valid(reader) && Names(reader, hash, e, m)
      ensures R.KindAt(reader, e.valueOffset).Some? && (R.KindAt(reader, e.valueOffset).value == 0x10 <==> m.value.Block?)
    {
      hide Told, Holds, R.KindAt;
      Find.HeldKind(reader, hash, e.valueOffset, m.value);
    }

    /** Second pass: the blocks put aside. */
    method EmitBlocks(blocks: seq<SortEntry>, section: Str, ghost hash: Hash64, ghost v: Value, ghost bs: seq<Member>)
      returns (ok: bool, ghost ws: seq<Member>)
      requires !failed && R.Valid(reader) && AllName(reader, hash, blocks, bs) && v.Block?
      requires forall i :: 0 <= i < |bs| ==> bs[i] in v.kids && bs[i].value.Block?
      requires Told()
      modifies this`output, this`lines, this`failed
      ensures Told()
      ensures ok == !failed == AllFlat(bs)
      ensures ok ==> AllArranged(bs, ws, sortKeys) && lines == old(lines) + SubLines(ws, section)
      decreases v, 1
    {
      hide Told, Names, Flat, ItemArranged, BlockLines, Join, R.Valid;
      ws := [];
      ok := true;
      assert lines == lines + SubLines([], section);
      for i := 0 to |blocks|
        invariant Told() && !failed && |ws| == i && lines == old(lines) + SubLines(ws, section)
        invariant AllFlat(bs[..i]) && AllArranged(bs[..i], ws, sortKeys)
      {
        Smaller(v, bs[i]);
        ghost var w;
        ok, w := EmitEntryBlock(blocks[i], section, hash, bs[i]);
        if !ok {
          return;
        }
        ghost var m := Member(bs[i].key, w);
        MergedSnoc(ws, m, section);
        assert bs[..i + 1] == bs[..i] + [bs[i]];
        ArrangedSnoc(bs[..i], ws, bs[i], m, sortKeys);
        ws := ws + [m];
      }
      assert bs[..|blocks|] == bs;
      ok := true;
    }

    /** A block among a block's entries: its section is the dotted path, or its key alone under the empty path. */
    method EmitEntryBlock(e: SortEntry, section: Str, ghost hash: Hash64, ghost m: Member) returns (ok: bool, ghost w: Value)
      requires !failed && R.Valid(reader) && Names(reader, hash, e, m) && m.value.Block?
      requires Told()
      modifies this`output, this`lines, this`failed
      ensures Told()
      ensures ok == !failed == Flat(m.value)
      ensures ok ==> w.Block? && ItemArranged(m, Member(m.key, w), sortKeys)
      ensures ok ==> lines == old(lines) + BlockLines(w.kids, Join(section, m.key))
      decreases m.value, 3
    {
      hide Told, Holds, Flat, Arranged, BlockLines;
      var key := KeyOf(reader, e);
      var newSection := if section != [] then section + [DOT] + key else key;
      ok, w := EmitBlock(newSection, e.valueOffset, hash, m.value);
    }

    method EmitBlock(section: Str, offset: nat, ghost hash: Hash64, ghost v: Value) returns (ok: bool, ghost w: Value)
      requires !failed && R.Valid(reader) && Holds(reader, hash, offset, v) && v.Block?
      requires Told()
      modifies this`output, this`lines, this`failed
      ensures Told()
      ensures ok == !failed == Flat(v)
      ensures ok ==> w.Block? && Arranged(v, w, sortKeys) && lines == old(lines) + BlockLines(w.kids, section)
      decreases v, 2
    {
      hide Told, R.ContainerBody, TableHolds, OrderOf, AllName, OwnLines, SubLines, HasBlock, Arranged, Flat;
      var body := R.BlockBody(reader, offset).value;
      ghost var before := lines;
      var entries;
      ghost var ps;
      entries, ps := Entries(body.items, body.count, hash, offset, v.kids);
      if section != [] {
        PutLine([OPEN] + section + [CLOSE], Section(section));
      }
      assert lines == before + HeaderLines(section);
      ok, w := EmitBody(entries, section, true, hash, v, ps);
      if ok {
        Associate5(before, HeaderLines(section), OwnLines(w.kids), if HasBlock(w.kids) then [Blank] else [], SubLines(w.kids, section));
      }
    }

    /** The entries in the exporter's order: by key, or left as they stand. */
    method Entries(items: nat, count: nat, ghost hash: Hash64, ghost floor: int, ghost kids: seq<Member>)
      returns (entries: seq<SortEntry>, ghost ps: seq<Member>)
      requires R.Valid(reader) && count == |kids| && TableHolds(reader, hash, items, floor, kids)
      ensures AllName(reader, hash, entries, ps) && OrderOf(ps, kids, sortKeys)
    {
      hide Told, TableHolds, Names;
      if sortKeys {
        var sorted;
        sorted, ps := SortedEntries(reader, items, count, true, hash, floor, kids);
        entries := sorted[..];
      } else {
        var filled := FillEntries(reader, items, count, hash, floor, kids);
        entries, ps := filled[..], kids;
      }
    }

    ghost function BodyLines(ms: seq<Member>, section: Str, blankLine: bool): (r: seq<Line>) {
      OwnLines(ms) + ((if blankLine && HasBlock(ms) then [Blank] else []) + SubLines(ms, section))
    }

    /** The lines of a table's entries: leaves, then, below the root after an empty line, blocks. */
    method EmitBody(entries: seq<SortEntry>, section: Str, blankLine: bool, ghost hash: Hash64, ghost v: Value, ghost ps: seq<Member>)
      returns (ok: bool, ghost w: Value)
      requires !failed && R.Valid(reader) && AllName(reader, hash, entries, ps) && v.Block? && OrderOf(ps, v.kids, sortKeys)
      requires Told()
      modifies this`output, this`lines, this`failed
      ensures Told()
      ensures ok == !failed == Flat(v)
      ensures ok ==> w.Block? && Arranged(v, w, sortKeys)
      ensures ok ==> lines == old(lines) + BodyLines(w.kids, section, blankLine)
      decreases v, 2, 0
    {
      hide Told, OrderOf, OwnLines, SubLines, HasBlock, AllFlat, LeavesFlat, AllArranged, Merged, OnlyBlocks, Arranged, Flat, Names;
      w := v;
      ghost var before := lines;
      OrderKeeps(ps, v.kids, sortKeys);
      FlatInOrder(v, ps);
      var blocks;
      ok, blocks := EmitLeaves(entries, hash, ps);
      if !ok {
        return;
      }
      if blankLine && |blocks| != 0 {
        PutLine([], Blank);
      }
      ghost var blank := if blankLine && |blocks| != 0 then [Blank] else [];
      assert lines == before + OwnLines(ps) + blank;
      BlocksAreKids(ps, v.kids);
      ghost var bs;
      ok, bs := EmitBlocks(blocks, section, hash, v, OnlyBlocks(ps));
      if !ok {
        return;
      }
      SameSize(OnlyBlocks(ps), bs, sortKeys);
      MergedIsArranged(ps, bs, section, sortKeys);
      w := Block(Merged(ps, bs));
      BodyArranged(v, ps, Merged(ps, bs));
      assert before + OwnLines(ps) + blank + SubLines(bs, section) == before + (OwnLines(ps) + (blank + SubLines(bs, section)));
    }

    lemma BodyArranged(v: Value, ps: seq<Member>, ws: seq<Member>)
      requires v.Block? && OrderOf(ps, v.kids, sortKeys) && AllArranged(ps, ws, sortKeys)
      requires forall k :: 0 <= k < |ps| ==> ps[k] in v.kids
      ensures Arranged(v, Block(ws), sortKeys)
    {
      hide Told, ItemArranged, OrderOf, Arranged;
      BlockDone(v, ps, ws, sortKeys);
    }

    lemma BlocksAreKids(ps: seq<Member>, kids: seq<Member>)
      requires forall k :: 0 <= k < |ps| ==> ps[k] in kids
      ensures forall i :: 0 <= i < |OnlyBlocks(ps)| ==> OnlyBlocks(ps)[i] in kids && OnlyBlocks(ps)[i].value.Block?
    {
      hide Told, OnlyBlocks;
      forall i | 0 <= i < |OnlyBlocks(ps)|
        ensures OnlyBlocks(ps)[i] in kids
      {
        var m := OnlyBlocks(ps)[i];
        assert m in ps;
        var k :| 0 <= k < |ps| && ps[k] == m;
      }
    }

    /** A block is flat exactly when its leaves and its blocks are. */
    lemma FlatInOrder(v: Value, ps: seq<Member>)
      requires v.Block? && |ps| == |v.kids|
      requires (forall k :: 0 <= k < |ps| ==> ps[k] in v.kids) && forall k :: 0 <= k < |ps| ==> v.kids[k] in ps
      ensures Flat(v) <==> LeavesFlat(ps) && AllFlat(OnlyBlocks(ps))
    {
      FlatSplits(ps);
      if Flat(v) {
        forall k | 0 <= k < |ps|
          ensures Flat(ps[k].value)
        {
          var j :| 0 <= j < |v.kids| && v.kids[j] == ps[k];
        }
      }
      if AllFlat(ps) {
        forall k | 0 <= k < |v.kids|
          ensures Flat(v.kids[k].value)
        {
          var j :| 0 <= j < |ps| && ps[j] == v.kids[k];
        }
      }
    }

    lemma {:induction false} FlatSplits(ms: seq<Member>)
      ensures AllFlat(ms) <==> LeavesFlat(ms) && AllFlat(OnlyBlocks(ms))
    {
      hide Told, Flat;
      if ms != [] {
        var n := |ms| - 1;
        FlatSplits(ms[..n]);
        FlatSnoc(ms[..n], ms[n]);
        assert ms == ms[..n] + [ms[n]] && OnlyBlocks(ms[..n]) + [] == OnlyBlocks(ms[..n]);
        if ms[n].value.Block? {
          FlatSnoc(OnlyBlocks(ms[..n]), ms[n]);
        }
      }
    }

    lemma FlatSnoc(ms: seq<Member>, m: Member)
      ensures AllFlat(ms + [m]) <==> AllFlat(ms) && Flat(m.value)
      ensures LeavesFlat(ms + [m]) <==> LeavesFlat(ms) && (!m.value.Block? ==> Flat(m.value))
    {
      hide Told, Flat;
      var more := ms + [m];
      assert more[|ms|] == m && forall i :: 0 <= i < |ms| ==> more[i] == ms[i];
    }

    /** Exports a whole file that holds the document `doc`; refused exactly when some array holds a container. */
    method ExportIni(ghost hash: Hash64, ghost doc: seq<Member>) returns (ok: bool, ghost written: seq<Member>)
      requires !failed && lines == [] && R.Valid(reader) && reader.header.rootCount == |doc|
      requires TableHolds(reader, hash, reader.header.rootIndexOffset, 0, doc)
      requires Told()
      modifies this`output, this`lines, this`failed
      ensures Told()
      ensures ok == !failed == Flat(Block(doc))
      ensures ok ==> Arranged(Block(doc), Block(written), sortKeys) && output == Text(RootLines(written), numbers)
    {
      hide Text, TableHolds, Arranged, OwnLines, SubLines, HasBlock, AllName, OrderOf, Flat;
      written := doc;
      if reader.header.rootCount == 0 {
        NothingToArrange(sortKeys);
        NothingToWrite();
        return true, written;
      }
      var entries;
      ghost var ps;
      entries, ps := Entries(reader.header.rootIndexOffset, reader.header.rootCount, hash, 0, doc);
      ghost var w;
      ok, w := EmitBody(entries, [], false, hash, Block(doc), ps);
      if ok {
        written := w.kids;
        assert [] + (OwnLines(written) + ([] + SubLines(written, []))) == RootLines(written);
      }
    }

    lemma NothingToWrite()
      ensures Flat(Block([])) && RootLines([]) == []
    {
    }
  }
}
