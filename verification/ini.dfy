/** INI export as lines, and what a reader with a running section makes of them. */
module Ini {
  import opened Bytes
  import opened Document
  import opened KeyOrder

  const DOT: byte := 0x2E

  /** A line, its layout left open: a section header, a setting, one item of an array, an empty line. */
  datatype Line = Section(path: Str) | Setting(key: Str, value: Value) | Item(key: Str, value: Value) | Blank

  function Join(section: Str, key: Str): (path: Str) {
    if section == [] then key else section + [DOT] + key
  }

  // ----- what is written -----

  function ItemLines(key: Str, items: seq<Member>): (lines: seq<Line>) {
    if items == [] then [] else ItemLines(key, items[..|items| - 1]) + [Item(key, items[|items| - 1].value)]
  }

  /** A scalar is one line, an array one line an item; a block is not written with its siblings' lines. */
  function MemberLines(m: Member): (lines: seq<Line>) {
    match m.value
    case Block(_) => []
    case Array(items) => ItemLines(m.key, items)
    case _ => [Setting(m.key, m.value)]
  }

  function OwnLines(ms: seq<Member>): (lines: seq<Line>) {
    if ms == [] then [] else OwnLines(ms[..|ms| - 1]) + MemberLines(ms[|ms| - 1])
  }

  function HeaderLines(section: Str): (lines: seq<Line>) {
    if section == [] then [] else [Section(section)]
  }

  predicate HasBlock(ms: seq<Member>) {
    exists i :: 0 <= i < |ms| && ms[i].value.Block?
  }

  /** A block below the root: its header, its own lines, then the blocks in it. */
  function BlockLines(ms: seq<Member>, section: Str): (lines: seq<Line>)
    decreases ms, 1
  {
    HeaderLines(section) + OwnLines(ms) + ((if HasBlock(ms) then [Blank] else []) + SubLines(ms, section))
  }

  function SubLines(ms: seq<Member>, section: Str): (lines: seq<Line>)
    decreases ms, 0
  {
    if ms == [] then []
    else
      var n := |ms| - 1;
      SubLines(ms[..n], section)
      + if ms[n].value.Block? then BlockLines(ms[n].value.kids, Join(section, ms[n].key)) else []
  }

  function RootLines(doc: seq<Member>): (lines: seq<Line>) {
    OwnLines(doc) + SubLines(doc, [])
  }

  // ----- what is read -----

  datatype Leaf = Leaf(section: Str, key: Str, value: Value, inArray: bool)

  /** The section in force after the lines. */
  function Current(lines: seq<Line>, section: Str): (now: Str) {
    if lines == [] then section
    else if lines[|lines| - 1].Section? then lines[|lines| - 1].path
    else Current(lines[..|lines| - 1], section)
  }

  function LeafOf(line: Line, section: Str): (leaves: seq<Leaf>) {
    match line
    case Setting(key, value) => [Leaf(section, key, value, false)]
    case Item(key, value) => [Leaf(section, key, value, true)]
    case _ => []
  }

  /** Every setting and item, under the section in force where it stands. */
  function ReadLines(lines: seq<Line>, section: Str): (leaves: seq<Leaf>) {
    if lines == [] then []
    else
      var n := |lines| - 1;
      ReadLines(lines[..n], section) + LeafOf(lines[n], Current(lines[..n], section))
  }

  // ----- what is meant -----

  function ItemLeaves(section: Str, key: Str, items: seq<Member>): (leaves: seq<Leaf>) {
    if items == [] then []
    else ItemLeaves(section, key, items[..|items| - 1]) + [Leaf(section, key, items[|items| - 1].value, true)]
  }

  function MemberLeaves(section: Str, m: Member): (leaves: seq<Leaf>) {
    match m.value
    case Block(_) => []
    case Array(items) => ItemLeaves(section, m.key, items)
    case _ => [Leaf(section, m.key, m.value, false)]
  }

  function OwnLeaves(section: Str, ms: seq<Member>): (leaves: seq<Leaf>) {
    if ms == [] then [] else OwnLeaves(section, ms[..|ms| - 1]) + MemberLeaves(section, ms[|ms| - 1])
  }

  /** Every leaf of a block once, under the dotted path of the block that holds it. */
  function BlockLeaves(ms: seq<Member>, section: Str): (leaves: seq<Leaf>)
    decreases ms, 1
  {
    OwnLeaves(section, ms) + SubLeaves(ms, section)
  }

  function SubLeaves(ms: seq<Member>, section: Str): (leaves: seq<Leaf>)
    decreases ms, 0
  {
    if ms == [] then []
    else
      var n := |ms| - 1;
      SubLeaves(ms[..n], section)
      + if ms[n].value.Block? then BlockLeaves(ms[n].value.kids, Join(section, ms[n].key)) else []
  }

  // ----- reading piece by piece -----

  lemma {:induction false} CurrentConcat(a: seq<Line>, b: seq<Line>, section: Str)
    ensures Current(a + b, section) == Current(b, Current(a, section))
  {
    if b == [] {
      assert a + b == a;
    } else {
      assert (a + b)[..|a + b| - 1] == a + b[..|b| - 1];
      CurrentConcat(a, b[..|b| - 1], section);
    }
  }

  lemma {:induction false} ReadConcat(a: seq<Line>, b: seq<Line>, section: Str)
    ensures ReadLines(a + b, section) == ReadLines(a, section) + ReadLines(b, Current(a, section))
  {
    hide LeafOf;
    if b == [] {
      assert a + b == a;
    } else {
      var n := |b| - 1;
      assert (a + b)[..|a + b| - 1] == a + b[..n];
      ReadConcat(a, b[..n], section);
      CurrentConcat(a, b[..n], section);
    }
  }

  lemma ReadOne(line: Line, section: Str)
    ensures ReadLines([line], section) == LeafOf(line, section)
    ensures Current([line], section) == if line.Section? then line.path else section
  {
    assert [line][..0] == [];
    assert [] + LeafOf(line, section) == LeafOf(line, section);
  }

  lemma {:induction false} ItemsAreRead(key: Str, items: seq<Member>, section: Str)
    ensures ReadLines(ItemLines(key, items), section) == ItemLeaves(section, key, items)
    ensures Current(ItemLines(key, items), section) == section
  {
    if items != [] {
      var n := |items| - 1;
      var line := Item(key, items[n].value);
      ItemsAreRead(key, items[..n], section);
      ReadConcat(ItemLines(key, items[..n]), [line], section);
      CurrentConcat(ItemLines(key, items[..n]), [line], section);
      ReadOne(line, section);
    }
  }

  lemma MemberIsRead(m: Member, section: Str)
    ensures ReadLines(MemberLines(m), section) == MemberLeaves(section, m)
    ensures Current(MemberLines(m), section) == section
  {
    hide ReadLines, Current, ItemLines, ItemLeaves;
    match m.value
    case Block(_) => NothingIsRead(section);
    case Array(items) => ItemsAreRead(m.key, items, section);
    case _ => ReadOne(Setting(m.key, m.value), section);
  }

  lemma NothingIsRead(section: Str)
    ensures ReadLines([], section) == [] && Current([], section) == section
  {
  }

  /** A block's own lines keep the section, and are read under the section in force. */
  lemma {:induction false} OwnAreRead(ms: seq<Member>, section: Str)
    ensures ReadLines(OwnLines(ms), section) == OwnLeaves(section, ms)
    ensures Current(OwnLines(ms), section) == section
  {
    hide MemberLines, MemberLeaves;
    if ms != [] {
      var n := |ms| - 1;
      OwnAreRead(ms[..n], section);
      MemberIsRead(ms[n], section);
      ReadConcat(OwnLines(ms[..n]), MemberLines(ms[n]), section);
      CurrentConcat(OwnLines(ms[..n]), MemberLines(ms[n]), section);
    }
  }

  // ----- when attribution is right -----

  /** Whether writing a block below the root writes any section header. */
  predicate Headed(ms: seq<Member>, section: Str)
    decreases ms, 1
  {
    section != [] || SubHeaded(ms, section)
  }

  predicate SubHeaded(ms: seq<Member>, section: Str)
    decreases ms, 0
  {
    ms != [] &&
    var n := |ms| - 1;
    SubHeaded(ms[..n], section) || (ms[n].value.Block? && Headed(ms[n].value.kids, Join(section, ms[n].key)))
  }

  /** No block whose dotted path is empty, so that it gets no header, has leaves of its own behind another block's header. */
  predicate Placed(ms: seq<Member>, section: Str, seen: bool)
    decreases ms, 1
  {
    (section == [] && seen ==> OwnLines(ms) == []) && SubPlaced(ms, section, seen || section != [])
  }

  predicate SubPlaced(ms: seq<Member>, section: Str, seen: bool)
    decreases ms, 0
  {
    ms == [] ||
    var n := |ms| - 1;
    && SubPlaced(ms[..n], section, seen)
    && (ms[n].value.Block? ==> Placed(ms[n].value.kids, Join(section, ms[n].key), seen || SubHeaded(ms[..n], section)))
  }

  lemma {:induction false} ItemCounts(section: Str, key: Str, items: seq<Member>)
    ensures |ItemLeaves(section, key, items)| == |ItemLines(key, items)|
    ensures forall i :: 0 <= i < |ItemLeaves(section, key, items)| ==> ItemLeaves(section, key, items)[i].section == section
  {
    if items != [] {
      ItemCounts(section, key, items[..|items| - 1]);
    }
  }

  lemma {:induction false} OwnCounts(section: Str, ms: seq<Member>)
    ensures |OwnLeaves(section, ms)| == |OwnLines(ms)|
    ensures forall i :: 0 <= i < |OwnLeaves(section, ms)| ==> OwnLeaves(section, ms)[i].section == section
  {
    if ms != [] {
      var n := |ms| - 1;
      OwnCounts(section, ms[..n]);
      if ms[n].value.Array? {
        ItemCounts(section, ms[n].key, ms[n].value.kids);
      }
    }
  }

  /** Own leaves read under another section are right only if there are none. */
  lemma OwnUnder(a: Str, b: Str, ms: seq<Member>)
    ensures OwnLeaves(a, ms) == OwnLeaves(b, ms) <==> a == b || OwnLines(ms) == []
    ensures |OwnLeaves(a, ms)| == |OwnLeaves(b, ms)|
  {
    hide OwnLeaves, OwnLines;
    OwnCounts(a, ms);
    OwnCounts(b, ms);
    if OwnLines(ms) != [] && OwnLeaves(a, ms) == OwnLeaves(b, ms) {
      assert OwnLeaves(a, ms)[0].section == a && OwnLeaves(b, ms)[0].section == b;
    }
  }

  lemma SameParts<T>(a: seq<T>, b: seq<T>, c: seq<T>, d: seq<T>)
    requires |a| == |c|
    ensures a + b == c + d <==> a == c && b == d
  {
    if a + b == c + d {
      assert a == (a + b)[..|a|] && c == (c + d)[..|c|];
      assert b == (a + b)[|a|..] && d == (c + d)[|c|..];
    }
  }

  /** What writing a block below the root does to the section in force, and how its leaves are read. */
  ghost predicate ReadRight(ms: seq<Member>, section: Str, now: Str) {
    ReadLines(BlockLines(ms, section), now) == BlockLeaves(ms, section)
  }

  ghost predicate SubReadRight(ms: seq<Member>, section: Str, now: Str) {
    ReadLines(SubLines(ms, section), now) == SubLeaves(ms, section)
  }

  /** A block's header and own lines, and its blocks' lines. */
  lemma BlockParts(ms: seq<Member>, section: Str, now: Str)
    ensures var inside := if section == [] then now else section;
      && ReadLines(BlockLines(ms, section), now) == OwnLeaves(inside, ms) + ReadLines(SubLines(ms, section), inside)
      && Current(BlockLines(ms, section), now) == Current(SubLines(ms, section), inside)
  {
    hide OwnLines, OwnLeaves, SubLines, ReadLines, Current;
    var inside := if section == [] then now else section;
    var blank := if HasBlock(ms) then [Blank] else [];
    HeaderIsRead(section, now);
    OwnAreRead(ms, inside);
    BlankIsRead(blank, inside);
    ReadConcat(HeaderLines(section) + OwnLines(ms), blank + SubLines(ms, section), now);
    CurrentConcat(HeaderLines(section) + OwnLines(ms), blank + SubLines(ms, section), now);
    ReadConcat(HeaderLines(section), OwnLines(ms), now);
    CurrentConcat(HeaderLines(section), OwnLines(ms), now);
    ReadConcat(blank, SubLines(ms, section), inside);
    CurrentConcat(blank, SubLines(ms, section), inside);
  }

  lemma HeaderIsRead(section: Str, now: Str)
    ensures ReadLines(HeaderLines(section), now) == []
    ensures Current(HeaderLines(section), now) == if section == [] then now else section
  {
    NothingIsRead(now);
    ReadOne(Section(section), now);
  }

  lemma BlankIsRead(blank: seq<Line>, now: Str)
    requires blank == [] || blank == [Blank]
    ensures ReadLines(blank, now) == [] && Current(blank, now) == now
  {
    NothingIsRead(now);
    ReadOne(Blank, now);
  }

  lemma SubParts(ms: seq<Member>, section: Str, now: Str)
    requires ms != []
    ensures var n := |ms| - 1; var mid := Current(SubLines(ms[..n], section), now);
      && (ms[n].value.Block? ==>
            && ReadLines(SubLines(ms, section), now) ==
                 ReadLines(SubLines(ms[..n], section), now) + ReadLines(BlockLines(ms[n].value.kids, Join(section, ms[n].key)), mid)
            && Current(SubLines(ms, section), now) == Current(BlockLines(ms[n].value.kids, Join(section, ms[n].key)), mid))
      && (!ms[n].value.Block? ==> SubLines(ms, section) == SubLines(ms[..n], section))
  {
    hide BlockLines, ReadLines, Current;
    var n := |ms| - 1;
    if ms[n].value.Block? {
      ReadConcat(SubLines(ms[..n], section), BlockLines(ms[n].value.kids, Join(section, ms[n].key)), now);
      CurrentConcat(SubLines(ms[..n], section), BlockLines(ms[n].value.kids, Join(section, ms[n].key)), now);
    }
  }

  /** The empty section stays in force exactly until the first header. */
  lemma {:induction false} BlockCurrent(ms: seq<Member>, section: Str, now: Str)
    ensures Current(BlockLines(ms, section), now) == [] <==> now == [] && !Headed(ms, section)
    decreases ms, 1
  {
    hide BlockLines, SubLines, Current;
    BlockParts(ms, section, now);
    SubCurrent(ms, section, if section == [] then now else section);
  }

  lemma {:induction false} SubCurrent(ms: seq<Member>, section: Str, now: Str)
    ensures Current(SubLines(ms, section), now) == [] <==> now == [] && !SubHeaded(ms, section)
    decreases ms, 0
  {
    hide BlockLines, Headed, Current;
    if ms == [] {
      NothingIsRead(now);
    } else {
      var n := |ms| - 1;
      SubParts(ms, section, now);
      SubCurrent(ms[..n], section, now);
      if ms[n].value.Block? {
        BlockCurrent(ms[n].value.kids, Join(section, ms[n].key), Current(SubLines(ms[..n], section), now));
      }
    }
  }

  lemma {:induction false} BlockAttribution(ms: seq<Member>, section: Str, now: Str)
    ensures ReadRight(ms, section, now) <==> Placed(ms, section, now != [])
    ensures |ReadLines(BlockLines(ms, section), now)| == |BlockLeaves(ms, section)|
    decreases ms, 1
  {
    hide BlockLines, SubLines, OwnLeaves, OwnLines, ReadLines, SubPlaced, SubLeaves;
    var inside := if section == [] then now else section;
    BlockParts(ms, section, now);
    OwnUnder(inside, section, ms);
    SubAttribution(ms, section, inside);
    SameParts(OwnLeaves(inside, ms), ReadLines(SubLines(ms, section), inside), OwnLeaves(section, ms), SubLeaves(ms, section));
  }

  lemma {:induction false} SubAttribution(ms: seq<Member>, section: Str, now: Str)
    ensures SubReadRight(ms, section, now) <==> SubPlaced(ms, section, now != [])
    ensures |ReadLines(SubLines(ms, section), now)| == |SubLeaves(ms, section)|
    decreases ms, 0
  {
    hide BlockLines, BlockLeaves, Placed, ReadLines, Headed;
    if ms == [] {
      NothingIsRead(now);
    } else {
      var n := |ms| - 1;
      SubParts(ms, section, now);
      SubAttribution(ms[..n], section, now);
      if ms[n].value.Block? {
        var mid := Current(SubLines(ms[..n], section), now);
        SubCurrent(ms[..n], section, now);
        BlockAttribution(ms[n].value.kids, Join(section, ms[n].key), mid);
        SameParts(ReadLines(SubLines(ms[..n], section), now), ReadLines(BlockLines(ms[n].value.kids, Join(section, ms[n].key)), mid),
                  SubLeaves(ms[..n], section), BlockLeaves(ms[n].value.kids, Join(section, ms[n].key)));
      }
    }
  }

  /**
   * Section attribution: reading a document's lines with a running section gives every leaf once, in order, under the
   * dotted path of its block, exactly when no block with an empty path has leaves behind another block's header.
   */
  lemma RootAttribution(doc: seq<Member>)
    ensures ReadLines(RootLines(doc), []) == OwnLeaves([], doc) + SubLeaves(doc, []) <==> SubPlaced(doc, [], false)
  {
    hide SubLines, SubLeaves, SubPlaced, OwnLines, OwnLeaves, ReadLines;
    OwnAreRead(doc, []);
    ReadConcat(OwnLines(doc), SubLines(doc, []), []);
    SubAttribution(doc, [], []);
    SameParts(OwnLeaves([], doc), ReadLines(SubLines(doc, []), []), OwnLeaves([], doc), SubLeaves(doc, []));
  }

  // ----- documents whose attribution is right -----

  /** Every block has a key that is not empty, all the way down. */
  ghost predicate BlocksNamed(ms: seq<Member>)
    decreases ms
  {
    forall i :: 0 <= i < |ms| && ms[i].value.Block? ==> ms[i].key != [] && BlocksNamed(ms[i].value.kids)
  }

  lemma {:induction false} NamedIsPlaced(ms: seq<Member>, section: Str, seen: bool)
    requires BlocksNamed(ms)
    ensures SubPlaced(ms, section, seen)
    decreases ms
  {
    if ms != [] {
      var n := |ms| - 1;
      NamedIsPlaced(ms[..n], section, seen);
      if ms[n].value.Block? {
        NamedIsPlaced(ms[n].value.kids, Join(section, ms[n].key), true);
      }
    }
  }

  // ----- what sections and leaves there are -----

  /** Keys with dots between. */
  function Dotted(keys: seq<Str>): (path: Str) {
    if keys == [] then [] else if |keys| == 1 then keys[0] else Dotted(keys[..|keys| - 1]) + [0x2E] + keys[|keys| - 1]
  }

  /** `kids` are the members of the block that `keys` lead to from the root. */
  ghost predicate BlockAt(doc: seq<Member>, keys: seq<Str>, kids: seq<Member>)
    decreases |keys|, 0
  {
    if keys == [] then kids == doc else BlockBehind(doc, keys[..|keys| - 1], keys[|keys| - 1], kids)
  }

  ghost predicate BlockBehind(doc: seq<Member>, keys: seq<Str>, key: Str, kids: seq<Member>)
    decreases |keys|, 1
  {
    exists above: seq<Member>, i :: BlockAt(doc, keys, above) && IsBlockOf(above, i, key, kids)
  }

  ghost predicate IsBlockOf(above: seq<Member>, i: int, key: Str, kids: seq<Member>) {
    0 <= i < |above| && above[i] == Member(key, Block(kids))
  }

  /** The leaf is a scalar member, or an item of a member that is an array. */
  ghost predicate LeafOfMember(m: Member, leaf: Leaf) {
    && leaf.key == m.key && !m.value.Block?
    && if m.value.Array? then leaf.inArray && exists j :: 0 <= j < |m.value.kids| && m.value.kids[j].value == leaf.value
       else !leaf.inArray && leaf.value == m.value
  }

  ghost predicate OwnLeaf(kids: seq<Member>, leaf: Leaf) {
    exists i :: 0 <= i < |kids| && LeafOfMember(kids[i], leaf)
  }

  /** The leaf stands under the dotted keys of a block that has it. */
  ghost predicate LeafPlaced(doc: seq<Member>, leaf: Leaf) {
    exists keys: seq<Str>, kids: seq<Member> :: PlacedIn(doc, keys, kids, leaf)
  }

  ghost predicate PlacedIn(doc: seq<Member>, keys: seq<Str>, kids: seq<Member>, leaf: Leaf) {
    BlockAt(doc, keys, kids) && OwnLeaf(kids, leaf) && leaf.section == Dotted(keys)
  }

  lemma {:induction false} ItemsArePlaced(section: Str, m: Member, items: seq<Member>)
    requires m.value.Array? && items <= m.value.kids
    ensures forall leaf :: leaf in ItemLeaves(section, m.key, items) ==> leaf.section == section && LeafOfMember(m, leaf)
  {
    if items != [] {
      var n := |items| - 1;
      ItemsArePlaced(section, m, items[..n]);
      assert m.value.kids[n].value == items[n].value;
    }
  }

  lemma {:induction false} OwnArePlaced(section: Str, kids: seq<Member>, ms: seq<Member>)
    requires ms <= kids
    ensures forall leaf :: leaf in OwnLeaves(section, ms) ==> leaf.section == section && OwnLeaf(kids, leaf)
  {
    hide MemberLeaves, LeafOfMember;
    if ms != [] {
      var n := |ms| - 1;
      OwnArePlaced(section, kids, ms[..n]);
      MemberIsPlaced(section, ms[n]);
      assert kids[n] == ms[n];
    }
  }

  lemma MemberIsPlaced(section: Str, m: Member)
    ensures forall leaf :: leaf in MemberLeaves(section, m) ==> leaf.section == section && LeafOfMember(m, leaf)
  {
    if m.value.Array? {
      ItemsArePlaced(section, m, m.value.kids);
    } else if !m.value.Block? {
      assert MemberLeaves(section, m) == [Leaf(section, m.key, m.value, false)];
    }
  }

  lemma BlockBelow(doc: seq<Member>, keys: seq<Str>, above: seq<Member>, i: nat)
    requires BlockAt(doc, keys, above) && i < |above| && above[i].value.Block?
    ensures BlockAt(doc, keys + [above[i].key], above[i].value.kids)
  {
    var more := keys + [above[i].key];
    assert more[..|more| - 1] == keys && IsBlockOf(above, i, above[i].key, above[i].value.kids);
  }

  lemma DottedBelow(keys: seq<Str>, key: Str)
    requires key != [] && (keys != [] ==> Dotted(keys) != [])
    ensures Dotted(keys + [key]) == Join(Dotted(keys), key) != []
  {
    assert (keys + [key])[..|keys|] == keys;
  }

  lemma {:induction false} SubArePlaced(doc: seq<Member>, keys: seq<Str>, above: seq<Member>, ms: seq<Member>)
    requires BlockAt(doc, keys, above) && BlocksNamed(above) && ms <= above && (keys != [] ==> Dotted(keys) != [])
    ensures forall leaf :: leaf in SubLeaves(ms, Dotted(keys)) ==> LeafPlaced(doc, leaf)
    decreases ms
  {
    hide BlockAt, Dotted, OwnLeaf, OwnLeaves;
    if ms != [] {
      var n := |ms| - 1;
      SubArePlaced(doc, keys, above, ms[..n]);
      if ms[n].value.Block? {
        var more, kids := keys + [ms[n].key], ms[n].value.kids;
        assert above[n] == ms[n];
        BlockBelow(doc, keys, above, n);
        DottedBelow(keys, ms[n].key);
        OwnArePlaced(Dotted(more), kids, kids);
        SubArePlaced(doc, more, kids, kids);
        forall leaf | leaf in BlockLeaves(kids, Dotted(more))
          ensures LeafPlaced(doc, leaf)
        {
          if leaf in OwnLeaves(Dotted(more), kids) {
            assert PlacedIn(doc, more, kids, leaf);
          }
        }
      }
    }
  }

  /** Every leaf stands under the keys, with dots between, of the blocks it is in. */
  lemma LeavesArePlaced(doc: seq<Member>)
    requires BlocksNamed(doc)
    ensures forall leaf :: leaf in OwnLeaves([], doc) + SubLeaves(doc, []) ==> LeafPlaced(doc, leaf)
  {
    hide OwnLeaves, SubLeaves, OwnLeaf;
    var none: seq<Str> := [];
    assert Dotted(none) == [] && BlockAt(doc, none, doc);
    OwnArePlaced([], doc, doc);
    SubArePlaced(doc, none, doc, doc);
    forall leaf | leaf in OwnLeaves([], doc)
      ensures LeafPlaced(doc, leaf)
    {
      assert PlacedIn(doc, none, doc, leaf);
    }
  }

  // ----- where empty lines stand -----

  function CountBlanks(lines: seq<Line>): (n: nat) {
    if lines == [] then 0 else CountBlanks(lines[..|lines| - 1]) + if lines[|lines| - 1].Blank? then 1 else 0
  }

  /** How many blocks below `ms` have blocks in them. */
  function Branchings(ms: seq<Member>): (n: nat)
    decreases ms
  {
    if ms == [] then 0
    else
      var m := ms[|ms| - 1];
      Branchings(ms[..|ms| - 1])
      + if !m.value.Block? then 0
        else Branchings(m.value.kids) + if exists i :: 0 <= i < |m.value.kids| && m.value.kids[i].value.Block? then 1 else 0
  }

  /** The line behind an empty one is the header of a block directly in the one whose section is in force. */
  ghost predicate LeadsIn(lines: seq<Line>, now: Str, i: nat)
    requires i < |lines|
  {
    && i + 1 < |lines| && lines[i + 1].Section? && Current(lines[..i], now) != []
    && exists key: Str :: key != [] && lines[i + 1].path == Current(lines[..i], now) + [DOT] + key
  }

  ghost predicate BlanksLeadIn(lines: seq<Line>, now: Str) {
    forall i :: 0 <= i < |lines| && lines[i].Blank? ==> LeadsIn(lines, now, i)
  }

  lemma LeadsInConcat(a: seq<Line>, b: seq<Line>, now: Str)
    requires BlanksLeadIn(a, now) && BlanksLeadIn(b, Current(a, now))
    ensures BlanksLeadIn(a + b, now)
  {
    hide Current;
    forall i | 0 <= i < |a + b| && (a + b)[i].Blank?
      ensures LeadsIn(a + b, now, i)
    {
      if i < |a| {
        assert LeadsIn(a, now, i);
        assert (a + b)[..i] == a[..i];
      } else {
        assert LeadsIn(b, Current(a, now), i - |a|);
        assert (a + b)[..i] == a + b[..i - |a|];
        CurrentConcat(a, b[..i - |a|], now);
      }
    }
  }

  lemma {:induction false} BlanksConcat(a: seq<Line>, b: seq<Line>)
    ensures CountBlanks(a + b) == CountBlanks(a) + CountBlanks(b)
  {
    if b == [] {
      assert a + b == a;
    } else {
      assert (a + b)[..|a + b| - 1] == a + b[..|b| - 1];
      BlanksConcat(a, b[..|b| - 1]);
    }
  }

  lemma {:induction false} NoBlanks(lines: seq<Line>, now: Str)
    requires forall i :: 0 <= i < |lines| ==> !lines[i].Blank?
    ensures CountBlanks(lines) == 0 && BlanksLeadIn(lines, now)
  {
    if lines != [] {
      NoBlanks(lines[..|lines| - 1], now);
    }
  }

  lemma {:induction false} ItemsNotBlank(key: Str, items: seq<Member>)
    ensures forall i :: 0 <= i < |ItemLines(key, items)| ==> !ItemLines(key, items)[i].Blank?
  {
    if items != [] {
      ItemsNotBlank(key, items[..|items| - 1]);
    }
  }

  lemma {:induction false} OwnNotBlank(ms: seq<Member>)
    ensures forall i :: 0 <= i < |OwnLines(ms)| ==> !OwnLines(ms)[i].Blank?
  {
    if ms != [] {
      var n := |ms| - 1;
      OwnNotBlank(ms[..n]);
      if ms[n].value.Array? {
        ItemsNotBlank(ms[n].key, ms[n].value.kids);
      }
    }
  }

  /** The blocks of a list with a block in it start with a block's header. */
  lemma {:induction false} SubStarts(ms: seq<Member>, section: Str)
    requires BlocksNamed(ms) && HasBlock(ms)
    ensures SubLines(ms, section) != [] && SubLines(ms, section)[0].Section?
    ensures exists key: Str :: key != [] && SubLines(ms, section)[0].path == Join(section, key)
  {
    hide OwnLines;
    var n := |ms| - 1;
    if HasBlock(ms[..n]) {
      SubStarts(ms[..n], section);
    } else {
      NoSubLines(ms[..n], section);
      assert ms[n].value.Block? by { LastIsBlock(ms); }
      assert BlockLines(ms[n].value.kids, Join(section, ms[n].key))[0] == Section(Join(section, ms[n].key));
    }
  }

  lemma LastIsBlock(ms: seq<Member>)
    requires HasBlock(ms) && !HasBlock(ms[..|ms| - 1])
    ensures ms[|ms| - 1].value.Block?
  {
    var n := |ms| - 1;
    assert forall i :: 0 <= i < n ==> ms[..n][i] == ms[i];
  }

  lemma {:induction false} NoSubLines(ms: seq<Member>, section: Str)
    requires !HasBlock(ms)
    ensures SubLines(ms, section) == []
  {
    if ms != [] {
      var n := |ms| - 1;
      assert forall i :: 0 <= i < n ==> ms[..n][i] == ms[i];
      NoSubLines(ms[..n], section);
    }
  }

  lemma {:induction false} SubBlanks(ms: seq<Member>, section: Str, now: Str)
    requires BlocksNamed(ms)
    ensures CountBlanks(SubLines(ms, section)) == Branchings(ms) && BlanksLeadIn(SubLines(ms, section), now)
    decreases ms
  {
    hide BlockLines, OwnLines, Current, HasBlock, LeadsIn;
    if ms == [] {
      NoBlanks([], now);
    } else {
      var n := |ms| - 1;
      SubBlanks(ms[..n], section, now);
      if ms[n].value.Block? {
        var path, kids := Join(section, ms[n].key), ms[n].value.kids;
        var mid := Current(SubLines(ms[..n], section), now);
        SubBlanks(kids, path, path);
        OneBlockBlanks(kids, path, mid);
        assert HasBlock(kids) <==> exists i :: 0 <= i < |kids| && kids[i].value.Block? by { BlockAmong(kids); }
        BlanksConcat(SubLines(ms[..n], section), BlockLines(kids, path));
        LeadsInConcat(SubLines(ms[..n], section), BlockLines(kids, path), now);
      } else {
        assert SubLines(ms, section) == SubLines(ms[..n], section);
      }
    }
  }

  lemma OneBlockBlanks(kids: seq<Member>, path: Str, now: Str)
    requires path != [] && BlocksNamed(kids)
    requires CountBlanks(SubLines(kids, path)) == Branchings(kids) && BlanksLeadIn(SubLines(kids, path), path)
    ensures CountBlanks(BlockLines(kids, path)) == Branchings(kids) + if HasBlock(kids) then 1 else 0
    ensures BlanksLeadIn(BlockLines(kids, path), now)
  {
    hide OwnLines, SubLines, HasBlock, LeadsIn, Current, BlocksNamed, Branchings;
    var head, blank := [Section(path)] + OwnLines(kids), if HasBlock(kids) then [Blank] else [];
    OwnNotBlank(kids);
    NoBlanks(head, now);
    HeadCurrent(kids, path, now);
    BlankBeforeSub(kids, path);
    BlanksConcat(blank, SubLines(kids, path));
    BlanksConcat(head, blank + SubLines(kids, path));
    LeadsInConcat(head, blank + SubLines(kids, path), now);
    OneBlank();
  }

  lemma BlockAmong(kids: seq<Member>)
    ensures HasBlock(kids) <==> exists i :: 0 <= i < |kids| && kids[i].value.Block?
  {
  }

  lemma OneBlank()
    ensures CountBlanks([Blank]) == 1 && CountBlanks([]) == 0
  {
    assert [Blank][..0] == [];
  }

  lemma HeadCurrent(kids: seq<Member>, path: Str, now: Str)
    ensures Current([Section(path)] + OwnLines(kids), now) == path
  {
    OwnAreRead(kids, path);
    CurrentConcat([Section(path)], OwnLines(kids), now);
    ReadOne(Section(path), now);
  }

  lemma BlankBeforeSub(kids: seq<Member>, path: Str)
    requires path != [] && BlocksNamed(kids) && BlanksLeadIn(SubLines(kids, path), path)
    ensures BlanksLeadIn((if HasBlock(kids) then [Blank] else []) + SubLines(kids, path), path)
  {
    hide SubLines, HasBlock, LeadsIn, Current, BlocksNamed;
    var sub := SubLines(kids, path);
    if HasBlock(kids) {
      SubStarts(kids, path);
      var lines := [Blank] + sub;
      forall i | 0 <= i < |lines| && lines[i].Blank?
        ensures LeadsIn(lines, path, i)
      {
        if i == 0 {
          BlankLeadsIn(lines, path);
        } else {
          LaterLeadsIn(sub, path, i - 1);
        }
      }
    } else {
      assert [] + sub == sub;
    }
  }

  lemma BlankLeadsIn(lines: seq<Line>, path: Str)
    requires |lines| > 1 && lines[0].Blank? && lines[1].Section? && path != []
    requires exists key: Str :: key != [] && lines[1].path == Join(path, key)
    ensures LeadsIn(lines, path, 0)
  {
    assert lines[..0] == [];
  }

  lemma LaterLeadsIn(sub: seq<Line>, path: Str, i: nat)
    requires i < |sub| && LeadsIn(sub, path, i)
    ensures LeadsIn([Blank] + sub, path, i + 1)
  {
    var lines := [Blank] + sub;
    assert lines[..i + 1] == [Blank] + sub[..i];
    CurrentConcat([Blank], sub[..i], path);
    ReadOne(Blank, path);
  }

  /**
   * Empty lines, for documents whose blocks all have keys: as many as blocks below the root have blocks in them, each right
   * before the header of a block directly in the one whose section is in force.
   */
  lemma RootBlanks(doc: seq<Member>)
    requires BlocksNamed(doc)
    ensures CountBlanks(RootLines(doc)) == Branchings(doc) && BlanksLeadIn(RootLines(doc), [])
  {
    hide OwnLines, SubLines, BlocksNamed, Branchings, LeadsIn, Current;
    OwnNotBlank(doc);
    NoBlanks(OwnLines(doc), []);
    SubBlanks(doc, [], Current(OwnLines(doc), []));
    BlanksConcat(OwnLines(doc), SubLines(doc, []));
    LeadsInConcat(OwnLines(doc), SubLines(doc, []), []);
  }

  /** Members in strict key order, all the way down: distinct keys, sorted. */
  ghost predicate KeysAscend(ms: seq<Member>)
    decreases ms
  {
    && (forall i, j :: 0 <= i < j < |ms| ==> Before(ms[i].key, ms[j].key))
    && (forall i :: 0 <= i < |ms| && ms[i].value.Block? ==> KeysAscend(ms[i].value.kids))
  }

  /** With sorted distinct keys the block with the empty key comes before its siblings, so nothing can be misplaced. */
  lemma {:induction false} SortedIsPlaced(ms: seq<Member>, section: Str, seen: bool)
    requires KeysAscend(ms) && (section == [] ==> !seen)
    ensures SubPlaced(ms, section, seen)
    decreases ms
  {
    if ms != [] {
      var n := |ms| - 1;
      SortedIsPlaced(ms[..n], section, seen);
      if ms[n].value.Block? {
        assert n > 0 ==> Before(ms[0].key, ms[n].key);
        var path := Join(section, ms[n].key);
        SortedIsPlaced(ms[n].value.kids, path, seen || SubHeaded(ms[..n], section) || path != []);
      }
    }
  }

  /** The lines of one member on its own. */
  lemma OneMember(m: Member, section: Str)
    ensures OwnLines([m]) == MemberLines(m) && OwnLeaves(section, [m]) == MemberLeaves(section, m)
    ensures m.value.Block? ==> SubLines([m], section) == BlockLines(m.value.kids, Join(section, m.key))
    ensures m.value.Block? ==> SubLeaves([m], section) == BlockLeaves(m.value.kids, Join(section, m.key))
    ensures !m.value.Block? ==> SubLines([m], section) == [] && SubLeaves([m], section) == []
  {
    assert [m][..0] == [];
    assert [] + MemberLines(m) == MemberLines(m) && [] + MemberLeaves(section, m) == MemberLeaves(section, m);
  }

  lemma EmptyBlockLines(section: Str)
    requires section != []
    ensures BlockLines([], section) == [Section(section)]
  {
    assert !HasBlock([]);
    assert BlockLines([], section) == HeaderLines(section) + OwnLines([]) + ([] + SubLines([], section));
  }

  lemma LeafBlockLines(m: Member)
    requires !m.value.IsContainer()
    ensures BlockLines([m], []) == [Setting(m.key, m.value)] && BlockLeaves([m], []) == [Leaf([], m.key, m.value, false)]
  {
    OneMember(m, []);
    assert !HasBlock([m]);
    assert BlockLines([m], []) == HeaderLines([]) + OwnLines([m]) + ([] + SubLines([m], []));
  }

  /** A block "b" that is empty, then a block with the empty key and the leaf "x" in it. */
  function Misplaced(): (doc: seq<Member>) {
    [Member([0x62], Block([])), Member([], Block([Member([0x78], Null)]))]
  }

  /** Unsorted, a block with the empty key may come late; its leaf is then read under its neighbour's section. */
  lemma MisplacedLeaf()
    ensures var doc := Misplaced();
      && !SubPlaced(doc, [], false)
      && ReadLines(RootLines(doc), []) == [Leaf([0x62], [0x78], Null, false)]
      && OwnLeaves([], doc) + SubLeaves(doc, []) == [Leaf([], [0x78], Null, false)]
  {
    hide BlockLines, BlockLeaves, SubPlaced, ReadLines, MemberLines, MemberLeaves;
    var first, inner := Member([0x62], Block([])), Member([0x78], Null);
    var second := Member([], Block([inner]));
    var doc := Misplaced();
    var header, setting := Section([0x62]), Setting([0x78], Null);
    assert doc[..1] == [first];
    OneMember(first, []);
    EmptyBlockLines([0x62]);
    LeafBlockLines(inner);
    NoOwn(first);
    NoOwn(second);
    NamelessEmpty();
    assert Join([], [0x62]) == [0x62] && Join([], []) == [];
    assert OwnLines(doc) == [] && SubLines(doc, []) == [header] + [setting];
    assert RootLines(doc) == [header] + [setting];
    assert OwnLeaves([], doc) == [] && SubLeaves(doc, []) == [] + [Leaf([], [0x78], Null, false)];
    ReadOne(header, []);
    ReadOne(setting, [0x62]);
    ReadConcat([header], [setting], []);
    RootAttribution(doc);
    var read, meant := ReadLines(RootLines(doc), []), OwnLeaves([], doc) + SubLeaves(doc, []);
    assert read[0].section == [0x62] && meant[0].section == [];
  }

  lemma NoOwn(m: Member)
    requires m.value.Block?
    ensures MemberLines(m) == [] && MemberLeaves([], m) == []
  {
  }

  lemma NamelessEmpty()
    ensures BlockLeaves([], [0x62]) == []
  {
  }
}
