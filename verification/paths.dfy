/** Path resolution: what a path spells, and that resolving it walks the tree. */
module Paths {
  import opened Bytes
  import opened Canonical
  import opened Document
  import opened Find
  import opened Format
  import opened Options
  import opened PoolLayout
  import opened ReadBack
  import opened StableSort
  import E = Encode
  import L = Layout
  import R = Reader
  import RT = RoundTrip

  const DOT: byte := 0x2E
  const OPEN: byte := 0x5B
  const CLOSE: byte := 0x5D
  const QUOTE: byte := 0x27
  const DOUBLE_QUOTE: byte := 0x22
  const ZERO: byte := 0x30

  datatype Step = Key(key: Str) | Index(index: nat)

  // ----- what a path spells -----

  /** The first place from `from` on that holds `b`, or the end. */
  function PlaceOf(path: seq<byte>, from: nat, b: byte): (p: nat)
    requires from <= |path|
    ensures from <= p <= |path|
    ensures p < |path| ==> path[p] == b
    ensures forall i :: from <= i < p ==> path[i] != b
    decreases |path| - from
  {
    if from == |path| || path[from] == b then from else PlaceOf(path, from + 1, b)
  }

  /** Where an unquoted segment ends. */
  function PlainEnd(path: seq<byte>, from: nat): (p: nat)
    requires from <= |path|
    ensures from <= p <= |path|
    decreases |path| - from
  {
    if from == |path| || path[from] == DOT || path[from] == OPEN then from else PlainEnd(path, from + 1)
  }

  function NumberOf(digits: seq<byte>): (n: Option<nat>) {
    if digits == [] then Some(0)
    else
      var last := digits[|digits| - 1];
      match NumberOf(digits[..|digits| - 1])
      case None => None
      case Some(n) => if ZERO <= last < ZERO + 10 then Some(n * 10 + (last - ZERO)) else None
  }

  /** One to ten digits, at most 2^32 - 1. */
  function IndexOf(digits: seq<byte>): (n: Option<nat>) {
    if |digits| == 0 || |digits| > 10 || NumberOf(digits).None? || NumberOf(digits).value >= TWO_32 then None
    else NumberOf(digits)
  }

  datatype Segment = Segment(step: Step, next: nat)

  function IndexAt(path: seq<byte>, cursor: nat): (s: Option<Segment>)
    requires cursor < |path|
    ensures s.Some? ==> cursor < s.value.next <= |path|
  {
    var close := PlaceOf(path, cursor + 1, CLOSE);
    if close == |path| || IndexOf(path[cursor + 1..close]).None? then None
    else Some(Segment(Index(IndexOf(path[cursor + 1..close]).value), close + 1))
  }

  function KeyAt(path: seq<byte>, cursor: nat): (s: Option<Segment>)
    requires cursor < |path|
    ensures s.Some? ==> cursor < s.value.next <= |path|
  {
    if path[cursor] == QUOTE || path[cursor] == DOUBLE_QUOTE then
      var close := PlaceOf(path, cursor + 1, path[cursor]);
      if close == |path| || close == cursor + 1 then None
      else Some(Segment(Key(path[cursor + 1..close]), close + 1))
    else
      var end := PlainEnd(path, cursor);
      if end == cursor then None else Some(Segment(Key(path[cursor..end]), end))
  }

  function SegmentAt(path: seq<byte>, cursor: nat): (s: Option<Segment>)
    requires cursor < |path|
    ensures s.Some? ==> cursor < s.value.next <= |path|
  {
    if path[cursor] == OPEN then IndexAt(path, cursor) else KeyAt(path, cursor)
  }

  /** The steps a path spells from `cursor` on; dots only separate. */
  function Steps(path: seq<byte>, cursor: nat): (ss: Option<seq<Step>>)
    requires cursor <= |path|
    decreases |path| - cursor
  {
    if cursor == |path| then Some([])
    else if path[cursor] == DOT then Steps(path, cursor + 1)
    else
      match SegmentAt(path, cursor)
      case None => None
      case Some(segment) =>
        match Steps(path, segment.next)
        case None => None
        case Some(rest) => Some([segment.step] + rest)
  }

  // ----- following steps in a buffer -----

  /** One step from `place`, which is nowhere before the first key. */
  function Follow(r: R.Handle, hash: Hash64, place: Option<nat>, step: Step): (o: Option<nat>) {
    match (place, step)
    case (None, Key(key)) => R.FindRoot(r, hash, key)
    case (None, Index(_)) => None
    case (Some(offset), Key(key)) => R.BlockFind(r, hash, offset, key)
    case (Some(offset), Index(index)) => R.ArrayAt(r, offset, index)
  }

  function FollowAll(r: R.Handle, hash: Hash64, place: Option<nat>, steps: seq<Step>): (o: Option<nat>)
    decreases |steps|
  {
    if steps == [] then place
    else
      match Follow(r, hash, place, steps[0])
      case None => None
      case Some(offset) => FollowAll(r, hash, Some(offset), steps[1..])
  }

  function Resolve(r: R.Handle, hash: Hash64, place: Option<nat>, path: seq<byte>, cursor: nat): (o: Option<nat>)
    requires cursor <= |path|
  {
    match Steps(path, cursor)
    case None => None
    case Some(steps) => FollowAll(r, hash, place, steps)
  }

  // ----- the loops -----

  method FindByte(path: seq<byte>, from: nat, b: byte) returns (p: nat)
    requires from <= |path|
    ensures p == PlaceOf(path, from, b)
  {
    p := from;
    while p < |path| && path[p] != b
      invariant from <= p <= |path| && PlaceOf(path, from, b) == PlaceOf(path, p, b)
    {
      p := p + 1;
    }
  }

  method FindPlainEnd(path: seq<byte>, from: nat) returns (p: nat)
    requires from <= |path|
    ensures p == PlainEnd(path, from)
  {
    p := from;
    while p < |path| && path[p] != DOT && path[p] != OPEN
      invariant from <= p <= |path| && PlainEnd(path, from) == PlainEnd(path, p)
    {
      p := p + 1;
    }
  }

  method ReadIndex(digits: seq<byte>) returns (n: Option<nat>)
    ensures n == IndexOf(digits)
  {
    if |digits| == 0 || |digits| > 10 {
      return None;
    }
    var index: nat := 0;
    for i := 0 to |digits|
      invariant NumberOf(digits[..i]) == Some(index)
    {
      assert digits[..i + 1][..i] == digits[..i];
      if digits[i] < ZERO || digits[i] >= ZERO + 10 {
        NumberFails(digits, i + 1);
        return None;
      }
      index := index * 10 + (digits[i] - ZERO);
    }
    assert digits[..|digits|] == digits;
    n := if index >= TWO_32 then None else Some(index);
  }

  lemma {:induction false} NumberFails(digits: seq<byte>, k: nat)
    requires k <= |digits| && NumberOf(digits[..k]).None?
    ensures NumberOf(digits).None?
    decreases |digits|
  {
    if k < |digits| {
      var init := digits[..|digits| - 1];
      assert init[..k] == digits[..k];
      NumberFails(init, k);
    } else {
      assert digits[..k] == digits;
    }
  }

  method ReadSegment(path: seq<byte>, cursor: nat) returns (s: Option<Segment>)
    requires cursor < |path|
    ensures s == SegmentAt(path, cursor)
  {
    if path[cursor] == OPEN {
      var close := FindByte(path, cursor + 1, CLOSE);
      if close >= |path| {
        return None;
      }
      var index := ReadIndex(path[cursor + 1..close]);
      if index.None? {
        return None;
      }
      return Some(Segment(Index(index.value), close + 1));
    }
    var start, end, next;
    if path[cursor] == QUOTE || path[cursor] == DOUBLE_QUOTE {
      start := cursor + 1;
      end := FindByte(path, start, path[cursor]);
      if end >= |path| {
        return None;
      }
      next := end + 1;
    } else {
      start := cursor;
      end := FindPlainEnd(path, cursor);
      next := end;
    }
    if end == start {
      return None;
    }
    s := Some(Segment(Key(path[start..end]), next));
  }

  /** Reads and follows the path step by step; the same as reading all of it first. */
  method ResolvePath(r: R.Handle, hash: Hash64, path: seq<byte>) returns (o: Option<nat>)
    ensures o == Resolve(r, hash, None, path, 0)
  {
    hide Follow, SegmentAt;
    o := None;
    var cursor := 0;
    while cursor < |path|
      invariant 0 <= cursor <= |path| && Resolve(r, hash, None, path, 0) == Resolve(r, hash, o, path, cursor)
      decreases |path| - cursor
    {
      if path[cursor] == DOT {
        cursor := cursor + 1;
        continue;
      }
      var segment := ReadSegment(path, cursor);
      if segment.None? {
        return None;
      }
      var next := Follow(r, hash, o, segment.value.step);
      StepFirst(r, hash, o, path, cursor, segment.value);
      if next.None? {
        return None;
      }
      o := next;
      cursor := segment.value.next;
    }
  }

  lemma StepFirst(r: R.Handle, hash: Hash64, place: Option<nat>, path: seq<byte>, cursor: nat, segment: Segment)
    requires cursor < |path| && path[cursor] != DOT && SegmentAt(path, cursor) == Some(segment)
    ensures Resolve(r, hash, place, path, cursor) ==
      match Follow(r, hash, place, segment.step) { case None => None case Some(offset) => Resolve(r, hash, Some(offset), path, segment.next) }
  {
    hide Follow, SegmentAt;
    if Steps(path, segment.next).Some? {
      var rest := Steps(path, segment.next).value;
      assert ([segment.step] + rest)[1..] == rest;
    }
  }

  // ----- walking the tree -----

  /** A value of the tree, and where in the nodes section it is emitted. */
  datatype Spot = Spot(value: Value, pos: nat)

  /** Child `i` of children emitted from `p` on. */
  function KidSpot(kids: seq<Member>, p: nat, i: nat): (s: Spot)
    requires i < |kids|
  {
    Spot(kids[i].value, L.KidPos(kids, i, p))
  }

  /** The first member with the key. */
  function IndexNamed(ms: seq<Member>, key: Str): (i: Option<nat>)
    ensures i.Some? ==> i.value < |ms| && ms[i.value].key == key
    ensures i.Some? <==> HasKey(ms, key)
  {
    if ms == [] then None
    else
      match IndexNamed(ms[..|ms| - 1], key)
      case Some(i) => (assert ms[i].key == key; Some(i))
      case None => if ms[|ms| - 1].key == key then Some(|ms| - 1) else None
  }

  function WalkOne(s: Spot, step: Step): (t: Option<Spot>) {
    match step
    case Key(key) =>
      if !s.value.Block? || IndexNamed(s.value.kids, key).None? then None
      else Some(KidSpot(s.value.kids, L.KidsStart(s.value, s.pos), IndexNamed(s.value.kids, key).value))
    case Index(index) =>
      if !s.value.Array? || index >= |s.value.kids| then None
      else Some(KidSpot(s.value.kids, L.KidsStart(s.value, s.pos), index))
  }

  function Walk(s: Spot, steps: seq<Step>): (t: Option<Spot>)
    decreases |steps|
  {
    if steps == [] then Some(s)
    else
      match WalkOne(s, steps[0])
      case None => None
      case Some(t) => Walk(t, steps[1..])
  }

  function WalkRoot(doc: seq<Member>, step: Step): (t: Option<Spot>) {
    if !step.Key? || IndexNamed(doc, step.key).None? then None else Some(KidSpot(doc, 0, IndexNamed(doc, step.key).value))
  }

  /** A walk through a document starts with a key. */
  function WalkDocument(doc: seq<Member>, steps: seq<Step>): (t: Option<Spot>) {
    if steps == [] then None
    else
      match WalkRoot(doc, steps[0])
      case None => None
      case Some(s) => Walk(s, steps[1..])
  }

  /** No two siblings share a key, all the way down. */
  ghost predicate DistinctSiblings(v: Value)
    decreases v, 0
  {
    match v
    case Array(kids) => AllDistinct(kids)
    case Block(kids) => DistinctKeys(kids) && AllDistinct(kids)
    case _ => true
  }

  ghost predicate AllDistinct(kids: seq<Member>)
    decreases kids, 0
  {
    forall i :: 0 <= i < |kids| ==> DistinctSiblings(kids[i].value)
  }

  lemma CanonHasKey(kids: seq<Member>, key: Str, hash: Hash64)
    ensures HasKey(SortMembers(CanonKids(kids, hash), hash), key) <==> HasKey(kids, key)
  {
    hide Canon, CanonKids, SortMembers;
    var ms, sorted := CanonKids(kids, hash), SortMembers(CanonKids(kids, hash), hash);
    if HasKey(kids, key) {
      var j :| 0 <= j < |kids| && kids[j].key == key;
      CanonKidAt(kids, hash, j);
      SortedMembers(ms, hash, ms[j]);
      var i :| 0 <= i < |sorted| && sorted[i] == ms[j];
      assert sorted[i].key == key;
    }
    if HasKey(sorted, key) {
      var i :| 0 <= i < |sorted| && sorted[i].key == key;
      var j := CanonSource(kids, hash, i);
      assert kids[j].key == key;
    }
  }

  // ----- following in a written file is walking -----

  /** `o` is the offset of the node emitted at the spot, a node this file has. */
  ghost predicate NodeOfSpot(r: R.Handle, c: L.Context, o: nat, s: Spot) {
    && o == c.base + L.KindPos(s.value, s.pos)
    && EmittedAt(r, c, s.value, s.pos)
    && L.Known(s.value, c.strings) && WellFormed(s.value) && DistinctSiblings(s.value)
  }

  /** Children emitted from `p` on, as `NodeOfSpot` wants them. */
  ghost predicate KidsThere(r: R.Handle, c: L.Context, kids: seq<Member>, keyed: bool, p: nat) {
    && p + L.KidsSize(kids, p) <= r.header.nodesSize && At(r.base, c.base + p, L.EmitKids(kids, p, c))
    && L.KidsKnown(kids, keyed, c.strings) && KidsWellFormed(kids) && AllDistinct(kids)
  }

  /** A found place that is the place of child `k` is a spot like its parent's. */
  lemma KidIsSpot(r: R.Handle, c: L.Context, kids: seq<Member>, keyed: bool, p: nat, k: nat, o: nat)
    requires KidsThere(r, c, kids, keyed, p) && k < |kids|
    requires o == c.base + L.KindPos(kids[k].value, L.KidPos(kids, k, p))
    ensures NodeOfSpot(r, c, o, KidSpot(kids, p, k))
  {
    hide L.KindPos, L.KidPos, L.EmitKids, L.KidsSize, EmittedAt, At, L.Known, L.KidsKnown, WellFormed, DistinctSiblings;
    KidThere(r, c, kids, p, k);
    KidKnown(kids, keyed, c.strings, k);
    assert WellFormed(kids[k].value) && DistinctSiblings(kids[k].value);
  }

  /** What is found by key in the sorted table of such children is the place of the child with the key. */
  lemma FoundIsSpot(r: R.Handle, c: L.Context, items: nat, kids: seq<Member>, p: nat, key: Str, found: Option<nat>)
    requires FileOf(r, c) && DistinctKeys(kids) && KidsThere(r, c, kids, true, p) && AllShortKeys(kids)
    requires At(r.base, items, L.EntriesBytes(StableSorted(L.Pending(kids, p, c)), c.delta))
    requires found.Some? <==> HasKey(SortMembers(CanonKids(kids, c.hash), c.hash), key)
    requires found.Some? ==> FoundAt(r, c.hash, items, SortMembers(CanonKids(kids, c.hash), c.hash), key, found.value)
    ensures found.Some? <==> IndexNamed(kids, key).Some?
    ensures found.Some? ==> NodeOfSpot(r, c, found.value, KidSpot(kids, p, IndexNamed(kids, key).value))
  {
    hide Holds, SortMembers, CanonKids, IndexNamed, KidsThere, L.EntriesBytes, L.EntryBytes, L.KindPos, L.KidPos, StableSorted, At,
         R.ReadEntry, NodeOfSpot, HasKey, OffsetOf;
    CanonHasKey(kids, key, c.hash);
    if found.Some? {
      var sorted := SortMembers(CanonKids(kids, c.hash), c.hash);
      var i: nat :| FoundByEntry(r, c.hash, items, sorted, key, found.value, i);
      var k := SortedTogether(kids, p, c, i);
      KidValueFits(r, c, kids, true, p, k);
      EntryThere(r.base, items, StableSorted(L.Pending(kids, p, c)), c.delta, i);
      EntryReads(r, items + i * ENTRY_SIZE, L.EntryFor(kids[k], L.KidPos(kids, k, p), c), c.delta);
      var j := IndexNamed(kids, key).value;
      assert kids[k].key == key == kids[j].key;
      assert k == j;
      KidIsSpot(r, c, kids, true, p, k, found.value);
    }
  }

  lemma KidValueFits(r: R.Handle, c: L.Context, kids: seq<Member>, keyed: bool, p: nat, k: nat)
    requires FileOf(r, c) && KidsThere(r, c, kids, keyed, p) && k < |kids|
    ensures c.base + L.KindPos(kids[k].value, L.KidPos(kids, k, p)) < TWO_64
  {
    hide L.KindPos, L.KidPos, L.KidsSize, L.EmitKids, At;
    L.KidInside(kids, p, k);
  }

  lemma LegibleKeys(r: R.Handle, c: L.Context, kids: seq<Member>)
    requires LegibleFile(r, c) && L.KidsKnown(kids, true, c.strings)
    ensures AllShortKeys(kids)
  {
    hide L.KidsKnown, StoredOffset;
    forall i | 0 <= i < |kids|
      ensures |kids[i].key| < TWO_32
    {
      KeyKnown(kids, c.strings, i);
      assert Readable(r.base, c, kids[i].key);
    }
  }

  /** A container's children are there as their parent is. */
  lemma SpotHasKids(r: R.Handle, c: L.Context, o: nat, s: Spot)
    requires LegibleFile(r, c) && NodeOfSpot(r, c, o, s) && s.value.IsContainer()
    ensures KidsThere(r, c, s.value.kids, s.value.Block?, L.KidsStart(s.value, s.pos))
    ensures s.value.Block? ==> DistinctKeys(s.value.kids) && AllShortKeys(s.value.kids)
    ensures R.ContainerBody(r, o, L.KindByte(s.value), L.ItemSize(s.value)) == Some(R.Body(|s.value.kids|, o + 9))
    ensures At(r.base, o + 9, L.Table(s.value, L.KidsStart(s.value, s.pos), c))
  {
    hide L.KindPos, EmittedAt, L.KidsStart, L.Table, L.EmitKids, At, R.ContainerBody, R.KindAt, AllShortKeys, LegibleFile, FileOf,
         L.KidsSize, L.KindByte;
    LegibleIsFile(r, c);
    ContainerThere(r, c, s.value, s.pos);
    if s.value.Block? {
      LegibleKeys(r, c, s.value.kids);
    }
  }

  lemma FollowWalksKey(r: R.Handle, c: L.Context, o: nat, s: Spot, key: Str)
    requires LegibleFile(r, c) && NodeOfSpot(r, c, o, s)
    ensures var found := R.BlockFind(r, c.hash, o, key);
      && (found.Some? <==> WalkOne(s, Key(key)).Some?)
      && (found.Some? ==> NodeOfSpot(r, c, found.value, WalkOne(s, Key(key)).value))
  {
    hide Holds, SortMembers, CanonKids, R.FindIn, FoundAt, HasKey, IndexNamed, L.KindPos, L.KidsStart, KidsThere, AllShortKeys, At,
         R.ContainerBody, L.EntriesBytes, L.Pending, StableSorted, EmittedAt, KidSpot, LegibleFile, FileOf, DistinctKeys;
    LegibleIsFile(r, c);
    NodeReads(r, c, s.value, s.pos);
    CanonOrdered(s.value, c.hash);
    BlockFinds(r, c.hash, o, Canon(s.value, c.hash), key);
    if s.value.Block? {
      SpotHasKids(r, c, o, s);
      FoundIsSpot(r, c, o + 9, s.value.kids, L.KidsStart(s.value, s.pos), key, R.BlockFind(r, c.hash, o, key));
    }
  }

  lemma FollowWalksIndex(r: R.Handle, c: L.Context, o: nat, s: Spot, index: nat)
    requires LegibleFile(r, c) && NodeOfSpot(r, c, o, s)
    ensures var found := R.ArrayAt(r, o, index);
      && (found.Some? <==> WalkOne(s, Index(index)).Some?)
      && (found.Some? ==> NodeOfSpot(r, c, found.value, WalkOne(s, Index(index)).value))
  {
    hide Holds, CanonKids, L.KindPos, L.KidsStart, L.KidPos, At, R.ContainerBody, L.ElementBytes, EmittedAt, LegibleFile, FileOf, KidsThere,
         R.KindAt, Load64, LE;
    LegibleIsFile(r, c);
    NodeReads(r, c, s.value, s.pos);
    ArrayIndexes(r, c.hash, o, Canon(s.value, c.hash), index);
    if s.value.Array? && index < |s.value.kids| {
      var kids, q := s.value.kids, L.KidsStart(s.value, s.pos);
      SpotHasKids(r, c, o, s);
      KidValueFits(r, c, kids, false, q, index);
      ElementThere(r.base, o + 9, kids, q, c, index);
      AtLoad64(r.base, o + 9 + index * ELEMENT_SIZE, c.base + L.KindPos(kids[index].value, L.KidPos(kids, index, q)));
      KidIsSpot(r, c, kids, false, q, index, R.ArrayAt(r, o, index).value);
    }
  }

  lemma FollowWalksOne(r: R.Handle, c: L.Context, o: nat, s: Spot, step: Step)
    requires LegibleFile(r, c) && NodeOfSpot(r, c, o, s)
    ensures Follow(r, c.hash, Some(o), step).Some? <==> WalkOne(s, step).Some?
    ensures Follow(r, c.hash, Some(o), step).Some? ==> NodeOfSpot(r, c, Follow(r, c.hash, Some(o), step).value, WalkOne(s, step).value)
  {
    hide NodeOfSpot, WalkOne, LegibleFile;
    match step
    case Key(key) => FollowWalksKey(r, c, o, s, key);
    case Index(index) => FollowWalksIndex(r, c, o, s, index);
  }

  lemma {:induction false} FollowWalks(r: R.Handle, c: L.Context, o: nat, s: Spot, steps: seq<Step>)
    requires LegibleFile(r, c) && NodeOfSpot(r, c, o, s)
    ensures FollowAll(r, c.hash, Some(o), steps).Some? <==> Walk(s, steps).Some?
    ensures FollowAll(r, c.hash, Some(o), steps).Some? ==>
      NodeOfSpot(r, c, FollowAll(r, c.hash, Some(o), steps).value, Walk(s, steps).value)
    decreases |steps|
  {
    hide NodeOfSpot, Follow, WalkOne, LegibleFile;
    if steps != [] {
      FollowWalksOne(r, c, o, s, steps[0]);
      if WalkOne(s, steps[0]).Some? {
        FollowWalks(r, c, Follow(r, c.hash, Some(o), steps[0]).value, WalkOne(s, steps[0]).value, steps[1..]);
      }
    }
  }

  // ----- rendering steps as a path -----

  function Decimal(n: nat): (digits: seq<byte>) {
    if n < 10 then [ZERO + n] else Decimal(n / 10) + [ZERO + n % 10]
  }

  function RenderStep(step: Step, quote: byte): (text: seq<byte>) {
    match step
    case Key(key) => [quote] + key + [quote]
    case Index(index) => [OPEN] + Decimal(index) + [CLOSE]
  }

  /** Quoted keys, dots between, and bracketed indices. */
  function Render(steps: seq<Step>, quote: byte): (path: seq<byte>) {
    if steps == [] then []
    else
      var n := |steps| - 1;
      var dot: seq<byte> := if n > 0 && steps[n].Key? then [DOT] else [];
      Render(steps[..n], quote) + (dot + RenderStep(steps[n], quote))
  }

  /** What can be rendered: keys that are not empty and lack the quote, indices of 32 bits. */
  predicate Renderable(step: Step, quote: byte) {
    match step
    case Key(key) => key != [] && quote !in key
    case Index(index) => index < TWO_32
  }

  ghost predicate AllRenderable(steps: seq<Step>, quote: byte) {
    forall i :: 0 <= i < |steps| ==> Renderable(steps[i], quote)
  }

  lemma {:induction false} NumberOfDecimal(n: nat)
    ensures NumberOf(Decimal(n)) == Some(n) && |Decimal(n)| >= 1
    ensures forall i :: 0 <= i < |Decimal(n)| ==> Decimal(n)[i] != CLOSE
  {
    assert NumberOf([]) == Some(0);
    if n < 10 {
      assert Decimal(n)[..0] == [];
    } else {
      NumberOfDecimal(n / 10);
      assert Decimal(n)[..|Decimal(n)| - 1] == Decimal(n / 10);
    }
  }

  lemma DecimalLength(n: nat)
    requires n < TWO_32
    ensures |Decimal(n)| <= 10
  {
    var a := n / 10 / 10 / 10 / 10 / 10 / 10 / 10 / 10 / 10;
    assert a < 10;
    DecimalStep(a, 1);
    DecimalStep(n / 10 / 10 / 10 / 10 / 10 / 10 / 10 / 10, 2);
    DecimalStep(n / 10 / 10 / 10 / 10 / 10 / 10 / 10, 3);
    DecimalStep(n / 10 / 10 / 10 / 10 / 10 / 10, 4);
    DecimalStep(n / 10 / 10 / 10 / 10 / 10, 5);
    DecimalStep(n / 10 / 10 / 10 / 10, 6);
    DecimalStep(n / 10 / 10 / 10, 7);
    DecimalStep(n / 10 / 10, 8);
    DecimalStep(n / 10, 9);
    DecimalStep(n, 10);
  }

  lemma DecimalStep(n: nat, k: nat)
    requires k >= 1 && (n >= 10 ==> |Decimal(n / 10)| <= k - 1)
    ensures |Decimal(n)| <= k
  {
  }

  lemma PlaceIs(path: seq<byte>, from: nat, b: byte, p: nat)
    requires from <= p < |path| && path[p] == b && forall i :: from <= i < p ==> path[i] != b
    ensures PlaceOf(path, from, b) == p
  {
  }

  /** A body between two marks is found again, if it lacks the closing one. */
  lemma Marked(path: seq<byte>, at: nat, first: byte, body: seq<byte>, last: byte)
    requires At(path, at, [first] + body + [last]) && last !in body
    ensures at + 1 + |body| < |path| && path[at] == first && path[at + 1..at + 1 + |body|] == body
    ensures PlaceOf(path, at + 1, last) == at + 1 + |body|
  {
    AtParts(path, at, [first], body, [last]);
    ByteAt(path, at, first);
    ByteAt(path, at + 1 + |body|, last);
    forall i | at + 1 <= i < at + 1 + |body|
      ensures path[i] != last
    {
      assert path[i] == path[at + 1..at + 1 + |body|][i - at - 1] == body[i - at - 1];
    }
    PlaceIs(path, at + 1, last, at + 1 + |body|);
  }

  /** A rendered step is read back where it stands. */
  lemma StepReads(path: seq<byte>, at: nat, step: Step, quote: byte)
    requires At(path, at, RenderStep(step, quote)) && Renderable(step, quote) && (quote == QUOTE || quote == DOUBLE_QUOTE)
    ensures at < |path| && path[at] != DOT && SegmentAt(path, at) == Some(Segment(step, at + |RenderStep(step, quote)|))
  {
    hide IndexOf, Decimal, At, PlaceOf;
    match step
    case Key(key) => Marked(path, at, quote, key, quote);
    case Index(index) =>
      NumberOfDecimal(index);
      DecimalIsIndex(index);
      Marked(path, at, OPEN, Decimal(index), CLOSE);
  }

  lemma DecimalIsIndex(index: nat)
    requires index < TWO_32
    ensures IndexOf(Decimal(index)) == Some(index)
  {
    NumberOfDecimal(index);
    DecimalLength(index);
  }

  lemma {:induction false} RenderParts(steps: seq<Step>, quote: byte, k: nat)
    requires k < |steps|
    ensures var dot: seq<byte> := if k > 0 && steps[k].Key? then [DOT] else [];
      && Render(steps[..k + 1], quote) == Render(steps[..k], quote) + (dot + RenderStep(steps[k], quote))
      && At(Render(steps, quote), |Render(steps[..k], quote)|, dot + RenderStep(steps[k], quote))
    decreases |steps|
  {
    hide RenderStep;
    var n := |steps| - 1;
    assert steps[..k + 1][..k] == steps[..k];
    if k == n {
      assert steps[..k + 1] == steps;
    } else {
      RenderParts(steps[..n], quote, k);
      assert steps[..n][..k] == steps[..k];
      var dot: seq<byte> := if n > 0 && steps[n].Key? then [DOT] else [];
      assert Render(steps, quote) == Render(steps[..n], quote) + (dot + RenderStep(steps[n], quote));
      AtLonger(Render(steps[..n], quote), dot + RenderStep(steps[n], quote), |Render(steps[..k], quote)|,
               (if k > 0 && steps[k].Key? then [DOT] else []) + RenderStep(steps[k], quote));
    }
  }

  lemma AtLonger(data: seq<byte>, more: seq<byte>, offset: int, piece: seq<byte>)
    requires At(data, offset, piece)
    ensures At(data + more, offset, piece)
  {
    assert (data + more)[offset..offset + |piece|] == data[offset..offset + |piece|];
  }

  /** A rendered path spells its steps. */
  lemma {:induction false} RenderedSpells(steps: seq<Step>, quote: byte, k: nat)
    requires AllRenderable(steps, quote) && (quote == QUOTE || quote == DOUBLE_QUOTE) && k <= |steps|
    ensures |Render(steps[..k], quote)| <= |Render(steps, quote)|
    ensures Steps(Render(steps, quote), |Render(steps[..k], quote)|) == Some(steps[k..])
    decreases |steps| - k
  {
    hide Render, RenderStep, SegmentAt;
    if k == |steps| {
      assert steps[..k] == steps && steps[k..] == [];
    } else {
      RenderedSpells(steps, quote, k + 1);
      RenderParts(steps, quote, k);
      var path, at := Render(steps, quote), |Render(steps[..k], quote)|;
      var dot: seq<byte> := if k > 0 && steps[k].Key? then [DOT] else [];
      AtDotted(path, at, dot, RenderStep(steps[k], quote));
      StepReads(path, at + |dot|, steps[k], quote);
      assert steps[k..] == [steps[k]] + steps[k + 1..];
    }
  }

  lemma AtDotted(path: seq<byte>, at: nat, dot: seq<byte>, text: seq<byte>)
    requires At(path, at, dot + text)
    ensures At(path, at, dot) && At(path, at + |dot|, text) && (dot != [] ==> path[at] == dot[0])
  {
    AtTwo(path, at, dot, text);
    assert dot != [] ==> path[at..at + |dot|][0] == path[at];
  }

  // ----- the result -----

  /** `o` is where the walk leads: the offset of the very node, which decodes to the value walked to; nowhere if the walk fails. */
  ghost predicate PathLeads(doc: seq<Member>, hash: Hash64, steps: seq<Step>, o: Option<nat>)
    requires R.Valid(RT.FileHandle(doc, hash))
  {
    var t := WalkDocument(doc, steps);
    && (o.Some? <==> t.Some?)
    && (o.Some? ==> o.value == E.NodesBase(doc) + L.KindPos(t.value.value, t.value.pos))
    && (o.Some? ==> RT.Decode(RT.FileHandle(doc, hash), o.value) == Some(Canon(t.value.value, hash)))
  }

  /** Following steps in a written file whose siblings have distinct keys is walking them in the tree. */
  lemma StepsLead(doc: seq<Member>, hash: Hash64, steps: seq<Step>)
    requires RT.Legible(doc, hash) && KidsWellFormed(doc) && DistinctSiblings(Block(doc))
    ensures R.Valid(RT.FileHandle(doc, hash))
    ensures PathLeads(doc, hash, steps, FollowAll(RT.FileHandle(doc, hash), hash, None, steps))
  {
    hide RT.FileHandle, E.FileContext, LegibleFile, E.File, KidsWellFormed, R.FindRoot, WalkRoot, Walk, RT.Decode, Canon,
         DistinctSiblings, Follow, NodeOfSpot, RT.Legible;
    var r, c := RT.FileHandle(doc, hash), E.FileContext(doc, hash);
    LegibleDocument(doc, hash);
    if steps != [] {
      FollowRoot(r, hash, doc, steps[0]);
      if steps[0].Key? {
        RootWalks(doc, hash, steps[0].key);
        var found := R.FindRoot(r, hash, steps[0].key);
        if found.Some? {
          var first := WalkRoot(doc, steps[0]).value;
          FollowWalks(r, c, found.value, first, steps[1..]);
          if Walk(first, steps[1..]).Some? {
            SpotDecodes(r, c, FollowAll(r, hash, found, steps[1..]).value, Walk(first, steps[1..]).value);
          }
        }
      }
    }
  }

  /**
   * Path resolution agrees with walking the tree: on a written file whose siblings have distinct keys, the rendered
   * path of any steps resolves exactly when the walk succeeds, to the offset of the very node the walk leads to; and
   * that node decodes to the value walked to.
   */
  lemma PathsResolve(doc: seq<Member>, hash: Hash64, steps: seq<Step>, quote: byte)
    requires RT.Legible(doc, hash) && KidsWellFormed(doc) && DistinctSiblings(Block(doc))
    requires AllRenderable(steps, quote) && (quote == QUOTE || quote == DOUBLE_QUOTE)
    ensures R.Valid(RT.FileHandle(doc, hash))
    ensures PathLeads(doc, hash, steps, Resolve(RT.FileHandle(doc, hash), hash, None, Render(steps, quote), 0))
  {
    hide Render, Steps, RT.FileHandle, FollowAll, PathLeads, KidsWellFormed, DistinctSiblings, RT.Legible, AllRenderable;
    StepsLead(doc, hash, steps);
    RenderedSpells(steps, quote, 0);
    assert steps[0..] == steps && Render(steps[..0], quote) == [] by { RenderNothing(steps, quote); }
  }

  lemma SpotDecodes(r: R.Handle, c: L.Context, o: nat, s: Spot)
    requires LegibleFile(r, c) && NodeOfSpot(r, c, o, s)
    ensures R.Valid(r) && RT.Decode(r, o) == Some(Canon(s.value, c.hash)) && o == c.base + L.KindPos(s.value, s.pos)
  {
    hide RT.Decode, Holds, L.KindPos, EmittedAt, DistinctSiblings;
    NodeReads(r, c, s.value, s.pos);
    RT.HoldsIsDecoded(r, c.hash, o, Canon(s.value, c.hash));
  }

  lemma LegibleDocument(doc: seq<Member>, hash: Hash64)
    requires RT.Legible(doc, hash)
    ensures var r, c := RT.FileHandle(doc, hash), E.FileContext(doc, hash);
      LegibleFile(r, c) && R.Valid(r) && c.base == E.NodesBase(doc) && c.hash == hash
  {
    hide E.File, E.FileHeader, E.Strings, L.EmitKids, L.EntriesBytes, L.KidsSize, L.Pending, StableSorted, At, AllReadable, R.Valid;
    RT.SectionsThere(doc, hash);
    LegibleIsFileOf(doc, hash);
  }

  lemma LegibleIsFileOf(doc: seq<Member>, hash: Hash64)
    requires RT.Legible(doc, hash) && FileOf(RT.FileHandle(doc, hash), E.FileContext(doc, hash))
    ensures LegibleFile(RT.FileHandle(doc, hash), E.FileContext(doc, hash)) && R.Valid(RT.FileHandle(doc, hash))
  {
  }

  lemma RenderNothing(steps: seq<Step>, quote: byte)
    ensures steps[0..] == steps && Render(steps[..0], quote) == []
  {
  }

  lemma FollowRoot(r: R.Handle, hash: Hash64, doc: seq<Member>, step: Step)
    ensures step.Key? ==> Follow(r, hash, None, step) == R.FindRoot(r, hash, step.key)
    ensures step.Index? ==> Follow(r, hash, None, step) == None && WalkRoot(doc, step) == None
  {
  }

  /** The first key is looked up among the roots. */
  lemma RootWalks(doc: seq<Member>, hash: Hash64, key: Str)
    requires RT.Legible(doc, hash) && KidsWellFormed(doc) && DistinctSiblings(Block(doc))
    ensures var r, c := RT.FileHandle(doc, hash), E.FileContext(doc, hash); var found := R.FindRoot(r, hash, key);
      && (found.Some? <==> WalkRoot(doc, Key(key)).Some?)
      && (found.Some? ==> NodeOfSpot(r, c, found.value, WalkRoot(doc, Key(key)).value))
  {
    hide E.File, E.Strings, E.FileHeader, TableHolds, SortMembers, CanonKids, LoadHeader, NodeOfSpot, IndexNamed, R.FindIn, HasKey, FoundAt,
         L.EntriesBytes, L.Pending, StableSorted, At, L.EmitKids, L.KidsSize, LegibleFile, L.KidsKnown, KidSpot, AllShortKeys, KidsWellFormed;
    var r, c := RT.FileHandle(doc, hash), E.FileContext(doc, hash);
    LegibleDocument(doc, hash);
    RT.SectionsThere(doc, hash);
    E.DocumentKnown(doc);
    LegibleKeys(r, c, doc);
    RootTable(doc, hash);
    RT.FileHolds(doc, hash);
    SortMembersSorted(CanonKids(doc, hash), hash);
    TableFinds(r, hash, HEADER_SIZE, 0, CanonDocument(doc, hash), key);
    assert KidsThere(r, c, doc, true, 0);
    FoundIsSpot(r, c, HEADER_SIZE, doc, 0, key, R.FindRoot(r, hash, key));
  }

  lemma RootTable(doc: seq<Member>, hash: Hash64)
    ensures RT.FileHandle(doc, hash).header.rootIndexOffset == HEADER_SIZE
    ensures E.FileSize(doc) < TWO_64 ==> RT.FileHandle(doc, hash).header.rootCount == |doc|
  {
    hide E.Strings, PoolBytes, L.KidsSize, E.Payload;
  }
}
