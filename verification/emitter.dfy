/** Node emission: each container reserves its table, emits its children behind it, then fills the table. */
module Emitter {
  import opened Bytes
  import opened Collector
  import opened Document
  import opened EncoderBuffer
  import opened EncoderSession
  import opened Format
  import opened PoolLayout
  import opened Sequences
  import opened StableSort
  import opened StringPool
  import opened WriterNode
  import E = Encode
  import L = Layout
  import PendingSort

  /** The step from `before` to `after` emitted exactly the layout of `v`, or failed as interning its empty keys does. */
  ghost predicate Emitted(r: Result<nat>, before: Product, after: Product, v: Value, base: nat, hash: Hash64) {
    match InternRun(before.strings, E.EmptyKeys(v))
    case Err(e) => r == Err(e)
    case Ok(strings) => r.Ok? && ValueEmitted(r.value, before, after, v, strings, base, hash)
  }

  ghost predicate ValueEmitted(offset: nat, before: Product, after: Product, v: Value, strings: seq<Str>, base: nat, hash: Hash64) {
    var p := |before.bytes|;
    && offset == base + L.KindPos(v, p)
    && L.Known(v, strings)
    && after == Product(before.bytes + L.Emit(v, p, L.Context(base, strings, 0, hash)), strings, before.fixups + L.Fixups(v, p))
  }

  /** The same for one child: in a block its key is looked up or interned first. */
  ghost predicate MemberEmitted(r: Result<L.Entry>, before: Product, after: Product, m: Member, keyed: bool, base: nat, hash: Hash64) {
    match InternRun(before.strings, E.EmptyKeysOfMember(m, keyed))
    case Err(e) => r == Err(e)
    case Ok(strings) =>
      && r.Ok?
      && ValueEmitted(r.value.item.valueOffset, before, after, m.value, strings, base, hash)
      && (keyed ==> m.key in strings && r.value == L.EntryFor(m, |before.bytes|, L.Context(base, strings, 0, hash)))
  }

  /** The same for a chain of siblings. */
  ghost predicate KidsEmitted(r: Result<()>, before: Product, after: Product, kids: seq<Member>, keyed: bool, base: nat, hash: Hash64) {
    match InternRun(before.strings, E.EmptyKeysOf(kids, keyed))
    case Err(e) => r == Err(e)
    case Ok(strings) => r.Ok? && ChainEmitted(before, after, kids, keyed, strings, base, hash)
  }

  ghost predicate ChainEmitted(before: Product, after: Product, kids: seq<Member>, keyed: bool, strings: seq<Str>, base: nat, hash: Hash64) {
    var p := |before.bytes|;
    && L.KidsKnown(kids, keyed, strings)
    && after == Product(before.bytes + L.EmitKids(kids, p, L.Context(base, strings, 0, hash)), strings,
                        before.fixups + L.KidsFixups(kids, p))
  }

  // ----- putting steps together -----

  lemma NothingEmitted(p: Product, keyed: bool, base: nat, hash: Hash64)
    ensures KidsEmitted(Ok(()), p, p, [], keyed, base, hash)
  {
    assert L.EmitKids([], |p.bytes|, L.Context(base, p.strings, 0, hash)) == [];
    assert L.KidsFixups([], |p.bytes|) == [];
  }

  function Unit<T>(r: Result<T>): (u: Result<()>) {
    match r
    case Ok(_) => Ok(())
    case Err(e) => Err(e)
  }

  /** One more sibling. */
  lemma ChainGrows(r: Result<L.Entry>, before: Product, mid: Product, after: Product, kids: seq<Member>, i: nat, keyed: bool, base: nat, hash: Hash64)
    requires i < |kids| && KidsEmitted(Ok(()), before, mid, kids[..i], keyed, base, hash)
    requires MemberEmitted(r, mid, after, kids[i], keyed, base, hash)
    ensures KidsEmitted(Unit(r), before, after, kids[..i + 1], keyed, base, hash)
    ensures r.Ok? ==> mid.strings <= after.strings && |mid.bytes| == L.KidPos(kids, i, |before.bytes|)
  {
    hide ChainEmitted, ValueEmitted, L.EntryFor, E.EmptyKeysOfMember, E.EmptyKeysOf, InternRun, L.KidPos;
    EmptyKeysSnoc(kids, i, keyed);
    RunConcat(before.strings, E.EmptyKeysOf(kids[..i], keyed), E.EmptyKeysOfMember(kids[i], keyed));
    assert InternRun(before.strings, E.EmptyKeysOf(kids[..i], keyed)) == Ok(mid.strings) by {
      RunIs(before, mid, kids[..i], keyed, base, hash);
    }
    if r.Ok? {
      RunExtends(mid.strings, E.EmptyKeysOfMember(kids[i], keyed));
      var strings := InternRun(mid.strings, E.EmptyKeysOfMember(kids[i], keyed)).value;
      ChainJoins(r.value.item.valueOffset, before, mid, after, kids, i, keyed, strings, base, hash);
    }
  }

  lemma EmptyKeysSnoc(kids: seq<Member>, i: nat, keyed: bool)
    requires i < |kids|
    ensures E.EmptyKeysOf(kids[..i + 1], keyed) == E.EmptyKeysOf(kids[..i], keyed) + E.EmptyKeysOfMember(kids[i], keyed)
  {
    assert kids[..i + 1][..i] == kids[..i];
  }

  lemma RunIs(before: Product, after: Product, kids: seq<Member>, keyed: bool, base: nat, hash: Hash64)
    requires KidsEmitted(Ok(()), before, after, kids, keyed, base, hash)
    ensures InternRun(before.strings, E.EmptyKeysOf(kids, keyed)) == Ok(after.strings)
    ensures ChainEmitted(before, after, kids, keyed, after.strings, base, hash)
  {
  }

  lemma ChainJoins(offset: nat, before: Product, mid: Product, after: Product, kids: seq<Member>, i: nat, keyed: bool, strings: seq<Str>,
                   base: nat, hash: Hash64)
    requires i < |kids| && ChainEmitted(before, mid, kids[..i], keyed, mid.strings, base, hash)
    requires ValueEmitted(offset, mid, after, kids[i].value, strings, base, hash)
    requires mid.strings <= strings && (keyed ==> kids[i].key in strings)
    ensures ChainEmitted(before, after, kids[..i + 1], keyed, strings, base, hash)
    ensures after.strings == strings && |mid.bytes| == L.KidPos(kids, i, |before.bytes|)
  {
    hide L.Emit, L.KindPos, L.Fixups, L.Known, L.Size;
    var p, c, c' := |before.bytes|, L.Context(base, mid.strings, 0, hash), L.Context(base, strings, 0, hash);
    assert kids[..i + 1][..i] == kids[..i];
    L.EmitKidsStable(kids[..i], keyed, p, c, c');
    L.EmitKidsSize(kids[..i], p, c);
    L.KidsKnownLonger(kids[..i], keyed, mid.strings, strings);
    assert L.KidPos(kids[..i + 1], i, p) == |mid.bytes|;
  }

  // ----- scalars -----

  /** The padding and the kind byte in front of a body. */
  method EmitLead(s: Session, v: Value)
    requires s.Valid()
    modifies s.Repr
    ensures s.Valid() && fresh(s.Repr - old(s.Repr))
    ensures s.Made() == old(s.Made()).(bytes := old(s.Made()).bytes + L.Lead(v, |old(s.Made()).bytes|))
  {
    hide Session.Valid, Session.Made, L.KindPos, L.KindByte;
    ghost var before := s.Made();
    var kindOffset := L.KindPos(v, s.Size());
    if kindOffset > s.Size() {
      s.AppendZero(kindOffset - s.Size());
    }
    s.Append([L.KindByte(v)]);
    assert s.Made().bytes == before.bytes + L.Lead(v, |before.bytes|);
  }

  /** The pool offset of a string value: cached by the collecting pass, or interned now. */
  method StringOffset(s: Session, node: Node) returns (r: Result<u32>)
    requires s.Valid() && node.content.String? && node !in s.Repr
    requires node.cachedStringOffset != OFFSET_NONE ==> CachedAs(s.Made().strings, node.content.s, node.cachedStringOffset)
    modifies s.Repr
    ensures s.Valid() && fresh(s.Repr - old(s.Repr))
    ensures r.Err? ==> node.cachedStringOffset == OFFSET_NONE
    ensures r.Ok? ==> s.Made() == old(s.Made()).(strings := Interned(old(s.Made()).strings, node.content.s))
    ensures r.Ok? ==> r.value == OffsetOf(s.Made().strings, node.content.s)
  {
    hide Session.Valid, Session.Made, OffsetOf, PoolBytes, Outcome;
    if node.cachedStringOffset != OFFSET_NONE {
      return Ok(node.cachedStringOffset);
    }
    r := s.Intern(node.content.s, s.pool.hash(node.content.s));
  }

  method EmitScalar(s: Session, base: nat, node: Node) returns (r: Result<nat>)
    requires s.Valid() && !node.content.IsContainer() && node !in s.Repr
    requires node.content.String? && node.cachedStringOffset != OFFSET_NONE ==>
      CachedAs(s.Made().strings, node.content.s, node.cachedStringOffset)
    modifies s.Repr
    ensures s.Valid() && fresh(s.Repr - old(s.Repr))
    ensures r.Err? ==> node.content.String? && node.cachedStringOffset == OFFSET_NONE
    ensures r.Ok? ==> ScalarEmitted(r.value, old(s.Made()), s.Made(), node.content, base, s.pool.hash)
  {
    hide Session.Valid, Session.Made, L.KindPos, L.KindByte, OffsetOf, PoolBytes, Interned, L.Lead, CachedAs;
    ghost var before := s.Made();
    var v, p := node.content, s.Size();
    EmitLead(s, v);
    match v {
      case Null =>
      case Bool(_) =>
      case Int64(i) => s.Append(LE(L.Bits64(i), 8));
      case UInt64(u) => s.Append(LE(u, 8));
      case Float64(bits) => s.Append(LE(bits, 8));
      case String(text) =>
        var offset := StringOffset(s, node);
        if offset.Err? {
          return Err(offset.error);
        }
        var at := s.Size();
        s.Append(LE(offset.value, 4) + LE(|text|, 4));
        s.RecordFixup(at);
    }
    r := Ok(base + L.KindPos(v, p));
    ScalarDone(before, s.Made(), v, base, s.pool.hash);
  }

  /** A scalar has been emitted; a string may have been interned on the way. */
  ghost predicate ScalarEmitted(offset: nat, before: Product, after: Product, v: Value, base: nat, hash: Hash64)
    requires !v.IsContainer()
  {
    var p := |before.bytes|;
    && offset == base + L.KindPos(v, p)
    && after == Product(before.bytes + L.EmitScalar(v, p, L.Context(base, after.strings, 0, hash)),
                        if v.String? then Interned(before.strings, v.s) else before.strings,
                        before.fixups + L.ScalarFixups(v, p))
  }

  lemma ScalarDone(before: Product, after: Product, v: Value, base: nat, hash: Hash64)
    requires !v.IsContainer()
    requires after.strings == if v.String? then Interned(before.strings, v.s) else before.strings
    requires after.bytes == (before.bytes + L.Lead(v, |before.bytes|)) + L.ScalarBody(v, L.Context(base, after.strings, 0, hash))
    requires after.fixups == if v.String? then before.fixups + [L.KindPos(v, |before.bytes|) + 1] else before.fixups
    ensures ScalarEmitted(base + L.KindPos(v, |before.bytes|), before, after, v, base, hash)
  {
    hide L.KindPos, L.Lead, L.ScalarBody, Interned;
  }

  // ----- children -----

  /** What an entry is made of, the value offset aside: a key's cached offset, or that of the empty key, interned now. */
  method MemberKey(s: Session, node: Node, ghost m: Member) returns (r: Result<L.Entry>)
    requires s.Valid() && node !in s.Repr && node.KeyBytes() == m.key && Cached(node, s.Made().strings)
    requires node.key.Some? ==> node.key.value != [] && node.keyHash == s.pool.hash(node.key.value)
    modifies s.Repr
    ensures s.Valid() && fresh(s.Repr - old(s.Repr))
    ensures IsRun(Unit(r), old(s.Made()), s.Made(), if m.key == [] then [[]] else [])
    ensures r.Ok? ==> m.key in s.Made().strings
    ensures r.Ok? ==> r.value == Keyed(s.pool.hash(m.key), L.EntryBody(OffsetOf(s.Made().strings, m.key), |m.key|, 0))
  {
    hide Session.Valid, Session.Made, OffsetOf, PoolBytes, Outcome, Interned;
    var key := node.KeyBytes();
    var keyHash := if node.key.None? then s.pool.hash(key) else node.keyHash;
    if node.cachedKeyOffset != OFFSET_NONE {
      return Ok(Keyed(keyHash, L.EntryBody(node.cachedKeyOffset, |key|, 0)));
    }
    RunOne(s.Made().strings, key);
    var offset := s.Intern(key, keyHash);
    if offset.Err? {
      return Err(offset.error);
    }
    r := Ok(Keyed(keyHash, L.EntryBody(offset.value, |key|, 0)));
  }

  lemma KeyThenValue(rk: Result<L.Entry>, rv: Result<nat>, before: Product, mid: Product, after: Product, m: Member, base: nat, hash: Hash64)
    requires IsRun(Unit(rk), before, mid, if m.key == [] then [[]] else [])
    requires rk.Ok? ==>
      && m.key in mid.strings
      && rk.value == Keyed(hash(m.key), L.EntryBody(OffsetOf(mid.strings, m.key), |m.key|, 0))
      && Emitted(rv, mid, after, m.value, base, hash)
    ensures rk.Err? ==> MemberEmitted(Err(rk.error), before, after, m, true, base, hash)
    ensures rk.Ok? && rv.Err? ==> MemberEmitted(Err(rv.error), before, after, m, true, base, hash)
    ensures rk.Ok? && rv.Ok? ==> MemberEmitted(Ok(WithValue(rk.value, rv.value)), before, after, m, true, base, hash)
  {
    hide OffsetOf, L.KindPos, L.Emit, L.Fixups, L.Known, Interned, Outcome, InternRun, E.EmptyKeys;
    RunConcat(before.strings, if m.key == [] then [[]] else [], E.EmptyKeys(m.value));
    if rk.Ok? && rv.Ok? {
      RunExtends(mid.strings, E.EmptyKeys(m.value));
      OffsetStable(mid.strings, after.strings, m.key);
    }
  }

  function WithValue(e: L.Entry, offset: nat): (r: L.Entry) {
    Keyed(e.hash, L.EntryBody(e.item.keyOffset, e.item.keyLength, offset))
  }

  // ----- containers -----

  /** Everything of a container that precedes its children, the table still zeros. */
  method EmitHead(s: Session, node: Node, ghost v: Value) returns (table: nat)
    requires s.Valid() && v.IsContainer() && node !in s.Repr && node.content == Shell(v) && node.childCount == |v.kids|
    modifies s.Repr
    ensures s.Valid() && fresh(s.Repr - old(s.Repr))
    ensures s.Made() == old(s.Made()).(bytes := old(s.Made()).bytes + Head(v, |old(s.Made()).bytes|) + Zeros(L.ItemSize(v) * |v.kids|))
    ensures table == |old(s.Made()).bytes + Head(v, |old(s.Made()).bytes|)|
  {
    hide Session.Valid, Session.Made, L.KindPos, L.Lead;
    ghost var before := s.Made();
    EmitLead(s, node.content);
    HeadAligned(v, before.bytes);
    s.AlignTo(8);
    var itemsSize := L.ItemSize(node.content) * node.childCount;
    s.Append(LE(node.childCount, 4) + LE(itemsSize, 4));
    assert s.Made().bytes == before.bytes + Head(v, |before.bytes|);
    table := s.Size();
    s.AppendZero(itemsSize);
  }

  function Head(v: Value, p: nat): (r: seq<byte>)
    requires v.IsContainer()
  {
    L.Lead(v, p) + L.CountHeader(v)
  }

  /** After a container's kind byte the buffer is aligned already. */
  lemma HeadAligned(v: Value, bytes: seq<byte>)
    requires v.IsContainer()
    ensures L.Lead(Shell(v), |bytes|) == L.Lead(v, |bytes|)
    ensures var led := bytes + L.Lead(v, |bytes|); led + Zeros(AlignUp(|led|, 8) - |led|) == led
  {
    AlignUpAligned(|bytes| + 1, 8);
  }

  /** Fills the reserved table of a block from the sorted entries, and records where their pool offsets are. */
  method FillTable(s: Session, table: nat, entries: array<L.Entry>)
    requires s.Valid() && entries !in s.Repr && table + ENTRY_SIZE * entries.Length <= |s.Made().bytes|
    modifies s.Repr
    ensures s.Valid() && fresh(s.Repr - old(s.Repr)) && entries !in s.Repr
    ensures s.Made() == old(s.Made()).(
      bytes := Spliced(old(s.Made()).bytes, table, L.EntriesBytes(entries[..], 0)),
      fixups := old(s.Made()).fixups + L.TableFixups(table, entries.Length))
  {
    hide Session.Valid, Session.Made, L.EntryBytes, Spliced;
    ghost var before, es := s.Made(), entries[..];
    SplicedNone(before.bytes, table);
    assert before.fixups + L.TableFixups(table, 0) == before.fixups;
    for i := 0 to entries.Length
      invariant s.Valid() && fresh(s.Repr - old(s.Repr)) && entries !in s.Repr && entries[..] == es
      invariant s.Made() == before.(bytes := Spliced(before.bytes, table, L.EntriesBytes(es[..i], 0)),
                                    fixups := before.fixups + L.TableFixups(table, i))
    {
      assert es[..i + 1][..i] == es[..i];
      SplicedMore(before.bytes, table, L.EntriesBytes(es[..i], 0), L.EntryBytes(es[i], 0));
      s.Overwrite(table + i * ENTRY_SIZE, L.EntryBytes(entries[i], 0));
      s.RecordFixup(table + i * ENTRY_SIZE + 8);
    }
    assert es[..entries.Length] == es;
  }

  lemma SplicedNone(data: seq<byte>, at: nat)
    requires at <= |data|
    ensures Spliced(data, at, []) == data
  {
  }

  /** Filling a table slot by slot. */
  lemma SplicedMore(data: seq<byte>, at: nat, done: seq<byte>, next: seq<byte>)
    requires at + |done| + |next| <= |data|
    ensures Spliced(Spliced(data, at, done), at + |done|, next) == Spliced(data, at, done + next)
  {
  }

  /** Filling in the table in front of the children. */
  lemma SplicedTable(front: seq<byte>, reserved: seq<byte>, table: seq<byte>, kids: seq<byte>)
    requires |table| == |reserved|
    ensures Spliced(front + reserved + kids, |front|, table) == front + table + kids
  {
  }

  // ----- the recursion -----

  /** What every step of the recursion needs, and keeps: the session stays valid and away from the nodes, whose caches stay right. */
  ghost predicate Ready(s: Session, all: set<Node>)
    reads s, s.Repr, all
  {
    s.Valid() && Unshared(all, s.Repr) && AllCached(all, s.Made().strings)
  }

  /** One child of a block: its key, then its value. */
  method EmitMember(s: Session, base: nat, node: Node, ghost all: set<Node>, ghost m: Member) returns (r: Result<L.Entry>)
    requires Ready(s, all) && NodeHolds(all, s.pool.hash, node, m)
    modifies s.Repr
    ensures s.Valid() && fresh(s.Repr - old(s.Repr)) && Unshared(all, s.Repr)
    ensures MemberEmitted(r, old(s.Made()), s.Made(), m, true, base, s.pool.hash)
    decreases m, 3
  {
    hide Session.Valid, Session.Made, AllCached, NodeHolds, ChainHolds, IsRun, Emitted, MemberEmitted, Cached, Node.KeyBytes, OffsetOf;
    ghost var before := s.Made();
    NodeParts(all, s.pool.hash, node, m);
    CachedOne(all, node, before.strings);
    var key := MemberKey(s, node, m);
    ghost var mid := s.Made();
    if key.Err? {
      KeyThenValue(key, Ok(0), before, mid, mid, m, base, s.pool.hash);
      return key;
    }
    KeyRunGrows(key, before, mid, m);
    CachedLonger(all, before.strings, mid.strings);
    var offset := EmitValue(s, base, node, all, m);
    KeyThenValue(key, offset, before, mid, s.Made(), m, base, s.pool.hash);
    if offset.Err? {
      return Err(offset.error);
    }
    r := Ok(WithValue(key.value, offset.value));
  }

  lemma CachedOne(all: set<Node>, node: Node, strings: seq<Str>)
    requires AllCached(all, strings) && node in all
    ensures Cached(node, strings)
    ensures node.content.String? ==> node.content.s in strings && node.cachedStringOffset != OFFSET_NONE
  {
    assert Cached(node, strings);
  }

  lemma KeyRunGrows(key: Result<L.Entry>, before: Product, mid: Product, m: Member)
    requires key.Ok? && IsRun(Unit(key), before, mid, if m.key == [] then [[]] else [])
    ensures before.strings <= mid.strings
  {
    RunGrows(Unit(key), before, mid, if m.key == [] then [[]] else []);
  }

  /** The children of a block, or the roots: emitted in order, their entries gathered in `pending`. */
  method EmitMembers(s: Session, base: nat, first: Node?, pending: array<L.Entry>, ghost all: set<Node>, ghost kids: seq<Member>)
    returns (r: Result<()>)
    requires Ready(s, all) && ChainHolds(all, s.pool.hash, first, kids, null)
    requires pending.Length == |kids| && pending !in s.Repr
    modifies s.Repr, pending
    ensures s.Valid() && fresh(s.Repr - old(s.Repr)) && Unshared(all, s.Repr) && pending !in s.Repr
    ensures KidsEmitted(r, old(s.Made()), s.Made(), kids, true, base, s.pool.hash)
    ensures r.Ok? ==> pending[..] == L.Pending(kids, |old(s.Made()).bytes|, L.Context(base, s.Made().strings, 0, s.pool.hash))
    decreases kids, 1
  {
    hide Session.Valid, Session.Made, AllCached, NodeHolds, ChainHolds, KidsEmitted, MemberEmitted, L.Pending;
    ghost var before := s.Made();
    ghost var p := |before.bytes|;
    ChainStart(all, s.pool.hash, first, kids);
    NothingEmitted(before, true, base, s.pool.hash);
    NoPending(p, L.Context(base, before.strings, 0, s.pool.hash));
    r := Ok(());
    var child, i := first, 0;
    while child != null
      invariant 0 <= i <= |kids| && s.Valid() && fresh(s.Repr - old(s.Repr)) && Unshared(all, s.Repr) && pending !in s.Repr
      invariant AllCached(all, s.Made().strings) && ChainHolds(all, s.pool.hash, child, kids[i..], null)
      invariant r == Ok(()) && KidsEmitted(r, before, s.Made(), kids[..i], true, base, s.pool.hash)
      invariant pending[..i] == L.Pending(kids[..i], p, L.Context(base, s.Made().strings, 0, s.pool.hash))
      decreases |kids| - i
    {
      ghost var mid := s.Made();
      ChainStep(all, s.pool.hash, child, kids, i);
      var entry := EmitMember(s, base, child, all, kids[i]);
      ChainGrows(entry, before, mid, s.Made(), kids, i, true, base, s.pool.hash);
      if entry.Err? {
        ChainFails(Unit(entry), before, s.Made(), kids, i + 1, true, base, s.pool.hash);
        return Unit(entry);
      }
      CachedLonger(all, mid.strings, s.Made().strings);
      PendingGrows(entry.value, before, mid, s.Made(), kids, i, base, s.pool.hash);
      pending[i] := entry.value;
      child, i := child.nextSibling, i + 1;
    }
    ChainEnd(all, s.pool.hash, kids, i);
  }

  lemma NoPending(p: nat, c: L.Context)
    ensures L.Pending([], p, c) == []
  {
  }

  lemma PendingGrows(entry: L.Entry, before: Product, mid: Product, after: Product, kids: seq<Member>, i: nat, base: nat, hash: Hash64)
    requires i < |kids| && KidsEmitted(Ok(()), before, mid, kids[..i], true, base, hash)
    requires MemberEmitted(Ok(entry), mid, after, kids[i], true, base, hash)
    requires mid.strings <= after.strings && |mid.bytes| == L.KidPos(kids, i, |before.bytes|)
    ensures L.Pending(kids[..i + 1], |before.bytes|, L.Context(base, after.strings, 0, hash)) ==
            L.Pending(kids[..i], |before.bytes|, L.Context(base, mid.strings, 0, hash)) + [entry]
  {
    hide L.EntryFor, L.Emit, L.EmitKids, L.KindPos, L.Fixups, L.KidsFixups, L.Known, L.KidsKnown, InternRun, E.EmptyKeysOf, E.EmptyKeysOfMember;
    assert kids[..i + 1][..i] == kids[..i];
    L.PendingStable(kids[..i], |before.bytes|, L.Context(base, mid.strings, 0, hash), L.Context(base, after.strings, 0, hash));
    assert L.KidPos(kids[..i + 1], i, |before.bytes|) == |mid.bytes|;
  }

  lemma ChainFails(r: Result<()>, before: Product, after: Product, kids: seq<Member>, k: nat, keyed: bool, base: nat, hash: Hash64)
    requires k <= |kids| && r.Err? && KidsEmitted(r, before, after, kids[..k], keyed, base, hash)
    ensures KidsEmitted(r, before, after, kids, keyed, base, hash)
  {
    EmptyKeysFail(before.strings, kids, k, keyed);
  }

  lemma {:induction false} EmptyKeysFail(strings: seq<Str>, kids: seq<Member>, k: nat, keyed: bool)
    requires k <= |kids| && InternRun(strings, E.EmptyKeysOf(kids[..k], keyed)).Err?
    ensures InternRun(strings, E.EmptyKeysOf(kids, keyed)) == InternRun(strings, E.EmptyKeysOf(kids[..k], keyed))
    decreases |kids|
  {
    hide InternRun, E.EmptyKeysOfMember;
    if k == |kids| {
      assert kids[..k] == kids;
    } else {
      var n := |kids| - 1;
      assert kids[..n][..k] == kids[..k];
      EmptyKeysFail(strings, kids[..n], k, keyed);
      RunConcat(strings, E.EmptyKeysOf(kids[..n], keyed), E.EmptyKeysOfMember(kids[n], keyed));
    }
  }

  /** The elements of an array: emitted in order, each one's offset written into the reserved table at once. */
  method EmitElements(s: Session, base: nat, first: Node?, table: nat, ghost all: set<Node>, ghost kids: seq<Member>)
    returns (r: Result<()>, ghost unfilled: Product)
    requires Ready(s, all) && ChainHolds(all, s.pool.hash, first, kids, null)
    requires table + ELEMENT_SIZE * |kids| <= |s.Made().bytes|
    modifies s.Repr
    ensures s.Valid() && fresh(s.Repr - old(s.Repr)) && Unshared(all, s.Repr)
    ensures KidsEmitted(r, old(s.Made()), unfilled, kids, false, base, s.pool.hash)
    ensures r.Ok? ==> TableFilled(unfilled, s.Made(), table,
      L.ElementBytes(kids, |old(s.Made()).bytes|, L.Context(base, s.Made().strings, 0, s.pool.hash)))
    decreases kids, 1
  {
    hide Session.Valid, Session.Made, AllCached, NodeHolds, ChainHolds, KidsEmitted, MemberEmitted, L.ElementBytes, TableFilled, Emitted;
    ghost var before := s.Made();
    ghost var p := |before.bytes|;
    ChainStart(all, s.pool.hash, first, kids);
    NothingEmitted(before, false, base, s.pool.hash);
    NothingFilled(before, table, p, L.Context(base, before.strings, 0, s.pool.hash));
    r := Ok(());
    unfilled := before;
    var child, i := first, 0;
    while child != null
      invariant 0 <= i <= |kids| && s.Valid() && fresh(s.Repr - old(s.Repr)) && Unshared(all, s.Repr)
      invariant AllCached(all, s.Made().strings) && ChainHolds(all, s.pool.hash, child, kids[i..], null)
      invariant r == Ok(()) && KidsEmitted(r, before, unfilled, kids[..i], false, base, s.pool.hash)
      invariant TableFilled(unfilled, s.Made(), table, L.ElementBytes(kids[..i], p, L.Context(base, s.Made().strings, 0, s.pool.hash)))
      invariant p <= |unfilled.bytes|
      decreases |kids| - i
    {
      ChainStep(all, s.pool.hash, child, kids, i);
      r, unfilled := EmitElement(s, base, child, table, i, all, kids, before, unfilled);
      if r.Err? {
        ChainFails(r, before, unfilled, kids, i + 1, false, base, s.pool.hash);
        return;
      }
      child, i := child.nextSibling, i + 1;
    }
    ChainEnd(all, s.pool.hash, kids, i);
  }

  /** Emits element `i` and fills its slot. */
  method EmitElement(s: Session, base: nat, child: Node, table: nat, i: nat, ghost all: set<Node>, ghost kids: seq<Member>,
                     ghost before: Product, ghost unfilled: Product)
    returns (r: Result<()>, ghost unfilled': Product)
    requires Ready(s, all) && i < |kids| && NodeHolds(all, s.pool.hash, child, kids[i])
    requires table + ELEMENT_SIZE * |kids| <= |before.bytes| <= |unfilled.bytes|
    requires KidsEmitted(Ok(()), before, unfilled, kids[..i], false, base, s.pool.hash)
    requires TableFilled(unfilled, s.Made(), table,
      L.ElementBytes(kids[..i], |before.bytes|, L.Context(base, s.Made().strings, 0, s.pool.hash)))
    modifies s.Repr
    ensures s.Valid() && fresh(s.Repr - old(s.Repr)) && Unshared(all, s.Repr)
    ensures KidsEmitted(r, before, unfilled', kids[..i + 1], false, base, s.pool.hash)
    ensures r.Ok? ==> r == Ok(()) && |before.bytes| <= |unfilled'.bytes| && AllCached(all, s.Made().strings)
    ensures r.Ok? ==> TableFilled(unfilled', s.Made(), table,
      L.ElementBytes(kids[..i + 1], |before.bytes|, L.Context(base, s.Made().strings, 0, s.pool.hash)))
    decreases kids, 0
  {
    hide Session.Valid, Session.Made, AllCached, NodeHolds, ChainHolds, KidsEmitted, MemberEmitted, L.ElementBytes, TableFilled, Emitted;
    ghost var mid := s.Made();
    ghost var done := L.ElementBytes(kids[..i], |before.bytes|, L.Context(base, mid.strings, 0, s.pool.hash));
    var offset := EmitValue(s, base, child, all, kids[i]);
    ghost var after := s.Made();
    unfilled' := Unfilled(unfilled, mid, after);
    ElementEmitted(offset, unfilled, mid, after, table, kids[i], base, s.pool.hash, done);
    ChainGrows(AsEntry(offset), before, unfilled, unfilled', kids, i, false, base, s.pool.hash);
    r := Unit(offset);
    if offset.Ok? {
      SameSize(unfilled, mid, table, done);
      SameSize(unfilled', after, table, done);
      CachedLonger(all, mid.strings, after.strings);
      ElementsGrow(offset.value, before, mid, after, unfilled', table, kids, i, base, s.pool.hash);
      s.Overwrite(table + i * ELEMENT_SIZE, LE(offset.value, 8));
    }
  }

  lemma SameSize(unfilled: Product, filled: Product, table: nat, done: seq<byte>)
    requires TableFilled(unfilled, filled, table, done)
    ensures |filled.bytes| == |unfilled.bytes| && filled.strings == unfilled.strings
  {
  }

  /** `filled` is `unfilled` with `bytes` written over the front of the table. */
  ghost predicate TableFilled(unfilled: Product, filled: Product, table: nat, bytes: seq<byte>) {
    table + |bytes| <= |unfilled.bytes| && filled == unfilled.(bytes := Spliced(unfilled.bytes, table, bytes))
  }

  lemma NothingFilled(before: Product, table: nat, p: nat, c: L.Context)
    requires table <= |before.bytes|
    ensures TableFilled(before, before, table, L.ElementBytes([], p, c))
  {
    SplicedNone(before.bytes, table);
    assert L.ElementBytes([], p, c) == [];
  }

  ghost function AsEntry(offset: Result<nat>): (r: Result<L.Entry>) {
    match offset
    case Ok(o) => Ok(Keyed(0, L.EntryBody(0, 0, o)))
    case Err(e) => Err(e)
  }

  /** What the step from `mid` to `after` makes of a buffer whose table is not filled. */
  ghost function Unfilled(unfilled: Product, mid: Product, after: Product): (r: Product) {
    if |mid.bytes| <= |after.bytes| then after.(bytes := unfilled.bytes + after.bytes[|mid.bytes|..]) else after
  }

  lemma ElementEmitted(offset: Result<nat>, unfilled: Product, mid: Product, after: Product, table: nat, m: Member,
                       base: nat, hash: Hash64, done: seq<byte>)
    requires Emitted(offset, mid, after, m.value, base, hash) && TableFilled(unfilled, mid, table, done)
    ensures MemberEmitted(AsEntry(offset), unfilled, Unfilled(unfilled, mid, after), m, false, base, hash)
    ensures offset.Ok? ==> |after.bytes| >= |mid.bytes| && TableFilled(Unfilled(unfilled, mid, after), after, table, done)
    ensures offset.Ok? ==> offset.value == base + L.KindPos(m.value, |mid.bytes|)
  {
    hide L.KindPos, L.Emit, L.Fixups, L.Known, InternRun, E.EmptyKeys, Spliced, L.EntryFor;
    assert E.EmptyKeysOfMember(m, false) == E.EmptyKeys(m.value);
    if offset.Ok? {
      var strings := InternRun(mid.strings, E.EmptyKeys(m.value)).value;
      var more := L.Emit(m.value, |mid.bytes|, L.Context(base, strings, 0, hash));
      assert after.bytes[|mid.bytes|..] == more;
      SplicedBefore(unfilled.bytes, table, done, more);
    }
  }

  lemma SplicedBefore(data: seq<byte>, at: nat, done: seq<byte>, more: seq<byte>)
    requires at + |done| <= |data|
    ensures Spliced(data + more, at, done) == Spliced(data, at, done) + more
  {
  }

  lemma ElementsGrow(offset: nat, before: Product, mid: Product, after: Product, unfilled: Product, table: nat,
                     kids: seq<Member>, i: nat, base: nat, hash: Hash64)
    requires i < |kids| && table + ELEMENT_SIZE * |kids| <= |unfilled.bytes| && unfilled.strings == after.strings
    requires offset == base + L.KindPos(kids[i].value, |mid.bytes|) && |mid.bytes| == L.KidPos(kids, i, |before.bytes|)
    requires TableFilled(unfilled, after, table, L.ElementBytes(kids[..i], |before.bytes|, L.Context(base, mid.strings, 0, hash)))
    ensures table + ELEMENT_SIZE * (i + 1) <= |after.bytes|
    ensures TableFilled(unfilled, after.(bytes := Spliced(after.bytes, table + i * ELEMENT_SIZE, LE(offset, 8))), table,
      L.ElementBytes(kids[..i + 1], |before.bytes|, L.Context(base, after.strings, 0, hash)))
  {
    hide L.KindPos, Spliced;
    var c, c' := L.Context(base, mid.strings, 0, hash), L.Context(base, after.strings, 0, hash);
    assert kids[..i + 1][..i] == kids[..i];
    L.ElementsStable(kids[..i], |before.bytes|, c, c');
    assert L.KidPos(kids[..i + 1], i, |before.bytes|) == |mid.bytes|;
    assert L.ElementBytes(kids[..i + 1], |before.bytes|, c') == L.ElementBytes(kids[..i], |before.bytes|, c) + LE(offset, 8);
    SplicedMore(unfilled.bytes, table, L.ElementBytes(kids[..i], |before.bytes|, c), LE(offset, 8));
  }

  // ----- values -----

  method EmitBlock(s: Session, base: nat, node: Node, ghost all: set<Node>, ghost m: Member) returns (r: Result<nat>)
    requires Ready(s, all) && NodeHolds(all, s.pool.hash, node, m) && m.value.Block?
    modifies s.Repr
    ensures s.Valid() && fresh(s.Repr - old(s.Repr)) && Unshared(all, s.Repr)
    ensures Emitted(r, old(s.Made()), s.Made(), m.value, base, s.pool.hash)
    decreases m, 1
  {
    hide Session.Valid, Session.Made, AllCached, NodeHolds, ChainHolds, KidsEmitted, Emitted, L.KindPos, L.Pending, Head, TableFilled, StableSorted;
    ghost var before := s.Made();
    NodeParts(all, s.pool.hash, node, m);
    var kindOffset := L.KindPos(node.content, s.Size());
    ShellKind(m.value, s.Size());
    var table := EmitHead(s, node, m.value);
    ghost var headed := s.Made();
    var pending := new L.Entry[node.childCount];
    var emitted := EmitMembers(s, base, node.firstChild, pending, all, m.value.kids);
    ghost var unfilled := s.Made();
    ContainerFails(emitted, before, headed, unfilled, m.value, base, s.pool.hash);
    if emitted.Err? {
      return Err(emitted.error);
    }
    KidsGrow(emitted, headed, unfilled, m.value.kids, true, base, s.pool.hash);
    PendingSort.Sort(pending, s.pool.workerCount);
    FillTable(s, table, pending);
    BlockEmitted(emitted, before, headed, unfilled, s.Made(), m.value, pending[..], base, s.pool.hash);
    r := Ok(base + kindOffset);
  }

  method EmitArray(s: Session, base: nat, node: Node, ghost all: set<Node>, ghost m: Member) returns (r: Result<nat>)
    requires Ready(s, all) && NodeHolds(all, s.pool.hash, node, m) && m.value.Array?
    modifies s.Repr
    ensures s.Valid() && fresh(s.Repr - old(s.Repr)) && Unshared(all, s.Repr)
    ensures Emitted(r, old(s.Made()), s.Made(), m.value, base, s.pool.hash)
    decreases m, 1
  {
    hide Session.Valid, Session.Made, AllCached, NodeHolds, ChainHolds, KidsEmitted, Emitted, L.KindPos, Head, L.ElementBytes, TableFilled;
    ghost var before := s.Made();
    NodeParts(all, s.pool.hash, node, m);
    var kindOffset := L.KindPos(node.content, s.Size());
    ShellKind(m.value, s.Size());
    var table := EmitHead(s, node, m.value);
    ghost var headed := s.Made();
    ghost var unfilled: Product;
    var emitted;
    emitted, unfilled := EmitElements(s, base, node.firstChild, table, all, m.value.kids);
    ContainerFails(emitted, before, headed, unfilled, m.value, base, s.pool.hash);
    if emitted.Err? {
      return Err(emitted.error);
    }
    ArrayEmitted(emitted, before, headed, unfilled, s.Made(), m.value, base, s.pool.hash);
    r := Ok(base + kindOffset);
  }

  method EmitValue(s: Session, base: nat, node: Node, ghost all: set<Node>, ghost m: Member) returns (r: Result<nat>)
    requires Ready(s, all) && NodeHolds(all, s.pool.hash, node, m)
    modifies s.Repr
    ensures s.Valid() && fresh(s.Repr - old(s.Repr)) && Unshared(all, s.Repr)
    ensures Emitted(r, old(s.Made()), s.Made(), m.value, base, s.pool.hash)
    decreases m, 2
  {
    hide Session.Valid, Session.Made, AllCached, NodeHolds, ChainHolds, Emitted, CachedAs;
    NodeParts(all, s.pool.hash, node, m);
    match node.content {
      case Block(_) => r := EmitBlock(s, base, node, all, m);
      case Array(_) => r := EmitArray(s, base, node, all, m);
      case _ =>
        ghost var before := s.Made();
        CachedOne(all, node, before.strings);
        r := EmitScalar(s, base, node);
        ScalarIsEmitted(r, before, s.Made(), m.value, base, s.pool.hash);
    }
  }

  lemma KidsGrow(r: Result<()>, before: Product, after: Product, kids: seq<Member>, keyed: bool, base: nat, hash: Hash64)
    requires r.Ok? && KidsEmitted(r, before, after, kids, keyed, base, hash)
    ensures before.bytes <= after.bytes
  {
  }

  lemma ScalarIsEmitted(r: Result<nat>, before: Product, after: Product, v: Value, base: nat, hash: Hash64)
    requires !v.IsContainer() && r.Ok? && ScalarEmitted(r.value, before, after, v, base, hash)
    requires v.String? ==> v.s in before.strings
    ensures Emitted(r, before, after, v, base, hash)
  {
    hide L.KindPos, L.EmitScalar, OffsetOf;
    assert InternRun(before.strings, []) == Ok(before.strings);
  }

  /** The state after a container's head: its table is still zeros. */
  ghost predicate Headed(before: Product, headed: Product, v: Value)
    requires v.IsContainer()
  {
    headed == before.(bytes := before.bytes + Head(v, |before.bytes|) + Zeros(L.ItemSize(v) * |v.kids|))
  }

  lemma ContainerFails(emitted: Result<()>, before: Product, headed: Product, unfilled: Product, v: Value, base: nat, hash: Hash64)
    requires v.IsContainer() && Headed(before, headed, v)
    requires KidsEmitted(emitted, headed, unfilled, v.kids, v.Block?, base, hash)
    ensures emitted.Err? ==> forall after :: Emitted(Err(emitted.error), before, after, v, base, hash)
  {
    assert E.EmptyKeys(v) == E.EmptyKeysOf(v.kids, v.Block?);
  }

  lemma BlockEmitted(emitted: Result<()>, before: Product, headed: Product, unfilled: Product,
                     after: Product, v: Value, sorted: seq<L.Entry>, base: nat, hash: Hash64)
    requires v.Block? && Headed(before, headed, v) && emitted.Ok? && KidsEmitted(emitted, headed, unfilled, v.kids, true, base, hash)
    requires sorted == StableSorted(L.Pending(v.kids, |headed.bytes|, L.Context(base, unfilled.strings, 0, hash)))
    requires var table := |before.bytes + Head(v, |before.bytes|)|;
      && table + ENTRY_SIZE * |v.kids| <= |unfilled.bytes| && |sorted| == |v.kids|
      && after == unfilled.(bytes := Spliced(unfilled.bytes, table, L.EntriesBytes(sorted, 0)),
                            fixups := unfilled.fixups + L.TableFixups(table, |v.kids|))
    ensures Emitted(Ok(base + L.KindPos(v, |before.bytes|)), before, after, v, base, hash)
  {
    hide KidsEmitted, Emitted, L.KindPos, L.Lead, Spliced, Headed, L.EntriesBytes, L.TableFixups, StableSorted, L.Pending;
    HeadSize(v, |before.bytes|);
    ContainerEmitted(emitted, before, headed, unfilled, after, v, base, hash);
  }

  lemma ArrayEmitted(emitted: Result<()>, before: Product, headed: Product, unfilled: Product, after: Product, v: Value, base: nat, hash: Hash64)
    requires v.Array? && Headed(before, headed, v) && emitted.Ok? && KidsEmitted(emitted, headed, unfilled, v.kids, false, base, hash)
    requires TableFilled(unfilled, after, |before.bytes + Head(v, |before.bytes|)|,
      L.ElementBytes(v.kids, |headed.bytes|, L.Context(base, after.strings, 0, hash)))
    ensures Emitted(Ok(base + L.KindPos(v, |before.bytes|)), before, after, v, base, hash)
  {
    hide KidsEmitted, Emitted, L.KindPos, L.Lead, Spliced, Headed, L.ElementBytes;
    ContainerEmitted(emitted, before, headed, unfilled, after, v, base, hash);
  }

  /** Head, children and filled table make up the container's layout. */
  lemma ContainerEmitted(emitted: Result<()>, before: Product, headed: Product, unfilled: Product, after: Product, v: Value, base: nat, hash: Hash64)
    requires v.IsContainer() && Headed(before, headed, v)
    requires emitted.Ok? && KidsEmitted(emitted, headed, unfilled, v.kids, v.Block?, base, hash)
    requires var table := |before.bytes + Head(v, |before.bytes|)|;
      && table + L.ItemSize(v) * |v.kids| <= |unfilled.bytes|
      && after.bytes == Spliced(unfilled.bytes, table, L.Table(v, |headed.bytes|, L.Context(base, unfilled.strings, 0, hash)))
      && after.strings == unfilled.strings
      && after.fixups == unfilled.fixups + L.OwnFixups(v, |before.bytes|)
    ensures Emitted(Ok(base + L.KindPos(v, |before.bytes|)), before, after, v, base, hash)
  {
    hide L.KindPos, L.EmitKids, L.KidsFixups, L.KidsKnown, L.Lead, L.Table, L.OwnFixups, InternRun, E.EmptyKeysOf, Spliced, L.CountHeader;
    var p := |before.bytes|;
    assert E.EmptyKeys(v) == E.EmptyKeysOf(v.kids, v.Block?);
    var c := L.Context(base, unfilled.strings, 0, hash);
    var reserved := Zeros(L.ItemSize(v) * |v.kids|);
    HeadSize(v, p);
    SplicedTable(before.bytes + Head(v, p), reserved, L.Table(v, L.KidsStart(v, p), c), L.EmitKids(v.kids, L.KidsStart(v, p), c));
    Associate4(before.bytes, Head(v, p), L.Table(v, L.KidsStart(v, p), c), L.EmitKids(v.kids, L.KidsStart(v, p), c));
    assert L.Emit(v, p, c) == L.EmitContainer(v, p, c);
    Associate(before.fixups, L.KidsFixups(v.kids, L.KidsStart(v, p)), L.OwnFixups(v, p));
  }

  lemma ShellKind(v: Value, p: nat)
    ensures L.KindPos(Shell(v), p) == L.KindPos(v, p)
  {
  }

  lemma HeadSize(v: Value, p: nat)
    requires v.IsContainer()
    ensures p + |Head(v, p)| == L.KindPos(v, p) + 9
    ensures p + |Head(v, p)| + L.ItemSize(v) * |v.kids| == L.KidsStart(v, p)
  {
  }
}
