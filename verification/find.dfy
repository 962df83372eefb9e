/** Lookup by key on written tables. */
module Find {
  import opened Bytes
  import opened Canonical
  import opened Document
  import opened Format
  import opened Lookup
  import opened Options
  import opened ReadBack
  import L = Layout
  import R = Reader

  ghost predicate HasKey(ms: seq<Member>, key: Str) {
    exists i :: 0 <= i < |ms| && ms[i].key == key
  }

  ghost predicate DistinctKeys(ms: seq<Member>) {
    forall i, j :: 0 <= i < j < |ms| ==> ms[i].key != ms[j].key
  }

  /** An entry spells a key exactly when that is the key the reader hands out for it. */
  lemma SpellsItsKey(r: R.Handle, e: L.Entry, own: Str, key: Str)
    requires R.EntryChild(r, e) == Some(R.Child(own, e.item.valueOffset))
    ensures R.KeyEquals(r, e, key) <==> own == key
  {
  }

  /** `o` is where entry `i` of the table at `items` says, and the value of a member named `key` is there. */
  ghost predicate FoundByEntry(r: R.Handle, hash: Hash64, items: nat, kids: seq<Member>, key: Str, o: nat, i: nat)
    requires R.Valid(r)
  {
    var e := R.ReadEntry(r, items + i * ENTRY_SIZE);
    i < |kids| && kids[i].key == key && Holds(r, hash, o, kids[i].value) && e.Some? && e.value.item.valueOffset == o
  }

  /** `o` is where the value of some member named `key` was found. */
  ghost predicate FoundAt(r: R.Handle, hash: Hash64, items: nat, kids: seq<Member>, key: Str, o: nat)
    requires R.Valid(r)
  {
    exists i: nat :: FoundByEntry(r, hash, items, kids, key, o, i)
  }

  /** Lookup in a hash-sorted written table: it succeeds exactly when a member has the key, and finds the value of such a member. */
  lemma TableFinds(r: R.Handle, hash: Hash64, items: nat, floor: int, kids: seq<Member>, key: Str)
    requires R.Valid(r) && TableHolds(r, hash, items, floor, kids) && HashSorted(kids, hash)
    ensures R.FindIn(r, hash, items, |kids|, key).Some? <==> HasKey(kids, key)
    ensures R.FindIn(r, hash, items, |kids|, key).Some? ==> FoundAt(r, hash, items, kids, key, R.FindIn(r, hash, items, |kids|, key).value)
  {
    hide R.ReadEntry, R.KeyEquals, R.EntryChild, Holds, Search;
    var q := R.TableQuery(r, items, hash(key), key);
    forall i: nat | i < |kids|
      ensures q.read(i).Some? && q.read(i).value.hash == hash(kids[i].key)
      ensures MatchAt(q, i) <==> kids[i].key == key
      ensures Holds(r, hash, q.read(i).value.item.valueOffset, kids[i].value)
    {
      assert EntryHolds(r, hash, items, floor, kids, i);
      SpellsItsKey(r, q.read(i).value, kids[i].key, key);
    }
    TableIsSound(q, kids, hash);
    SearchFinds(q, |kids|, 0, |kids|);
    if HasKey(kids, key) {
      var i :| 0 <= i < |kids| && kids[i].key == key;
      assert MatchAt(q, i);
    }
    var found := Search(q, |kids|, 0, |kids|);
    if found.Some? {
      var i: nat :| i < |kids| && MatchAt(q, i) && q.read(i).value == found.value;
      assert FoundByEntry(r, hash, items, kids, key, found.value.item.valueOffset, i);
    }
  }

  lemma TableIsSound(q: Query, kids: seq<Member>, hash: Hash64)
    requires HashSorted(kids, hash)
    requires forall i: nat :: i < |kids| ==> q.read(i).Some? && q.read(i).value.hash == hash(kids[i].key)
    ensures Sound(q, |kids|)
  {
  }

  /** With distinct keys it finds that key's own child. */
  lemma DistinctFound(r: R.Handle, hash: Hash64, items: nat, kids: seq<Member>, key: Str, o: nat, i: nat)
    requires R.Valid(r) && FoundAt(r, hash, items, kids, key, o) && DistinctKeys(kids) && i < |kids| && kids[i].key == key
    ensures FoundByEntry(r, hash, items, kids, key, o, i)
  {
    hide Holds, R.ReadEntry;
    var j: nat :| FoundByEntry(r, hash, items, kids, key, o, j);
    assert i == j;
  }

  // ----- trees in encoding order -----

  /** Every block's members are in hash order, all the way down. */
  ghost predicate Ordered(v: Value, hash: Hash64)
    decreases v, 0
  {
    match v
    case Array(kids) => KidsOrdered(kids, hash)
    case Block(kids) => HashSorted(kids, hash) && KidsOrdered(kids, hash)
    case _ => true
  }

  ghost predicate KidsOrdered(kids: seq<Member>, hash: Hash64)
    decreases kids, 0
  {
    forall i :: 0 <= i < |kids| ==> Ordered(kids[i].value, hash)
  }

  lemma {:induction false} CanonOrdered(v: Value, hash: Hash64)
    ensures Ordered(Canon(v, hash), hash)
    decreases v, 0
  {
    match v
    case Array(kids) => CanonKidsOrdered(kids, hash);
    case Block(kids) =>
      CanonKidsOrdered(kids, hash);
      SortMembersSorted(CanonKids(kids, hash), hash);
      SortedKidsOrdered(CanonKids(kids, hash), hash);
    case _ =>
  }

  lemma SortedKidsOrdered(ms: seq<Member>, hash: Hash64)
    requires KidsOrdered(ms, hash)
    ensures KidsOrdered(SortMembers(ms, hash), hash)
  {
    SortMembersSorted(ms, hash);
    var sorted := SortMembers(ms, hash);
    forall i | 0 <= i < |sorted|
      ensures Ordered(sorted[i].value, hash)
    {
      assert sorted[i] in ms;
    }
  }

  lemma {:induction false} CanonKidsOrdered(kids: seq<Member>, hash: Hash64)
    ensures KidsOrdered(CanonKids(kids, hash), hash)
    decreases kids, 0
  {
    forall i | 0 <= i < |kids|
      ensures Ordered(CanonKids(kids, hash)[i].value, hash)
    {
      CanonKidAt(kids, hash, i);
      CanonOrdered(kids[i].value, hash);
    }
  }

  /** A tree in encoding order is its own encoding order. */
  lemma {:induction false} OrderedStays(v: Value, hash: Hash64)
    requires Ordered(v, hash)
    ensures Canon(v, hash) == v
    decreases v, 0
  {
    match v
    case Array(kids) => KidsOrderedStay(kids, hash);
    case Block(kids) =>
      KidsOrderedStay(kids, hash);
      SortedStays(kids, hash);
    case _ =>
  }

  lemma {:induction false} KidsOrderedStay(kids: seq<Member>, hash: Hash64)
    requires KidsOrdered(kids, hash)
    ensures CanonKids(kids, hash) == kids
    decreases kids, 0
  {
    forall i | 0 <= i < |kids|
      ensures CanonKids(kids, hash)[i] == kids[i]
    {
      CanonKidAt(kids, hash, i);
      OrderedStays(kids[i].value, hash);
    }
  }

  /** Lookup in a written block. */
  lemma BlockFinds(r: R.Handle, hash: Hash64, offset: nat, v: Value, key: Str)
    requires R.Valid(r) && Holds(r, hash, offset, v) && Ordered(v, hash)
    ensures R.BlockFind(r, hash, offset, key).Some? <==> v.Block? && HasKey(v.kids, key)
    ensures R.BlockFind(r, hash, offset, key).Some? ==>
      R.BlockBody(r, offset).Some? && FoundAt(r, hash, R.BlockBody(r, offset).value.items, v.kids, key, R.BlockFind(r, hash, offset, key).value)
  {
    hide R.FindIn, FoundAt, HasKey, TableHolds;
    if v.Block? {
      TableFinds(r, hash, R.BlockBody(r, offset).value.items, offset, v.kids, key);
    } else {
      KindOfHeld(r, hash, offset, v);
    }
  }

  /** The kind byte where a value is held. */
  lemma KindOfHeld(r: R.Handle, hash: Hash64, offset: nat, v: Value)
    requires R.Valid(r) && Holds(r, hash, offset, v)
    ensures R.KindAt(r, offset) == Some(L.KindByte(v))
    ensures !v.Block? ==> R.BlockBody(r, offset).None?
    ensures !v.Array? ==> R.ArrayBody(r, offset).None?
  {
    hide TableHolds, ElementHolds, Load64, Load32, AlignUp;
  }

  /** The kind byte tells which value is held. */
  lemma HeldKind(r: R.Handle, hash: Hash64, offset: nat, v: Value)
    requires R.Valid(r) && Holds(r, hash, offset, v)
    ensures R.KindAt(r, offset).Some?
    ensures var kind := R.KindAt(r, offset).value;
      && (kind == 0x00 <==> v == Null) && (kind == 0x01 <==> v == Bool(false)) && (kind == 0x02 <==> v == Bool(true))
      && (kind == 0x03 <==> v.Int64?) && (kind == 0x04 <==> v.UInt64?) && (kind == 0x05 <==> v.Float64?)
      && (kind == 0x06 <==> v.String?) && (kind == 0x10 <==> v.Block?) && (kind == 0x11 <==> v.Array?)
    ensures v.Int64? ==> R.Int64At(r, offset) == Some(v.i)
    ensures v.UInt64? ==> R.Word64At(r, offset, 0x04) == Some(v.u)
    ensures v.Float64? ==> R.Word64At(r, offset, 0x05) == Some(v.bits)
    ensures v.String? ==> R.StringAt(r, offset) == Some(v.s)
  {
    hide TableHolds, ElementHolds, R.ContainerBody, Load64, Load32, AlignUp;
  }

  /** Indexing in a written array. */
  lemma ArrayIndexes(r: R.Handle, hash: Hash64, offset: nat, v: Value, i: nat)
    requires R.Valid(r) && Holds(r, hash, offset, v)
    ensures R.ArrayAt(r, offset, i).Some? <==> v.Array? && i < |v.kids|
    ensures R.ArrayAt(r, offset, i).Some? ==> Holds(r, hash, R.ArrayAt(r, offset, i).value, v.kids[i].value)
  {
    if v.Array? {
      if i < |v.kids| {
        assert ElementHolds(r, hash, offset, v.kids, i);
      }
    } else {
      KindOfHeld(r, hash, offset, v);
    }
  }
}
