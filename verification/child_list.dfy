/** The scratch list an exporter makes of a table's entries, and what sorting it does to the members. */
module ChildList {
  import opened Bytes
  import opened Document
  import opened Format
  import opened KeyOrder
  import opened ReadBack
  import R = Reader

  datatype SortEntry = SortEntry(entryOffset: nat, keyOffset: nat, keyLength: nat, valueOffset: nat)

  predicate KeyInside(r: R.Handle, e: SortEntry) {
    e.keyOffset + 4 + e.keyLength <= |r.base|
  }

  function KeyOf(r: R.Handle, e: SortEntry): (key: Str)
    requires KeyInside(r, e)
  {
    r.base[e.keyOffset + 4..e.keyOffset + 4 + e.keyLength]
  }

  /** The entry names member `m`, and its value is where the entry says. */
  ghost predicate Names(r: R.Handle, hash: Hash64, e: SortEntry, m: Member)
    requires R.Valid(r)
  {
    KeyInside(r, e) && KeyOf(r, e) == m.key && Holds(r, hash, e.valueOffset, m.value)
  }

  ghost predicate AllName(r: R.Handle, hash: Hash64, es: seq<SortEntry>, ms: seq<Member>)
    requires R.Valid(r)
  {
    |es| == |ms| && forall i :: 0 <= i < |es| ==> Names(r, hash, es[i], ms[i])
  }

  /** The entries of the table at `items`, in table order. */
  ghost predicate Filled(es: seq<SortEntry>, items: nat) {
    forall i :: 0 <= i < |es| ==> es[i].entryOffset == items + i * ENTRY_SIZE
  }

  // ----- filling the list -----

  method FillEntries(r: R.Handle, items: nat, count: nat, ghost hash: Hash64, ghost floor: int, ghost kids: seq<Member>)
    returns (entries: array<SortEntry>)
    requires R.Valid(r) && count == |kids| && TableHolds(r, hash, items, floor, kids)
    ensures fresh(entries) && entries.Length == count
    ensures AllName(r, hash, entries[..], kids) && Filled(entries[..], items)
  {
    hide R.ReadEntry, R.EntryChild, Holds, Names;
    entries := new SortEntry[count](_ => SortEntry(0, 0, 0, 0));
    for i := 0 to count
      invariant AllName(r, hash, entries[..i], kids[..i]) && Filled(entries[..i], items)
    {
      assert EntryHolds(r, hash, items, floor, kids, i);
      var e := R.ReadEntry(r, items + i * ENTRY_SIZE).value;
      ghost var done := entries[..i];
      entries[i] := SortEntry(items + i * ENTRY_SIZE, e.item.keyOffset, e.item.keyLength, e.item.valueOffset);
      NamesChild(r, hash, items, floor, kids, i);
      assert entries[..i] == done && entries[..i + 1] == done + [entries[i]] && kids[..i + 1] == kids[..i] + [kids[i]];
    }
    assert entries[..count] == entries[..] && kids[..count] == kids;
  }

  lemma NamesChild(r: R.Handle, hash: Hash64, items: nat, floor: int, kids: seq<Member>, i: nat)
    requires R.Valid(r) && i < |kids| && EntryHolds(r, hash, items, floor, kids, i)
    ensures var e := R.ReadEntry(r, items + i * ENTRY_SIZE).value;
      Names(r, hash, SortEntry(items + i * ENTRY_SIZE, e.item.keyOffset, e.item.keyLength, e.item.valueOffset), kids[i])
  {
    hide Holds, R.ReadEntry;
  }

  // ----- sorting it -----

  predicate Less(r: R.Handle, byKey: bool, a: SortEntry, b: SortEntry)
    requires KeyInside(r, a) && KeyInside(r, b)
  {
    if byKey then KeyLess(KeyOf(r, a), KeyOf(r, b)) else a.entryOffset < b.entryOffset
  }

  predicate AllInside(r: R.Handle, es: seq<SortEntry>) {
    forall i :: 0 <= i < |es| ==> KeyInside(r, es[i])
  }

  predicate Ordered(r: R.Handle, byKey: bool, es: seq<SortEntry>)
    requires AllInside(r, es)
  {
    forall i, j :: 0 <= i < j < |es| ==> !Less(r, byKey, es[j], es[i])
  }

  lemma LessChains(r: R.Handle, byKey: bool, a: SortEntry, b: SortEntry, c: SortEntry)
    requires KeyInside(r, a) && KeyInside(r, b) && KeyInside(r, c)
    ensures !(Less(r, byKey, a, b) && Less(r, byKey, b, a))
    ensures !Less(r, byKey, b, a) && !Less(r, byKey, c, b) ==> !Less(r, byKey, c, a)
  {
    if byKey {
      var x, y, z := KeyOf(r, a), KeyOf(r, b), KeyOf(r, c);
      KeyLessIsLexicographic(x, y);
      KeyLessIsLexicographic(y, x);
      KeyLessIsLexicographic(z, y);
      KeyLessIsLexicographic(z, x);
      BeforeIsStrict(x, y);
      BeforeIsStrict(y, z);
      if !Before(y, x) && !Before(z, y) && Before(z, x) && x != y && y != z {
        BeforeIsTransitive(x, y, z);
        BeforeIsStrict(x, z);
      }
    }
  }

  function Insert(r: R.Handle, byKey: bool, es: seq<SortEntry>, e: SortEntry): (s: seq<SortEntry>)
    requires AllInside(r, es) && KeyInside(r, e)
    ensures AllInside(r, s) && |s| == |es| + 1
  {
    if es == [] || !Less(r, byKey, e, es[|es| - 1]) then es + [e]
    else Insert(r, byKey, es[..|es| - 1], e) + [es[|es| - 1]]
  }

  lemma {:induction false} InsertPermutes(r: R.Handle, byKey: bool, es: seq<SortEntry>, e: SortEntry)
    requires AllInside(r, es) && KeyInside(r, e)
    ensures multiset(Insert(r, byKey, es, e)) == multiset(es) + multiset{e}
  {
    hide Less, KeyInside;
    if es != [] && Less(r, byKey, e, es[|es| - 1]) {
      var n := |es| - 1;
      assert es == es[..n] + [es[n]];
      InsertPermutes(r, byKey, es[..n], e);
    }
  }

  /** No later entry comes before `e`. */
  ghost predicate NoneAfter(r: R.Handle, byKey: bool, es: seq<SortEntry>, e: SortEntry)
    requires AllInside(r, es) && KeyInside(r, e)
  {
    forall i :: 0 <= i < |es| ==> !Less(r, byKey, e, es[i])
  }

  lemma OrderedSnoc(r: R.Handle, byKey: bool, es: seq<SortEntry>, e: SortEntry)
    requires AllInside(r, es) && KeyInside(r, e)
    ensures AllInside(r, es + [e])
    ensures Ordered(r, byKey, es + [e]) <==> Ordered(r, byKey, es) && NoneAfter(r, byKey, es, e)
  {
    hide Less, KeyInside;
    var more := es + [e];
    if Ordered(r, byKey, more) {
      assert forall i :: 0 <= i < |es| ==> more[i] == es[i];
      assert more[|es|] == e;
    }
  }

  lemma {:induction false} InsertSorts(r: R.Handle, byKey: bool, es: seq<SortEntry>, e: SortEntry)
    requires AllInside(r, es) && KeyInside(r, e) && Ordered(r, byKey, es)
    ensures Ordered(r, byKey, Insert(r, byKey, es, e))
  {
    hide Less, KeyInside, Ordered;
    if es == [] {
      OrderedShort(r, byKey, e);
    } else {
      var n := |es| - 1;
      var init, last := es[..n], es[n];
      assert es == init + [last];
      OrderedSnoc(r, byKey, init, last);
      if Less(r, byKey, e, last) {
        InsertSorts(r, byKey, init, e);
        InsertPermutes(r, byKey, init, e);
        var s := Insert(r, byKey, init, e);
        forall i | 0 <= i < |s|
          ensures !Less(r, byKey, last, s[i])
        {
          assert s[i] in multiset(s);
          LessChains(r, byKey, e, last, e);
        }
        OrderedSnoc(r, byKey, s, last);
      } else {
        forall i | 0 <= i < |es|
          ensures !Less(r, byKey, e, es[i])
        {
          if i < n {
            assert !Less(r, byKey, last, init[i]) && init[i] == es[i];
            LessChains(r, byKey, es[i], last, e);
          }
        }
        OrderedSnoc(r, byKey, es, e);
      }
    }
  }

  lemma OrderedShort(r: R.Handle, byKey: bool, e: SortEntry)
    requires KeyInside(r, e)
    ensures Ordered(r, byKey, [e]) && [] + [e] == [e]
  {
  }

  /** The library's sort, of which only this contract is used: a permutation in the comparator's order. */
  method SortWithCompare(r: R.Handle, byKey: bool, entries: array<SortEntry>)
    requires AllInside(r, entries[..])
    modifies entries
    ensures multiset(entries[..]) == multiset(old(entries[..])) && AllInside(r, entries[..])
    ensures Ordered(r, byKey, entries[..])
  {
    hide Less, KeyInside;
    var sorted: seq<SortEntry> := [];
    for i := 0 to entries.Length
      invariant AllInside(r, sorted) && Ordered(r, byKey, sorted) && |sorted| == i
      invariant multiset(sorted) == multiset(entries[..i]) && entries[..] == old(entries[..])
    {
      assert entries[..][i] == entries[i];
      InsertSorts(r, byKey, sorted, entries[i]);
      InsertPermutes(r, byKey, sorted, entries[i]);
      sorted := Insert(r, byKey, sorted, entries[i]);
      assert entries[..i + 1] == entries[..i] + [entries[i]];
    }
    assert entries[..entries.Length] == entries[..];
    forall i | 0 <= i < entries.Length {
      entries[i] := sorted[i];
    }
    assert entries[..] == sorted;
  }

  // ----- what that does to the members -----

  /** The members an exporter prints, in its order: by key, or as they stand in the table. */
  ghost predicate OrderOf(ps: seq<Member>, kids: seq<Member>, byKey: bool) {
    && multiset(ps) == multiset(kids)
    && (byKey ==> forall i, j :: 0 <= i < j < |ps| ==> !KeyLess(ps[j].key, ps[i].key))
    && (!byKey ==> ps == kids)
  }

  /** Which entry of the table a list entry is. */
  ghost function PlaceIn(e: SortEntry, items: nat): (i: int) {
    (e.entryOffset - items) / ENTRY_SIZE
  }

  ghost function MemberOf(e: SortEntry, items: nat, kids: seq<Member>): (m: Member) {
    var i := PlaceIn(e, items);
    if 0 <= i < |kids| then kids[i] else Member([], Null)
  }

  ghost function MembersOf(es: seq<SortEntry>, items: nat, kids: seq<Member>): (ms: seq<Member>)
    ensures |ms| == |es|
  {
    if es == [] then [] else MembersOf(es[..|es| - 1], items, kids) + [MemberOf(es[|es| - 1], items, kids)]
  }

  lemma {:induction false} MembersOfAt(es: seq<SortEntry>, items: nat, kids: seq<Member>, i: nat)
    requires i < |es|
    ensures MembersOf(es, items, kids)[i] == MemberOf(es[i], items, kids)
  {
    if i < |es| - 1 {
      MembersOfAt(es[..|es| - 1], items, kids, i);
    }
  }

  lemma FilledMember(es: seq<SortEntry>, items: nat, kids: seq<Member>, i: nat)
    requires Filled(es, items) && |es| == |kids| && i < |es|
    ensures MemberOf(es[i], items, kids) == kids[i]
  {
    assert PlaceIn(es[i], items) == i;
  }

  lemma FilledMembers(es: seq<SortEntry>, items: nat, kids: seq<Member>)
    requires Filled(es, items) && |es| == |kids|
    ensures MembersOf(es, items, kids) == kids
  {
    forall i | 0 <= i < |es|
      ensures MembersOf(es, items, kids)[i] == kids[i]
    {
      MembersOfAt(es, items, kids, i);
      FilledMember(es, items, kids, i);
    }
  }

  /** The last element of one permutation, taken out of the other. */
  lemma TakeOut<T>(a: seq<T>, b: seq<T>) returns (j: nat)
    requires a != [] && multiset(a) == multiset(b)
    ensures j < |b| && b[j] == a[|a| - 1] && multiset(a[..|a| - 1]) == multiset(b[..j] + b[j + 1..])
  {
    SplitLast(a);
    var x := a[|a| - 1];
    assert x in multiset(b);
    j :| 0 <= j < |b| && b[j] == x;
    SplitAt(b, j);
    var rest, without := multiset(a[..|a| - 1]), multiset(b[..j] + b[j + 1..]);
    assert rest + multiset{x} == without + multiset{x};
    assert rest == (rest + multiset{x}) - multiset{x} == (without + multiset{x}) - multiset{x} == without;
  }

  lemma SplitAt<T>(s: seq<T>, j: nat)
    requires j < |s|
    ensures multiset(s) == multiset(s[..j] + s[j + 1..]) + multiset{s[j]}
  {
    assert s == s[..j] + ([s[j]] + s[j + 1..]);
  }

  lemma SplitLast<T>(s: seq<T>)
    requires s != []
    ensures multiset(s) == multiset(s[..|s| - 1]) + multiset{s[|s| - 1]}
  {
    assert s == s[..|s| - 1] + [s[|s| - 1]];
  }

  /** Permuting entries permutes members. */
  lemma {:induction false} MembersPermute(a: seq<SortEntry>, b: seq<SortEntry>, items: nat, kids: seq<Member>)
    requires multiset(a) == multiset(b)
    ensures multiset(MembersOf(a, items, kids)) == multiset(MembersOf(b, items, kids))
    decreases |a|
  {
    hide MemberOf;
    assert |a| == |multiset(a)| == |multiset(b)| == |b|;
    if a != [] {
      var j := TakeOut(a, b);
      MembersPermute(a[..|a| - 1], b[..j] + b[j + 1..], items, kids);
      MembersAround(b, j, items, kids);
    }
  }

  lemma MembersAround(b: seq<SortEntry>, j: nat, items: nat, kids: seq<Member>)
    requires j < |b|
    ensures multiset(MembersOf(b, items, kids)) ==
      multiset(MembersOf(b[..j] + b[j + 1..], items, kids)) + multiset{MemberOf(b[j], items, kids)}
  {
    hide MemberOf, MembersOf;
    var front, back := b[..j], b[j + 1..];
    MembersConcat(front, back, items, kids);
    assert b == front + ([b[j]] + back);
    MembersConcat(front, [b[j]] + back, items, kids);
    MembersConcat([b[j]], back, items, kids);
    MembersOne(b[j], items, kids);
  }

  lemma MembersOne(e: SortEntry, items: nat, kids: seq<Member>)
    ensures MembersOf([e], items, kids) == [MemberOf(e, items, kids)]
  {
    assert [e][..0] == [];
  }

  lemma {:induction false} MembersConcat(a: seq<SortEntry>, b: seq<SortEntry>, items: nat, kids: seq<Member>)
    ensures MembersOf(a + b, items, kids) == MembersOf(a, items, kids) + MembersOf(b, items, kids)
    decreases |b|
  {
    hide MemberOf;
    if b == [] {
      assert a + b == a;
    } else {
      var n := |b| - 1;
      MembersConcat(a, b[..n], items, kids);
      assert (a + b)[..|a + b| - 1] == a + b[..n];
    }
  }

  /** The entry that comes last by offset is the table's last. */
  lemma LastByOffset(r: R.Handle, es: seq<SortEntry>, was: seq<SortEntry>, items: nat)
    requires AllInside(r, es) && Ordered(r, false, es) && Filled(was, items) && multiset(es) == multiset(was) && |es| == |was| > 0
    ensures es[|es| - 1] == was[|was| - 1]
  {
    hide KeyInside;
    var n := |es| - 1;
    assert es[n] in multiset(was) && was[n] in multiset(es);
    var k :| 0 <= k < |was| && was[k] == es[n];
    var j :| 0 <= j < |es| && es[j] == was[n];
    assert j < n ==> !Less(r, false, es[n], es[j]);
  }

  lemma SameRest<T>(a: seq<T>, b: seq<T>)
    requires a != [] && b != [] && multiset(a) == multiset(b) && a[|a| - 1] == b[|b| - 1]
    ensures multiset(a[..|a| - 1]) == multiset(b[..|b| - 1])
  {
    SplitLast(a);
    SplitLast(b);
    var x, p, q := a[|a| - 1], multiset(a[..|a| - 1]), multiset(b[..|b| - 1]);
    assert p == (p + multiset{x}) - multiset{x} == (q + multiset{x}) - multiset{x} == q;
  }

  lemma OrderedFront(r: R.Handle, es: seq<SortEntry>, n: nat)
    requires AllInside(r, es) && Ordered(r, false, es) && n <= |es|
    ensures AllInside(r, es[..n]) && Ordered(r, false, es[..n])
  {
    hide KeyInside;
  }

  /** Entries that ascend strictly in the table stay put when sorted by where they stand. */
  lemma {:induction false} OffsetOrderIsTableOrder(r: R.Handle, es: seq<SortEntry>, was: seq<SortEntry>, items: nat)
    requires AllInside(r, es) && Ordered(r, false, es) && Filled(was, items) && multiset(es) == multiset(was)
    ensures es == was
    decreases |es|
  {
    hide KeyInside, Less, Ordered;
    assert |es| == |multiset(es)| == |multiset(was)| == |was|;
    if es != [] {
      var n := |es| - 1;
      LastByOffset(r, es, was, items);
      SameRest(es, was);
      OrderedFront(r, es, n);
      OffsetOrderIsTableOrder(r, es[..n], was[..n], items);
      assert es == es[..n] + [es[n]] && was == was[..n] + [was[n]];
    }
  }

  /** What the sorted list names: the same members, in the exporter's order. */
  lemma SortedNames(r: R.Handle, hash: Hash64, items: nat, byKey: bool, was: seq<SortEntry>, es: seq<SortEntry>, kids: seq<Member>)
    returns (ps: seq<Member>)
    requires R.Valid(r) && AllName(r, hash, was, kids) && Filled(was, items)
    requires multiset(es) == multiset(was) && AllInside(r, es) && Ordered(r, byKey, es)
    ensures AllName(r, hash, es, ps) && OrderOf(ps, kids, byKey)
  {
    hide Holds, KeyInside;
    ps := MembersOf(es, items, kids);
    assert |es| == |multiset(es)| == |multiset(was)| == |was|;
    forall i | 0 <= i < |es|
      ensures Names(r, hash, es[i], ps[i])
    {
      assert es[i] in multiset(was);
      var k :| 0 <= k < |was| && was[k] == es[i];
      FilledMember(was, items, kids, k);
      MembersOfAt(es, items, kids, i);
    }
    FilledMembers(was, items, kids);
    MembersPermute(es, was, items, kids);
    if byKey {
      KeysInOrder(r, hash, es, ps);
    } else {
      OffsetOrderIsTableOrder(r, es, was, items);
    }
  }

  lemma KeysInOrder(r: R.Handle, hash: Hash64, es: seq<SortEntry>, ps: seq<Member>)
    requires R.Valid(r) && AllName(r, hash, es, ps) && AllInside(r, es) && Ordered(r, true, es)
    ensures forall i, j :: 0 <= i < j < |ps| ==> !KeyLess(ps[j].key, ps[i].key)
  {
    hide Holds, KeyLess;
    forall i, j | 0 <= i < j < |ps|
      ensures !KeyLess(ps[j].key, ps[i].key)
    {
      assert Names(r, hash, es[i], ps[i]) && Names(r, hash, es[j], ps[j]) && !Less(r, true, es[j], es[i]);
    }
  }

  lemma NamedInside(r: R.Handle, hash: Hash64, es: seq<SortEntry>, kids: seq<Member>)
    requires R.Valid(r) && AllName(r, hash, es, kids)
    ensures AllInside(r, es)
  {
    hide Holds;
    forall i | 0 <= i < |es|
      ensures KeyInside(r, es[i])
    {
      assert Names(r, hash, es[i], kids[i]);
    }
  }

  /** The table's entries in the exporter's order, and the members they name. */
  method SortedEntries(r: R.Handle, items: nat, count: nat, byKey: bool, ghost hash: Hash64, ghost floor: int, ghost kids: seq<Member>)
    returns (entries: array<SortEntry>, ghost ps: seq<Member>)
    requires R.Valid(r) && count == |kids| && TableHolds(r, hash, items, floor, kids)
    ensures fresh(entries) && AllName(r, hash, entries[..], ps) && OrderOf(ps, kids, byKey)
  {
    hide TableHolds, Names, KeyInside, Ordered, Filled, OrderOf;
    entries := FillEntries(r, items, count, hash, floor, kids);
    ghost var was := entries[..];
    NamedInside(r, hash, was, kids);
    SortWithCompare(r, byKey, entries);
    ps := SortedNames(r, hash, items, byKey, was, entries[..], kids);
  }
}
