/** Whole runs of an iterator over a written container. */
module Iteration {
  import opened Bytes
  import opened Document
  import opened Format
  import opened Options
  import opened ReadBack
  import Find
  import R = Reader

  /** What `n` calls in a row hand out from item `index` on. A call that hands out nothing does not move the cursor. */
  function Handed(r: R.Handle, isBlock: bool, offset: nat, index: nat, n: nat): (cs: seq<Option<R.Child>>)
    requires R.Valid(r)
    ensures |cs| == n
    decreases n
  {
    if n == 0 then []
    else
      var c := R.NextAt(r, isBlock, offset, index);
      [c] + Handed(r, isBlock, offset, if c.Some? then index + 1 else index, n - 1)
  }

  /** That is what calling the iterator again and again gives. */
  method CallNext(it: R.Iterator, n: nat, ghost offset: nat, ghost index: nat) returns (cs: seq<Option<R.Child>>)
    requires R.Valid(it.reader) && it.Before(offset, index)
    modifies it
    ensures cs == Handed(it.reader, it.isBlock, offset, index, n)
  {
    hide R.NextAt, R.Iterator.Before;
    cs := [];
    ghost var at := index;
    for i := 0 to n
      invariant it.Before(offset, at) && |cs| == i
      invariant cs + Handed(it.reader, it.isBlock, offset, at, n - i) == Handed(it.reader, it.isBlock, offset, index, n)
    {
      var c := it.Next(offset, at);
      assert cs + Handed(it.reader, it.isBlock, offset, at, n - i)
          == (cs + [c]) + Handed(it.reader, it.isBlock, offset, if c.Some? then at + 1 else at, n - i - 1);
      at := if c.Some? then at + 1 else at;
      cs := cs + [c];
    }
  }

  /** Handed out: child `i` of the container, and the place of its value. */
  ghost predicate IsChild(r: R.Handle, hash: Hash64, c: Option<R.Child>, kids: seq<Member>, i: nat)
    requires R.Valid(r)
  {
    && i < |kids|
    && c.Some? && c.value.key == kids[i].key
    && Holds(r, hash, c.value.valueOffset, kids[i].value)
  }

  lemma NextIsChild(r: R.Handle, hash: Hash64, offset: nat, v: Value, i: nat)
    requires R.Valid(r) && Holds(r, hash, offset, v) && v.IsContainer()
    ensures i < |v.kids| ==> IsChild(r, hash, R.NextAt(r, v.Block?, offset, i), v.kids, i)
    ensures i >= |v.kids| ==> R.NextAt(r, v.Block?, offset, i).None?
  {
    hide R.ContainerBody, R.KindAt, R.ReadEntry, R.EntryChild;
    if i < |v.kids| {
      if v.Block? {
        assert EntryHolds(r, hash, R.BlockBody(r, offset).value.items, offset, v.kids, i);
        var e := R.ReadEntry(r, R.BlockBody(r, offset).value.items + i * ENTRY_SIZE).value;
        Find.HeldKind(r, hash, e.item.valueOffset, v.kids[i].value);
      } else {
        assert ElementHolds(r, hash, offset, v.kids, i);
        Find.HeldKind(r, hash, R.ArrayAt(r, offset, i).value, v.kids[i].value);
      }
    }
  }

  /**
   * A whole run over a container that is held in a buffer: from child `index` on, each call hands out the next child,
   * in order and each once, and every call after the last child hands out nothing.
   */
  lemma {:induction false} RunVisitsAll(r: R.Handle, hash: Hash64, offset: nat, v: Value, index: nat, n: nat)
    requires R.Valid(r) && Holds(r, hash, offset, v) && v.IsContainer() && index <= |v.kids|
    ensures forall k :: 0 <= k < n && index + k < |v.kids| ==>
      IsChild(r, hash, Handed(r, v.Block?, offset, index, n)[k], v.kids, index + k)
    ensures forall k :: 0 <= k < n && index + k >= |v.kids| ==> Handed(r, v.Block?, offset, index, n)[k].None?
    decreases n
  {
    hide R.NextAt, Holds, IsChild;
    if n > 0 {
      NextIsChild(r, hash, offset, v, index);
      var c := R.NextAt(r, v.Block?, offset, index);
      assert index < |v.kids| ==> c.Some? by { ChildIsSome(r, hash, c, v.kids, index); }
      var next := if c.Some? then index + 1 else index;
      RunVisitsAll(r, hash, offset, v, next, n - 1);
      var rest := Handed(r, v.Block?, offset, next, n - 1);
      assert forall k :: 0 < k < n ==> Handed(r, v.Block?, offset, index, n)[k] == rest[k - 1];
    }
  }

  lemma ChildIsSome(r: R.Handle, hash: Hash64, c: Option<R.Child>, kids: seq<Member>, i: nat)
    requires R.Valid(r)
    ensures IsChild(r, hash, c, kids, i) ==> c.Some?
  {
  }
}
