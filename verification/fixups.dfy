/** Relocating pool offsets: the recorded positions are exactly the pool-offset fields, and each is raised once. */
module Fixups {
  import opened Bytes
  import opened Document
  import opened EncoderBuffer
  import opened Format
  import opened PoolLayout
  import opened Sequences
  import opened StableSort
  import L = Layout

  /** Adds `delta`, modulo 2^32, to the 32-bit word at `at`. */
  function PatchOne(data: seq<byte>, at: nat, delta: nat): (r: seq<byte>)
    requires at + 4 <= |data|
    ensures |r| == |data|
  {
    Spliced(data, at, LE(Load32(data, at) + delta, 4))
  }

  predicate InRange(fixups: seq<nat>, lo: nat, hi: nat) {
    forall i :: 0 <= i < |fixups| ==> lo <= fixups[i] && fixups[i] + 4 <= hi
  }

  function Patched(data: seq<byte>, fixups: seq<nat>, delta: nat): (r: seq<byte>)
    requires InRange(fixups, 0, |data|)
    ensures |r| == |data|
  {
    if fixups == [] then data
    else PatchOne(Patched(data, fixups[..|fixups| - 1], delta), fixups[|fixups| - 1], delta)
  }

  lemma {:induction false} PatchedConcat(data: seq<byte>, a: seq<nat>, b: seq<nat>, delta: nat)
    requires InRange(a, 0, |data|) && InRange(b, 0, |data|)
    ensures InRange(a + b, 0, |data|)
    ensures Patched(data, a + b, delta) == Patched(Patched(data, a, delta), b, delta)
  {
    if b == [] {
      assert a + b == a;
    } else {
      var n := |b| - 1;
      PatchedConcat(data, a, b[..n], delta);
      assert (a + b)[..|a + b| - 1] == a + b[..n];
    }
  }

  lemma PatchedSnoc(data: seq<byte>, a: seq<nat>, at: nat, delta: nat)
    requires InRange(a, 0, |data|) && at + 4 <= |data|
    ensures InRange(a + [at], 0, |data|)
    ensures Patched(data, a + [at], delta) == PatchOne(Patched(data, a, delta), at, delta)
  {
    assert (a + [at])[..|a|] == a;
  }

  // ----- patching a piece where it stands -----

  /** Applying `f` to the bytes `e`, standing between `pre` and `post`, turns them into `e'` and touches nothing else. */
  ghost predicate Patches(pre: seq<byte>, e: seq<byte>, e': seq<byte>, post: seq<byte>, f: seq<nat>, delta: nat) {
    && |e| == |e'|
    && InRange(f, |pre|, |pre| + |e|)
    && InRange(f, 0, |pre + e + post|)
    && Patched(pre + e + post, f, delta) == pre + e' + post
  }

  lemma PatchesNothing(pre: seq<byte>, e: seq<byte>, post: seq<byte>, delta: nat)
    ensures Patches(pre, e, e, post, [], delta)
  {
  }

  lemma PatchesAfterLead(pre: seq<byte>, lead: seq<byte>, e: seq<byte>, e': seq<byte>, post: seq<byte>, f: seq<nat>, delta: nat)
    requires Patches(pre + lead, e, e', post, f, delta)
    ensures Patches(pre, lead + e, lead + e', post, f, delta)
  {
    Associate4(pre, lead, e, post);
    Associate4(pre, lead, e', post);
  }

  lemma PatchesBeforeTail(pre: seq<byte>, e: seq<byte>, e': seq<byte>, tail: seq<byte>, post: seq<byte>, f: seq<nat>, delta: nat)
    requires Patches(pre, e, e', tail + post, f, delta)
    ensures Patches(pre, e + tail, e' + tail, post, f, delta)
  {
    Associate4(pre, e, tail, post);
    Associate4(pre, e', tail, post);
  }

  /** Two neighbours, the left one first. */
  lemma PatchesLeftThenRight(pre: seq<byte>, a: seq<byte>, a': seq<byte>, b: seq<byte>, b': seq<byte>, post: seq<byte>,
                             fa: seq<nat>, fb: seq<nat>, delta: nat)
    requires Patches(pre, a, a', b + post, fa, delta) && Patches(pre + a', b, b', post, fb, delta)
    ensures Patches(pre, a + b, a' + b', post, fa + fb, delta)
  {
    Associate4(pre, a, b, post);
    Associate4(pre, a', b, post);
    Associate4(pre, a', b', post);
    PatchedConcat(pre + a + (b + post), fa, fb, delta);
  }

  /** Two neighbours, the right one first. */
  lemma PatchesRightThenLeft(pre: seq<byte>, a: seq<byte>, a': seq<byte>, b: seq<byte>, b': seq<byte>, post: seq<byte>,
                             fa: seq<nat>, fb: seq<nat>, delta: nat)
    requires Patches(pre + a, b, b', post, fb, delta) && Patches(pre, a, a', b' + post, fa, delta)
    ensures Patches(pre, a + b, a' + b', post, fb + fa, delta)
  {
    Associate4(pre, a, b, post);
    Associate4(pre, a, b', post);
    Associate4(pre, a', b', post);
    PatchedConcat(pre + a + (b + post), fb, fa, delta);
  }

  // ----- one field -----

  lemma LEModulo(n: nat, m: nat, k: nat)
    requires n % Pow256(k) == m % Pow256(k)
    ensures LE(n, k) == LE(m, k)
  {
    UnLEOfLE(n, k);
    UnLEOfLE(m, k);
    LEOfUnLE(LE(n, k));
    LEOfUnLE(LE(m, k));
  }

  lemma PatchField(pre: seq<byte>, value: nat, post: seq<byte>, delta: nat)
    ensures Patches(pre, LE(value, 4), LE(delta + value, 4), post, [|pre|], delta)
  {
    hide LE, Load32, Pow256;
    var field := LE(value, 4);
    var data := pre + field + post;
    assert data[|pre|..|pre| + 4] == field && data[..|pre|] == pre && data[|pre| + 4..] == post;
    AtLoad32(data, |pre|, value);
    PowersOf256();
    LEModulo(value % TWO_32 + delta, delta + value, 4);
    PatchedSnoc(data, [], |pre|, delta);
    assert [|pre|] == [] + [|pre|];
  }

  /** A field with bytes in front of it and behind it. */
  lemma PatchInside(pre: seq<byte>, lead: seq<byte>, value: nat, tail: seq<byte>, post: seq<byte>, delta: nat)
    ensures Patches(pre, lead + (LE(value, 4) + tail), lead + (LE(delta + value, 4) + tail), post, [|pre| + |lead|], delta)
  {
    var field, field' := LE(value, 4), LE(delta + value, 4);
    PatchField(pre + lead, value, tail + post, delta);
    PatchesBeforeTail(pre + lead, field, field', tail, post, [|pre + lead|], delta);
    PatchesAfterLead(pre, lead, field + tail, field' + tail, post, [|pre + lead|], delta);
  }

  // ----- entry tables -----

  lemma PatchEntry(pre: seq<byte>, e: L.Entry, post: seq<byte>, delta: nat)
    ensures Patches(pre, L.EntryBytes(e, 0), L.EntryBytes(e, delta), post, [|pre| + 8], delta)
  {
    PatchInside(pre, LE(e.hash, 8), e.item.keyOffset, LE(e.item.keyLength, 4) + LE(e.item.valueOffset, 8), post, delta);
  }

  lemma {:induction false} PatchTable(pre: seq<byte>, es: seq<L.Entry>, post: seq<byte>, delta: nat)
    ensures Patches(pre, L.EntriesBytes(es, 0), L.EntriesBytes(es, delta), post, L.TableFixups(|pre|, |es|), delta)
  {
    if es == [] {
      PatchesNothing(pre, [], post, delta);
    } else {
      var n := |es| - 1;
      var init, init' := L.EntriesBytes(es[..n], 0), L.EntriesBytes(es[..n], delta);
      var last, last' := L.EntryBytes(es[n], 0), L.EntryBytes(es[n], delta);
      PatchTable(pre, es[..n], last + post, delta);
      PatchEntry(pre + init', es[n], post, delta);
      PatchesLeftThenRight(pre, init, init', last, last', post, L.TableFixups(|pre|, n), [|pre + init'| + 8], delta);
      TableSnoc(|pre|, es, 0);
      TableSnoc(|pre|, es, delta);
    }
  }

  lemma TableSnoc(start: nat, es: seq<L.Entry>, delta: nat)
    requires es != []
    ensures var n := |es| - 1;
      && L.EntriesBytes(es, delta) == L.EntriesBytes(es[..n], delta) + L.EntryBytes(es[n], delta)
      && L.TableFixups(start, |es|) == L.TableFixups(start, n) + [start + |L.EntriesBytes(es[..n], delta)| + 8]
  {
  }

  // ----- whole trees -----

  function Relocated(c: L.Context, delta: nat): (c': L.Context) {
    c.(delta := delta)
  }

  lemma {:induction false} PendingIgnoresDelta(kids: seq<Member>, p: nat, c: L.Context, delta: nat)
    ensures L.Pending(kids, p, Relocated(c, delta)) == L.Pending(kids, p, c)
    ensures L.ElementBytes(kids, p, Relocated(c, delta)) == L.ElementBytes(kids, p, c)
  {
    if kids != [] {
      PendingIgnoresDelta(kids[..|kids| - 1], p, c, delta);
    }
  }

  /** Applying the fixups recorded for `v` to its bytes, wherever they stand, gives the bytes with relocated pool offsets. */
  lemma {:induction false} PatchEmit(v: Value, pre: seq<byte>, post: seq<byte>, c: L.Context, delta: nat)
    requires c.delta == 0
    ensures Patches(pre, L.Emit(v, |pre|, c), L.Emit(v, |pre|, Relocated(c, delta)), post, L.Fixups(v, |pre|), delta)
    decreases v, 0
  {
    if v.IsContainer() {
      PatchContainer(v, pre, post, c, delta);
    } else {
      PatchScalar(v, pre, post, c, delta);
    }
  }

  lemma PatchScalar(v: Value, pre: seq<byte>, post: seq<byte>, c: L.Context, delta: nat)
    requires c.delta == 0 && !v.IsContainer()
    ensures Patches(pre, L.EmitScalar(v, |pre|, c), L.EmitScalar(v, |pre|, Relocated(c, delta)), post, L.ScalarFixups(v, |pre|), delta)
  {
    if v.String? {
      PatchInside(pre, L.Lead(v, |pre|), OffsetOf(c.strings, v.s), LE(|v.s|, 4), post, delta);
    } else {
      PatchesNothing(pre, L.EmitScalar(v, |pre|, c), post, delta);
    }
  }

  lemma ContainerParts(v: Value, p: nat, c: L.Context)
    requires v.IsContainer()
    ensures var q := L.KidsStart(v, p);
      && L.EmitContainer(v, p, c) == (L.Lead(v, p) + L.CountHeader(v)) + (L.Table(v, q, c) + L.EmitKids(v.kids, q, c))
      && L.Fixups(v, p) == L.KidsFixups(v.kids, q) + L.OwnFixups(v, p)
      && p + |L.Lead(v, p) + L.CountHeader(v)| == L.KindPos(v, p) + 9
      && p + |L.Lead(v, p) + L.CountHeader(v)| + |L.Table(v, q, c)| == q
  {
  }

  lemma {:induction false} PatchContainer(v: Value, pre: seq<byte>, post: seq<byte>, c: L.Context, delta: nat)
    requires c.delta == 0 && v.IsContainer()
    ensures Patches(pre, L.EmitContainer(v, |pre|, c), L.EmitContainer(v, |pre|, Relocated(c, delta)), post, L.Fixups(v, |pre|), delta)
    decreases v.kids, 1
  {
    var c' := Relocated(c, delta);
    var q := L.KidsStart(v, |pre|);
    var lead := L.Lead(v, |pre|) + L.CountHeader(v);
    var table, table' := L.Table(v, q, c), L.Table(v, q, c');
    var kids, kids' := L.EmitKids(v.kids, q, c), L.EmitKids(v.kids, q, c');
    ContainerParts(v, |pre|, c);
    ContainerParts(v, |pre|, c');
    PatchKids(v.kids, pre + lead + table, post, c, delta);
    PatchOwnTable(v, |pre|, pre + lead, q, kids' + post, c, delta);
    PatchesRightThenLeft(pre + lead, table, table', kids, kids', post, L.OwnFixups(v, |pre|), L.KidsFixups(v.kids, q), delta);
    PatchesAfterLead(pre, lead, table + kids, table' + kids', post, L.Fixups(v, |pre|), delta);
  }

  lemma PatchOwnTable(v: Value, p: nat, head: seq<byte>, q: nat, post: seq<byte>, c: L.Context, delta: nat)
    requires v.IsContainer() && c.delta == 0 && |head| == L.KindPos(v, p) + 9
    ensures Patches(head, L.Table(v, q, c), L.Table(v, q, Relocated(c, delta)), post, L.OwnFixups(v, p), delta)
  {
    PendingIgnoresDelta(v.kids, q, c, delta);
    if v.Block? {
      PatchTable(head, StableSorted(L.Pending(v.kids, q, c)), post, delta);
    } else {
      PatchesNothing(head, L.Table(v, q, c), post, delta);
    }
  }

  lemma {:induction false} PatchKids(kids: seq<Member>, pre: seq<byte>, post: seq<byte>, c: L.Context, delta: nat)
    requires c.delta == 0
    ensures Patches(pre, L.EmitKids(kids, |pre|, c), L.EmitKids(kids, |pre|, Relocated(c, delta)), post, L.KidsFixups(kids, |pre|), delta)
    decreases kids, 0
  {
    if kids == [] {
      PatchesNothing(pre, [], post, delta);
    } else {
      var n := |kids| - 1;
      var c' := Relocated(c, delta);
      var init, init' := L.EmitKids(kids[..n], |pre|, c), L.EmitKids(kids[..n], |pre|, c');
      L.EmitKidsSize(kids[..n], |pre|, c');
      var q := L.KidPos(kids, n, |pre|);
      assert |pre + init'| == q;
      var last, last' := L.Emit(kids[n].value, q, c), L.Emit(kids[n].value, q, c');
      PatchKids(kids[..n], pre, last + post, c, delta);
      PatchEmit(kids[n].value, pre + init', post, c, delta);
      PatchesLeftThenRight(pre, init, init', last, last', post, L.KidsFixups(kids[..n], |pre|), L.Fixups(kids[n].value, q), delta);
    }
  }

  // ----- disjointness -----

  /** Two 4-byte fields that do not overlap. */
  ghost predicate Apart(a: nat, b: nat) {
    a + 4 <= b || b + 4 <= a
  }

  ghost predicate PairwiseApart(fixups: seq<nat>) {
    forall i, j :: 0 <= i < j < |fixups| ==> Apart(fixups[i], fixups[j])
  }

  lemma ApartConcat(a: seq<nat>, b: seq<nat>, lo: nat, mid: nat, hi: nat)
    requires PairwiseApart(a) && PairwiseApart(b)
    requires InRange(a, lo, mid) && InRange(b, mid, hi)
    requires lo <= mid <= hi
    ensures PairwiseApart(a + b) && PairwiseApart(b + a)
    ensures InRange(a + b, lo, hi) && InRange(b + a, lo, hi)
  {
  }

  lemma {:induction false} TableInRange(start: nat, n: nat)
    ensures InRange(L.TableFixups(start, n), start, start + n * ENTRY_SIZE)
  {
    if n > 0 {
      TableInRange(start, n - 1);
    }
  }

  lemma OwnFixupsInRange(v: Value, p: nat)
    requires v.IsContainer()
    ensures InRange(L.OwnFixups(v, p), p, L.KidsStart(v, p))
  {
    TableInRange(L.KindPos(v, p) + 9, |v.kids|);
  }

  lemma {:induction false} TableApart(start: nat, n: nat)
    ensures PairwiseApart(L.TableFixups(start, n))
  {
    if n > 0 {
      TableApart(start, n - 1);
      TableInRange(start, n - 1);
    }
  }

  /** The recorded fields lie inside the bytes of the value and do not overlap. */
  lemma {:induction false} FixupsApart(v: Value, p: nat)
    ensures PairwiseApart(L.Fixups(v, p)) && InRange(L.Fixups(v, p), p, p + L.Size(v, p))
    decreases v, 0
  {
    if v.IsContainer() {
      var q := L.KidsStart(v, p);
      KidsFixupsApart(v.kids, q);
      OwnFixupsInRange(v, p);
      TableApart(L.KindPos(v, p) + 9, |v.kids|);
      L.SizeOfContainer(v, p);
      ApartConcat(L.OwnFixups(v, p), L.KidsFixups(v.kids, q), p, q, p + L.Size(v, p));
    }
  }

  lemma {:induction false} KidsFixupsApart(kids: seq<Member>, p: nat)
    ensures PairwiseApart(L.KidsFixups(kids, p)) && InRange(L.KidsFixups(kids, p), p, p + L.KidsSize(kids, p))
    decreases kids, 0
  {
    if kids != [] {
      var n := |kids| - 1;
      var q := L.KidPos(kids, n, p);
      KidsFixupsApart(kids[..n], p);
      FixupsApart(kids[n].value, q);
      ApartConcat(L.KidsFixups(kids[..n], p), L.Fixups(kids[n].value, q), p, q, q + L.Size(kids[n].value, q));
    }
  }

  /** Byte `k` is in no recorded field. */
  ghost predicate Outside(fixups: seq<nat>, k: nat) {
    forall i :: 0 <= i < |fixups| ==> !(fixups[i] <= k < fixups[i] + 4)
  }

  lemma PatchOneFrame(data: seq<byte>, at: nat, delta: nat, k: nat)
    requires at + 4 <= |data| && k < |data| && !(at <= k < at + 4)
    ensures PatchOne(data, at, delta)[k] == data[k]
  {
    hide Load32, LE;
  }

  /** A pass over the recorded fields leaves every other byte alone. */
  lemma {:induction false} PatchedFrame(data: seq<byte>, fixups: seq<nat>, delta: nat, k: nat)
    requires InRange(fixups, 0, |data|) && k < |data| && Outside(fixups, k)
    ensures Patched(data, fixups, delta)[k] == data[k]
  {
    hide PatchOne;
    if fixups != [] {
      var n := |fixups| - 1;
      PatchedFrame(data, fixups[..n], delta, k);
      PatchOneFrame(Patched(data, fixups[..n], delta), fixups[n], delta, k);
    }
  }

  /** A pass over fields that do not overlap raises each by `delta`, once. */
  lemma {:induction false} PatchedOnce(data: seq<byte>, fixups: seq<nat>, delta: nat, i: nat)
    requires InRange(fixups, 0, |data|) && PairwiseApart(fixups) && i < |fixups|
    ensures Load32(Patched(data, fixups, delta), fixups[i]) == (Load32(data, fixups[i]) + delta) % TWO_32
  {
    hide PatchOne, Load32;
    var n := |fixups| - 1;
    var init, at := fixups[..n], fixups[n];
    var was := Patched(data, init, delta);
    if i < n {
      PatchedOnce(data, init, delta, i);
      assert Apart(fixups[i], at);
      PatchElsewhere(was, at, delta, fixups[i]);
    } else {
      forall k | at <= k < at + 4
        ensures was[k] == data[k]
      {
        assert forall j :: 0 <= j < n ==> Apart(fixups[j], at);
        PatchedFrame(data, init, delta, k);
      }
      SameWord(was, data, at);
      PatchRaises(was, at, delta);
    }
  }

  lemma SameWord(a: seq<byte>, b: seq<byte>, at: nat)
    requires at + 4 <= |a| == |b| && forall k :: at <= k < at + 4 ==> a[k] == b[k]
    ensures Load32(a, at) == Load32(b, at)
  {
    assert a[at..at + 4] == b[at..at + 4];
  }

  lemma PatchRaises(data: seq<byte>, at: nat, delta: nat)
    requires at + 4 <= |data|
    ensures Load32(PatchOne(data, at, delta), at) == (Load32(data, at) + delta) % TWO_32
  {
    assert At(PatchOne(data, at, delta), at, LE(Load32(data, at) + delta, 4));
    AtLoad32(PatchOne(data, at, delta), at, Load32(data, at) + delta);
  }

  lemma PatchElsewhere(data: seq<byte>, at: nat, delta: nat, other: nat)
    requires at + 4 <= |data| && other + 4 <= |data| && Apart(at, other)
    ensures Load32(PatchOne(data, at, delta), other) == Load32(data, other)
  {
    assert PatchOne(data, at, delta)[other..other + 4] == data[other..other + 4];
  }
}
