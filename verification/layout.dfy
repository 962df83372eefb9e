/** The bytes the encoder lays a tree out as: nodes, entry tables, fixups. */
module Layout {
  import opened Bytes
  import opened Document
  import opened Format
  import opened PoolLayout
  import opened StableSort

  // ----- kinds -----

  function KindByte(v: Value): (k: byte) {
    match v
    case Null => 0x00
    case Bool(b) => if b then 0x02 else 0x01
    case Int64(_) => 0x03
    case UInt64(_) => 0x04
    case Float64(_) => 0x05
    case String(_) => 0x06
    case Block(_) => 0x10
    case Array(_) => 0x11
  }

  function BodyAlign(v: Value): (a: nat)
    ensures a in {1, 4, 8}
  {
    match v
    case Null => 1
    case Bool(_) => 1
    case String(_) => 4
    case _ => 8
  }

  /** Where the kind byte of a value goes when `p` bytes are already there: just before its aligned body. */
  function KindPos(v: Value, p: nat): (k: nat)
    ensures p <= k
  {
    AlignUp(p + 1, BodyAlign(v)) - 1
  }

  function ItemSize(v: Value): (n: nat) {
    if v.Block? then ENTRY_SIZE else ELEMENT_SIZE
  }

  /** Where the children of a container start: after the kind byte, the 8-byte header and the reserved table. */
  function KidsStart(v: Value, p: nat): (q: nat)
    requires v.IsContainer()
    ensures q > p
  {
    KindPos(v, p) + 9 + ItemSize(v) * |v.kids|
  }

  // ----- sizes -----

  function Size(v: Value, p: nat): (n: nat)
    ensures n > KindPos(v, p) - p
    decreases v, 0
  {
    KindPos(v, p) - p + 1 +
    match v
    case Null => 0
    case Bool(_) => 0
    case Array(kids) => 8 + ELEMENT_SIZE * |kids| + KidsSize(kids, KidsStart(v, p))
    case Block(kids) => 8 + ENTRY_SIZE * |kids| + KidsSize(kids, KidsStart(v, p))
    case _ => 8
  }

  function KidsSize(kids: seq<Member>, p: nat): (n: nat)
    decreases kids, 0
  {
    if kids == [] then 0
    else
      var before := KidsSize(kids[..|kids| - 1], p);
      before + Size(kids[|kids| - 1].value, p + before)
  }

  /** Where child `i` is emitted. */
  function KidPos(kids: seq<Member>, i: nat, p: nat): (q: nat)
    requires i < |kids|
  {
    p + KidsSize(kids[..i], p)
  }

  // ----- entry tables -----

  datatype EntryBody = EntryBody(keyOffset: nat, keyLength: nat, valueOffset: nat)

  type Entry = Keyed<EntryBody>

  /** What the encoder knows while it emits: where the nodes will be, the pool's strings, how far pool offsets have been relocated. */
  datatype Context = Context(base: nat, strings: seq<Str>, delta: nat, hash: Hash64)

  function EntryBytes(e: Entry, delta: nat): (r: seq<byte>)
    ensures |r| == ENTRY_SIZE
  {
    LE(e.hash, 8) + (LE(delta + e.item.keyOffset, 4) + (LE(e.item.keyLength, 4) + LE(e.item.valueOffset, 8)))
  }

  function EntriesBytes(es: seq<Entry>, delta: nat): (r: seq<byte>)
    ensures |r| == ENTRY_SIZE * |es|
  {
    if es == [] then [] else EntriesBytes(es[..|es| - 1], delta) + EntryBytes(es[|es| - 1], delta)
  }

  /** The entry of one child that is emitted at `q`. */
  function EntryFor(kid: Member, q: nat, c: Context): (e: Entry) {
    Keyed(c.hash(kid.key), EntryBody(OffsetOf(c.strings, kid.key), |kid.key|, c.base + KindPos(kid.value, q)))
  }

  /** The entries of all children, in the order they were added. */
  function Pending(kids: seq<Member>, p: nat, c: Context): (es: seq<Entry>)
    ensures |es| == |kids|
  {
    if kids == [] then []
    else
      var n := |kids| - 1;
      Pending(kids[..n], p, c) + [EntryFor(kids[n], KidPos(kids, n, p), c)]
  }

  function ElementBytes(kids: seq<Member>, p: nat, c: Context): (r: seq<byte>)
    ensures |r| == ELEMENT_SIZE * |kids|
  {
    if kids == [] then []
    else
      var n := |kids| - 1;
      ElementBytes(kids[..n], p, c) + LE(c.base + KindPos(kids[n].value, KidPos(kids, n, p)), 8)
  }

  /** The reserved slots, filled. */
  function Table(v: Value, p: nat, c: Context): (r: seq<byte>)
    requires v.IsContainer()
    ensures |r| == ItemSize(v) * |v.kids|
  {
    if v.Block? then EntriesBytes(StableSorted(Pending(v.kids, p, c)), c.delta)
    else ElementBytes(v.kids, p, c)
  }

  // ----- nodes -----

  function CountHeader(v: Value): (r: seq<byte>)
    requires v.IsContainer()
    ensures |r| == 8
  {
    LE(|v.kids|, 4) + LE(|v.kids| * ItemSize(v), 4)
  }

  /** Two's complement. */
  function Bits64(i: i64): (n: u64) {
    if i < 0 then i + TWO_64 else i
  }

  function ScalarBody(v: Value, c: Context): (r: seq<byte>)
    requires !v.IsContainer()
  {
    match v
    case Null => []
    case Bool(_) => []
    case Int64(i) => LE(Bits64(i), 8)
    case UInt64(u) => LE(u, 8)
    case Float64(bits) => LE(bits, 8)
    case String(s) => LE(c.delta + OffsetOf(c.strings, s), 4) + LE(|s|, 4)
  }

  /** The padding and kind byte in front of a body. */
  function Lead(v: Value, p: nat): (r: seq<byte>)
    ensures |r| == KindPos(v, p) - p + 1
  {
    Zeros(KindPos(v, p) - p) + [KindByte(v)]
  }

  function EmitScalar(v: Value, p: nat, c: Context): (r: seq<byte>)
    requires !v.IsContainer()
  {
    Lead(v, p) + ScalarBody(v, c)
  }

  /** A container: what precedes the reserved table, then the table as it is filled in the end, then the children. */
  function EmitContainer(v: Value, p: nat, c: Context): (r: seq<byte>)
    requires v.IsContainer()
    decreases v, 0
  {
    (Lead(v, p) + CountHeader(v)) + (Table(v, KidsStart(v, p), c) + EmitKids(v.kids, KidsStart(v, p), c))
  }

  /** The bytes that emitting `v` adds to a nodes buffer that holds `p` bytes. */
  function Emit(v: Value, p: nat, c: Context): (r: seq<byte>)
    decreases v, 1
  {
    if v.IsContainer() then EmitContainer(v, p, c) else EmitScalar(v, p, c)
  }

  function EmitKids(kids: seq<Member>, p: nat, c: Context): (r: seq<byte>)
    decreases kids, 1
  {
    if kids == [] then []
    else
      var n := |kids| - 1;
      EmitKids(kids[..n], p, c) + Emit(kids[n].value, KidPos(kids, n, p), c)
  }

  // ----- fixups -----

  /** The positions of the pool-offset fields of a table of `n` entries that starts at `start`. */
  function TableFixups(start: nat, n: nat): (f: seq<nat>)
    ensures |f| == n
  {
    if n == 0 then [] else TableFixups(start, n - 1) + [start + (n - 1) * ENTRY_SIZE + 8]
  }

  /** The fixups of a container's own table, recorded after its children's. */
  function OwnFixups(v: Value, p: nat): (f: seq<nat>)
    requires v.IsContainer()
  {
    if v.Block? then TableFixups(KindPos(v, p) + 9, |v.kids|) else []
  }

  function ScalarFixups(v: Value, p: nat): (f: seq<nat>)
    requires !v.IsContainer()
  {
    if v.String? then [KindPos(v, p) + 1] else []
  }

  /** The positions the encoder records while emitting `v` at `p`, in the order it records them. */
  function Fixups(v: Value, p: nat): (f: seq<nat>)
    decreases v, 0
  {
    if v.IsContainer() then KidsFixups(v.kids, KidsStart(v, p)) + OwnFixups(v, p) else ScalarFixups(v, p)
  }

  function KidsFixups(kids: seq<Member>, p: nat): (f: seq<nat>)
    decreases kids, 0
  {
    if kids == [] then []
    else
      var n := |kids| - 1;
      KidsFixups(kids[..n], p) + Fixups(kids[n].value, KidPos(kids, n, p))
  }

  // ----- sizes are right -----

  lemma {:induction false} EmitSize(v: Value, p: nat, c: Context)
    ensures |Emit(v, p, c)| == Size(v, p)
    decreases v, 0
  {
    if v.IsContainer() {
      EmitKidsSize(v.kids, KidsStart(v, p), c);
    }
  }

  lemma {:induction false} EmitKidsSize(kids: seq<Member>, p: nat, c: Context)
    ensures |EmitKids(kids, p, c)| == KidsSize(kids, p)
    decreases kids, 0
  {
    hide KindPos, EmitScalar, EmitContainer;
    if kids != [] {
      var n := |kids| - 1;
      EmitKidsSize(kids[..n], p, c);
      EmitSize(kids[n].value, KidPos(kids, n, p), c);
    }
  }

  lemma SizeOfContainer(v: Value, p: nat)
    requires v.IsContainer()
    ensures p + Size(v, p) == KidsStart(v, p) + KidsSize(v.kids, KidsStart(v, p))
    ensures KidsStart(v, p) == KindPos(v, p) + 9 + ItemSize(v) * |v.kids|
  {
  }

  /** Emission, child by child. */
  lemma EmitKidsSnoc(kids: seq<Member>, p: nat, c: Context)
    requires kids != []
    ensures var n := |kids| - 1;
      && EmitKids(kids, p, c) == EmitKids(kids[..n], p, c) + Emit(kids[n].value, KidPos(kids, n, p), c)
      && KidsSize(kids, p) == KidsSize(kids[..n], p) + Size(kids[n].value, KidPos(kids, n, p))
      && KidPos(kids, n, p) == p + KidsSize(kids[..n], p)
  {
    hide Emit, Size, KindPos;
  }

  // ----- places -----

  /** The kind byte of a child lies where the child is emitted, before the next child and inside all children's bytes. */
  lemma {:induction false} KidInside(kids: seq<Member>, p: nat, i: nat)
    requires i < |kids|
    ensures p <= KidPos(kids, i, p) <= KindPos(kids[i].value, KidPos(kids, i, p))
    ensures KindPos(kids[i].value, KidPos(kids, i, p)) < KidPos(kids, i, p) + Size(kids[i].value, KidPos(kids, i, p)) <= p + KidsSize(kids, p)
    ensures forall j :: i < j < |kids| ==> KidPos(kids, i, p) + Size(kids[i].value, KidPos(kids, i, p)) <= KidPos(kids, j, p)
  {
    hide KindPos, Size;
    var n := |kids| - 1;
    KidsSizeSnoc(kids, p);
    KindInside(kids[i].value, KidPos(kids, i, p));
    if i < n {
      var init := kids[..n];
      KidInside(init, p, i);
      assert init[..i] == kids[..i];
      forall j | i < j < |kids|
        ensures KidPos(kids, i, p) + Size(kids[i].value, KidPos(kids, i, p)) <= KidPos(kids, j, p)
      {
        if j < n {
          assert init[..j] == kids[..j];
          assert KidPos(init, i, p) + Size(init[i].value, KidPos(init, i, p)) <= KidPos(init, j, p);
        }
      }
    }
  }

  lemma KindInside(v: Value, p: nat)
    ensures p <= KindPos(v, p) < p + Size(v, p)
  {
  }

  lemma KidsSizeSnoc(kids: seq<Member>, p: nat)
    requires kids != []
    ensures var n := |kids| - 1;
      && KidsSize(kids, p) == KidsSize(kids[..n], p) + Size(kids[n].value, KidPos(kids, n, p))
      && KidPos(kids, n, p) == p + KidsSize(kids[..n], p)
  {
    hide Size, KindPos;
  }

  /** No two children have their kind byte at the same place. */
  lemma PlacesDiffer(kids: seq<Member>, p: nat, i: nat, j: nat)
    requires i < |kids| && j < |kids|
    requires KindPos(kids[i].value, KidPos(kids, i, p)) == KindPos(kids[j].value, KidPos(kids, j, p))
    ensures i == j
  {
    hide KindPos, Size, KidPos;
    KidInside(kids, p, i);
    KidInside(kids, p, j);
  }

  // ----- the pool may grow meanwhile -----

  /** Every string the layout of `v` refers to is in the pool. */
  ghost predicate Known(v: Value, strings: seq<Str>)
    decreases v, 0
  {
    match v
    case String(s) => s in strings
    case Array(kids) => KidsKnown(kids, false, strings)
    case Block(kids) => KidsKnown(kids, true, strings)
    case _ => true
  }

  ghost predicate KidsKnown(kids: seq<Member>, keyed: bool, strings: seq<Str>)
    decreases kids, 0
  {
    if kids == [] then true
    else
      var n := |kids| - 1;
      KidsKnown(kids[..n], keyed, strings) && (keyed ==> kids[n].key in strings) && Known(kids[n].value, strings)
  }

  ghost predicate Extends(c: Context, c': Context) {
    c.strings <= c'.strings && c' == c.(strings := c'.strings)
  }

  lemma {:induction false} KnownLonger(v: Value, strings: seq<Str>, longer: seq<Str>)
    requires Known(v, strings) && strings <= longer
    ensures Known(v, longer)
    decreases v, 0
  {
    match v
    case Array(kids) => KidsKnownLonger(kids, false, strings, longer);
    case Block(kids) => KidsKnownLonger(kids, true, strings, longer);
    case _ =>
  }

  lemma {:induction false} KidsKnownLonger(kids: seq<Member>, keyed: bool, strings: seq<Str>, longer: seq<Str>)
    requires KidsKnown(kids, keyed, strings) && strings <= longer
    ensures KidsKnown(kids, keyed, longer)
    decreases kids, 0
  {
    if kids != [] {
      var n := |kids| - 1;
      KidsKnownLonger(kids[..n], keyed, strings, longer);
      KnownLonger(kids[n].value, strings, longer);
    }
  }

  lemma {:induction false} PendingStable(kids: seq<Member>, p: nat, c: Context, c': Context)
    requires KidsKnown(kids, true, c.strings) && Extends(c, c')
    ensures Pending(kids, p, c') == Pending(kids, p, c)
  {
    if kids != [] {
      var n := |kids| - 1;
      PendingStable(kids[..n], p, c, c');
      OffsetStable(c.strings, c'.strings, kids[n].key);
    }
  }

  lemma {:induction false} ElementsStable(kids: seq<Member>, p: nat, c: Context, c': Context)
    requires c'.base == c.base
    ensures ElementBytes(kids, p, c') == ElementBytes(kids, p, c)
  {
    if kids != [] {
      ElementsStable(kids[..|kids| - 1], p, c, c');
    }
  }

  /** What has been emitted stays right when more strings are interned: old offsets do not move. */
  lemma {:induction false} EmitStable(v: Value, p: nat, c: Context, c': Context)
    requires Known(v, c.strings) && Extends(c, c')
    ensures Emit(v, p, c') == Emit(v, p, c)
    decreases v, 0
  {
    if v.IsContainer() {
      TableStable(v, KidsStart(v, p), c, c');
      EmitKidsStable(v.kids, v.Block?, KidsStart(v, p), c, c');
    } else {
      ScalarStable(v, p, c, c');
    }
  }

  lemma ScalarStable(v: Value, p: nat, c: Context, c': Context)
    requires !v.IsContainer() && Known(v, c.strings) && Extends(c, c')
    ensures EmitScalar(v, p, c') == EmitScalar(v, p, c)
  {
    if v.String? {
      OffsetStable(c.strings, c'.strings, v.s);
    }
  }

  lemma TableStable(v: Value, p: nat, c: Context, c': Context)
    requires v.IsContainer() && Known(v, c.strings) && Extends(c, c')
    ensures Table(v, p, c') == Table(v, p, c)
  {
    if v.Block? {
      PendingStable(v.kids, p, c, c');
    } else {
      ElementsStable(v.kids, p, c, c');
    }
  }

  lemma {:induction false} EmitKidsStable(kids: seq<Member>, keyed: bool, p: nat, c: Context, c': Context)
    requires KidsKnown(kids, keyed, c.strings) && Extends(c, c')
    ensures EmitKids(kids, p, c') == EmitKids(kids, p, c)
    decreases kids, 0
  {
    if kids != [] {
      var n := |kids| - 1;
      EmitKidsStable(kids[..n], keyed, p, c, c');
      EmitStable(kids[n].value, KidPos(kids, n, p), c, c');
    }
  }
}
