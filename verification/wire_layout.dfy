/** The file of a document holds, word for word, what its description says. */
module WireLayout {
  import opened Bytes
  import opened Document
  import opened Format
  import opened PoolLayout
  import opened StableSort
  import opened WireFormat
  import E = Encode
  import L = Layout
  import RB = ReadBack

  // ----- places -----

  lemma NextFour(p: nat)
    ensures AlignUp(p + 1, 4) - 1 == p + (3 - p % 4)
  {
    var q, r := p / 4, p % 4;
    assert p == 4 * q + r && (p + 4) / 4 == q + 1;
  }

  lemma NextEight(p: nat)
    ensures AlignUp(p + 1, 8) - 1 == p + (7 - p % 8)
  {
    var q, r := p / 8, p % 8;
    assert p == 8 * q + r && (p + 8) / 8 == q + 1;
  }

  lemma SameRemainder(base: nat, p: nat)
    requires base % 8 == 0
    ensures (base + p) % 4 == p % 4 && (base + p) % 8 == p % 8
  {
    var k := base / 8;
    ModUnique(base + p, 8, k + p / 8, p % 8);
    ModUnique(base + p, 4, 2 * k + p / 4, p % 4);
  }

  lemma PlaceIs(v: Value, base: nat, p: nat)
    requires base % 8 == 0
    ensures Place(v, base + p) == base + L.KindPos(v, p)
  {
    hide AlignUp;
    SameRemainder(base, p);
    NextFour(p);
    NextEight(p);
    OneIsNext(p);
  }

  lemma OneIsNext(p: nat)
    ensures AlignUp(p + 1, 1) == p + 1
  {
  }

  lemma {:induction false} EndIs(v: Value, base: nat, p: nat)
    requires base % 8 == 0
    ensures End(v, base + p) == base + p + L.Size(v, p)
    decreases v, 1
  {
    hide Place, L.KindPos;
    PlaceIs(v, base, p);
    if v.IsContainer() {
      KidsEndIs(v.kids, base, L.KidsStart(v, p));
    }
  }

  lemma {:induction false} KidsEndIs(kids: seq<Member>, base: nat, p: nat)
    requires base % 8 == 0
    ensures KidsEnd(kids, base + p) == base + p + L.KidsSize(kids, p)
    decreases kids, 0
  {
    hide End, L.Size;
    if kids != [] {
      var n := |kids| - 1;
      KidsEndIs(kids[..n], base, p);
      EndIs(kids[n].value, base, p + L.KidsSize(kids[..n], p));
    }
  }

  lemma ChildPlaceIs(kids: seq<Member>, k: nat, base: nat, p: nat)
    requires base % 8 == 0 && k < |kids|
    ensures Start(kids, k, base + p) == base + L.KidPos(kids, k, p)
    ensures Place(kids[k].value, Start(kids, k, base + p)) == base + L.KindPos(kids[k].value, L.KidPos(kids, k, p))
  {
    hide Place, L.KindPos, KidsEnd, L.KidsSize;
    KidsEndIs(kids[..k], base, p);
    PlaceIs(kids[k].value, base, L.KidPos(kids, k, p));
  }

  // ----- ranks -----

  function AtMost<T>(xs: seq<Keyed<T>>, h: u64): (n: nat)
    ensures n <= |xs|
  {
    if xs == [] then 0 else AtMost(xs[..|xs| - 1], h) + if xs[|xs| - 1].hash <= h then 1 else 0
  }

  lemma AtMostSnoc<T>(xs: seq<Keyed<T>>, x: Keyed<T>, h: u64)
    ensures AtMost(xs + [x], h) == AtMost(xs, h) + if x.hash <= h then 1 else 0
  {
    assert (xs + [x])[..|xs|] == xs;
  }

  lemma {:induction false} InsertCounts<T>(ys: seq<Keyed<T>>, x: Keyed<T>, h: u64)
    ensures AtMost(InsertLast(ys, x), h) == AtMost(ys, h) + if x.hash <= h then 1 else 0
  {
    AtMostSnoc(ys, x, h);
    if ys != [] && ys[|ys| - 1].hash > x.hash {
      InsertCounts(ys[..|ys| - 1], x, h);
      AtMostSnoc(InsertLast(ys[..|ys| - 1], x), ys[|ys| - 1], h);
    }
  }

  lemma {:induction false} SortCounts<T>(xs: seq<Keyed<T>>, h: u64)
    ensures AtMost(StableSorted(xs), h) == AtMost(xs, h)
  {
    if xs != [] {
      SortCounts(xs[..|xs| - 1], h);
      InsertCounts(StableSorted(xs[..|xs| - 1]), xs[|xs| - 1], h);
    }
  }

  /** An insertion goes behind all that is not above it. */
  lemma {:induction false} InsertedAt<T>(ys: seq<Keyed<T>>, x: Keyed<T>)
    requires Ascending(ys, WHOLE)
    ensures var m := AtMost(ys, x.hash);
      && (forall i :: 0 <= i < |ys| ==> (ys[i].hash <= x.hash <==> i < m))
      && InsertLast(ys, x)[m] == x
      && (forall i :: 0 <= i < m ==> InsertLast(ys, x)[i] == ys[i])
      && (forall i :: m <= i < |ys| ==> InsertLast(ys, x)[i + 1] == ys[i])
  {
    if ys != [] {
      var n := |ys| - 1;
      InsertedAt(ys[..n], x);
      AllAtMost(ys, x.hash);
    }
  }

  lemma {:induction false} AllAtMost<T>(ys: seq<Keyed<T>>, h: u64)
    requires Ascending(ys, WHOLE)
    ensures ys != [] && ys[|ys| - 1].hash <= h ==> AtMost(ys, h) == |ys|
  {
    if |ys| > 1 && ys[|ys| - 1].hash <= h {
      assert WHOLE(ys[|ys| - 2].hash) <= WHOLE(ys[|ys| - 1].hash);
      AllAtMost(ys[..|ys| - 1], h);
    }
  }

  ghost predicate HashesOf<T>(xs: seq<Keyed<T>>, kids: seq<Member>, hash: Hash64) {
    |xs| == |kids| && forall i :: 0 <= i < |kids| ==> xs[i].hash == hash(kids[i].key)
  }

  lemma {:induction false} PrecedingPrefix(kids: seq<Member>, n: nat, m: nat, k: nat, hash: Hash64)
    requires m <= n <= |kids| && k < n
    ensures Preceding(kids[..n], m, k, hash) == Preceding(kids, m, k, hash)
  {
    if m > 0 {
      PrecedingPrefix(kids, n, m - 1, k, hash);
    }
  }

  lemma {:induction false} PrecedingLast<T>(kids: seq<Member>, xs: seq<Keyed<T>>, n: nat, k: nat, hash: Hash64)
    requires HashesOf(xs, kids, hash) && n <= k < |kids|
    ensures Preceding(kids, n, k, hash) == AtMost(xs[..n], hash(kids[k].key))
  {
    if n > 0 {
      PrecedingLast(kids, xs, n - 1, k, hash);
      assert xs[..n][..n - 1] == xs[..n - 1];
    }
  }

  lemma SortSnoc<T>(xs: seq<Keyed<T>>)
    requires xs != []
    ensures StableSorted(xs) == InsertLast(StableSorted(xs[..|xs| - 1]), xs[|xs| - 1])
  {
  }

  /** The stable order puts every entry at its rank. */
  lemma {:induction false} SortedAtRank<T>(kids: seq<Member>, xs: seq<Keyed<T>>, k: nat, hash: Hash64)
    requires HashesOf(xs, kids, hash) && k < |kids|
    ensures Rank(kids, k, hash) < |kids| && StableSorted(xs)[Rank(kids, k, hash)] == xs[k]
    decreases |kids|
  {
    hide InsertLast, StableSorted, AtMost, Ascending, SameBuckets;
    var n := |kids| - 1;
    var ys, x := StableSorted(xs[..n]), xs[n];
    SortSnoc(xs);
    StableSortedIsStable(xs[..n]);
    SortCounts(xs[..n], x.hash);
    InsertedAt(ys, x);
    if k == n {
      PrecedingLast(kids, xs, n, n, hash);
    } else {
      SortedAtRank(kids[..n], xs[..n], k, hash);
      PrecedingPrefix(kids, n, n, k, hash);
    }
  }

  lemma {:induction false} PrecedingGrows(kids: seq<Member>, n: nat, i: nat, k: nat, hash: Hash64)
    requires n <= |kids| && i < |kids| && k < |kids| && Precedes(kids, i, k, hash)
    ensures Preceding(kids, n, i, hash) + (if i < n then 1 else 0) <= Preceding(kids, n, k, hash)
  {
    if n > 0 {
      PrecedingGrows(kids, n - 1, i, k, hash);
    }
  }

  /** Ranks fill a table: each is a slot of it, and no two are the same. */
  lemma RanksDiffer(kids: seq<Member>, i: nat, k: nat, hash: Hash64)
    requires i < |kids| && k < |kids|
    ensures Rank(kids, i, hash) < |kids|
    ensures Rank(kids, i, hash) == Rank(kids, k, hash) <==> i == k
    ensures Rank(kids, i, hash) < Rank(kids, k, hash) <==> Precedes(kids, i, k, hash)
  {
    RankBelow(kids, |kids|, i, hash);
    if Precedes(kids, i, k, hash) {
      PrecedingGrows(kids, |kids|, i, k, hash);
    } else if i != k {
      PrecedingGrows(kids, |kids|, k, i, hash);
    }
  }

  lemma {:induction false} RankBelow(kids: seq<Member>, n: nat, i: nat, hash: Hash64)
    requires n <= |kids| && i < |kids|
    ensures Preceding(kids, n, i, hash) + (if i < n then 1 else 0) <= n
  {
    if n > 0 {
      RankBelow(kids, n - 1, i, hash);
    }
  }

  // ----- the pool -----

  lemma RecordIs(s: Str)
    ensures |Record(s)| == RecordLength(s)
  {
    var q, r := |s| / 4, |s| % 4;
    assert |s| == 4 * q + r;
    assert (4 + |s| + 3) / 4 == q + 1 + (r + 3) / 4;
  }

  lemma {:induction false} RecordsAre(strings: seq<Str>, j: nat)
    requires j <= |strings|
    ensures RecordsBefore(strings, j) == |PoolBytes(strings[..j])|
  {
    hide RecordLength, Record;
    if j > 0 {
      RecordsAre(strings, j - 1);
      RecordIs(strings[j - 1]);
      assert strings[..j][..j - 1] == strings[..j - 1];
    }
  }

  lemma {:induction false} RecordAt(strings: seq<Str>, j: nat)
    requires j < |strings|
    ensures At(PoolBytes(strings), |PoolBytes(strings[..j])|, Record(strings[j]))
  {
    hide Record;
    var n := |strings| - 1;
    if j < n {
      RecordAt(strings[..n], j);
      assert strings[..n][..j] == strings[..j];
      AtPrefix(PoolBytes(strings[..n]), PoolBytes(strings), |PoolBytes(strings[..j])|, Record(strings[j]));
    }
  }

  lemma PoolIsThere(f: Image)
    requires At(f.data, f.pool, PoolBytes(f.strings))
    ensures PoolStands(f)
  {
    forall j | 0 <= j < |f.strings|
      ensures RecordStands(f, j)
    {
      RecordIsThere(f, j);
    }
  }

  lemma RecordIsThere(f: Image, j: nat)
    requires At(f.data, f.pool, PoolBytes(f.strings)) && j < |f.strings|
    ensures RecordStands(f, j)
  {
    hide LE, Load32, RecordsBefore, RecordLength, PoolBytes, Padding;
    var s, o := f.strings[j], f.pool + RecordsBefore(f.strings, j);
    RecordsAre(f.strings, j);
    RecordAt(f.strings, j);
    SliceOfSlice(f.data, f.pool, f.pool + |PoolBytes(f.strings)|, o - f.pool, o - f.pool + |Record(s)|);
    assert At(f.data, o, Record(s));
    RecordIs(s);
    AtParts(f.data, o, LE(|s|, 4), s, Zeros(Padding(|s|)));
    AtLoad32(f.data, o, |s|);
    ZerosThere(f.data, o + 4 + |s|, Padding(|s|));
  }

  lemma ZerosThere(data: seq<byte>, o: nat, n: nat)
    requires At(data, o, Zeros(n))
    ensures o + n <= |data| && AllZero(data, o, o + n)
  {
    forall i | o <= i < o + n
      ensures data[i] == 0
    {
      assert data[i] == data[o..o + n][i - o];
    }
  }

  /** The record that an offset is that of. */
  lemma {:induction false} OffsetIsSpot(strings: seq<Str>, s: Str) returns (j: nat)
    requires s in strings
    ensures j < |strings| && strings[j] == s && OffsetOf(strings, s) == |PoolBytes(strings[..j])|
  {
    var n := |strings| - 1;
    if s in strings[..n] {
      j := OffsetIsSpot(strings[..n], s);
      assert strings[..n][..j] == strings[..j];
    } else {
      j := n;
    }
  }

  // ----- nodes -----

  /** The encoder's context is that of the file under description. */
  ghost predicate Fits(f: Image, c: L.Context) {
    f.strings == c.strings && f.pool == c.delta && f.hash == c.hash && c.base % 8 == 0
  }

  lemma ReferenceThere(f: Image, c: L.Context, o: nat, s: Str)
    requires Fits(f, c) && s in c.strings && At(f.data, o, LE(c.delta + OffsetOf(c.strings, s), 4) + LE(|s|, 4))
    ensures Refers(f, o, s)
  {
    hide LE, Load32, OffsetOf, PoolBytes, RecordsBefore;
    var offset := c.delta + OffsetOf(c.strings, s);
    AtTwo(f.data, o, LE(offset, 4), LE(|s|, 4));
    AtLoad32(f.data, o, offset);
    AtLoad32(f.data, o + 4, |s|);
    var j := OffsetIsSpot(f.strings, s);
    RecordsAre(f.strings, j);
    assert RecordIsAt(f, j, Load32(f.data, o));
  }

  lemma EntryThere(f: Image, c: L.Context, o: nat, kid: Member, q: nat)
    requires Fits(f, c) && kid.key in c.strings && At(f.data, o, L.EntryBytes(L.EntryFor(kid, q, c), c.delta))
    ensures EntryStands(f, o, kid, c.base + L.KindPos(kid.value, q))
  {
    hide LE, Load32, Load64, OffsetOf, L.KindPos, Refers;
    var e := L.EntryFor(kid, q, c);
    var a, b, l, v := LE(e.hash, 8), LE(c.delta + e.item.keyOffset, 4), LE(e.item.keyLength, 4), LE(e.item.valueOffset, 8);
    assert L.EntryBytes(e, c.delta) == a + (b + l) + v;
    AtParts(f.data, o, a, b + l, v);
    AtLoad64(f.data, o, e.hash);
    ReferenceThere(f, c, o + 8, kid.key);
    AtLoad64(f.data, o + 16, e.item.valueOffset);
  }

  /** The filled table, member by member. */
  lemma TableThere(f: Image, c: L.Context, o: nat, kids: seq<Member>, p: nat)
    requires Fits(f, c) && L.KidsKnown(kids, true, c.strings)
    requires At(f.data, o, L.EntriesBytes(StableSorted(L.Pending(kids, p, c)), c.delta))
    ensures TableStands(f, o, kids, c.base + p)
  {
    hide Fits, At, MemberStands, L.KidsKnown, L.EntriesBytes, L.Pending, StableSorted;
    var a := c.base + p;
    forall k | 0 <= k < |kids|
      ensures MemberStands(f, o, kids, k, a)
    {
      MemberThere(f, c, o, kids, p, k);
    }
  }

  lemma MemberThere(f: Image, c: L.Context, o: nat, kids: seq<Member>, p: nat, k: nat)
    requires Fits(f, c) && L.KidsKnown(kids, true, c.strings) && k < |kids|
    requires At(f.data, o, L.EntriesBytes(StableSorted(L.Pending(kids, p, c)), c.delta))
    ensures MemberStands(f, o, kids, k, c.base + p)
  {
    hide Place, Start, L.KindPos, L.KidPos, L.EntryBytes, L.EntriesBytes, StableSorted, Rank, EntryStands, At, OffsetOf;
    var es := L.Pending(kids, p, c);
    forall i | 0 <= i < |kids|
      ensures es[i].hash == c.hash(kids[i].key) && es[i] == L.EntryFor(kids[i], L.KidPos(kids, i, p), c)
    {
      RB.PendingAt(kids, p, c, i);
    }
    SortedAtRank(kids, es, k, c.hash);
    RB.EntryThere(f.data, o, StableSorted(es), c.delta, Rank(kids, k, c.hash));
    RB.KeyKnown(kids, c.strings, k);
    EntryThere(f, c, o + 24 * Rank(kids, k, c.hash), kids[k], L.KidPos(kids, k, p));
    ChildPlaceIs(kids, k, c.base, p);
  }

  lemma ElementsThere(f: Image, c: L.Context, o: nat, kids: seq<Member>, p: nat)
    requires Fits(f, c) && At(f.data, o, L.ElementBytes(kids, p, c))
    ensures ElementsStand(f, o, kids, c.base + p)
  {
    hide Place, Start, L.KindPos, L.KidPos, L.ElementBytes, LE, Load64;
    var a := c.base + p;
    forall k | 0 <= k < |kids|
      ensures ElementStands(f, o, kids, k, a)
    {
      RB.ElementThere(f.data, o, kids, p, c, k);
      var place := c.base + L.KindPos(kids[k].value, L.KidPos(kids, k, p));
      AtLoad64(f.data, o + 8 * k, place);
      ChildPlaceIs(kids, k, c.base, p);
    }
  }

  lemma BodyThere(f: Image, c: L.Context, v: Value, o: nat)
    requires Fits(f, c) && !v.IsContainer() && L.Known(v, c.strings) && At(f.data, o, L.ScalarBody(v, c))
    ensures BodyStands(f, o, v)
  {
    hide LE, Load32, Load64, OffsetOf, Refers;
    match v
    case Int64(i) =>
      AtLoad64(f.data, o, L.Bits64(i));
      BitsAre(i);
    case UInt64(u) => AtLoad64(f.data, o, u);
    case Float64(bits) => AtLoad64(f.data, o, bits);
    case String(s) => ReferenceThere(f, c, o, s);
    case _ =>
  }

  lemma BitsAre(i: i64)
    ensures L.Bits64(i) == i % 0x1_0000_0000_0000_0000
  {
  }

  /** The zeros and the kind byte in front of a body. */
  lemma LeadThere(f: Image, c: L.Context, v: Value, p: nat, body: seq<byte>)
    requires Fits(f, c) && At(f.data, c.base + p, L.Lead(v, p) + body) && |L.Lead(v, p) + body| == L.Size(v, p)
    ensures KindStands(f, v, c.base + p) && At(f.data, Place(v, c.base + p) + 1, body)
  {
    hide Place, End, L.KindPos, L.Size;
    var k := L.KindPos(v, p);
    PlaceIs(v, c.base, p);
    EndIs(v, c.base, p);
    AtParts(f.data, c.base + p, Zeros(k - p), [L.KindByte(v)], body);
    ZerosThere(f.data, c.base + p, k - p);
    ByteAt(f.data, c.base + k, L.KindByte(v));
  }

  lemma CountsThere(f: Image, o: nat, v: Value)
    requires v.IsContainer() && At(f.data, o, L.CountHeader(v))
    ensures CountsStand(f, o, |v.kids|, if v.Block? then 24 * |v.kids| else 8 * |v.kids|)
  {
    hide LE, Load32;
    AtTwo(f.data, o, LE(|v.kids|, 4), LE(|v.kids| * L.ItemSize(v), 4));
    AtLoad32(f.data, o, |v.kids|);
    AtLoad32(f.data, o + 4, |v.kids| * L.ItemSize(v));
  }

  /** Whatever the encoder emits stands in the file as described, at every depth. */
  lemma {:induction false} NodeStands(f: Image, c: L.Context, v: Value, p: nat)
    requires Fits(f, c) && L.Known(v, c.strings) && At(f.data, c.base + p, L.Emit(v, p, c))
    ensures Stands(f, v, c.base + p)
    decreases v, 1
  {
    hide Fits, Place, End, L.KindPos, L.Size, L.Lead, L.CountHeader, L.Table, L.KidsSize, L.ScalarBody, KindStands, CountsStand,
         BodyStands, TableStands, ElementsStand, KidsStand, At, L.EmitKids;
    L.EmitSize(v, p, c);
    if v.IsContainer() {
      ContainerStands(f, c, v, p);
      KidsStandThere(f, c, v.kids, v.Block?, L.KidsStart(v, p));
    } else {
      LeadThere(f, c, v, p, L.ScalarBody(v, c));
      BodyThere(f, c, v, Place(v, c.base + p) + 1);
    }
  }

  lemma ContainerStands(f: Image, c: L.Context, v: Value, p: nat)
    requires Fits(f, c) && v.IsContainer() && L.Known(v, c.strings) && At(f.data, c.base + p, L.Emit(v, p, c))
    requires |L.Emit(v, p, c)| == L.Size(v, p)
    ensures KindStands(f, v, c.base + p)
    ensures var o, n := Place(v, c.base + p) + 1, |v.kids|;
      && CountsStand(f, o, n, if v.Block? then 24 * n else 8 * n)
      && (v.Array? ==> ElementsStand(f, o + 8, v.kids, o + 8 + 8 * n))
      && (v.Block? ==> TableStands(f, o + 8, v.kids, o + 8 + 24 * n))
      && c.base + L.KidsStart(v, p) == o + 8 + (if v.Block? then 24 * n else 8 * n)
    ensures At(f.data, c.base + L.KidsStart(v, p), L.EmitKids(v.kids, L.KidsStart(v, p), c))
  {
    hide Place, End, L.KindPos, L.Size, L.Lead, L.CountHeader, L.KidsSize, KindStands, CountsStand,
         TableStands, ElementsStand, At, L.EmitKids, L.EntriesBytes, L.ElementBytes, StableSorted;
    var q := L.KidsStart(v, p);
    var header, table, kids := L.CountHeader(v), L.Table(v, q, c), L.EmitKids(v.kids, q, c);
    var body := header + table + kids;
    assert L.Emit(v, p, c) == L.Lead(v, p) + body;
    PlaceIs(v, c.base, p);
    LeadThere(f, c, v, p, body);
    var o := Place(v, c.base + p) + 1;
    AtParts(f.data, o, header, table, kids);
    CountsThere(f, o, v);
    if v.Block? {
      TableThere(f, c, o + 8, v.kids, q);
    } else {
      ElementsThere(f, c, o + 8, v.kids, q);
    }
  }

  lemma {:induction false} KidsStandThere(f: Image, c: L.Context, kids: seq<Member>, keyed: bool, p: nat)
    requires Fits(f, c) && L.KidsKnown(kids, keyed, c.strings) && At(f.data, c.base + p, L.EmitKids(kids, p, c))
    ensures KidsStand(f, kids, c.base + p)
    decreases kids, 0
  {
    hide L.Emit, L.EmitKids, Stands, L.KidPos, L.KidsSize, L.Size, KidsEnd, At;
    if kids != [] {
      var n := |kids| - 1;
      L.EmitKidsSnoc(kids, p, c);
      L.EmitKidsSize(kids[..n], p, c);
      AtTwo(f.data, c.base + p, L.EmitKids(kids[..n], p, c), L.Emit(kids[n].value, L.KidPos(kids, n, p), c));
      KidsStandThere(f, c, kids[..n], keyed, p);
      NodeStands(f, c, kids[n].value, L.KidPos(kids, n, p));
      ChildPlaceIs(kids, n, c.base, p);
      forall k | 0 <= k < |kids|
        ensures Stands(f, kids[k].value, Start(kids, k, c.base + p))
      {
        if k < n {
          assert kids[..n][..k] == kids[..k];
          assert Stands(f, kids[..n][k].value, Start(kids[..n], k, c.base + p));
        }
      }
    }
  }

  // ----- which strings -----

  lemma {:induction false} MentionsConcat(a: seq<Member>, b: seq<Member>)
    ensures Mentions(a + b) == Mentions(a) + Mentions(b)
    decreases |a|
  {
    hide MentionsOf;
    if a == [] {
      assert a + b == b;
    } else {
      MentionsConcat(a[1..], b);
      assert (a + b)[1..] == a[1..] + b;
    }
  }

  lemma MentionsOne(m: Member)
    ensures Mentions([m]) == (if m.key == [] then [] else [m.key]) + MentionsOf(m.value)
  {
    hide MentionsOf;
    assert [m][1..] == [] && Mentions([]) == [];
  }

  /** The collecting pass meets the strings in this order. */
  lemma {:induction false} CollectedIs(kids: seq<Member>)
    ensures E.CollectedKids(kids) == Mentions(kids)
    decreases kids, 0
  {
    if kids != [] {
      var n := |kids| - 1;
      CollectedIs(kids[..n]);
      MentionsConcat(kids[..n], [kids[n]]);
      MentionsOne(kids[n]);
      assert kids == kids[..n] + [kids[n]];
      ValueCollectedIs(kids[n].value);
    }
  }

  lemma {:induction false} ValueCollectedIs(v: Value)
    ensures E.Collected(v) == MentionsOf(v)
    decreases v, 1
  {
    if v.IsContainer() {
      CollectedIs(v.kids);
    }
  }

  /** The second pass asks for the empty key if there is one, and for nothing else. */
  lemma {:induction false} EmptyKeysAre(kids: seq<Member>, keyed: bool)
    ensures forall s :: s in E.EmptyKeysOf(kids, keyed) <==> s == [] && HasEmptyKey(kids, keyed)
    decreases kids, 0
  {
    hide EmptyKeyIn;
    if kids != [] {
      var n := |kids| - 1;
      EmptyKeysAre(kids[..n], keyed);
      MemberEmptyKeys(kids[n], keyed);
      HasEmptyKeySnoc(kids, keyed);
    }
  }

  lemma HasEmptyKeySnoc(kids: seq<Member>, keyed: bool)
    requires kids != []
    ensures HasEmptyKey(kids, keyed) <==> HasEmptyKey(kids[..|kids| - 1], keyed) || EmptyKeyIn(kids[|kids| - 1], keyed)
  {
    hide EmptyKeyIn;
    var n := |kids| - 1;
    if HasEmptyKey(kids[..n], keyed) {
      var k :| 0 <= k < n && EmptyKeyIn(kids[..n][k], keyed);
      assert EmptyKeyIn(kids[k], keyed);
    }
    if HasEmptyKey(kids, keyed) && !EmptyKeyIn(kids[n], keyed) {
      var k :| 0 <= k < |kids| && EmptyKeyIn(kids[k], keyed);
      assert EmptyKeyIn(kids[..n][k], keyed);
    }
  }

  lemma {:induction false} MemberEmptyKeys(m: Member, keyed: bool)
    ensures forall s :: s in E.EmptyKeysOfMember(m, keyed) <==> s == [] && EmptyKeyIn(m, keyed)
    decreases m, 2
  {
    hide E.EmptyKeys, EmptyKeyBelow;
    ValueEmptyKeys(m.value);
    var own, below := if keyed && m.key == [] then [[]] else [], E.EmptyKeys(m.value);
    assert E.EmptyKeysOfMember(m, keyed) == own + below;
  }

  lemma {:induction false} ValueEmptyKeys(v: Value)
    ensures forall s :: s in E.EmptyKeys(v) <==> s == [] && EmptyKeyBelow(v)
    decreases v, 1
  {
    hide E.EmptyKeysOf, HasEmptyKey;
    match v
    case Array(kids) => EmptyKeysAre(kids, false);
    case Block(kids) => EmptyKeysAre(kids, true);
    case _ =>
  }

  /** Strings as they come up in `mentions`, each once. */
  ghost predicate InOrder(strings: seq<Str>, mentions: seq<Str>) {
    forall i, j :: 0 <= i < j < |strings| ==> ComesFirst(mentions, strings[i], strings[j])
  }

  lemma ComesFirstLonger(mentions: seq<Str>, x: Str, s: Str, t: Str)
    requires ComesFirst(mentions, s, t)
    ensures ComesFirst(mentions + [x], s, t)
  {
    var i :| 0 <= i < |mentions| && mentions[i] == s && t !in mentions[..i];
    assert (mentions + [x])[..i] == mentions[..i] && (mentions + [x])[i] == s;
  }

  lemma NewComesLast(mentions: seq<Str>, s: Str, t: Str)
    requires s in mentions && t !in mentions
    ensures ComesFirst(mentions, s, t)
  {
    var i :| 0 <= i < |mentions| && mentions[i] == s;
    assert t !in mentions[..i];
  }

  lemma {:induction false} InternedInOrder(mentions: seq<Str>)
    ensures InOrder(InternAll([], mentions), mentions)
    ensures Distinct(InternAll([], mentions)) && forall s :: s in InternAll([], mentions) <==> s in mentions
  {
    hide ComesFirst;
    InternAllIsSet([], mentions);
    if mentions != [] {
      var init, last := mentions[..|mentions| - 1], mentions[|mentions| - 1];
      InternedInOrder(init);
      assert mentions == init + [last];
      var strings := InternAll([], mentions);
      forall i, j | 0 <= i < j < |strings|
        ensures ComesFirst(mentions, strings[i], strings[j])
      {
        if j < |InternAll([], init)| {
          ComesFirstLonger(init, last, strings[i], strings[j]);
        } else {
          NewComesLast(init, strings[i], last);
          ComesFirstLonger(init, last, strings[i], strings[j]);
        }
      }
    }
  }

  lemma {:induction false} InternOne(strings: seq<Str>, more: seq<Str>)
    requires forall s :: s in more ==> s == []
    ensures InternAll(strings, more) == if more == [] then strings else Interned(strings, [])
  {
    if more != [] {
      var init := more[..|more| - 1];
      assert forall s :: s in init ==> s in more;
      InternOne(strings, init);
      assert more[|more| - 1] in more;
    }
  }

  /** The pool lists the document's strings in order. */
  lemma StringsListed(doc: seq<Member>)
    ensures Lists(E.Strings(doc), doc)
  {
    hide ComesFirst, InternAll, HasEmptyKey, Mentions, E.CollectedKids, E.EmptyKeysOf;
    var mentions, empties := Mentions(doc), E.EmptyKeysOf(doc, true);
    CollectedIs(doc);
    EmptyKeysAre(doc, true);
    InternedInOrder(mentions);
    var first, strings := InternAll([], mentions), E.Strings(doc);
    InternOne(first, empties);
    var none: Str := [];
    assert none in empties <==> HasEmptyKey(doc, true);
    assert empties != [] ==> empties[0] in empties;
    forall i, j | 0 <= i < j < |strings|
      ensures strings[i] != strings[j] && ComesFirst(mentions, strings[i], strings[j])
    {
      if j == |first| {
        NewComesLast(mentions, strings[i], []);
      }
    }
  }

  // ----- header and footer -----

  lemma HeaderThere(f: Image, doc: seq<Member>)
    requires f.data == E.File(doc, f.hash) && f.strings == E.Strings(doc) && f.pool == E.StringsOffset(doc)
    ensures HeaderStands(f, |doc|, f.pool + RecordsBefore(f.strings, |f.strings|))
  {
    hide HeaderBytes, FooterBytes, E.File, E.Strings, PoolBytes, L.KidsSize, Load32, Load64, Load16, RecordsBefore, E.Payload, At;
    var h, footer := E.FileHeader(doc, f.hash), f.pool + |PoolBytes(f.strings)|;
    E.FileLength(doc, f.hash);
    E.FileParts(doc, f.hash, f.data);
    HeaderRoundTrip(f.data, h);
    RecordsAre(f.strings, |f.strings|);
    assert f.strings[..|f.strings|] == f.strings;
    PayloadIs(f.data, E.Payload(doc, f.hash), footer);
    assert f.data[104..128] == h.reserved;
    assert AllZero(f.data, 104, 128) by { ZeroSlice(f.data, 104, 128); }
  }

  lemma PayloadIs(data: seq<byte>, payload: seq<byte>, footer: nat)
    requires At(data, 128, payload) && footer == 128 + |payload|
    ensures data[128..footer] == payload
  {
  }

  lemma ZeroSlice(data: seq<byte>, from: nat, to: nat)
    requires from <= to <= |data| && data[from..to] == Zeros(to - from)
    ensures AllZero(data, from, to)
  {
    assert At(data, from, Zeros(to - from));
    ZerosThere(data, from, to - from);
  }

  lemma FooterThere(f: Image, doc: seq<Member>)
    requires f.data == E.File(doc, f.hash) && f.strings == E.Strings(doc) && f.pool == E.StringsOffset(doc)
    ensures FooterStands(f, f.pool + RecordsBefore(f.strings, |f.strings|))
  {
    hide HeaderBytes, E.File, E.Strings, PoolBytes, L.KidsSize, Load32, Load64, RecordsBefore, E.Payload, LE;
    var t, footer := E.FileFooter(doc, f.hash), f.pool + |PoolBytes(f.strings)|;
    E.FileLength(doc, f.hash);
    E.FileParts(doc, f.hash, f.data);
    RecordsAre(f.strings, |f.strings|);
    assert f.strings[..|f.strings|] == f.strings;
    PayloadIs(f.data, E.Payload(doc, f.hash), footer);
    var magic := LE(t.magicEnd, 4) + Zeros(12);
    AtParts(f.data, footer, LE(t.checksum, 8), LE(t.fileSize, 8), magic);
    AtTwo(f.data, footer + 16, LE(t.magicEnd, 4), Zeros(12));
    AtLoad64(f.data, footer, t.checksum);
    AtLoad64(f.data, footer + 8, t.fileSize);
    AtLoad32(f.data, footer + 16, t.magicEnd);
    ZerosThere(f.data, footer + 20, 12);
  }

  // ----- the whole file -----

  ghost function ImageOf(doc: seq<Member>, hash: Hash64): (f: Image) {
    Image(E.File(doc, hash), E.StringsOffset(doc), E.Strings(doc), hash)
  }

  /** Every document's file, of whatever size, holds what the description says. */
  lemma FileIsDescribed(doc: seq<Member>, hash: Hash64)
    ensures IsFileOf(ImageOf(doc, hash), doc)
  {
    hide E.File, E.Strings, E.Payload, E.FileHeader, E.FileFooter, L.KidsSize, PoolBytes, HeaderBytes, FooterBytes, At, HeaderStands,
         FooterStands, TableStands, KidsStand, Lists, PoolStands, RecordsBefore, KidsEnd, StableSorted, L.Pending, L.EntriesBytes,
         L.EmitKids, L.KidsKnown;
    var f, c := ImageOf(doc, hash), E.FileContext(doc, hash);
    assert Fits(f, c);
    E.FileParts(doc, hash, f.data);
    E.DocumentKnown(doc);
    KidsEndIs(doc, c.base, 0);
    HeaderThere(f, doc);
    TableThere(f, c, 128, doc, 0);
    KidsStandThere(f, c, doc, true, 0);
    StringsListed(doc);
    PoolIsThere(f);
    FooterThere(f, doc);
  }
}
