/** The order a document has after encoding: every block's members stably ordered by key hash. */
module Canonical {
  import opened Bytes
  import opened Document
  import opened StableSort

  function KeyedMembers(ms: seq<Member>, hash: Hash64): (ks: seq<Keyed<Member>>)
    ensures |ks| == |ms|
  {
    seq(|ms|, i requires 0 <= i < |ms| => Keyed(hash(ms[i].key), ms[i]))
  }

  function Items(ks: seq<Keyed<Member>>): (ms: seq<Member>)
    ensures |ms| == |ks|
  {
    seq(|ks|, i requires 0 <= i < |ks| => ks[i].item)
  }

  function SortMembers(ms: seq<Member>, hash: Hash64): (r: seq<Member>)
    ensures |r| == |ms|
  {
    Items(StableSorted(KeyedMembers(ms, hash)))
  }

  function Canon(v: Value, hash: Hash64): (w: Value)
    decreases v, 0
  {
    match v
    case Array(kids) => Array(CanonKids(kids, hash))
    case Block(kids) => Block(SortMembers(CanonKids(kids, hash), hash))
    case _ => v
  }

  function CanonKids(kids: seq<Member>, hash: Hash64): (r: seq<Member>)
    ensures |r| == |kids|
    decreases kids, 0
  {
    if kids == [] then []
    else
      var n := |kids| - 1;
      CanonKids(kids[..n], hash) + [Member(kids[n].key, Canon(kids[n].value, hash))]
  }

  /** The whole document: the roots are ordered like a block's members. */
  function CanonDocument(doc: seq<Member>, hash: Hash64): (r: seq<Member>)
    ensures |r| == |doc|
  {
    SortMembers(CanonKids(doc, hash), hash)
  }

  lemma {:induction false} CanonKidAt(kids: seq<Member>, hash: Hash64, i: nat)
    requires i < |kids|
    ensures CanonKids(kids, hash)[i] == Member(kids[i].key, Canon(kids[i].value, hash))
  {
    if i < |kids| - 1 {
      CanonKidAt(kids[..|kids| - 1], hash, i);
    }
  }

  /** Members ascending by the hash of their key. */
  ghost predicate HashSorted(ms: seq<Member>, hash: Hash64) {
    forall i, j :: 0 <= i < j < |ms| ==> hash(ms[i].key) <= hash(ms[j].key)
  }

  lemma SortedKeyHash(ms: seq<Member>, hash: Hash64, i: nat)
    requires i < |ms|
    ensures var k := StableSorted(KeyedMembers(ms, hash))[i];
      k.item in ms && k.hash == hash(k.item.key) && SortMembers(ms, hash)[i] == k.item
  {
    var ks := KeyedMembers(ms, hash);
    StableSortedIsStable(ks);
    var k := StableSorted(ks)[i];
    assert k in StableSorted(ks) && k in ks;
    var j :| 0 <= j < |ks| && ks[j] == k;
    assert ms[j] == k.item;
  }

  /** Encoding order is hash order. */
  lemma SortMembersSorted(ms: seq<Member>, hash: Hash64)
    ensures HashSorted(SortMembers(ms, hash), hash)
    ensures forall m :: m in SortMembers(ms, hash) ==> m in ms
  {
    var ks := StableSorted(KeyedMembers(ms, hash));
    StableSortedIsStable(KeyedMembers(ms, hash));
    forall i | 0 <= i < |ms|
      ensures ks[i].item in ms && WHOLE(ks[i].hash) == hash(SortMembers(ms, hash)[i].key)
    {
      SortedKeyHash(ms, hash, i);
    }
  }

  /** Members that are in hash order stay as they are. */
  lemma SortedStays(ms: seq<Member>, hash: Hash64)
    requires HashSorted(ms, hash)
    ensures SortMembers(ms, hash) == ms
  {
    var ks := KeyedMembers(ms, hash);
    StableSortedIsStable(ks);
    StableOrderUnique(ks, StableSorted(ks), WHOLE);
  }

  // ----- the order loses and invents nothing -----

  lemma {:induction false} TwoPlaces<T>(s: seq<T>, x: T) returns (i: nat, j: nat)
    requires multiset(s)[x] >= 2
    ensures i < j < |s| && s[i] == x && s[j] == x
  {
    var n := |s| - 1;
    assert s == s[..n] + [s[n]];
    if s[n] == x {
      assert x in s[..n];
      i :| 0 <= i < n && s[..n][i] == x;
      j := n;
    } else {
      i, j := TwoPlaces(s[..n], x);
    }
  }

  lemma TwoEqual<T>(s: seq<T>, i: nat, j: nat)
    requires i < j < |s| && s[i] == s[j]
    ensures multiset(s)[s[i]] >= 2
  {
    assert s == s[..j] + [s[j]] + s[j + 1..];
    assert s[i] in s[..j];
  }

  lemma ItemsSnoc(ks: seq<Keyed<Member>>, k: Keyed<Member>)
    ensures Items(ks + [k]) == Items(ks) + [k.item]
  {
  }

  lemma {:induction false} InsertIsPermutation(ys: seq<Keyed<Member>>, x: Keyed<Member>)
    ensures multiset(Items(InsertLast(ys, x))) == multiset(Items(ys)) + multiset{x.item}
  {
    if ys == [] || ys[|ys| - 1].hash <= x.hash {
      ItemsSnoc(ys, x);
    } else {
      var init, last := ys[..|ys| - 1], ys[|ys| - 1];
      InsertIsPermutation(init, x);
      ItemsSnoc(InsertLast(init, x), last);
      ItemsSnoc(init, last);
      assert ys == init + [last];
    }
  }

  lemma {:induction false} SortIsPermutation(xs: seq<Keyed<Member>>)
    ensures multiset(Items(StableSorted(xs))) == multiset(Items(xs))
  {
    if xs != [] {
      var init, last := xs[..|xs| - 1], xs[|xs| - 1];
      SortIsPermutation(init);
      InsertIsPermutation(StableSorted(init), last);
      ItemsSnoc(init, last);
      assert xs == init + [last];
    }
  }

  /** A block's encoded members are its members, permuted. */
  lemma SortMembersIsPermutation(ms: seq<Member>, hash: Hash64)
    ensures multiset(SortMembers(ms, hash)) == multiset(ms)
  {
    SortIsPermutation(KeyedMembers(ms, hash));
    assert Items(KeyedMembers(ms, hash)) == ms;
  }

  /** Encoding order keeps the members. */
  lemma SortedMembers(ms: seq<Member>, hash: Hash64, m: Member)
    ensures m in SortMembers(ms, hash) <==> m in ms
  {
    hide SortMembers;
    SortMembersIsPermutation(ms, hash);
    assert m in multiset(SortMembers(ms, hash)) <==> m in multiset(ms);
  }

  /** Where a member in encoding order comes from. */
  lemma CanonSource(kids: seq<Member>, hash: Hash64, i: nat) returns (j: nat)
    requires i < |kids|
    ensures j < |kids| && SortMembers(CanonKids(kids, hash), hash)[i] == Member(kids[j].key, Canon(kids[j].value, hash))
  {
    hide Canon, CanonKids, SortMembers;
    var ms := CanonKids(kids, hash);
    var m := SortMembers(ms, hash)[i];
    SortedMembers(ms, hash, m);
    j :| 0 <= j < |ms| && ms[j] == m;
    CanonKidAt(kids, hash, j);
  }
}
