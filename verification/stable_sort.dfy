/** The one stable order of entries by 64-bit hash, and why least-significant-digit radix passes reach it. */
module StableSort {
  import opened Bytes
  import opened Sequences

  datatype Keyed<T> = Keyed(hash: u64, item: T)

  /** What a pass sorts by: some number computed from the hash. */
  type Digit = u64 -> nat

  /** The low part of a hash, modulo `m`. */
  function LowPart(m: nat): Digit
    requires m > 0
  {
    h => h % m
  }

  /** The base-256 digit of a hash that stands above its low part. */
  function ByteAbove(m: nat): Digit
    requires m > 0
  {
    h => h / m % 256
  }

  /** Puts `x` after every entry whose hash is not above its own. */
  function InsertLast<T>(ys: seq<Keyed<T>>, x: Keyed<T>): (r: seq<Keyed<T>>)
    ensures |r| == |ys| + 1
  {
    if ys == [] || ys[|ys| - 1].hash <= x.hash then ys + [x]
    else InsertLast(ys[..|ys| - 1], x) + [ys[|ys| - 1]]
  }

  function StableSorted<T>(xs: seq<Keyed<T>>): (r: seq<Keyed<T>>)
    ensures |r| == |xs|
  {
    if xs == [] then [] else InsertLast(StableSorted(xs[..|xs| - 1]), xs[|xs| - 1])
  }

  /** The entries of `xs` with digit `d`, in the order they have in `xs`. */
  function Bucket<T>(xs: seq<Keyed<T>>, key: Digit, d: nat): (r: seq<Keyed<T>>)
    ensures |r| <= |xs|
  {
    if xs == [] then []
    else
      var last := xs[|xs| - 1];
      var rest := Bucket(xs[..|xs| - 1], key, d);
      if key(last.hash) == d then rest + [last] else rest
  }

  ghost predicate Ascending<T>(xs: seq<Keyed<T>>, key: Digit) {
    forall i, j :: 0 <= i < j < |xs| ==> key(xs[i].hash) <= key(xs[j].hash)
  }

  ghost predicate SameBucket<T>(xs: seq<Keyed<T>>, ys: seq<Keyed<T>>, key: Digit, d: nat) {
    Bucket(xs, key, d) == Bucket(ys, key, d)
  }

  ghost predicate SameBuckets<T>(xs: seq<Keyed<T>>, ys: seq<Keyed<T>>, key: Digit) {
    forall d: nat :: SameBucket(xs, ys, key, d)
  }

  /** `ys` holds the entries of `xs` ascending by digit, equal digits in the order of `xs`. */
  ghost predicate StableOrderOf<T>(xs: seq<Keyed<T>>, ys: seq<Keyed<T>>, key: Digit) {
    Ascending(ys, key) && SameBuckets(xs, ys, key)
  }

  // ----- facts about buckets -----

  lemma BucketSnoc<T>(xs: seq<Keyed<T>>, x: Keyed<T>, key: Digit, d: nat)
    ensures Bucket(xs + [x], key, d) == if key(x.hash) == d then Bucket(xs, key, d) + [x] else Bucket(xs, key, d)
  {
    assert (xs + [x])[..|xs|] == xs;
  }

  lemma {:induction false} BucketConcat<T>(xs: seq<Keyed<T>>, ys: seq<Keyed<T>>, key: Digit, d: nat)
    ensures Bucket(xs + ys, key, d) == Bucket(xs, key, d) + Bucket(ys, key, d)
  {
    if ys == [] {
      assert xs + ys == xs;
    } else {
      var init, last := ys[..|ys| - 1], ys[|ys| - 1];
      BucketConcat(xs, init, key, d);
      Associate(xs, init, [last]);
      BucketSnoc(xs + init, last, key, d);
      BucketSnoc(init, last, key, d);
      Associate(Bucket(xs, key, d), Bucket(init, key, d), [last]);
      assert ys == init + [last];
    }
  }

  lemma {:induction false} BucketIsUniform<T>(xs: seq<Keyed<T>>, key: Digit, d: nat)
    ensures forall x :: x in Bucket(xs, key, d) ==> x in xs && key(x.hash) == d
  {
    if xs != [] {
      BucketIsUniform(xs[..|xs| - 1], key, d);
    }
  }

  /** An entry is in the bucket of its digit. */
  lemma {:induction false} BucketHas<T>(xs: seq<Keyed<T>>, i: nat, key: Digit)
    requires i < |xs|
    ensures xs[i] in Bucket(xs, key, key(xs[i].hash))
  {
    if i < |xs| - 1 {
      BucketHas(xs[..|xs| - 1], i, key);
    }
  }

  /** Two entries of one bucket keep their order in the bucket. */
  lemma {:induction false} BucketKeepsOrder<T>(xs: seq<Keyed<T>>, i: nat, j: nat, key: Digit, d: nat)
    returns (k: nat, l: nat)
    requires i < j < |xs|
    requires key(xs[i].hash) == d == key(xs[j].hash)
    ensures k < l < |Bucket(xs, key, d)|
    ensures Bucket(xs, key, d)[k] == xs[i] && Bucket(xs, key, d)[l] == xs[j]
  {
    var init := xs[..|xs| - 1];
    if j < |xs| - 1 {
      k, l := BucketKeepsOrder(init, i, j, key, d);
    } else {
      BucketHas(init, i, key);
      k :| 0 <= k < |Bucket(init, key, d)| && Bucket(init, key, d)[k] == xs[i];
      l := |Bucket(init, key, d)|;
    }
  }

  lemma {:induction false} BucketAscending<T>(xs: seq<Keyed<T>>, key: Digit, d: nat, other: Digit)
    requires Ascending(xs, other)
    ensures Ascending(Bucket(xs, key, d), other)
  {
    if xs != [] {
      var init := xs[..|xs| - 1];
      BucketAscending(init, key, d, other);
      BucketIsUniform(init, key, d);
    }
  }

  /** When one digit says as much as two, its bucket is a bucket of a bucket. */
  lemma {:induction false} BucketSplits<T>(xs: seq<Keyed<T>>, wide: Digit, d: nat, first: Digit, d1: nat, second: Digit, d2: nat)
    requires forall h: u64 :: wide(h) == d <==> first(h) == d1 && second(h) == d2
    ensures Bucket(xs, wide, d) == Bucket(Bucket(xs, first, d1), second, d2)
  {
    if xs != [] {
      var init, last := xs[..|xs| - 1], xs[|xs| - 1];
      BucketSplits(init, wide, d, first, d1, second, d2);
      if first(last.hash) == d1 {
        BucketSnoc(Bucket(init, first, d1), last, second, d2);
      }
    }
  }

  // ----- one more digit -----

  /** A pass by the byte above `m` followed by nothing else tells as much as the low part modulo `256 * m`. */
  lemma WiderLowPart(h: u64, m: nat, d: nat)
    requires m > 0
    ensures LowPart(m * 256)(h) == LowPart(m)(h) + m * ByteAbove(m)(h)
    ensures LowPart(m * 256)(h) == d <==> ByteAbove(m)(h) == d / m && LowPart(m)(h) == d % m
  {
    ModSplit(h, m, 256);
    ModUnique(LowPart(m * 256)(h), m, ByteAbove(m)(h), LowPart(m)(h));
  }

  /** The radix invariant's step: a stable pass by the next byte sorts by one more byte. */
  lemma PassExtendsOrder<T>(orig: seq<Keyed<T>>, src: seq<Keyed<T>>, dst: seq<Keyed<T>>, m: nat)
    requires m > 0
    requires StableOrderOf(orig, src, LowPart(m))
    requires StableOrderOf(src, dst, ByteAbove(m))
    ensures StableOrderOf(orig, dst, LowPart(m * 256))
  {
    var wide := LowPart(m * 256);
    forall i, j | 0 <= i < j < |dst|
      ensures wide(dst[i].hash) <= wide(dst[j].hash)
    {
      PassOrdersPair(src, dst, m, i, j);
    }
    forall d: nat
      ensures SameBucket(orig, dst, wide, d)
    {
      PassKeepsBucket(orig, src, dst, m, d);
    }
  }

  lemma PassOrdersPair<T>(src: seq<Keyed<T>>, dst: seq<Keyed<T>>, m: nat, i: nat, j: nat)
    requires m > 0 && i < j < |dst|
    requires Ascending(src, LowPart(m))
    requires StableOrderOf(src, dst, ByteAbove(m))
    ensures LowPart(m * 256)(dst[i].hash) <= LowPart(m * 256)(dst[j].hash)
  {
    var key := ByteAbove(m);
    var a, b := key(dst[i].hash), key(dst[j].hash);
    assert a <= b;
    WiderLowPart(dst[i].hash, m, 0);
    WiderLowPart(dst[j].hash, m, 0);
    if a == b {
      var k, l := BucketKeepsOrder(dst, i, j, key, a);
      BucketAscending(src, key, a, LowPart(m));
      assert SameBucket(src, dst, key, a);
    } else {
      MulDistributes(m, b, a);
      MulAtLeast(m, b - a);
    }
  }

  lemma PassKeepsBucket<T>(orig: seq<Keyed<T>>, src: seq<Keyed<T>>, dst: seq<Keyed<T>>, m: nat, d: nat)
    requires m > 0
    requires SameBuckets(orig, src, LowPart(m)) && SameBuckets(src, dst, ByteAbove(m))
    ensures SameBucket(orig, dst, LowPart(m * 256), d)
  {
    var wide, high, low := LowPart(m * 256), ByteAbove(m), LowPart(m);
    var d1, d2 := d / m, d % m;
    forall h: u64
      ensures wide(h) == d <==> high(h) == d1 && low(h) == d2
    {
      WiderLowPart(h, m, d);
    }
    BucketSplits(orig, wide, d, low, d2, high, d1);
    BucketSplits(src, wide, d, low, d2, high, d1);
    BucketSplits(src, wide, d, high, d1, low, d2);
    BucketSplits(dst, wide, d, high, d1, low, d2);
    assert SameBucket(orig, src, low, d2) && SameBucket(src, dst, high, d1);
  }

  /** Before the first pass every sequence is in stable order by no digit at all. */
  lemma NoDigitsIsStable<T>(xs: seq<Keyed<T>>)
    ensures StableOrderOf(xs, xs, LowPart(1))
  {
  }

  // ----- uniqueness -----

  /** A stable order is unique: there is only one answer a stable sort can give. */
  lemma {:induction false} StableOrderUnique<T>(xs: seq<Keyed<T>>, ys: seq<Keyed<T>>, key: Digit)
    requires Ascending(xs, key) && Ascending(ys, key) && SameBuckets(xs, ys, key)
    ensures xs == ys
    decreases |xs| + |ys|
  {
    if xs == [] || ys == [] {
      EmptyBuckets(xs, ys, key);
    } else {
      LastDigitBounds(xs, ys, key);
      assert SameBuckets(ys, xs, key) by {
        assert forall d: nat :: SameBucket(xs, ys, key, d) ==> SameBucket(ys, xs, key, d);
      }
      LastDigitBounds(ys, xs, key);
      var xs', ys' := xs[..|xs| - 1], ys[..|ys| - 1];
      forall d: nat
        ensures SameBucket(xs', ys', key, d)
      {
        DropLastsFromBucket(xs, ys, key, d);
      }
      DropLastsFromBucket(xs, ys, key, key(xs[|xs| - 1].hash));
      StableOrderUnique(xs', ys', key);
    }
  }

  lemma EmptyBuckets<T>(xs: seq<Keyed<T>>, ys: seq<Keyed<T>>, key: Digit)
    requires xs == [] || ys == []
    requires SameBuckets(xs, ys, key)
    ensures xs == ys
  {
    if xs != [] {
      SomeBucketDiffers(xs, key);
    } else if ys != [] {
      SomeBucketDiffers(ys, key);
    }
  }

  lemma SomeBucketDiffers<T>(xs: seq<Keyed<T>>, key: Digit)
    requires xs != []
    ensures !SameBuckets(xs, [], key) && !SameBuckets([], xs, key)
  {
    var d := key(xs[0].hash);
    BucketHas(xs, 0, key);
    assert !SameBucket(xs, [], key, d) && !SameBucket([], xs, key, d);
  }

  lemma DropLastsFromBucket<T>(xs: seq<Keyed<T>>, ys: seq<Keyed<T>>, key: Digit, d: nat)
    requires xs != [] && ys != []
    requires key(xs[|xs| - 1].hash) == key(ys[|ys| - 1].hash)
    requires SameBuckets(xs, ys, key)
    ensures SameBucket(xs[..|xs| - 1], ys[..|ys| - 1], key, d)
    ensures key(xs[|xs| - 1].hash) == d ==> xs[|xs| - 1] == ys[|ys| - 1]
  {
    assert SameBucket(xs, ys, key, d);
    if key(xs[|xs| - 1].hash) == d {
      DropSame(Bucket(xs[..|xs| - 1], key, d), xs[|xs| - 1], Bucket(ys[..|ys| - 1], key, d), ys[|ys| - 1]);
    }
  }

  lemma DropSame<T>(a: seq<T>, x: T, b: seq<T>, y: T)
    requires a + [x] == b + [y]
    ensures a == b && x == y
  {
    assert (a + [x])[..|a|] == a && (b + [y])[..|b|] == b;
    assert (a + [x])[|a|] == x && (b + [y])[|b|] == y;
  }

  lemma LastDigitBounds<T>(xs: seq<Keyed<T>>, ys: seq<Keyed<T>>, key: Digit)
    requires xs != [] && ys != []
    requires Ascending(ys, key) && SameBuckets(xs, ys, key)
    ensures key(xs[|xs| - 1].hash) <= key(ys[|ys| - 1].hash)
  {
    var d := key(xs[|xs| - 1].hash);
    BucketHas(xs, |xs| - 1, key);
    assert SameBucket(xs, ys, key, d);
    BucketIsUniform(ys, key, d);
  }

  // ----- the insertion form is a stable order -----

  const WHOLE: Digit := h => h

  lemma {:induction false} InsertKeepsBuckets<T>(ys: seq<Keyed<T>>, x: Keyed<T>, d: nat)
    ensures Bucket(InsertLast(ys, x), WHOLE, d) == Bucket(ys + [x], WHOLE, d)
  {
    BucketSnoc(ys, x, WHOLE, d);
    if ys == [] || ys[|ys| - 1].hash <= x.hash {
    } else {
      var init, last := ys[..|ys| - 1], ys[|ys| - 1];
      InsertKeepsBuckets(init, x, d);
      BucketSnoc(InsertLast(init, x), last, WHOLE, d);
      BucketSnoc(init, x, WHOLE, d);
    }
  }

  lemma {:induction false} InsertKeepsOrder<T>(ys: seq<Keyed<T>>, x: Keyed<T>)
    requires Ascending(ys, WHOLE)
    ensures Ascending(InsertLast(ys, x), WHOLE)
    ensures forall y :: y in InsertLast(ys, x) ==> y in ys || y == x
  {
    if ys == [] || ys[|ys| - 1].hash <= x.hash {
    } else {
      var init, last := ys[..|ys| - 1], ys[|ys| - 1];
      InsertKeepsOrder(init, x);
      var r := InsertLast(init, x);
      assert forall i :: 0 <= i < |r| ==> r[i] in r;
      assert forall y :: y in init ==> WHOLE(y.hash) <= WHOLE(last.hash);
    }
  }

  lemma {:induction false} StableSortedIsStable<T>(xs: seq<Keyed<T>>)
    ensures StableOrderOf(xs, StableSorted(xs), WHOLE)
    ensures forall x :: x in StableSorted(xs) ==> x in xs
  {
    if xs != [] {
      var init, last := xs[..|xs| - 1], xs[|xs| - 1];
      StableSortedIsStable(init);
      InsertKeepsOrder(StableSorted(init), last);
      forall d: nat
        ensures SameBucket(xs, StableSorted(xs), WHOLE, d)
      {
        assert SameBucket(init, StableSorted(init), WHOLE, d);
        InsertKeepsBuckets(StableSorted(init), last, d);
        BucketSnoc(StableSorted(init), last, WHOLE, d);
      }
    }
  }

  /** Eight bytes are the whole hash. */
  lemma {:induction false} LowPartIsWhole<T>(xs: seq<Keyed<T>>, d: nat)
    ensures Bucket(xs, LowPart(TWO_64), d) == Bucket(xs, WHOLE, d)
  {
    if xs != [] {
      LowPartIsWhole(xs[..|xs| - 1], d);
    }
  }

  /** Whatever is in stable order by the low eight bytes of the hash is the sorted sequence. */
  lemma StableOrderIsStableSorted<T>(xs: seq<Keyed<T>>, ys: seq<Keyed<T>>)
    requires StableOrderOf(xs, ys, LowPart(TWO_64))
    ensures ys == StableSorted(xs)
  {
    StableSortedIsStable(xs);
    forall d: nat
      ensures SameBucket(StableSorted(xs), ys, WHOLE, d)
    {
      LowPartIsWhole(xs, d);
      LowPartIsWhole(ys, d);
      assert SameBucket(xs, ys, LowPart(TWO_64), d) && SameBucket(xs, StableSorted(xs), WHOLE, d);
    }
    assert forall y: Keyed<T> :: LowPart(TWO_64)(y.hash) == WHOLE(y.hash);
    StableOrderUnique(StableSorted(xs), ys, WHOLE);
  }

  // ----- sorting two sequences that carry the same hashes -----

  ghost predicate SameHashes<T, U>(xs: seq<Keyed<T>>, ys: seq<Keyed<U>>) {
    |xs| == |ys| && forall i :: 0 <= i < |xs| ==> xs[i].hash == ys[i].hash
  }

  ghost predicate HasSource<T, U>(xs: seq<Keyed<T>>, ys: seq<Keyed<U>>, x: Keyed<T>, y: Keyed<U>)
    requires |xs| == |ys|
  {
    exists j :: 0 <= j < |xs| && xs[j] == x && ys[j] == y
  }

  /** Every position of the sorted pair comes from one position of the unsorted pair. */
  ghost predicate SameSources<T, U>(xs: seq<Keyed<T>>, ys: seq<Keyed<U>>, xs': seq<Keyed<T>>, ys': seq<Keyed<U>>) {
    && |xs| == |ys| && |xs'| == |ys'|
    && forall i :: 0 <= i < |xs'| ==> HasSource(xs, ys, xs'[i], ys'[i])
  }

  lemma {:induction false} InsertSameHashes<T, U>(xs: seq<Keyed<T>>, ys: seq<Keyed<U>>, x: Keyed<T>, y: Keyed<U>)
    requires SameHashes(xs, ys) && x.hash == y.hash
    ensures SameHashes(InsertLast(xs, x), InsertLast(ys, y))
  {
    if xs == [] || xs[|xs| - 1].hash <= x.hash {
    } else {
      InsertSameHashes(xs[..|xs| - 1], ys[..|ys| - 1], x, y);
    }
  }

  lemma {:induction false} InsertSources<T, U>(xs: seq<Keyed<T>>, ys: seq<Keyed<U>>, x: Keyed<T>, y: Keyed<U>, i: nat)
    requires SameHashes(xs, ys) && x.hash == y.hash && i < |xs| + 1
    ensures HasSource(xs + [x], ys + [y], InsertLast(xs, x)[i], InsertLast(ys, y)[i])
  {
    if xs == [] || xs[|xs| - 1].hash <= x.hash {
      assert (xs + [x])[i] == InsertLast(xs, x)[i] && (ys + [y])[i] == InsertLast(ys, y)[i];
    } else {
      var n := |xs| - 1;
      if i < |xs| {
        InsertSources(xs[..n], ys[..n], x, y, i);
        SourceInLonger(xs, ys, x, y, InsertLast(xs[..n], x)[i], InsertLast(ys[..n], y)[i]);
      } else {
        assert (xs + [x])[n] == xs[n] && (ys + [y])[n] == ys[n];
      }
    }
  }

  lemma SourceInLonger<T, U>(xs: seq<Keyed<T>>, ys: seq<Keyed<U>>, x: Keyed<T>, y: Keyed<U>, a: Keyed<T>, b: Keyed<U>)
    requires |xs| == |ys| > 0
    requires HasSource(xs[..|xs| - 1] + [x], ys[..|ys| - 1] + [y], a, b)
    ensures HasSource(xs + [x], ys + [y], a, b)
  {
    var n := |xs| - 1;
    var j :| 0 <= j < n + 1 && (xs[..n] + [x])[j] == a && (ys[..n] + [y])[j] == b;
    var j' := if j == n then n + 1 else j;
    assert (xs + [x])[j'] == a && (ys + [y])[j'] == b;
  }

  /** Sequences with the same hashes are permuted alike by the sort, whatever they carry. */
  lemma {:induction false} SortsAlike<T, U>(xs: seq<Keyed<T>>, ys: seq<Keyed<U>>)
    requires SameHashes(xs, ys)
    ensures SameHashes(StableSorted(xs), StableSorted(ys))
    ensures SameSources(xs, ys, StableSorted(xs), StableSorted(ys))
  {
    if xs != [] {
      var n := |xs| - 1;
      SortsAlike(xs[..n], ys[..n]);
      var sx, sy := StableSorted(xs[..n]), StableSorted(ys[..n]);
      InsertSameHashes(sx, sy, xs[n], ys[n]);
      forall i | 0 <= i < |xs|
        ensures HasSource(xs, ys, StableSorted(xs)[i], StableSorted(ys)[i])
      {
        InsertSources(sx, sy, xs[n], ys[n], i);
        var j :| 0 <= j <= n && (sx + [xs[n]])[j] == StableSorted(xs)[i] && (sy + [ys[n]])[j] == StableSorted(ys)[i];
        if j < n {
          assert HasSource(xs[..n], ys[..n], sx[j], sy[j]);
          var k :| 0 <= k < n && xs[..n][k] == sx[j] && ys[..n][k] == sy[j];
          assert xs[k] == sx[j] && ys[k] == sy[j];
        } else {
          assert xs[n] == StableSorted(xs)[i] && ys[n] == StableSorted(ys)[i];
        }
      }
    }
  }
}
