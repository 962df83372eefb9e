/** What one radix pass computes, and the destination slot it gives to each entry. */
module CountingPass {
  import opened Bytes
  import opened StableSort

  /** The first `n` buckets of `src`, one after the other. */
  function Gather<T>(src: seq<Keyed<T>>, key: Digit, n: nat): (r: seq<Keyed<T>>) {
    if n == 0 then [] else Gather(src, key, n - 1) + Bucket(src, key, n - 1)
  }

  ghost predicate IsByte(key: Digit) {
    forall h: u64 :: key(h) < 256
  }

  // ----- gathering is a stable pass -----

  lemma {:induction false} BucketOfBucket<T>(xs: seq<Keyed<T>>, key: Digit, d: nat, e: nat)
    ensures Bucket(Bucket(xs, key, e), key, d) == if d == e then Bucket(xs, key, e) else []
  {
    if xs != [] {
      var init, last := xs[..|xs| - 1], xs[|xs| - 1];
      BucketOfBucket(init, key, d, e);
      BucketSnoc(Bucket(init, key, e), last, key, d);
    }
  }

  lemma GatherSnoc<T>(src: seq<Keyed<T>>, key: Digit, n: nat)
    requires n > 0
    ensures Gather(src, key, n) == Gather(src, key, n - 1) + Bucket(src, key, n - 1)
  {
  }

  lemma {:induction false} GatherBuckets<T>(src: seq<Keyed<T>>, key: Digit, n: nat, d: nat)
    ensures Bucket(Gather(src, key, n), key, d) == if d < n then Bucket(src, key, d) else []
  {
    if n > 0 {
      var before, last := Gather(src, key, n - 1), Bucket(src, key, n - 1);
      GatherBuckets(src, key, n - 1, d);
      BucketConcat(before, last, key, d);
      BucketOfBucket(src, key, d, n - 1);
      GatherSnoc(src, key, n);
      hide Bucket, Gather;
      if d < n - 1 {
        assert Bucket(src, key, d) + [] == Bucket(src, key, d);
      } else if d == n - 1 {
        assert [] + Bucket(src, key, d) == Bucket(src, key, d);
      }
    }
  }

  lemma {:induction false} GatherAscending<T>(src: seq<Keyed<T>>, key: Digit, n: nat)
    ensures Ascending(Gather(src, key, n), key)
    ensures forall x :: x in Gather(src, key, n) ==> key(x.hash) < n
  {
    if n > 0 {
      GatherAscending(src, key, n - 1);
      BucketIsUniform(src, key, n - 1);
      var a, b := Gather(src, key, n - 1), Bucket(src, key, n - 1);
      assert forall i :: 0 <= i < |a| ==> a[i] in a;
      assert forall i :: 0 <= i < |b| ==> b[i] in b;
    }
  }

  lemma {:induction false} LargeBucketEmpty<T>(src: seq<Keyed<T>>, key: Digit, d: nat)
    requires IsByte(key) && d >= 256
    ensures Bucket(src, key, d) == []
  {
    if src != [] {
      LargeBucketEmpty(src[..|src| - 1], key, d);
      assert key(src[|src| - 1].hash) < 256;
    }
  }

  lemma GatherIsStable<T>(src: seq<Keyed<T>>, key: Digit)
    requires IsByte(key)
    ensures StableOrderOf(src, Gather(src, key, 256), key)
  {
    GatherAscending(src, key, 256);
    forall d: nat
      ensures SameBucket(src, Gather(src, key, 256), key, d)
    {
      GatherBuckets(src, key, 256, d);
      if d >= 256 {
        LargeBucketEmpty(src, key, d);
      }
    }
  }

  // ----- sizes -----

  lemma {:induction false} GatherLengthSnoc<T>(src: seq<Keyed<T>>, x: Keyed<T>, key: Digit, n: nat)
    ensures |Gather(src + [x], key, n)| == |Gather(src, key, n)| + if key(x.hash) < n then 1 else 0
  {
    if n > 0 {
      GatherLengthSnoc(src, x, key, n - 1);
      BucketSnoc(src, x, key, n - 1);
    }
  }

  lemma {:induction false} EmptyGather<T>(key: Digit, n: nat)
    ensures Gather<T>([], key, n) == []
  {
    if n > 0 {
      EmptyGather<T>(key, n - 1);
    }
  }

  /** A pass loses and invents no entry. */
  lemma {:induction false} GatherLength<T>(src: seq<Keyed<T>>, key: Digit)
    requires IsByte(key)
    ensures |Gather(src, key, 256)| == |src|
  {
    if src == [] {
      EmptyGather<T>(key, 256);
    } else {
      var init, last := src[..|src| - 1], src[|src| - 1];
      GatherLength(init, key);
      GatherLengthSnoc(init, last, key, 256);
      assert key(last.hash) < 256;
      assert src == init + [last];
    }
  }

  lemma {:induction false} GatherPrefix<T>(src: seq<Keyed<T>>, key: Digit, b: nat, n: nat)
    requires b <= n
    ensures |Gather(src, key, b)| <= |Gather(src, key, n)|
    ensures Gather(src, key, n)[..|Gather(src, key, b)|] == Gather(src, key, b)
  {
    if b < n {
      GatherPrefix(src, key, b, n - 1);
    }
  }

  // ----- slots -----

  /** Where the entries with digit `b` go that stand at `i` or later. */
  function WriteBase<T>(src: seq<Keyed<T>>, key: Digit, i: nat, b: nat): (p: nat)
    requires i <= |src|
  {
    |Gather(src, key, b)| + |Bucket(src[..i], key, b)|
  }

  /** The destination slot of entry `i`: it depends on nothing but the source. */
  function Slot<T>(src: seq<Keyed<T>>, key: Digit, i: nat): (p: nat)
    requires i < |src|
  {
    WriteBase(src, key, i, key(src[i].hash))
  }

  /** Passing entry `i` moves on the write base of its own digit only. */
  lemma WriteBaseStep<T>(src: seq<Keyed<T>>, key: Digit, i: nat, b: nat)
    requires i < |src|
    ensures WriteBase(src, key, i + 1, b) == WriteBase(src, key, i, b) + if key(src[i].hash) == b then 1 else 0
  {
    BucketSnoc(src[..i], src[i], key, b);
    assert src[..i + 1] == src[..i] + [src[i]];
  }

  lemma BucketPrefix<T>(src: seq<Keyed<T>>, key: Digit, i: nat, b: nat)
    requires i <= |src|
    ensures |Bucket(src[..i], key, b)| <= |Bucket(src, key, b)|
    ensures Bucket(src, key, b)[..|Bucket(src[..i], key, b)|] == Bucket(src[..i], key, b)
  {
    BucketConcat(src[..i], src[i..], key, b);
    assert src == src[..i] + src[i..];
  }

  /** Entry `i`'s slot is inside the part of its bucket, and holds entry `i` in the gathered sequence. */
  lemma SlotHolds<T>(src: seq<Keyed<T>>, key: Digit, i: nat)
    requires IsByte(key) && i < |src|
    ensures |Gather(src, key, key(src[i].hash))| <= Slot(src, key, i) < |Gather(src, key, key(src[i].hash) + 1)|
    ensures |Gather(src, key, 256)| == |src| && Slot(src, key, i) < |src|
    ensures Gather(src, key, 256)[Slot(src, key, i)] == src[i]
  {
    var b := key(src[i].hash);
    BucketPrefix(src, key, i + 1, b);
    BucketSnoc(src[..i], src[i], key, b);
    assert src[..i + 1] == src[..i] + [src[i]];
    GatherSnoc(src, key, b + 1);
    hide Bucket, Gather;
    assert Bucket(src, key, b)[|Bucket(src[..i], key, b)|] == src[i];
    assert Gather(src, key, b + 1)[Slot(src, key, i)] == src[i];
    GatherLength(src, key);
    GatherPrefix(src, key, b + 1, 256);
    assert Gather(src, key, 256)[..|Gather(src, key, b + 1)|][Slot(src, key, i)] == src[i];
  }

  /** No two entries share a slot. */
  lemma SlotInjective<T>(src: seq<Keyed<T>>, key: Digit, i: nat, j: nat)
    requires IsByte(key) && i < |src| && j < |src| && i != j
    ensures Slot(src, key, i) != Slot(src, key, j)
  {
    if i < j {
      SlotsDiffer(src, key, i, j);
    } else {
      SlotsDiffer(src, key, j, i);
    }
  }

  lemma SlotsDiffer<T>(src: seq<Keyed<T>>, key: Digit, i: nat, j: nat)
    requires IsByte(key) && i < j < |src|
    ensures Slot(src, key, i) != Slot(src, key, j)
  {
    var b, c := key(src[i].hash), key(src[j].hash);
    if b == c {
      WriteBaseStep(src, key, i, b);
      BucketPrefix(src[..j], key, i + 1, b);
      assert src[..j][..i + 1] == src[..i + 1];
    } else {
      SlotHolds(src, key, i);
      SlotHolds(src, key, j);
      if b < c {
        GatherPrefix(src, key, b + 1, c);
      } else {
        GatherPrefix(src, key, c + 1, b);
      }
    }
  }

  /** Every slot belongs to an entry. */
  lemma SlotOnto<T>(src: seq<Keyed<T>>, key: Digit, p: nat) returns (i: nat)
    requires IsByte(key) && p < |src|
    ensures i < |src| && Slot(src, key, i) == p
  {
    GatherLength(src, key);
    i := SlotOntoBelow(src, key, p, 256);
  }

  lemma {:induction false} SlotOntoBelow<T>(src: seq<Keyed<T>>, key: Digit, p: nat, n: nat) returns (i: nat)
    requires p < |Gather(src, key, n)|
    ensures i < |src| && Slot(src, key, i) == p
  {
    if p < |Gather(src, key, n - 1)| {
      i := SlotOntoBelow(src, key, p, n - 1);
    } else {
      i := BucketPosition(src, key, n - 1, p - |Gather(src, key, n - 1)|);
    }
  }

  lemma {:induction false} BucketPosition<T>(src: seq<Keyed<T>>, key: Digit, b: nat, k: nat) returns (i: nat)
    requires k < |Bucket(src, key, b)|
    ensures i < |src| && key(src[i].hash) == b && |Bucket(src[..i], key, b)| == k
  {
    var init := src[..|src| - 1];
    if k < |Bucket(init, key, b)| {
      i := BucketPosition(init, key, b, k);
      assert init[..i] == src[..i];
    } else {
      i := |src| - 1;
    }
  }

  /** Entry `i` stands in its slot. */
  ghost predicate Placed<T>(src: seq<Keyed<T>>, key: Digit, dst: seq<Keyed<T>>, i: nat) {
    i < |src| && Slot(src, key, i) < |dst| && dst[Slot(src, key, i)] == src[i]
  }

  /** A destination that has every entry in its slot is the gathered sequence. */
  lemma SlotsFilled<T>(src: seq<Keyed<T>>, key: Digit, dst: seq<Keyed<T>>)
    requires IsByte(key) && |dst| == |src|
    requires forall i :: 0 <= i < |src| ==> Placed(src, key, dst, i)
    ensures dst == Gather(src, key, 256)
  {
    GatherLength(src, key);
    forall p | 0 <= p < |dst|
      ensures dst[p] == Gather(src, key, 256)[p]
    {
      var i := SlotOnto(src, key, p);
      SlotHolds(src, key, i);
      assert Placed(src, key, dst, i);
    }
  }
}
