/** The three sorts of pending block entries, in place on arrays, each proved to give the one stable order. */
module PendingSort {
  import opened Bytes
  import opened CountingPass
  import opened StableSort
  import PS = ParallelScatter

  // ----- insertion sort -----

  method InsertionSort<T>(entries: array<Keyed<T>>)
    modifies entries
    ensures entries[..] == StableSorted(old(entries[..]))
  {
    ghost var was := entries[..];
    if entries.Length == 0 {
      return;
    }
    assert was[..1] == [was[0]] && StableSorted(was[..1]) == InsertLast(StableSorted<T>([]), was[0]);
    for i := 1 to entries.Length
      invariant entries[..i] == StableSorted(was[..i])
      invariant entries[i..] == was[i..]
    {
      assert entries[i] == entries[i..][0] == was[i];
      assert was[..i + 1][..i] == was[..i];
      InsertAt(entries, i);
      assert entries[i + 1..] == was[i..][1..] == was[i + 1..];
    }
    assert was[..entries.Length] == was && entries[..entries.Length] == entries[..];
  }

  /** The inner loop: shifts greater entries right and drops the pivot in. */
  method InsertAt<T>(entries: array<Keyed<T>>, i: nat)
    requires 0 < i < entries.Length
    modifies entries
    ensures entries[..i + 1] == InsertLast(old(entries[..i]), old(entries[i]))
    ensures entries[i + 1..] == old(entries[i + 1..])
  {
    var pivot := entries[i];
    var j := i;
    ghost var was := entries[..i];
    while j > 0 && entries[j - 1].hash > pivot.hash
      invariant 0 <= j <= i
      invariant forall k :: 0 <= k < j ==> entries[k] == was[k]
      invariant forall k :: j < k <= i ==> entries[k] == was[k - 1]
      invariant forall k :: j <= k < i ==> was[k].hash > pivot.hash
      invariant forall k :: i < k < entries.Length ==> entries[k] == old(entries[k])
    {
      entries[j] := entries[j - 1];
      j := j - 1;
    }
    entries[j] := pivot;
    hide InsertLast;
    InsertSplits(was, pivot, j);
    assert entries[..i + 1] == was[..j] + [pivot] + was[j..];
  }

  lemma {:induction false} InsertSplits<T>(ys: seq<Keyed<T>>, x: Keyed<T>, j: nat)
    requires j <= |ys|
    requires j == 0 || ys[j - 1].hash <= x.hash
    requires forall k :: j <= k < |ys| ==> ys[k].hash > x.hash
    ensures InsertLast(ys, x) == ys[..j] + [x] + ys[j..]
  {
    if j < |ys| {
      var init := ys[..|ys| - 1];
      InsertSplits(init, x, j);
      assert ys[j..] == init[j..] + [ys[|ys| - 1]];
      assert ys[..j] == init[..j];
    }
  }

  // ----- one serial pass -----

  function ByteOf(hash: u64, m: nat): (b: byte)
    requires m > 0
    ensures b == ByteAbove(m)(hash)
  {
    hash / m % 256
  }

  /** Counts digits over one range of the source: the count loop of a serial pass and of each count worker. */
  method CountRange<T>(src: array<Keyed<T>>, start: nat, end: nat, m: nat) returns (counts: array<nat>)
    requires m > 0 && start <= end <= src.Length
    ensures fresh(counts) && counts.Length == 256
    ensures forall b :: 0 <= b < 256 ==> counts[b] == |Bucket(src[start..end], ByteAbove(m), b)|
  {
    counts := new nat[256](_ => 0);
    assert src[start..start] == [];
    for i := start to end
      invariant forall b :: 0 <= b < 256 ==> counts[b] == |Bucket(src[start..i], ByteAbove(m), b)|
    {
      assert src[start..i + 1] == src[start..i] + [src[i]];
      forall b | 0 <= b < 256
        ensures |Bucket(src[start..i + 1], ByteAbove(m), b)|
             == |Bucket(src[start..i], ByteAbove(m), b)| + if ByteAbove(m)(src[i].hash) == b then 1 else 0
      {
        BucketSnoc(src[start..i], src[i], ByteAbove(m), b);
      }
      var digit := ByteOf(src[i].hash, m);
      counts[digit] := counts[digit] + 1;
    }
  }

  /** Turns the counts of a whole source into the first slot of each digit. */
  method PrefixSums<T>(ghost src: seq<Keyed<T>>, counts: array<nat>, m: nat) returns (prefix: array<nat>)
    requires m > 0 && counts.Length == 256
    requires forall b :: 0 <= b < 256 ==> counts[b] == |Bucket(src, ByteAbove(m), b)|
    ensures fresh(prefix) && prefix.Length == 256
    ensures forall b :: 0 <= b < 256 ==> prefix[b] == WriteBase(src, ByteAbove(m), 0, b)
  {
    prefix := new nat[256](_ => 0);
    FirstSlot(src, ByteAbove(m), 0);
    for i := 1 to 256
      invariant forall b :: 0 <= b < i ==> prefix[b] == WriteBase(src, ByteAbove(m), 0, b)
    {
      FirstSlot(src, ByteAbove(m), i - 1);
      prefix[i] := prefix[i - 1] + counts[i - 1];
    }
  }

  lemma FirstSlot<T>(src: seq<Keyed<T>>, key: Digit, b: nat)
    ensures WriteBase(src, key, 0, 0) == 0
    ensures WriteBase(src, key, 0, b + 1) == WriteBase(src, key, 0, b) + |Bucket(src, key, b)|
  {
    assert src[..0] == [];
  }

  method Scatter<T>(src: array<Keyed<T>>, dst: array<Keyed<T>>, prefix: array<nat>, m: nat)
    requires m > 0 && src != dst && src.Length == dst.Length && prefix.Length == 256
    requires forall b :: 0 <= b < 256 ==> prefix[b] == WriteBase(src[..], ByteAbove(m), 0, b)
    modifies dst, prefix
    ensures forall i :: 0 <= i < src.Length ==> Placed(src[..], ByteAbove(m), dst[..], i)
  {
    ghost var key := ByteAbove(m);
    ghost var from := src[..];
    for i := 0 to src.Length
      invariant forall b :: 0 <= b < 256 ==> prefix[b] == WriteBase(from, key, i, b)
      invariant forall j :: 0 <= j < i ==> Placed(from, key, dst[..], j)
    {
      SlotHolds(from, key, i);
      forall b | 0 <= b < 256
        ensures WriteBase(from, key, i + 1, b) == WriteBase(from, key, i, b) + if key(from[i].hash) == b then 1 else 0
      {
        WriteBaseStep(from, key, i, b);
      }
      ghost var was := dst[..];
      var digit := ByteOf(src[i].hash, m);
      dst[prefix[digit]] := src[i];
      prefix[digit] := prefix[digit] + 1;
      forall j | 0 <= j < i
        ensures Placed(from, key, dst[..], j)
      {
        SlotInjective(from, key, i, j);
        assert Placed(from, key, was, j);
      }
    }
  }

  method SerialPass<T>(src: array<Keyed<T>>, dst: array<Keyed<T>>, m: nat)
    requires m > 0 && src != dst && src.Length == dst.Length
    modifies dst
    ensures dst[..] == Gather(src[..], ByteAbove(m), 256)
  {
    var counts := CountRange(src, 0, src.Length, m);
    assert src[0..src.Length] == src[..];
    var prefix := PrefixSums(src[..], counts, m);
    Scatter(src, dst, prefix, m);
    SlotsFilled(src[..], ByteAbove(m), dst[..]);
  }

  // ----- one parallel pass -----

  /** The range of each worker: equal chunks, the last one taking the remainder. */
  method SplitRanges(count: nat, workerCount: nat) returns (workers: seq<PS.Worker>)
    requires workerCount >= 1
    ensures |workers| == workerCount && PS.Partition(workers, count)
    ensures forall w :: 0 <= w < workerCount ==> workers[w].pos == workers[w].start && !workers[w].stored
    ensures forall w :: 0 <= w < workerCount ==> workers[w].end <= count
  {
    var chunk := count / workerCount;
    ChunksFit(count, workerCount, workerCount);
    workers := [];
    for w := 0 to workerCount
      invariant |workers| == w
      invariant forall v :: 0 <= v < w ==>
        && workers[v].start == v * chunk <= workers[v].end <= count
        && workers[v].end == (if v + 1 == workerCount then count else (v + 1) * chunk)
        && workers[v].pos == workers[v].start && !workers[v].stored
    {
      ChunksFit(count, workerCount, w);
      ChunksFit(count, workerCount, w + 1);
      MulDistributes(chunk, w + 1, w);
      var end := if w + 1 == workerCount then count else (w + 1) * chunk;
      workers := workers + [PS.Worker(w * chunk, end, w * chunk, false, [])];
    }
  }

  lemma ChunksFit(count: nat, workerCount: nat, w: nat)
    requires workerCount >= 1 && w <= workerCount
    ensures 0 <= w * (count / workerCount) <= count
  {
    var chunk := count / workerCount;
    assert count == workerCount * chunk + count % workerCount;
    MulNonNegative(chunk, w);
    MulNonNegative(chunk, workerCount - w);
    MulDistributes(chunk, workerCount, w);
  }

  ghost predicate BasesUpTo<T>(src: seq<Keyed<T>>, key: Digit, workers: seq<PS.Worker>, n: nat) {
    forall w, b :: 0 <= w < |workers| && 0 <= b < n ==>
      workers[w].start <= |src| && b < |workers[w].write| && workers[w].write[b] == WriteBase(src, key, workers[w].start, b)
  }

  /** Bucket by bucket, gives every worker its first slot: after the buckets before and the same bucket of the workers before. */
  method AssignPositions<T>(ghost src: seq<Keyed<T>>, m: nat, workers: seq<PS.Worker>, counts: seq<seq<nat>>)
    returns (ready: seq<PS.Worker>)
    requires m > 0 && PS.Partition(workers, |src|) && |counts| == |workers|
    requires forall w :: 0 <= w < |workers| ==> workers[w].end <= |src| && workers[w].write == []
    requires forall w :: 0 <= w < |workers| ==> CountsOf(src, m, workers[w], counts[w])
    ensures |ready| == |workers|
    ensures forall w :: 0 <= w < |workers| ==> ready[w] == workers[w].(write := ready[w].write) && |ready[w].write| == 256
    ensures BasesUpTo(src, ByteAbove(m), ready, 256)
  {
    ready := workers;
    var total := 0;
    for b := 0 to 256
      invariant |ready| == |workers|
      invariant forall w :: 0 <= w < |workers| ==> ready[w] == workers[w].(write := ready[w].write) && |ready[w].write| == b
      invariant BasesUpTo(src, ByteAbove(m), ready, b)
      invariant total == |Gather(src, ByteAbove(m), b)|
    {
      ready, total := AssignBucket(src, m, workers, ready, counts, b, total);
    }
  }

  ghost predicate CountsOf<T>(src: seq<Keyed<T>>, m: nat, worker: PS.Worker, counts: seq<nat>)
    requires m > 0
  {
    && worker.start <= worker.end <= |src| && |counts| == 256
    && forall b :: 0 <= b < 256 ==> counts[b] == |Bucket(src[worker.start..worker.end], ByteAbove(m), b)|
  }

  method AssignBucket<T>(ghost src: seq<Keyed<T>>, m: nat, ghost plan: seq<PS.Worker>, workers: seq<PS.Worker>,
                         counts: seq<seq<nat>>, b: nat, runningTotal: nat)
    returns (ready: seq<PS.Worker>, total: nat)
    requires m > 0 && b < 256 && PS.Partition(plan, |src|) && |counts| == |workers| == |plan|
    requires forall w :: 0 <= w < |workers| ==> CountsOf(src, m, plan[w], counts[w])
    requires forall w :: 0 <= w < |workers| ==> workers[w] == plan[w].(write := workers[w].write) && |workers[w].write| == b
    requires BasesUpTo(src, ByteAbove(m), workers, b)
    requires runningTotal == |Gather(src, ByteAbove(m), b)|
    ensures |ready| == |workers|
    ensures forall w :: 0 <= w < |workers| ==> ready[w] == plan[w].(write := ready[w].write) && |ready[w].write| == b + 1
    ensures BasesUpTo(src, ByteAbove(m), ready, b + 1)
    ensures total == |Gather(src, ByteAbove(m), b + 1)|
  {
    ghost var key := ByteAbove(m);
    ready := workers;
    var position := runningTotal;
    BucketEnds(src, key, b);
    hide WriteBase, Bucket, Gather;
    for w := 0 to |workers|
      invariant |ready| == |workers|
      invariant position == WriteBase(src, key, StartOf(plan, w), b)
      invariant forall v :: w <= v < |workers| ==> ready[v] == workers[v]
      invariant forall v :: 0 <= v < w ==> ready[v] == workers[v].(write := workers[v].write + [WriteBase(src, key, plan[v].start, b)])
    {
      ChunkBase(src, m, plan[w], counts[w], b);
      assert StartOf(plan, w + 1) == plan[w].end;
      ready := ready[w := ready[w].(write := ready[w].write + [position])];
      position := position + counts[w][b];
    }
    total := position;
  }

  lemma BucketEnds<T>(src: seq<Keyed<T>>, key: Digit, b: nat)
    ensures WriteBase(src, key, 0, b) == |Gather(src, key, b)|
    ensures WriteBase(src, key, |src|, b) == |Gather(src, key, b + 1)|
  {
    assert src[..0] == [] && src[..|src|] == src;
  }

  lemma ChunkBase<T>(src: seq<Keyed<T>>, m: nat, worker: PS.Worker, counts: seq<nat>, b: nat)
    requires m > 0 && CountsOf(src, m, worker, counts) && b < 256
    ensures WriteBase(src, ByteAbove(m), worker.end, b) == WriteBase(src, ByteAbove(m), worker.start, b) + counts[b]
  {
    BucketConcat(src[..worker.start], src[worker.start..worker.end], ByteAbove(m), b);
    assert src[..worker.end] == src[..worker.start] + src[worker.start..worker.end];
  }

  /** Where worker `w` starts; for the worker after the last, where the last one ends. */
  ghost function StartOf(workers: seq<PS.Worker>, w: nat): (start: nat)
    requires |workers| > 0 && w <= |workers|
  {
    if w < |workers| then workers[w].start else workers[|workers| - 1].end
  }

  lemma ReadyIsInv<T>(src: seq<Keyed<T>>, m: nat, dst: seq<Keyed<T>>, ready: seq<PS.Worker>)
    requires m > 0 && |dst| == |src| && PS.Partition(ready, |src|)
    requires forall w :: 0 <= w < |ready| ==>
      ready[w].pos == ready[w].start && !ready[w].stored && |ready[w].write| == 256 && ready[w].end <= |src|
    requires BasesUpTo(src, ByteAbove(m), ready, 256)
    ensures PS.Inv(src, ByteAbove(m), dst, PS.State(dst, ready, []))
  {
    var s := PS.State(dst, ready, []);
    forall w | 0 <= w < |ready|
      ensures PS.WorkerOk(src, ByteAbove(m), ready[w])
    {
    }
    forall i: nat
      ensures !PS.Written(s, i)
    {
    }
  }

  /** The scatter workers, scheduled in any order one step at a time until all have finished. */
  method ScatterConcurrently<T>(src: array<Keyed<T>>, dst: array<Keyed<T>>, m: nat, ready: seq<PS.Worker>)
    requires m > 0 && src != dst && src.Length == dst.Length
    requires PS.Inv(src[..], ByteAbove(m), dst[..], PS.State(dst[..], ready, []))
    modifies dst
    ensures dst[..] == Gather(src[..], ByteAbove(m), 256)
  {
    ghost var before := dst[..];
    ghost var s := PS.State(dst[..], ready, []);
    var workers := ready;
    while exists w :: 0 <= w < |workers| && workers[w].pos < workers[w].end
      invariant PS.Inv(src[..], ByteAbove(m), before, s)
      invariant s.dst == dst[..] && s.workers == workers
      decreases StepsLeft(src[..], ByteAbove(m), before, s)
    {
      var w :| 0 <= w < |workers| && workers[w].pos < workers[w].end;
      s, workers := Tick(src, dst, m, before, s, workers, w);
    }
    assert forall w :: 0 <= w < |s.workers| ==> PS.Finished(s, w);
    PS.FinishedIsGathered(src[..], ByteAbove(m), before, s);
  }

  ghost function StepsLeft<T>(src: seq<Keyed<T>>, key: Digit, before: seq<Keyed<T>>, s: PS.State<T>): nat
    requires PS.Inv(src, key, before, s)
  {
    assert forall v :: 0 <= v < |s.workers| ==> PS.WorkerOk(src, key, s.workers[v]);
    PS.Remaining(s.workers)
  }

  /** Lets worker `w` make one step; the abstract state makes the same step. */
  method Tick<T>(src: array<Keyed<T>>, dst: array<Keyed<T>>, m: nat, ghost before: seq<Keyed<T>>,
                 ghost s: PS.State<T>, workers: seq<PS.Worker>, w: nat)
    returns (ghost s': PS.State<T>, workers': seq<PS.Worker>)
    requires m > 0 && src != dst && src.Length == dst.Length
    requires PS.Inv(src[..], ByteAbove(m), before, s) && s.dst == dst[..] && s.workers == workers
    requires w < |workers| && !PS.Finished(s, w)
    modifies dst
    ensures s' == PS.Step(src[..], ByteAbove(m), before, s, w)
    ensures PS.Inv(src[..], ByteAbove(m), before, s') && s'.dst == dst[..] && s'.workers == workers'
    ensures StepsLeft(src[..], ByteAbove(m), before, s') < StepsLeft(src[..], ByteAbove(m), before, s)
  {
    ghost var key := ByteAbove(m);
    PS.StepProgress(src[..], key, before, s, w);
    PS.WorkerReady(src[..], key, before, s, w);
    hide PS.Inv, PS.Target, PS.Remaining, PS.AfterStep;
    ghost var target := PS.Target(src[..], key, before, s, w);
    s' := PS.Step(src[..], key, before, s, w);
    workers' := ScatterStep(src, dst, m, workers, w, target);
  }

  /** Half an iteration of the scatter worker's loop: the store, or the two increments after it. */
  method ScatterStep<T>(src: array<Keyed<T>>, dst: array<Keyed<T>>, m: nat, workers: seq<PS.Worker>, w: nat, ghost target: nat)
    returns (after: seq<PS.Worker>)
    requires m > 0 && src != dst && w < |workers| && workers[w].pos < src.Length && |workers[w].write| == 256
    requires workers[w].write[ByteOf(src[workers[w].pos].hash, m)] == target < dst.Length
    modifies dst
    ensures dst[..] == if workers[w].stored then old(dst[..]) else old(dst[..])[target := src[workers[w].pos]]
    ensures after == workers[w := PS.AfterStep(workers[w], ByteOf(src[workers[w].pos].hash, m))]
  {
    var worker := workers[w];
    var digit := ByteOf(src[worker.pos].hash, m);
    if !worker.stored {
      dst[worker.write[digit]] := src[worker.pos];
      after := workers[w := worker.(stored := true)];
    } else {
      after := workers[w := worker.(
        pos := worker.pos + 1, stored := false, write := worker.write[digit := worker.write[digit] + 1])];
    }
  }

  method ParallelPass<T>(src: array<Keyed<T>>, dst: array<Keyed<T>>, m: nat, workerCount: nat)
    requires m > 0 && src != dst && src.Length == dst.Length && workerCount >= 1
    modifies dst
    ensures dst[..] == Gather(src[..], ByteAbove(m), 256)
  {
    var workers := SplitRanges(src.Length, workerCount);
    var counts := CountConcurrently(src, m, workers);
    var plan := Unassigned(workers);
    var ready := AssignPositions(src[..], m, plan, counts);
    ReadyIsInv(src[..], m, dst[..], ready);
    ScatterConcurrently(src, dst, m, ready);
  }

  /** The count workers write only their own counters, so their order does not matter. */
  method CountConcurrently<T>(src: array<Keyed<T>>, m: nat, workers: seq<PS.Worker>) returns (counts: seq<seq<nat>>)
    requires m > 0 && PS.Partition(workers, src.Length)
    requires forall w :: 0 <= w < |workers| ==> workers[w].end <= src.Length
    ensures |counts| == |workers|
    ensures forall w :: 0 <= w < |workers| ==> CountsOf(src[..], m, workers[w], counts[w])
  {
    counts := [];
    for w := 0 to |workers|
      invariant |counts| == w
      invariant forall v :: 0 <= v < w ==> CountsOf(src[..], m, workers[v], counts[v])
    {
      var local := CountRange(src, workers[w].start, workers[w].end, m);
      assert src[workers[w].start..workers[w].end] == src[..][workers[w].start..workers[w].end];
      counts := counts + [local[..]];
    }
  }

  method Unassigned(workers: seq<PS.Worker>) returns (plan: seq<PS.Worker>)
    ensures |plan| == |workers|
    ensures forall w :: 0 <= w < |workers| ==> plan[w] == workers[w].(write := [])
  {
    plan := seq(|workers|, w requires 0 <= w < |workers| => workers[w].(write := []));
  }

  // ----- eight passes -----

  method RadixSort<T(0)>(entries: array<Keyed<T>>, workerCount: nat, parallel: bool)
    requires parallel ==> workerCount >= 1
    modifies entries
    ensures entries[..] == StableSorted(old(entries[..]))
  {
    var blank: Keyed<T> := *;
    var scratch := new Keyed<T>[entries.Length](_ => blank);
    ghost var orig := entries[..];
    var src, dst := entries, scratch;
    var m := 1;
    NoDigitsIsStable(orig);
    for pass := 0 to 8
      invariant m == Pow256(pass)
      invariant src.Length == dst.Length == entries.Length && src != dst
      invariant if pass % 2 == 0 then src == entries && dst == scratch else src == scratch && dst == entries
      invariant StableOrderOf(orig, src[..], LowPart(m))
    {
      if parallel {
        ParallelPass(src, dst, m, workerCount);
      } else {
        SerialPass(src, dst, m);
      }
      GatherIsStable(src[..], ByteAbove(m));
      PassExtendsOrder(orig, src[..], dst[..], m);
      m := m * 256;
      src, dst := dst, src;
    }
    PowersOf256();
    StableOrderIsStableSorted(orig, entries[..]);
  }

  // ----- the dispatcher -----

  /** Picks a sort by size and worker count; the result depends on neither. */
  method Sort<T(0)>(entries: array<Keyed<T>>, workerCount: nat)
    modifies entries
    ensures entries[..] == StableSorted(old(entries[..]))
  {
    if entries.Length < 2 {
      SortedShort(entries[..]);
      return;
    }
    if entries.Length <= 32 {
      InsertionSort(entries);
    } else {
      RadixSort(entries, workerCount, workerCount >= 2 && entries.Length >= 10000);
    }
  }

  lemma SortedShort<T>(xs: seq<Keyed<T>>)
    requires |xs| < 2
    ensures StableSorted(xs) == xs
  {
    if |xs| == 1 {
      assert StableSorted(xs) == InsertLast(StableSorted<T>([]), xs[0]);
    }
  }
}
