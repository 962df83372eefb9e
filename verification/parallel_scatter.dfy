/** The scatter phase of the threaded radix pass: workers share one destination array and nothing orders their steps. */
module ParallelScatter {
  import opened CountingPass
  import opened StableSort

  /** A worker's context: its range, its position in it, and where its next entry of each digit goes.
      `stored` says that the entry at `pos` has been written but the positions have not been moved on yet. */
  datatype Worker = Worker(start: nat, end: nat, pos: nat, stored: bool, write: seq<nat>)

  /** `log` lists the destination slots in the order they were written. */
  datatype State<T> = State(dst: seq<Keyed<T>>, workers: seq<Worker>, log: seq<nat>)

  ghost predicate Finished<T>(s: State<T>, w: nat)
    requires w < |s.workers|
  {
    s.workers[w].pos >= s.workers[w].end
  }

  ghost predicate AllFinished<T>(s: State<T>) {
    forall w :: 0 <= w < |s.workers| ==> Finished(s, w)
  }

  // ----- one step -----

  /** Has the worker written entry `i`? */
  ghost predicate Wrote(worker: Worker, i: nat) {
    worker.start <= i < worker.pos || (worker.stored && i == worker.pos)
  }

  ghost predicate Written<T>(s: State<T>, i: nat) {
    exists w :: 0 <= w < |s.workers| && Wrote(s.workers[w], i)
  }

  /** The workers' ranges cover the source from left to right. */
  ghost predicate Partition(workers: seq<Worker>, count: nat) {
    && |workers| > 0
    && workers[0].start == 0
    && workers[|workers| - 1].end == count
    && (forall w :: 0 <= w < |workers| ==> workers[w].start <= workers[w].end)
    && (forall w :: 0 <= w < |workers| - 1 ==> workers[w].end == workers[w + 1].start)
  }

  ghost predicate WorkerOk<T>(src: seq<Keyed<T>>, key: Digit, worker: Worker) {
    && worker.start <= worker.pos <= worker.end <= |src|
    && (worker.stored ==> worker.pos < worker.end)
    && |worker.write| == 256
    && (forall b :: 0 <= b < 256 ==> worker.write[b] == WriteBase(src, key, worker.pos, b))
  }

  ghost predicate IsSlotOfWritten<T>(src: seq<Keyed<T>>, key: Digit, s: State<T>, p: nat) {
    exists i: nat :: i < |src| && Written(s, i) && Slot(src, key, i) == p
  }

  ghost predicate NoRepeats(log: seq<nat>) {
    forall k, l :: 0 <= k < l < |log| ==> log[k] != log[l]
  }

  /** What every reachable state of the scatter phase satisfies; `before` is the destination at its start. */
  ghost predicate Inv<T>(src: seq<Keyed<T>>, key: Digit, before: seq<Keyed<T>>, s: State<T>) {
    && IsByte(key)
    && |s.dst| == |src| == |before|
    && Partition(s.workers, |src|)
    && (forall w :: 0 <= w < |s.workers| ==> WorkerOk(src, key, s.workers[w]))
    && (forall i: nat :: Written(s, i) ==> Placed(src, key, s.dst, i))
    && (forall p :: 0 <= p < |before| && p !in s.log ==> s.dst[p] == before[p])
    && (forall i: nat :: Written(s, i) && i < |src| ==> Slot(src, key, i) in s.log)
    && (forall p :: p in s.log ==> IsSlotOfWritten(src, key, s, p))
    && NoRepeats(s.log)
  }

  /** The slot worker `w` writes next, or has just written. */
  ghost function Target<T>(src: seq<Keyed<T>>, key: Digit, before: seq<Keyed<T>>, s: State<T>, w: nat): (p: nat)
    requires Inv(src, key, before, s) && w < |s.workers| && !Finished(s, w)
    ensures p == Slot(src, key, s.workers[w].pos) && p < |s.dst|
  {
    var worker := s.workers[w];
    assert WorkerOk(src, key, worker);
    SlotHolds(src, key, worker.pos);
    var b := key(src[worker.pos].hash);
    assert b < 256;
    worker.write[b]
  }

  lemma WorkerReady<T>(src: seq<Keyed<T>>, key: Digit, before: seq<Keyed<T>>, s: State<T>, w: nat)
    requires Inv(src, key, before, s) && w < |s.workers| && !Finished(s, w)
    ensures var worker := s.workers[w];
      && worker.pos < |src| && |worker.write| == 256 && key(src[worker.pos].hash) < 256
      && Target(src, key, before, s, w) == worker.write[key(src[worker.pos].hash)]
  {
    assert WorkerOk(src, key, s.workers[w]);
  }

  /** The worker's own context after a step on an entry with this digit. */
  function AfterStep(worker: Worker, digit: nat): (after: Worker)
    requires digit < |worker.write|
  {
    if !worker.stored then worker.(stored := true)
    else worker.(pos := worker.pos + 1, stored := false, write := worker.write[digit := worker.write[digit] + 1])
  }

  /** One step of worker `w`: write the entry at its position, or move its positions on after the write. */
  ghost function Step<T>(src: seq<Keyed<T>>, key: Digit, before: seq<Keyed<T>>, s: State<T>, w: nat): (s': State<T>)
    requires Inv(src, key, before, s) && w < |s.workers| && !Finished(s, w)
  {
    WorkerReady(src, key, before, s, w);
    var worker := s.workers[w];
    var workers := s.workers[w := AfterStep(worker, key(src[worker.pos].hash))];
    if worker.stored then s.(workers := workers)
    else
      var p := Target(src, key, before, s, w);
      State(s.dst[p := src[worker.pos]], workers, s.log + [p])
  }

  // ----- the invariant -----

  lemma {:induction false} RangesOrdered(workers: seq<Worker>, count: nat, v: nat, w: nat)
    requires Partition(workers, count) && v < w < |workers|
    ensures workers[v].end <= workers[w].start
  {
    if v + 1 < w {
      RangesOrdered(workers, count, v, w - 1);
    }
  }

  /** An entry inside one worker's range is written by no other worker. */
  lemma OnlyOwnerWrites<T>(src: seq<Keyed<T>>, key: Digit, before: seq<Keyed<T>>, s: State<T>, w: nat, i: nat)
    requires Inv(src, key, before, s) && w < |s.workers|
    requires s.workers[w].start <= i < s.workers[w].end
    ensures Written(s, i) <==> Wrote(s.workers[w], i)
  {
    if Written(s, i) {
      var v :| 0 <= v < |s.workers| && Wrote(s.workers[v], i);
      assert WorkerOk(src, key, s.workers[v]);
      if v < w {
        RangesOrdered(s.workers, |src|, v, w);
      } else if w < v {
        RangesOrdered(s.workers, |src|, w, v);
      }
    }
  }

  /** Two workers never aim at the same slot, and never at a slot that has been written. */
  lemma TargetsDisjoint<T>(src: seq<Keyed<T>>, key: Digit, before: seq<Keyed<T>>, s: State<T>, v: nat, w: nat)
    requires Inv(src, key, before, s) && v < |s.workers| && w < |s.workers| && !Finished(s, v) && !Finished(s, w)
    ensures v != w ==> Target(src, key, before, s, v) != Target(src, key, before, s, w)
    ensures Target(src, key, before, s, w) in s.log <==> s.workers[w].stored
  {
    assert WorkerOk(src, key, s.workers[v]) && WorkerOk(src, key, s.workers[w]);
    var i := s.workers[w].pos;
    if v < w {
      RangesOrdered(s.workers, |src|, v, w);
      SlotInjective(src, key, s.workers[v].pos, i);
    } else if w < v {
      RangesOrdered(s.workers, |src|, w, v);
      SlotInjective(src, key, s.workers[v].pos, i);
    }
    OnlyOwnerWrites(src, key, before, s, w, i);
    if Target(src, key, before, s, w) in s.log {
      assert IsSlotOfWritten(src, key, s, Slot(src, key, i));
      var j: nat :| j < |src| && Written(s, j) && Slot(src, key, j) == Slot(src, key, i);
      if j != i {
        SlotInjective(src, key, i, j);
      }
    }
  }

  /** A step changes what counts as written by at most the entry at the worker's position. */
  lemma StepWritten<T>(src: seq<Keyed<T>>, key: Digit, before: seq<Keyed<T>>, s: State<T>, w: nat, i: nat)
    requires Inv(src, key, before, s) && w < |s.workers| && !Finished(s, w)
    ensures Written(Step(src, key, before, s, w), i) <==> Written(s, i) || i == s.workers[w].pos
  {
    var s' := Step(src, key, before, s, w);
    assert WorkerOk(src, key, s.workers[w]);
    assert Wrote(s'.workers[w], i) <==> Wrote(s.workers[w], i) || i == s.workers[w].pos;
    assert forall v :: 0 <= v < |s.workers| && v != w ==> s'.workers[v] == s.workers[v];
    if Written(s, i) {
      var v :| 0 <= v < |s.workers| && Wrote(s.workers[v], i);
      assert Wrote(s'.workers[v], i);
    }
  }

  lemma StepKeepsWorkers<T>(src: seq<Keyed<T>>, key: Digit, before: seq<Keyed<T>>, s: State<T>, w: nat)
    requires Inv(src, key, before, s) && w < |s.workers| && !Finished(s, w)
    ensures var s' := Step(src, key, before, s, w);
      Partition(s'.workers, |src|) && forall v :: 0 <= v < |s'.workers| ==> WorkerOk(src, key, s'.workers[v])
  {
    var s' := Step(src, key, before, s, w);
    var worker := s.workers[w];
    assert WorkerOk(src, key, worker);
    forall b | 0 <= b < 256
      ensures worker.stored ==> s'.workers[w].write[b] == WriteBase(src, key, worker.pos + 1, b)
    {
      WriteBaseStep(src, key, worker.pos, b);
    }
    assert WorkerOk(src, key, s'.workers[w]);
  }

  lemma StoreKeepsInv<T>(src: seq<Keyed<T>>, key: Digit, before: seq<Keyed<T>>, s: State<T>, w: nat)
    requires Inv(src, key, before, s) && w < |s.workers| && !Finished(s, w) && !s.workers[w].stored
    ensures Inv(src, key, before, Step(src, key, before, s, w))
  {
    var s' := Step(src, key, before, s, w);
    var at := s.workers[w].pos;
    var p := Target(src, key, before, s, w);
    TargetsDisjoint(src, key, before, s, w, w);
    StepKeepsWorkers(src, key, before, s, w);
    forall i: nat
      ensures Written(s', i) <==> Written(s, i) || i == at
    {
      StepWritten(src, key, before, s, w, i);
    }
    forall i: nat | Written(s', i)
      ensures Placed(src, key, s'.dst, i)
    {
      if i != at {
        assert Placed(src, key, s.dst, i);
        SlotInjective(src, key, i, at);
      }
    }
    forall q | q in s'.log
      ensures IsSlotOfWritten(src, key, s', q)
    {
      if q != p {
        assert IsSlotOfWritten(src, key, s, q);
        var i: nat :| i < |src| && Written(s, i) && Slot(src, key, i) == q;
        assert Written(s', i);
      } else {
        assert Written(s', at);
      }
    }
  }

  lemma AdvanceKeepsInv<T>(src: seq<Keyed<T>>, key: Digit, before: seq<Keyed<T>>, s: State<T>, w: nat)
    requires Inv(src, key, before, s) && w < |s.workers| && !Finished(s, w) && s.workers[w].stored
    ensures Inv(src, key, before, Step(src, key, before, s, w))
  {
    var s' := Step(src, key, before, s, w);
    StepKeepsWorkers(src, key, before, s, w);
    assert WorkerOk(src, key, s.workers[w]);
    assert Wrote(s.workers[w], s.workers[w].pos);
    forall i: nat
      ensures Written(s', i) <==> Written(s, i)
    {
      StepWritten(src, key, before, s, w, i);
    }
    forall q | q in s'.log
      ensures IsSlotOfWritten(src, key, s', q)
    {
      assert IsSlotOfWritten(src, key, s, q);
      var i: nat :| i < |src| && Written(s, i) && Slot(src, key, i) == q;
      assert Written(s', i);
    }
  }

  lemma StepKeepsInv<T>(src: seq<Keyed<T>>, key: Digit, before: seq<Keyed<T>>, s: State<T>, w: nat)
    requires Inv(src, key, before, s) && w < |s.workers| && !Finished(s, w)
    ensures Inv(src, key, before, Step(src, key, before, s, w))
  {
    if s.workers[w].stored {
      AdvanceKeepsInv(src, key, before, s, w);
    } else {
      StoreKeepsInv(src, key, before, s, w);
    }
  }

  // ----- whole runs -----

  /** How many steps are left. */
  ghost function Remaining(workers: seq<Worker>): (n: nat)
    requires forall w :: 0 <= w < |workers| ==> workers[w].pos <= workers[w].end
    requires forall w :: 0 <= w < |workers| ==> workers[w].stored ==> workers[w].pos < workers[w].end
  {
    if workers == [] then 0
    else
      var last := workers[|workers| - 1];
      Remaining(workers[..|workers| - 1]) + 2 * (last.end - last.pos) - (if last.stored then 1 else 0)
  }

  lemma {:induction false} RemainingAfter(workers: seq<Worker>, w: nat, worker: Worker)
    requires w < |workers|
    requires forall v :: 0 <= v < |workers| ==> workers[v].pos <= workers[v].end
    requires forall v :: 0 <= v < |workers| ==> workers[v].stored ==> workers[v].pos < workers[v].end
    requires worker.pos <= worker.end && (worker.stored ==> worker.pos < worker.end)
    ensures Remaining(workers[w := worker]) == Remaining(workers)
      - (2 * (workers[w].end - workers[w].pos) - (if workers[w].stored then 1 else 0))
      + (2 * (worker.end - worker.pos) - (if worker.stored then 1 else 0))
  {
    var n := |workers| - 1;
    if w < n {
      assert workers[w := worker][..n] == workers[..n][w := worker];
      RemainingAfter(workers[..n], w, worker);
    } else {
      assert workers[w := worker][..n] == workers[..n];
    }
  }

  /** Every step is progress, so no schedule keeps the workers busy for ever. */
  lemma StepProgress<T>(src: seq<Keyed<T>>, key: Digit, before: seq<Keyed<T>>, s: State<T>, w: nat)
    requires Inv(src, key, before, s) && w < |s.workers| && !Finished(s, w)
    ensures Inv(src, key, before, Step(src, key, before, s, w))
    ensures forall v :: 0 <= v < |s.workers| ==> WorkerOk(src, key, s.workers[v])
    ensures Remaining(Step(src, key, before, s, w).workers) == Remaining(s.workers) - 1
  {
    StepKeepsInv(src, key, before, s, w);
    assert WorkerOk(src, key, s.workers[w]);
    var s' := Step(src, key, before, s, w);
    assert WorkerOk(src, key, s'.workers[w]);
    assert s'.workers == s.workers[w := s'.workers[w]];
    RemainingAfter(s.workers, w, s'.workers[w]);
  }

  /** Runs a schedule: at each tick one worker is chosen; a finished worker does nothing. */
  ghost function Run<T>(src: seq<Keyed<T>>, key: Digit, before: seq<Keyed<T>>, s: State<T>, schedule: seq<nat>): (s': State<T>)
    requires Inv(src, key, before, s)
    ensures Inv(src, key, before, s')
  {
    if schedule == [] then s
    else
      var t := Run(src, key, before, s, schedule[..|schedule| - 1]);
      var w := schedule[|schedule| - 1];
      if w < |t.workers| && !Finished(t, w) then
        StepKeepsInv(src, key, before, t, w);
        Step(src, key, before, t, w)
      else t
  }

  lemma {:induction false} OwnerOf(workers: seq<Worker>, count: nat, i: nat, n: nat) returns (w: nat)
    requires Partition(workers, count) && 0 < n <= |workers| && i < workers[n - 1].end
    ensures w < n && workers[w].start <= i < workers[w].end
  {
    if workers[n - 1].start <= i {
      w := n - 1;
    } else {
      assert n - 2 >= 0 && workers[n - 2].end == workers[n - 1].start;
      w := OwnerOf(workers, count, i, n - 1);
    }
  }

  lemma FinishedIsWritten<T>(src: seq<Keyed<T>>, key: Digit, before: seq<Keyed<T>>, s: State<T>)
    requires Inv(src, key, before, s) && AllFinished(s)
    ensures forall i :: 0 <= i < |src| ==> Written(s, i) && Placed(src, key, s.dst, i)
  {
    forall i | 0 <= i < |src|
      ensures Written(s, i) && Placed(src, key, s.dst, i)
    {
      var w := OwnerOf(s.workers, |src|, i, |s.workers|);
      assert Finished(s, w) && WorkerOk(src, key, s.workers[w]);
      assert Wrote(s.workers[w], i);
    }
  }

  lemma FinishedLog<T>(src: seq<Keyed<T>>, key: Digit, before: seq<Keyed<T>>, s: State<T>, p: nat)
    requires Inv(src, key, before, s) && AllFinished(s)
    ensures p in s.log <==> p < |src|
  {
    if p < |src| {
      FinishedIsWritten(src, key, before, s);
      var i := SlotOnto(src, key, p);
      assert Written(s, i);
    } else if p in s.log {
      assert IsSlotOfWritten(src, key, s, p);
      var i: nat :| i < |src| && Written(s, i) && Slot(src, key, i) == p;
      SlotHolds(src, key, i);
    }
  }

  /** When all workers are done the destination is the gathered source, each slot having been written exactly once. */
  lemma FinishedIsGathered<T>(src: seq<Keyed<T>>, key: Digit, before: seq<Keyed<T>>, s: State<T>)
    requires Inv(src, key, before, s) && AllFinished(s)
    ensures s.dst == Gather(src, key, 256)
    ensures NoRepeats(s.log) && forall p :: p in s.log <==> 0 <= p < |src|
  {
    FinishedIsWritten(src, key, before, s);
    SlotsFilled(src, key, s.dst);
    forall p: nat
      ensures p in s.log <==> p < |src|
    {
      FinishedLog(src, key, before, s, p);
    }
  }

  /** Whatever the interleaving, a complete run gives the one stable pass and writes every slot exactly once. */
  lemma AnyScheduleGathers<T>(src: seq<Keyed<T>>, key: Digit, before: seq<Keyed<T>>, s: State<T>, schedule: seq<nat>)
    requires Inv(src, key, before, s) && AllFinished(Run(src, key, before, s, schedule))
    ensures var end := Run(src, key, before, s, schedule);
      && end.dst == Gather(src, key, 256)
      && NoRepeats(end.log)
      && forall p :: p in end.log <==> 0 <= p < |src|
  {
    FinishedIsGathered(src, key, before, Run(src, key, before, s, schedule));
  }
}
