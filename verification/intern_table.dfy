/** The open-addressing slot table of the string pool, as a sequence of slots: probing order and what each slot must satisfy. */
module InternTable {
  import opened Bytes

  /** A slot is empty when its hash is zero; stored hashes are marked so that they are not. */
  datatype Slot = Slot(hash: u64, entryIndex: u32)

  const EMPTY: Slot := Slot(0, 0)

  function Mark(rawHash: u64): (h: u64)
    ensures h != 0
  {
    if rawHash == 0 then 0x8000_0000_0000_0000 else rawHash
  }

  ghost predicate IsPowerOfTwo(n: nat) {
    n == 1 || (n > 1 && n % 2 == 0 && IsPowerOfTwo(n / 2))
  }

  /** hash & (capacity - 1), the capacity being a power of two. */
  function Home(hash: u64, capacity: nat): (p: nat)
    requires capacity > 0
    ensures p < capacity
  {
    hash % capacity
  }

  /** (pos + 1) & (capacity - 1). */
  function Next(pos: nat, capacity: nat): (p: nat)
    requires pos < capacity
    ensures p < capacity
  {
    if pos + 1 == capacity then 0 else pos + 1
  }

  /** The slot looked at after `t` steps from `home`. */
  function Probe(home: nat, t: nat, capacity: nat): (p: nat)
    requires home < capacity && t < capacity
    ensures p < capacity
  {
    if home + t < capacity then home + t else home + t - capacity
  }

  /** No empty slot among the first `t` probes. */
  ghost predicate FullUpTo(slots: seq<Slot>, hash: u64, t: nat)
    requires |slots| > 0 && t <= |slots|
  {
    forall u :: 0 <= u < t ==> slots[Probe(Home(hash, |slots|), u, |slots|)].hash != 0
  }

  /** Probing for `hash` comes to slot `p` without passing an empty slot. */
  ghost predicate Reaches(slots: seq<Slot>, hash: u64, p: nat)
    requires |slots| > 0
  {
    exists t :: 0 <= t < |slots| && p == Probe(Home(hash, |slots|), t, |slots|) && FullUpTo(slots, hash, t)
  }

  function Used(slots: seq<Slot>): (n: nat)
    ensures n <= |slots|
  {
    if slots == [] then 0
    else Used(slots[..|slots| - 1]) + if slots[|slots| - 1].hash != 0 then 1 else 0
  }

  ghost predicate EntryReachable(slots: seq<Slot>, entry: Slot)
    requires |slots| > 0
  {
    exists p :: 0 <= p < |slots| && slots[p] == entry && Reaches(slots, entry.hash, p)
  }

  /** Slot for entry `i` with marked hash `marks[i]`. */
  function EntrySlot(marks: seq<u64>, i: nat): (s: Slot)
    requires i < |marks| <= TWO_32
  {
    Slot(marks[i], i)
  }

  /** Entry `i` has a marked hash and is filed where probing for that hash finds it. */
  ghost predicate Filed(slots: seq<Slot>, marks: seq<u64>, i: nat)
    requires |slots| > 0 && i < |marks| <= TWO_32
  {
    marks[i] != 0 && EntryReachable(slots, EntrySlot(marks, i))
  }

  /** The table files exactly the entries whose marked hashes are `marks`, each reachable from its home slot. */
  ghost predicate TableOk(slots: seq<Slot>, marks: seq<u64>) {
    && |slots| > 0 && |marks| <= TWO_32
    && (forall p :: 0 <= p < |slots| && slots[p].hash != 0 ==>
          slots[p].entryIndex < |marks| && slots[p] == EntrySlot(marks, slots[p].entryIndex))
    && (forall i :: 0 <= i < |marks| ==> Filed(slots, marks, i))
    && Used(slots) == |marks|
  }

  // ----- counting -----

  lemma {:induction false} AllUsed(slots: seq<Slot>)
    requires forall p :: 0 <= p < |slots| ==> slots[p].hash != 0
    ensures Used(slots) == |slots|
  {
    if slots != [] {
      AllUsed(slots[..|slots| - 1]);
    }
  }

  lemma {:induction false} UsedAfterPut(slots: seq<Slot>, p: nat, entry: Slot)
    requires p < |slots| && slots[p].hash == 0 && entry.hash != 0
    ensures Used(slots[p := entry]) == Used(slots) + 1
  {
    var n := |slots| - 1;
    if p < n {
      assert slots[p := entry][..n] == slots[..n][p := entry];
      UsedAfterPut(slots[..n], p, entry);
    } else {
      assert slots[p := entry][..n] == slots[..n];
    }
  }

  lemma {:induction false} NoneUsed(n: nat)
    ensures Used(seq(n, _ => EMPTY)) == 0
  {
    if n > 0 {
      NoneUsed(n - 1);
      assert seq(n, _ => EMPTY)[..n - 1] == seq(n - 1, _ => EMPTY);
    }
  }

  /** With an empty slot somewhere, probing cannot go all the way round. */
  lemma ProbingStops(slots: seq<Slot>, hash: u64)
    requires |slots| > 0 && Used(slots) < |slots|
    ensures !FullUpTo(slots, hash, |slots|)
  {
    if FullUpTo(slots, hash, |slots|) {
      var home := Home(hash, |slots|);
      forall p | 0 <= p < |slots|
        ensures slots[p].hash != 0
      {
        var u := if p >= home then p - home else p - home + |slots|;
        assert p == Probe(home, u, |slots|);
      }
      AllUsed(slots);
    }
  }

  /** After a used slot the next probe is one further, and still short of the whole table. */
  lemma ProbeStep(slots: seq<Slot>, hash: u64, t: nat)
    requires |slots| > 0 && Used(slots) < |slots| && t < |slots| && FullUpTo(slots, hash, t)
    requires slots[Probe(Home(hash, |slots|), t, |slots|)].hash != 0
    ensures t + 1 < |slots| && FullUpTo(slots, hash, t + 1)
    ensures Probe(Home(hash, |slots|), t + 1, |slots|) == Next(Probe(Home(hash, |slots|), t, |slots|), |slots|)
  {
    assert FullUpTo(slots, hash, t + 1);
    ProbingStops(slots, hash);
  }

  // ----- putting an entry into an empty slot -----

  lemma PutKeepsReach(slots: seq<Slot>, p: nat, entry: Slot, hash: u64, q: nat)
    requires p < |slots| && slots[p].hash == 0 && entry.hash != 0
    requires Reaches(slots, hash, q)
    ensures Reaches(slots[p := entry], hash, q)
  {
    var t :| 0 <= t < |slots| && q == Probe(Home(hash, |slots|), t, |slots|) && FullUpTo(slots, hash, t);
    assert FullUpTo(slots[p := entry], hash, t);
  }

  lemma PutKeepsEntry(slots: seq<Slot>, p: nat, entry: Slot, other: Slot)
    requires p < |slots| && slots[p].hash == 0 && entry.hash != 0 && other.hash != 0
    requires EntryReachable(slots, other)
    ensures EntryReachable(slots[p := entry], other)
  {
    var q :| 0 <= q < |slots| && slots[q] == other && Reaches(slots, other.hash, q);
    PutKeepsReach(slots, p, entry, other.hash, q);
    assert slots[p := entry][q] == other;
  }

  lemma PutReachesEntry(slots: seq<Slot>, p: nat, entry: Slot)
    requires p < |slots| && slots[p].hash == 0 && entry.hash != 0 && Reaches(slots, entry.hash, p)
    ensures EntryReachable(slots[p := entry], entry)
  {
    PutKeepsReach(slots, p, entry, entry.hash, p);
    assert slots[p := entry][p] == entry;
  }

  /** Filing the next entry at the empty slot its probe found keeps the table right. */
  lemma PutKeepsTable(slots: seq<Slot>, marks: seq<u64>, p: nat, mark: u64)
    requires TableOk(slots, marks) && |marks| < TWO_32 && mark != 0
    requires p < |slots| && slots[p].hash == 0 && Reaches(slots, mark, p)
    ensures TableOk(slots[p := Slot(mark, |marks|)], marks + [mark])
  {
    var entry := Slot(mark, |marks|);
    var slots', marks' := slots[p := entry], marks + [mark];
    UsedAfterPut(slots, p, entry);
    forall i | 0 <= i < |marks'|
      ensures Filed(slots', marks', i)
    {
      if i < |marks| {
        assert Filed(slots, marks, i);
        assert EntrySlot(marks', i) == EntrySlot(marks, i);
        PutKeepsEntry(slots, p, entry, EntrySlot(marks, i));
      } else {
        PutReachesEntry(slots, p, entry);
      }
    }
  }

  // ----- rehashing -----

  /** `slots` files exactly the used slots among `moved`. */
  ghost predicate Rehashed(slots: seq<Slot>, moved: seq<Slot>) {
    && |slots| > 0
    && (forall p :: 0 <= p < |slots| && slots[p].hash != 0 ==> slots[p] in moved)
    && (forall s :: s in moved && s.hash != 0 ==> EntryReachable(slots, s))
    && Used(slots) == Used(moved)
  }

  lemma SkipKeepsRehashed(slots: seq<Slot>, moved: seq<Slot>, s: Slot)
    requires Rehashed(slots, moved) && s.hash == 0
    ensures Rehashed(slots, moved + [s])
  {
    assert (moved + [s])[..|moved|] == moved;
  }

  lemma PutKeepsRehashed(slots: seq<Slot>, moved: seq<Slot>, s: Slot, p: nat)
    requires Rehashed(slots, moved) && s.hash != 0
    requires p < |slots| && slots[p].hash == 0 && Reaches(slots, s.hash, p)
    ensures Rehashed(slots[p := s], moved + [s])
  {
    assert (moved + [s])[..|moved|] == moved;
    UsedAfterPut(slots, p, s);
    forall e | e in moved + [s] && e.hash != 0
      ensures EntryReachable(slots[p := s], e)
    {
      if e in moved {
        PutKeepsEntry(slots, p, s, e);
      } else {
        PutReachesEntry(slots, p, s);
      }
    }
  }

  /** A table rehashed from a right table is right. */
  lemma RehashedIsTable(slots: seq<Slot>, old_: seq<Slot>, marks: seq<u64>)
    requires TableOk(old_, marks) && Rehashed(slots, old_)
    ensures TableOk(slots, marks)
  {
    forall i | 0 <= i < |marks|
      ensures Filed(slots, marks, i)
    {
      assert Filed(old_, marks, i);
      var p :| 0 <= p < |old_| && old_[p] == EntrySlot(marks, i) && Reaches(old_, marks[i], p);
      assert old_[p] in old_;
    }
  }

  // ----- looking up -----

  /** A probe that met no slot of entry `i` before an empty slot proves that entry `i` has another hash. */
  lemma MissedEntry(slots: seq<Slot>, marks: seq<u64>, hash: u64, t: nat, i: nat)
    requires TableOk(slots, marks) && i < |marks| && t < |slots|
    requires slots[Probe(Home(hash, |slots|), t, |slots|)].hash == 0
    requires forall u :: 0 <= u < t ==> slots[Probe(Home(hash, |slots|), u, |slots|)] != EntrySlot(marks, i)
    ensures marks[i] != hash
  {
    assert Filed(slots, marks, i);
    var p :| 0 <= p < |slots| && slots[p] == EntrySlot(marks, i) && Reaches(slots, marks[i], p);
    var u :| 0 <= u < |slots| && p == Probe(Home(marks[i], |slots|), u, |slots|) && FullUpTo(slots, marks[i], u);
    assert FullUpTo(slots, marks[i], u);
  }
}
