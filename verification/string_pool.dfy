/** The string pool: interning over a growing open-addressing table, with the fixup list the encoder keeps beside it. */
module StringPool {
  import opened Bytes
  import opened EncoderBuffer
  import opened InternTable
  import opened PoolLayout

  datatype PoolEntry = PoolEntry(poolOffset: u32, length: u32)

  datatype Error = StringLengthOverflow | StringPoolOverflow

  datatype Result<+T> = Ok(value: T) | Err(error: Error)

  ghost function Marks(strings: seq<Str>, hash: Hash64): (marks: seq<u64>)
    ensures |marks| == |strings|
  {
    seq(|strings|, i requires 0 <= i < |strings| => Mark(hash(strings[i])))
  }

  ghost predicate EntriesOk(entries: seq<PoolEntry>, strings: seq<Str>) {
    && |entries| == |strings|
    && forall i :: 0 <= i < |strings| ==> EntryOk(entries, strings, i)
  }

  ghost predicate EntryOk(entries: seq<PoolEntry>, strings: seq<Str>, i: nat)
    requires i < |entries| == |strings|
  {
    entries[i].poolOffset == |PoolBytes(strings[..i])| && entries[i].length == |strings[i]|
  }

  lemma MarksSnoc(strings: seq<Str>, s: Str, hash: Hash64)
    ensures Marks(strings + [s], hash) == Marks(strings, hash) + [Mark(hash(s))]
  {
  }

  lemma EntriesSnoc(entries: seq<PoolEntry>, strings: seq<Str>, s: Str, entry: PoolEntry)
    requires EntriesOk(entries, strings) && entry.poolOffset == |PoolBytes(strings)| && entry.length == |s|
    ensures EntriesOk(entries + [entry], strings + [s])
  {
    forall i | 0 <= i <= |strings|
      ensures EntryOk(entries + [entry], strings + [s], i)
    {
      assert i < |strings| ==> EntryOk(entries, strings, i);
      assert (strings + [s])[..i] == strings[..i];
    }
  }

  /** The entry of string `i` gives its offset, and the pool bytes there are its record. */
  lemma {:induction false} EntryOffset(strings: seq<Str>, i: nat)
    requires Distinct(strings) && i < |strings|
    ensures OffsetOf(strings, strings[i]) == |PoolBytes(strings[..i])|
  {
    var init := strings[..|strings| - 1];
    if i < |init| {
      EntryOffset(init, i);
      assert init[..i] == strings[..i] && init[i] == strings[i];
      assert strings == init + [strings[|init|]];
      OffsetSnoc(init, strings[i], strings[|init|]);
    }
  }

  lemma EntryBytes(strings: seq<Str>, i: nat)
    requires Distinct(strings) && i < |strings|
    ensures At(PoolBytes(strings), |PoolBytes(strings[..i])| + 4, strings[i])
  {
    EntryOffset(strings, i);
    RecordAtOffset(strings, strings[i]);
    RecordParts(PoolBytes(strings), |PoolBytes(strings[..i])|, strings[i]);
  }

  /** Exactly when interning fails, and with what; otherwise it gives the string's offset. */
  function Outcome(strings: seq<Str>, data: Str): (r: Result<nat>) {
    if |data| >= TWO_32 then Err(StringLengthOverflow)
    else if data !in strings && |PoolBytes(strings)| >= TWO_32 then Err(StringPoolOverflow)
    else Ok(OffsetOf(Interned(strings, data), data))
  }

  /** What an intern gives: the two failures, and otherwise where the string's record is, at the end if the string is new. */
  lemma OutcomeTable(strings: seq<Str>, data: Str)
    ensures Outcome(strings, data) == Err(StringLengthOverflow) <==> |data| > 0xFFFF_FFFF
    ensures Outcome(strings, data) == Err(StringPoolOverflow) <==>
      |data| <= 0xFFFF_FFFF && data !in strings && |PoolBytes(strings)| > 0xFFFF_FFFF
    ensures Outcome(strings, data).Ok? && data !in strings ==> Outcome(strings, data).value == |PoolBytes(strings)|
    ensures Outcome(strings, data).Ok? && data in strings ==> At(PoolBytes(strings), Outcome(strings, data).value, Record(data))
  {
    hide PoolBytes, Record, OffsetOf;
    if data in strings {
      RecordAtOffset(strings, data);
    } else {
      OffsetSnoc(strings, data, data);
    }
  }

  /** A run of interns from `strings`: the pool it ends with, or the first failure. */
  function InternRun(strings: seq<Str>, more: seq<Str>): (r: Result<seq<Str>>) {
    if more == [] then Ok(strings)
    else
      match InternRun(strings, more[..|more| - 1])
      case Err(e) => Err(e)
      case Ok(now) =>
        match Outcome(now, more[|more| - 1])
        case Err(e) => Err(e)
        case Ok(_) => Ok(Interned(now, more[|more| - 1]))
  }

  /** A run that succeeds ends with the plain set of strings. */
  lemma {:induction false} RunIsInternAll(strings: seq<Str>, more: seq<Str>)
    ensures InternRun(strings, more).Ok? ==> InternRun(strings, more).value == InternAll(strings, more)
  {
    hide Outcome, Interned;
    if more != [] {
      RunIsInternAll(strings, more[..|more| - 1]);
    }
  }

  /** A string whose length and pool offset fit in 32 bits. */
  ghost predicate FitsIn(strings: seq<Str>, s: Str) {
    |s| < TWO_32 && OffsetOf(strings, s) < TWO_32
  }

  /** What a run of interns that succeeds guarantees of every string in the pool. */
  lemma {:induction false} RunFitsIn(more: seq<Str>)
    requires InternRun([], more).Ok?
    ensures forall s :: s in InternRun([], more).value ==> FitsIn(InternRun([], more).value, s)
  {
    hide OffsetOf, PoolBytes;
    if more != [] {
      var now, last := InternRun([], more[..|more| - 1]).value, more[|more| - 1];
      RunFitsIn(more[..|more| - 1]);
      forall s | s in Interned(now, last)
        ensures FitsIn(Interned(now, last), s)
      {
        if last !in now {
          OffsetSnoc(now, s, last);
        }
        assert s in now ==> FitsIn(now, s);
      }
    }
  }

  lemma NothingInterned()
    ensures InternRun([], []) == Ok([]) && InternAll([], []) == [] && PoolBytes([]) == []
  {
  }

  /** Interning one more string, which is new and finds room, into a pool of new strings. */
  lemma InternsNext(more: seq<Str>, s: Str)
    requires InternRun([], more) == Ok(more) && InternAll([], more) == more
    requires s !in more && |s| < TWO_32 && |PoolBytes(more)| < TWO_32
    ensures InternRun([], more + [s]) == Ok(more + [s]) && InternAll([], more + [s]) == more + [s]
    ensures |PoolBytes(more + [s])| == |PoolBytes(more)| + |Record(s)| && OffsetOf(more + [s], s) == |PoolBytes(more)|
  {
    hide Record;
    PoolBytesSnoc(more, s);
    OffsetSnoc(more, s, s);
    assert (more + [s])[..|more|] == more;
  }

  lemma {:induction false} RunConcat(strings: seq<Str>, a: seq<Str>, b: seq<Str>)
    ensures InternRun(strings, a + b) ==
      match InternRun(strings, a) { case Err(e) => Err(e) case Ok(now) => InternRun(now, b) }
  {
    hide Outcome, Interned;
    if b == [] {
      assert a + b == a;
    } else {
      RunConcat(strings, a, b[..|b| - 1]);
      assert (a + b)[..|a + b| - 1] == a + b[..|b| - 1];
    }
  }

  lemma RunOne(strings: seq<Str>, s: Str)
    ensures InternRun(strings, [s]) == match Outcome(strings, s) { case Err(e) => Err(e) case Ok(_) => Ok(Interned(strings, s)) }
  {
    assert [s][..0] == [];
    assert InternRun(strings, []) == Ok(strings);
  }

  /** What a run leaves of the pool it started from. */
  lemma {:induction false} RunExtends(strings: seq<Str>, more: seq<Str>)
    ensures InternRun(strings, more).Ok? ==> strings <= InternRun(strings, more).value
  {
    if more != [] {
      RunExtends(strings, more[..|more| - 1]);
    }
  }

  // ----- the slot array -----

  /** Walks from the home slot to the first empty one. */
  method FindEmpty(slots: array<Slot>, h: u64) returns (pos: nat)
    requires slots.Length > 0 && Used(slots[..]) < slots.Length
    ensures pos < slots.Length && slots[pos].hash == 0 && Reaches(slots[..], h, pos)
  {
    var capacity := slots.Length;
    pos := Home(h, capacity);
    ghost var t := 0;
    while slots[pos].hash != 0
      invariant 0 <= t < capacity && pos == Probe(Home(h, capacity), t, capacity)
      invariant FullUpTo(slots[..], h, t)
      decreases capacity - t
    {
      ProbeStep(slots[..], h, t);
      pos := Next(pos, capacity);
      t := t + 1;
    }
  }

  /** Moves one used slot of the old table into the new one. */
  method MoveSlot(slots: array<Slot>, ghost moved: seq<Slot>, s: Slot)
    requires Rehashed(slots[..], moved) && s.hash != 0 && Used(moved) < slots.Length
    modifies slots
    ensures Rehashed(slots[..], moved + [s])
  {
    var pos := FindEmpty(slots, s.hash);
    PutKeepsRehashed(slots[..], moved, s, pos);
    ghost var table := slots[..];
    slots[pos] := s;
    assert slots[..] == table[pos := s];
  }

  /** A larger table filing the same entries. */
  method Grow(before: array<Slot>, ghost marks: seq<u64>, capacity: nat) returns (slots: array<Slot>)
    requires TableOk(before[..], marks) && capacity >= before.Length > |marks|
    ensures fresh(slots) && slots.Length == capacity
    ensures TableOk(slots[..], marks)
  {
    ghost var moved := before[..];
    slots := new Slot[capacity](_ => EMPTY);
    assert slots[..] == seq(capacity, _ => EMPTY);
    NoneUsed(capacity);
    for i := 0 to before.Length
      invariant before[..] == moved
      invariant Rehashed(slots[..], moved[..i])
    {
      assert moved[..i + 1] == moved[..i] + [before[i]];
      UsedPrefix(moved, i);
      if before[i].hash == 0 {
        SkipKeepsRehashed(slots[..], moved[..i], before[i]);
        continue;
      }
      MoveSlot(slots, moved[..i], before[i]);
    }
    assert moved[..before.Length] == moved;
    RehashedIsTable(slots[..], moved, marks);
  }

  /** Files the next entry at the empty slot `pos`, or in a table of twice the size when this one would become three quarters full. */
  method FileInTable(before: array<Slot>, ghost marks: seq<u64>, used: nat, h: u64, pos: nat, entryIndex: u32)
    returns (slots: array<Slot>)
    requires TableOk(before[..], marks) && IsPowerOfTwo(before.Length)
    requires used == |marks| == entryIndex && used * 4 < before.Length * 3 && h != 0
    requires pos < before.Length && before[pos].hash == 0 && Reaches(before[..], h, pos)
    modifies before
    ensures slots == before || fresh(slots)
    ensures TableOk(slots[..], marks + [h]) && IsPowerOfTwo(slots.Length)
    ensures (used + 1) * 4 < slots.Length * 3
  {
    slots := before;
    var at := pos;
    if (used + 1) * 4 >= slots.Length * 3 {
      slots := Grow(before, marks, before.Length * 2);
      DoublePower(before.Length);
      at := FindEmpty(slots, h);
    }
    PutKeepsTable(slots[..], marks, at, h);
    ghost var table := slots[..];
    slots[at] := Slot(h, entryIndex);
    assert slots[..] == table[at := Slot(h, entryIndex)];
  }

  lemma DoublePower(n: nat)
    requires IsPowerOfTwo(n)
    ensures IsPowerOfTwo(n * 2) && n * 2 > 1
  {
  }

  /** Appends the record of a string that is not in the pool. */
  method AppendRecord(buffer: Buffer, data: Str)
    requires buffer.Valid() && |data| < TWO_32 && buffer.size % 4 == 0
    modifies buffer, buffer.data
    ensures buffer.Valid() && (buffer.data == old(buffer.data) || fresh(buffer.data))
    ensures buffer.Contents() == old(buffer.Contents()) + Record(data)
  {
    ghost var was := buffer.Contents();
    buffer.Append(LE(|data|, 4));
    if |data| != 0 {
      buffer.Append(data);
    }
    assert buffer.Contents() == was + (LE(|data|, 4) + data);
    PaddingAfter(|was|, |data|);
    buffer.AlignTo(4);
    assert buffer.Contents() == was + Record(data);
  }

  class Pool {
    const hash: Hash64
    const buffer: Buffer
    var entries: seq<PoolEntry>
    var slots: array<Slot>
    var slotsUsed: nat
    var fixups: seq<nat>
    const workerCount: nat
    ghost var strings: seq<Str>

    ghost predicate Valid()
      reads this, buffer, buffer.data, slots
    {
      && buffer.Valid()
      && slots as object != buffer.data as object
      && buffer.Contents() == PoolBytes(strings)
      && Distinct(strings)
      && EntriesOk(entries, strings)
      && TableOk(slots[..], Marks(strings, hash))
      && IsPowerOfTwo(slots.Length)
      && slotsUsed == |strings|
      && slotsUsed * 4 < slots.Length * 3
    }

    constructor (hash: Hash64, workerCount: nat)
      ensures Valid() && fresh(buffer) && fresh(buffer.data) && fresh(slots)
      ensures this.hash == hash && this.workerCount == workerCount && strings == [] && fixups == []
    {
      this.hash := hash;
      this.workerCount := workerCount;
      var bytes := new Buffer(4096);
      this.buffer := bytes;
      this.entries := [];
      var table := new Slot[512](_ => EMPTY);
      this.slots := table;
      this.slotsUsed := 0;
      this.fixups := [];
      this.strings := [];
      new;
      assert table[..] == seq(512, _ => EMPTY);
      NoneUsed(512);
      PowerOfTwo512();
    }

    /** Looks for `data` along its probe sequence: the entry that holds it, or the empty slot that shows it is absent. */
    method Find(data: Str, h: u64) returns (found: bool, index: nat, pos: nat)
      requires Valid() && h == Mark(hash(data))
      ensures found ==> index < |strings| && strings[index] == data
      ensures !found ==> data !in strings
      ensures !found ==> pos < slots.Length && slots[pos].hash == 0 && Reaches(slots[..], h, pos)
    {
      hide PoolBytes, EntriesOk, IsPowerOfTwo, Distinct;
      var capacity := slots.Length;
      var home := Home(h, capacity);
      pos := home;
      index := 0;
      ghost var t := 0;
      while slots[pos].hash != 0
        invariant 0 <= t < capacity && pos == Probe(home, t, capacity)
        invariant FullUpTo(slots[..], h, t) && Missed(data, h, t)
        decreases capacity - t
      {
        var same := SlotMatches(pos, data, h);
        if same {
          return true, slots[pos].entryIndex, pos;
        }
        ProbeStep(slots[..], h, t);
        pos := Next(pos, capacity);
        t := t + 1;
      }
      Absent(data, h, t);
      return false, index, pos;
    }

    /** None of the first `t` slots probed files `data`. */
    ghost predicate Missed(data: Str, h: u64, t: nat)
      requires slots.Length > 0 && t <= slots.Length
      reads this, slots
    {
      forall u :: 0 <= u < t ==> Other(slots[Probe(Home(h, slots.Length), u, slots.Length)], data, h)
    }

    /** Does the used slot at `pos` file `data`? Equal hashes alone do not decide. */
    method SlotMatches(pos: nat, data: Str, h: u64) returns (same: bool)
      requires Valid() && pos < slots.Length && slots[pos].hash != 0
      ensures same ==> slots[pos].entryIndex < |strings| && strings[slots[pos].entryIndex] == data
      ensures !same ==> Other(slots[pos], data, h)
    {
      assert slots[..][pos] == slots[pos];
      if slots[pos].hash != h {
        return false;
      }
      same := EntryEquals(slots[pos].entryIndex, data);
    }

    /** The slot does not file `data`. */
    ghost predicate Other(slot: Slot, data: Str, h: u64)
      reads this
    {
      slot.hash != h || slot.entryIndex >= |strings| || strings[slot.entryIndex] != data
    }

    lemma Absent(data: Str, h: u64, t: nat)
      requires Valid() && h == Mark(hash(data)) && t < slots.Length
      requires slots[Probe(Home(h, slots.Length), t, slots.Length)].hash == 0
      requires Missed(data, h, t)
      ensures data !in strings
      ensures FullUpTo(slots[..], h, t) ==> Reaches(slots[..], h, Probe(Home(h, slots.Length), t, slots.Length))
    {
      var marks := Marks(strings, hash);
      forall i | 0 <= i < |strings|
        ensures strings[i] != data
      {
        if strings[i] == data {
          forall u | 0 <= u < t
            ensures slots[..][Probe(Home(h, slots.Length), u, slots.Length)] != EntrySlot(marks, i)
          {
            assert Other(slots[Probe(Home(h, slots.Length), u, slots.Length)], data, h);
          }
          MissedEntry(slots[..], marks, h, t, i);
        }
      }
    }

    /** Compares lengths first, then the bytes in the pool buffer. */
    method EntryEquals(i: nat, data: Str) returns (same: bool)
      requires Valid() && i < |strings|
      ensures same <==> strings[i] == data
    {
      var candidate := entries[i];
      EntryBytes(strings, i);
      assert EntryOk(entries, strings, i);
      if candidate.length != |data| {
        return false;
      }
      var start := candidate.poolOffset + 4;
      assert buffer.data[start..start + |data|] == buffer.Contents()[start..start + |data|];
      return buffer.data[start..start + |data|] == data;
    }

    /** Interns a string whose hash the caller already has. */
    method InternWithHash(data: Str, rawHash: u64) returns (r: Result<u32>)
      requires Valid() && rawHash == hash(data)
      modifies this`entries, this`slots, this`slotsUsed, this`strings, buffer, buffer.data, slots
      ensures Valid() && fixups == old(fixups)
      ensures slots == old(slots) || fresh(slots)
      ensures buffer.data == old(buffer.data) || fresh(buffer.data)
      ensures r.Ok? ==> strings == Interned(old(strings), data) && r.value == OffsetOf(strings, data)
      ensures r.Err? ==> strings == old(strings)
      ensures r == Outcome(old(strings), data)
    {
      if |data| >= TWO_32 {
        return Err(StringLengthOverflow);
      }
      var found, index, pos := Find(data, Mark(rawHash));
      if found {
        EntryOffset(strings, index);
        assert EntryOk(entries, strings, index);
        return Ok(entries[index].poolOffset);
      }
      r := InternNew(data, Mark(rawHash), pos);
    }

    /** Adds a string that `Find` did not find. */
    method InternNew(data: Str, h: u64, pos: nat) returns (r: Result<u32>)
      requires Valid() && h == Mark(hash(data)) && |data| < TWO_32 && data !in strings
      requires pos < slots.Length && slots[pos].hash == 0 && Reaches(slots[..], h, pos)
      modifies this`entries, this`slots, this`slotsUsed, this`strings, buffer, buffer.data, slots
      ensures Valid() && fixups == old(fixups)
      ensures slots == old(slots) || fresh(slots)
      ensures buffer.data == old(buffer.data) || fresh(buffer.data)
      ensures r.Ok? ==> strings == old(strings) + [data] && r.value == |PoolBytes(old(strings))|
      ensures r.Err? ==> strings == old(strings)
      ensures r == Outcome(old(strings), data)
    {
      var offset := buffer.size;
      if offset >= TWO_32 {
        return Err(StringPoolOverflow);
      }
      PoolSize(strings);
      AppendRecord(buffer, data);
      PoolBytesSnoc(strings, data);
      OffsetSnoc(strings, data, data);
      File(data, h, pos, offset);
      return Ok(offset);
    }

    /** Records the entry and files it in the table, growing the table first when it would become three quarters full. */
    method File(data: Str, h: u64, pos: nat, offset: u32)
      requires buffer.Valid() && slots as object != buffer.data as object
      requires |data| < TWO_32 && h == Mark(hash(data)) && data !in strings && offset == |PoolBytes(strings)|
      requires buffer.Contents() == PoolBytes(strings + [data])
      requires Distinct(strings) && EntriesOk(entries, strings)
      requires TableOk(slots[..], Marks(strings, hash)) && IsPowerOfTwo(slots.Length)
      requires slotsUsed == |strings| && slotsUsed * 4 < slots.Length * 3
      requires pos < slots.Length && slots[pos].hash == 0 && Reaches(slots[..], h, pos)
      modifies this`entries, this`slots, this`slotsUsed, this`strings, slots
      ensures Valid() && (slots == old(slots) || fresh(slots))
      ensures strings == old(strings) + [data]
    {
      PoolSize(strings);
      EntriesSnoc(entries, strings, data, PoolEntry(offset, |data|));
      slots := FileInTable(slots, Marks(strings, hash), slotsUsed, h, pos, |entries|);
      MarksSnoc(strings, data, hash);
      entries := entries + [PoolEntry(offset, |data|)];
      slotsUsed := slotsUsed + 1;
      strings := strings + [data];
    }

    method Intern(data: Str) returns (r: Result<u32>)
      requires Valid()
      modifies this`entries, this`slots, this`slotsUsed, this`strings, buffer, buffer.data, slots
      ensures Valid() && fixups == old(fixups)
      ensures slots == old(slots) || fresh(slots)
      ensures buffer.data == old(buffer.data) || fresh(buffer.data)
      ensures r.Ok? ==> strings == Interned(old(strings), data) && r.value == OffsetOf(strings, data)
      ensures r.Err? ==> strings == old(strings)
      ensures r == Outcome(old(strings), data)
    {
      r := InternWithHash(data, hash(data));
    }

    method RecordFixup(nodeOffset: nat)
      requires Valid()
      modifies this`fixups
      ensures Valid() && fixups == old(fixups) + [nodeOffset]
    {
      fixups := fixups + [nodeOffset];
    }
  }

  lemma PowerOfTwo512()
    ensures IsPowerOfTwo(512)
  {
    assert IsPowerOfTwo(2) && IsPowerOfTwo(4) && IsPowerOfTwo(8) && IsPowerOfTwo(16) && IsPowerOfTwo(32);
    assert IsPowerOfTwo(64) && IsPowerOfTwo(128) && IsPowerOfTwo(256);
  }

  lemma {:induction false} UsedPrefix(slots: seq<Slot>, i: nat)
    requires i <= |slots|
    ensures Used(slots[..i]) <= Used(slots)
  {
    if i < |slots| {
      var init := slots[..|slots| - 1];
      UsedPrefix(init, i);
      assert init[..i] == slots[..i];
    } else {
      assert slots[..i] == slots;
    }
  }

  lemma PaddingAfter(start: nat, length: nat)
    requires start % 4 == 0
    ensures AlignUp(start + 4 + length, 4) - (start + 4 + length) == Padding(length)
  {
    assert (start + 4 + length + 3) / 4 == start / 4 + (4 + length + 3) / 4;
  }
}
