/** The verifier: what it accepts, with which status it refuses the rest, and when it loads beyond the buffer. */
module Verify {
  import opened Bytes
  import opened Format
  import opened Options
  import opened PoolLayout
  import R = Reader
  import Utf8

  datatype Status =
    | Accepted | TooSmall | BadMagic | BadVersion | BadFlags | BadFileSize | BadFooter | BadChecksum | BadLayout
    | BadRootIndex | BadString | BadUtf8 | DuplicateKey

  /** The verifier comes to a status, or loads a byte that is not in the buffer; what follows then is not defined. */
  datatype Outcome = Done(status: Status) | Outside

  // ----- the string pool -----

  ghost predicate StringOk(s: Str) {
    |s| < TWO_32 && Utf8.IsUtf8(s)
  }

  ghost predicate AllOk(strings: seq<Str>) {
    forall i :: 0 <= i < |strings| ==> StringOk(strings[i])
  }

  /** The records of `strings`, one after the other. */
  ghost predicate IsPool(pool: seq<byte>, strings: seq<Str>) {
    AllOk(strings) && PoolBytes(strings) == pool
  }

  ghost predicate PoolOk(pool: seq<byte>, count: nat) {
    exists strings: seq<Str> :: |strings| == count && IsPool(pool, strings)
  }

  /** Whether the record at `offset` is one of a string the verifier accepts. */
  ghost predicate RecordAt(pool: seq<byte>, offset: nat, s: Str) {
    StringOk(s) && At(pool, offset, Record(s))
  }

  lemma RecordLength(pool: seq<byte>, offset: nat, s: Str)
    requires |s| < TWO_32 && At(pool, offset, Record(s))
    ensures offset + 4 + |s| + Padding(|s|) <= |pool| && Load32(pool, offset) == |s| && pool[offset + 4..offset + 4 + |s|] == s
    ensures pool[offset + 4 + |s|..offset + 4 + |s| + Padding(|s|)] == Zeros(Padding(|s|))
  {
    hide LE, Load32, Padding;
    AtParts(pool, offset, LE(|s|, 4), s, Zeros(Padding(|s|)));
    AtLoad32(pool, offset, |s|);
  }

  /** At one place there is at most one record. */
  lemma RecordUnique(pool: seq<byte>, offset: nat, s: Str, t: Str)
    requires |s| < TWO_32 && |t| < TWO_32 && At(pool, offset, Record(s)) && At(pool, offset, Record(t))
    ensures s == t
  {
    hide Record, At;
    RecordLength(pool, offset, s);
    RecordLength(pool, offset, t);
  }

  lemma {:induction false} RecordOf(strings: seq<Str>, k: nat)
    requires k < |strings|
    ensures At(PoolBytes(strings), |PoolBytes(strings[..k])|, Record(strings[k]))
  {
    hide Record;
    var n := |strings| - 1;
    var whole := PoolBytes(strings);
    if k == n {
      assert whole[|PoolBytes(strings[..n])|..|whole|] == Record(strings[n]);
    } else {
      RecordOf(strings[..n], k);
      assert strings[..n][..k] == strings[..k];
      AtPrefix(PoolBytes(strings[..n]), whole, |PoolBytes(strings[..k])|, Record(strings[k]));
    }
  }

  lemma RecordAtOf(strings: seq<Str>, k: nat)
    requires k < |strings| && AllOk(strings)
    ensures RecordAt(PoolBytes(strings), |PoolBytes(strings[..k])|, strings[k])
  {
    RecordOf(strings, k);
  }

  /** Lists of strings, the records of one a prefix of those of the other: the one is a prefix of the other. */
  lemma {:induction false} PoolPrefix(a: seq<Str>, b: seq<Str>)
    requires AllShort(a) && AllShort(b) && PoolBytes(a) <= PoolBytes(b)
    ensures a <= b
  {
    hide Record;
    if a != [] {
      var n := |a| - 1;
      PoolPrefix(a[..n], b);
      LastRecord(a, b, n);
    }
  }

  lemma LastRecord(a: seq<Str>, b: seq<Str>, n: nat)
    requires AllShort(a) && AllShort(b) && |a| == n + 1 && a[..n] <= b && PoolBytes(a) <= PoolBytes(b)
    ensures n < |b| && a[n] == b[n]
  {
    hide Record;
    assert b[..n] == a[..n] && b[..|b|] == b;
    RecordOf(a, n);
    var p := |PoolBytes(a[..n])|;
    RecordLengthPositive(a[n]);
    AtPrefix(PoolBytes(a), PoolBytes(b), p, Record(a[n]));
    if n < |b| {
      RecordOf(b, n);
      RecordUnique(PoolBytes(b), p, a[n], b[n]);
    }
  }

  lemma RecordLengthPositive(s: Str)
    ensures |Record(s)| >= 4
  {
  }

  /** A pool is the records of one list of strings only. */
  lemma PoolUnique(pool: seq<byte>, a: seq<Str>, b: seq<Str>)
    requires AllShort(a) && AllShort(b) && PoolBytes(a) == pool == PoolBytes(b)
    ensures a == b
  {
    PoolPrefix(a, b);
    PoolPrefix(b, a);
  }

  /** Where no record goes on, the pool is no list of records. */
  lemma NoRecord(pool: seq<byte>, strings: seq<Str>, count: nat)
    requires AllOk(strings) && PoolBytes(strings) <= pool && |PoolBytes(strings)| < |pool|
    requires NoRecordAt(pool, |PoolBytes(strings)|)
    ensures !PoolOk(pool, count)
  {
    if PoolOk(pool, count) {
      var all :| |all| == count && IsPool(pool, all);
      PoolPrefix(strings, all);
      assert all[..|strings|] == strings && all[..|all|] == all;
      if |strings| < |all| {
        RecordAtOf(all, |strings|);
      }
    }
  }

  /** What the parser reads at `offset` of a pool. */
  ghost predicate Parsed(pool: seq<byte>, offset: nat, s: Str) {
    && offset + 4 + |s| + Padding(|s|) <= |pool|
    && Load32(pool, offset) == |s|
    && pool[offset + 4..offset + 4 + |s|] == s
    && pool[offset + 4 + |s|..offset + 4 + |s| + Padding(|s|)] == Zeros(Padding(|s|))
    && Utf8.IsUtf8(s)
  }

  lemma RecordIsParsed(pool: seq<byte>, offset: nat, s: Str)
    ensures RecordAt(pool, offset, s) <==> Parsed(pool, offset, s)
  {
    hide LE, Load32, Padding, Record;
    if RecordAt(pool, offset, s) {
      RecordLength(pool, offset, s);
    }
    if Parsed(pool, offset, s) {
      RecordFound(pool, offset, s);
    }
  }

  // ----- a pool of which only a part is inside the buffer -----

  ghost predicate NoRecordAt(pool: seq<byte>, offset: nat) {
    forall s :: !RecordAt(pool, offset, s)
  }

  /** The bytes of a record's string, as far as they are there. */
  function BytesThere(pool: seq<byte>, offset: nat, length: nat): (bytes: seq<byte>)
    requires offset + 4 <= |pool|
    ensures |bytes| == Min(length, |pool| - offset - 4)
  {
    pool[offset + 4..Min(offset + 4 + length, |pool|)]
  }

  /** The padding is cut off, and what is there of it is zero. */
  ghost predicate PaddingCut(pool: seq<byte>, size: nat, offset: nat, length: nat) {
    && offset + 4 + length <= |pool| < offset + AlignUp(4 + length, 4) <= size
    && Utf8.IsUtf8(pool[offset + 4..offset + 4 + length])
    && forall k :: offset + 4 + length <= k < |pool| ==> pool[k] == 0
  }

  /**
   * Of a pool of `size` bytes only `pool` is inside the buffer. Reading the record at `offset` goes beyond that: in its
   * length, in its string behind bytes that are fine so far, or in its padding.
   */
  ghost predicate RecordCut(pool: seq<byte>, size: nat, offset: nat)
    requires offset <= |pool|
  {
    offset + 4 <= size && (offset + 4 <= |pool| ==> BodyCut(pool, size, offset, Load32(pool, offset)))
  }

  ghost predicate BodyCut(pool: seq<byte>, size: nat, offset: nat, length: nat)
    requires offset + 4 <= |pool|
  {
    && offset + 4 + length <= size
    && (Utf8.CutOff(BytesThere(pool, offset, length), length) || PaddingCut(pool, size, offset, length))
  }

  /** The string of the record at `offset` is refused by what is there of it. */
  ghost predicate NotUtf8At(pool: seq<byte>, size: nat, offset: nat) {
    && offset + 4 <= |pool|
    && var length: nat := Load32(pool, offset); var bytes := BytesThere(pool, offset, length);
      && offset + 4 + length <= size
      && !Utf8.CutOff(bytes, length)
      && !(|bytes| == length && Utf8.IsUtf8(bytes))
  }

  /** Behind good records comes one that reading goes beyond the buffer for. */
  ghost predicate Leaves(pool: seq<byte>, size: nat) {
    exists strings: seq<Str> :: LeavesAfter(pool, size, strings)
  }

  ghost predicate LeavesAfter(pool: seq<byte>, size: nat, strings: seq<Str>) {
    AllOk(strings) && PoolBytes(strings) <= pool && RecordCut(pool, size, |PoolBytes(strings)|)
  }

  /** Behind good records comes one whose string is refused. */
  ghost predicate BreaksAtUtf8(pool: seq<byte>, size: nat) {
    exists strings: seq<Str> :: BreaksAfter(pool, size, strings)
  }

  ghost predicate BreaksAfter(pool: seq<byte>, size: nat, strings: seq<Str>) {
    AllOk(strings) && PoolBytes(strings) <= pool && NotUtf8At(pool, size, |PoolBytes(strings)|)
  }

  /** What comes of a pool of `size` bytes of which `pool` is inside the buffer. */
  ghost function PoolOutcome(pool: seq<byte>, size: nat, count: nat): (o: Outcome) {
    if Leaves(pool, size) then Outside
    else if |pool| == size && PoolOk(pool, count) then Done(Accepted)
    else if BreaksAtUtf8(pool, size) then Done(BadUtf8)
    else Done(BadString)
  }

  lemma CutIsNoRecord(pool: seq<byte>, size: nat, offset: nat)
    requires offset <= |pool| <= size && (RecordCut(pool, size, offset) || NotUtf8At(pool, size, offset))
    ensures NoRecordAt(pool, offset)
  {
    hide Load32, Record, RecordAt, Utf8.CutOff;
    forall s
      ensures !RecordAt(pool, offset, s)
    {
      RecordIsParsed(pool, offset, s);
      if Parsed(pool, offset, s) {
        PaddingThere(|s|);
        Utf8.WholeNotCut(s, |s|);
      }
    }
  }

  lemma PaddingThere(length: nat)
    ensures AlignUp(4 + length, 4) == 4 + length + Padding(length)
  {
  }

  /** A pool can be read in one way only: of two readings the one that stops where no record goes on is the longer. */
  lemma ReadsOnce(pool: seq<byte>, a: seq<Str>, b: seq<Str>)
    requires AllOk(a) && PoolBytes(a) <= pool && NoRecordAt(pool, |PoolBytes(a)|)
    requires AllOk(b) && PoolBytes(b) <= pool
    ensures b <= a
  {
    hide Record, RecordAt, StringOk;
    OkIsShort(a);
    OkIsShort(b);
    if |PoolBytes(b)| <= |PoolBytes(a)| {
      assert PoolBytes(b) <= PoolBytes(a);
      PoolPrefix(b, a);
    } else {
      assert PoolBytes(a) <= PoolBytes(b);
      PoolPrefix(a, b);
      assert a != b;
      RecordAtOf(b, |a|);
      assert b[..|a|] == a;
      RecordLonger(PoolBytes(b), pool, |PoolBytes(a)|, b[|a|]);
    }
  }

  lemma OkIsShort(strings: seq<Str>)
    requires AllOk(strings)
    ensures AllShort(strings)
  {
    forall s | s in strings
      ensures |s| < TWO_32
    {
      var i :| 0 <= i < |strings| && strings[i] == s;
      assert StringOk(strings[i]);
    }
  }

  lemma RecordLonger(part: seq<byte>, pool: seq<byte>, offset: nat, s: Str)
    requires part <= pool && RecordAt(part, offset, s)
    ensures RecordAt(pool, offset, s)
  {
    AtPrefix(part, pool, offset, Record(s));
  }

  /** Whether the bytes from `lo` to `hi` are zero; nothing when finding out goes beyond what is there. */
  method AllZeros(pool: seq<byte>, lo: nat, hi: nat) returns (zeros: Option<bool>)
    requires lo <= hi && lo <= |pool|
    ensures zeros.None? <==> |pool| < hi && forall k :: lo <= k < |pool| ==> pool[k] == 0
    ensures zeros == Some(true) <==> hi <= |pool| && pool[lo..hi] == Zeros(hi - lo)
  {
    var pad := lo;
    while pad < hi
      invariant lo <= pad <= hi && pad <= |pool|
      invariant forall k :: lo <= k < pad ==> pool[k] == 0
    {
      if pad >= |pool| {
        return None;
      }
      if pool[pad] != 0 {
        assert hi <= |pool| ==> pool[lo..hi][pad - lo] != 0;
        return Some(false);
      }
      pad := pad + 1;
    }
    zeros := Some(true);
  }

  /** What one turn of the pool loop finds at `offset`: an accepted record and its size, or none. */
  method StepPool(pool: seq<byte>, size: nat, offset: nat) returns (outcome: Outcome, total: nat, ghost s: Str)
    requires offset < size && offset <= |pool| <= size
    ensures outcome in {Done(Accepted), Done(BadString), Done(BadUtf8), Outside}
    ensures outcome == Done(Accepted) ==> RecordAt(pool, offset, s) && total == |Record(s)|
    ensures outcome != Done(Accepted) ==> NoRecordAt(pool, offset)
    ensures outcome == Outside <==> RecordCut(pool, size, offset)
    ensures outcome == Done(BadUtf8) <==> NotUtf8At(pool, size, offset)
  {
    hide Record, RecordAt, Load32, Utf8.IsUtf8, Utf8.CutOff;
    forall t
      ensures RecordAt(pool, offset, t) <==> Parsed(pool, offset, t)
    {
      RecordIsParsed(pool, offset, t);
    }
    total, s := 0, [];
    if offset + 4 > size {
      return Done(BadString), 0, [];
    }
    if offset + 4 > |pool| {
      return Outside, 0, [];
    }
    var length: nat := Load32(pool, offset);
    PaddingThere(length);
    if offset + 4 + length > size {
      return Done(BadString), 0, [];
    }
    var bytes := BytesThere(pool, offset, length);
    s := bytes;
    var utf8 := Utf8.Recognise(bytes, length);
    if utf8.None? {
      return Outside, 0, s;
    }
    if !utf8.value {
      return Done(BadUtf8), 0, s;
    }
    total := AlignUp(4 + length, 4);
    if total > size - offset {
      return Done(BadString), 0, s;
    }
    var zeros := AllZeros(pool, offset + 4 + length, offset + total);
    if zeros.None? {
      return Outside, 0, s;
    }
    if !zeros.value {
      return Done(BadString), 0, s;
    }
    outcome := Done(Accepted);
    RecordSize(s);
  }

  lemma RecordSize(s: Str)
    ensures |Record(s)| == AlignUp(4 + |s|, 4)
  {
  }

  lemma RecordFound(pool: seq<byte>, offset: nat, s: Str)
    requires offset + 4 + |s| + Padding(|s|) <= |pool| && Load32(pool, offset) == |s| && Utf8.IsUtf8(s)
    requires pool[offset + 4..offset + 4 + |s|] == s
    requires pool[offset + 4 + |s|..offset + 4 + |s| + Padding(|s|)] == Zeros(Padding(|s|))
    ensures RecordAt(pool, offset, s)
  {
    hide LE;
    LEOfUnLE(pool[offset..offset + 4]);
    var r := Record(s);
    assert pool[offset..offset + |r|] == pool[offset..offset + 4] + pool[offset + 4..offset + 4 + |s|]
                                         + pool[offset + 4 + |s|..offset + 4 + |s| + Padding(|s|)];
  }

  /** A pool read up to where no record goes on is cut off or refused there, or nowhere. */
  lemma StopsHere(pool: seq<byte>, size: nat, strings: seq<Str>)
    requires AllOk(strings) && PoolBytes(strings) <= pool && |pool| <= size && NoRecordAt(pool, |PoolBytes(strings)|)
    ensures Leaves(pool, size) <==> RecordCut(pool, size, |PoolBytes(strings)|)
    ensures BreaksAtUtf8(pool, size) <==> NotUtf8At(pool, size, |PoolBytes(strings)|)
  {
    hide StringOk, NoRecordAt, NotUtf8At, RecordCut;
    if RecordCut(pool, size, |PoolBytes(strings)|) {
      assert LeavesAfter(pool, size, strings);
    }
    if NotUtf8At(pool, size, |PoolBytes(strings)|) {
      assert BreaksAfter(pool, size, strings);
    }
    if Leaves(pool, size) {
      var all :| LeavesAfter(pool, size, all);
      SameStop(pool, size, strings, all);
    }
    if BreaksAtUtf8(pool, size) {
      var all :| BreaksAfter(pool, size, all);
      SameStop(pool, size, strings, all);
    }
  }

  lemma SameStop(pool: seq<byte>, size: nat, strings: seq<Str>, all: seq<Str>)
    requires AllOk(strings) && PoolBytes(strings) <= pool && |pool| <= size && NoRecordAt(pool, |PoolBytes(strings)|)
    requires LeavesAfter(pool, size, all) || BreaksAfter(pool, size, all)
    ensures all == strings
  {
    hide StringOk, NoRecordAt, NotUtf8At, RecordCut;
    CutIsNoRecord(pool, size, |PoolBytes(all)|);
    ReadsOnce(pool, strings, all);
    ReadsOnce(pool, all, strings);
  }

  lemma NothingAtTheEnd(pool: seq<byte>)
    ensures NoRecordAt(pool, |pool|) && !NotUtf8At(pool, |pool|, |pool|) && !RecordCut(pool, |pool|, |pool|)
  {
    forall s
      ensures !RecordAt(pool, |pool|, s)
    {
      RecordLengthPositive(s);
    }
  }

  /** A pool that is all there never leaves the buffer. */
  lemma WholeStays(pool: seq<byte>)
    ensures !Leaves(pool, |pool|)
  {
    hide StringOk, Utf8.CutOff;
    if Leaves(pool, |pool|) {
      var strings :| LeavesAfter(pool, |pool|, strings);
      var offset := |PoolBytes(strings)|;
      Utf8.WholeNotCut(BytesThere(pool, offset, Load32(pool, offset)), Load32(pool, offset));
    }
  }

  /**
   * The pool loop over `size` bytes of which `pool` is inside the buffer. Accepts exactly when all is inside and is the
   * concatenation of `count` records of UTF-8 strings; leaves the buffer, or refuses, at the first record that is none.
   */
  method VerifyStringsPool(pool: seq<byte>, size: nat, count: nat) returns (outcome: Outcome)
    requires |pool| <= size
    ensures outcome == PoolOutcome(pool, size, count)
  {
    hide Record, StringOk, IsPool, RecordAt, NotUtf8At, PoolOk, BreaksAtUtf8, Leaves, RecordCut, NoRecordAt;
    ghost var strings: seq<Str> := [];
    NothingAtTheEnd(pool);
    if size == 0 {
      StopsHere(pool, size, []);
      IsPoolOf(pool, [], count);
      return Done(if count != 0 then BadString else Accepted);
    }
    var offset, counted := 0, 0;
    while offset < size
      invariant 0 <= offset <= |pool| && AllOk(strings) && |strings| == counted
      invariant PoolBytes(strings) == pool[..offset]
      decreases size - offset
    {
      var step, total, s := StepPool(pool, size, offset);
      if step != Done(Accepted) {
        StopsHere(pool, size, strings);
        if |pool| == size {
          NoRecord(pool, strings, count);
        }
        return step;
      }
      PoolGrows(pool, strings, offset, s);
      strings := strings + [s];
      offset := offset + total;
      counted := counted + 1;
    }
    assert pool[..offset] == pool;
    StopsHere(pool, size, strings);
    IsPoolOf(pool, strings, count);
    outcome := Done(if counted != count then BadString else Accepted);
  }

  lemma PoolGrows(pool: seq<byte>, strings: seq<Str>, offset: nat, s: Str)
    requires offset <= |pool| && AllOk(strings) && PoolBytes(strings) == pool[..offset] && RecordAt(pool, offset, s)
    ensures AllOk(strings + [s]) && |Record(s)| >= 4
    ensures offset + |Record(s)| <= |pool| && PoolBytes(strings + [s]) == pool[..offset + |Record(s)|]
  {
    hide StringOk;
    PoolBytesSnoc(strings, s);
    RecordLengthPositive(s);
  }

  lemma IsPoolOf(pool: seq<byte>, strings: seq<Str>, count: nat)
    requires AllOk(strings) && PoolBytes(strings) == pool
    ensures PoolOk(pool, count) <==> |strings| == count
  {
    assert IsPool(pool, strings);
    if PoolOk(pool, count) {
      var all :| |all| == count && IsPool(pool, all);
      PoolUnique(pool, strings, all);
    }
  }

  // ----- the root index -----

  ghost predicate RootOk(r: R.Handle, i: nat) {
    var e := R.ReadEntry(r, HEADER_SIZE + i * ENTRY_SIZE);
    && e.Some?
    && r.header.nodesOffset <= e.value.item.valueOffset < r.header.stringsOffset
    && r.header.stringsOffset <= e.value.item.keyOffset
    && e.value.item.keyOffset + 4 + e.value.item.keyLength <= r.header.stringsOffset + r.header.stringsSize
  }

  ghost function RootHash(r: R.Handle, i: nat): (h: u64) {
    match R.ReadEntry(r, HEADER_SIZE + i * ENTRY_SIZE)
    case Some(e) => e.hash
    case None => 0
  }

  /** Every root entry points into its sections, and the hashes strictly ascend, so no two are equal. */
  ghost predicate RootsOk(r: R.Handle, count: nat) {
    && (forall i :: 0 <= i < count ==> RootOk(r, i))
    && (forall i, j :: 0 <= i < j < count ==> RootHash(r, i) < RootHash(r, j))
  }

  /** The first entry that is wrong is not all in the buffer. */
  ghost predicate RootsLeave(r: R.Handle, count: nat) {
    exists i: nat :: i < count && LeavesAt(r, i)
  }

  ghost predicate LeavesAt(r: R.Handle, i: nat) {
    RootsOk(r, i) && R.ReadEntry(r, HEADER_SIZE + i * ENTRY_SIZE).None?
  }

  /** The first entry that is wrong repeats the hash before it. */
  ghost predicate RepeatsFirst(r: R.Handle, count: nat) {
    exists i: nat :: 0 < i < count && RepeatsAt(r, i)
  }

  ghost predicate RepeatsAt(r: R.Handle, i: nat) {
    && i > 0 && RootsOk(r, i) && R.ReadEntry(r, HEADER_SIZE + i * ENTRY_SIZE).Some?
    && RootHash(r, i) == RootHash(r, i - 1)
  }

  /** What comes of a root index. */
  ghost function RootsOutcome(r: R.Handle, count: nat): (o: Outcome) {
    if RootsOk(r, count) then Done(Accepted)
    else if RootsLeave(r, count) then Outside
    else if RepeatsFirst(r, count) then Done(DuplicateKey)
    else Done(BadRootIndex)
  }

  /** Where an entry is wrong for the first time. */
  lemma WrongHere(r: R.Handle, i: nat, count: nat)
    requires i < count && RootsOk(r, i) && (!RootOk(r, i) || (i > 0 && RootHash(r, i) <= RootHash(r, i - 1)))
    ensures !RootsOk(r, count)
    ensures RepeatsFirst(r, count) <==> RepeatsAt(r, i)
    ensures RootsLeave(r, count) <==> LeavesAt(r, i)
  {
    hide RootHash, R.ReadEntry;
    if RepeatsFirst(r, count) {
      var j: nat :| 0 < j < count && RepeatsAt(r, j);
      assert j == i;
    }
    if RootsLeave(r, count) {
      var j: nat :| j < count && LeavesAt(r, j);
      assert j < i ==> RootOk(r, j);
      assert j == i;
    }
  }

  /** A root index that is all there never leaves the buffer. */
  lemma RootsStay(r: R.Handle, count: nat)
    requires HEADER_SIZE + count * ENTRY_SIZE <= |r.base|
    ensures !RootsLeave(r, count)
  {
  }

  /** Accepts exactly when entries are there, point into their sections, and hashes ascend; otherwise the first wrong entry decides. */
  method VerifyRootIndex(r: R.Handle) returns (outcome: Outcome)
    ensures outcome == RootsOutcome(r, r.header.rootCount)
  {
    hide Load32, Load64, RepeatsFirst, RootsLeave;
    var previousHash: u64 := 0;
    var i := 0;
    while i < r.header.rootCount
      invariant 0 <= i <= r.header.rootCount && RootsOk(r, i)
      invariant i > 0 ==> previousHash == RootHash(r, i - 1)
      decreases r.header.rootCount - i
    {
      var entry := R.ReadEntry(r, HEADER_SIZE + i * ENTRY_SIZE);
      if entry.None? {
        WrongHere(r, i, r.header.rootCount);
        return Outside;
      }
      var e := entry.value;
      assert e.hash == RootHash(r, i);
      if i != 0 {
        if e.hash < previousHash {
          WrongHere(r, i, r.header.rootCount);
          return Done(BadRootIndex);
        }
        if e.hash == previousHash {
          WrongHere(r, i, r.header.rootCount);
          return Done(DuplicateKey);
        }
      }
      previousHash := e.hash;
      if e.item.valueOffset < r.header.nodesOffset || e.item.valueOffset >= r.header.stringsOffset {
        assert !RootOk(r, i);
        WrongHere(r, i, r.header.rootCount);
        return Done(BadRootIndex);
      }
      if e.item.keyOffset < r.header.stringsOffset
         || e.item.keyOffset + 4 + e.item.keyLength > r.header.stringsOffset + r.header.stringsSize {
        assert !RootOk(r, i);
        WrongHere(r, i, r.header.rootCount);
        return Done(BadRootIndex);
      }
      i := i + 1;
    }
    outcome := Done(Accepted);
  }

  // ----- the buffer -----

  function HeaderStatus(h: Header, size: nat): (s: Status)
    ensures s == Accepted <==> R.HeaderAccepted(h, size)
  {
    if h.magic != MAGIC then BadMagic
    else if h.versionMajor != VERSION_MAJOR || h.versionMinor > VERSION_MINOR then BadVersion
    else if h.flags != FLAGS_REQUIRED then BadFlags
    else if h.fileSize != size then BadFileSize
    else if h.reserved != Zeros(|h.reserved|) then BadFlags
    else if !LayoutOk(h) then BadLayout
    else Accepted
  }

  /** What an accepted buffer is. The nodes section is not looked into. */
  ghost predicate BufferOk(data: seq<byte>, hash: Hash64) {
    && |data| >= HEADER_SIZE + FOOTER_SIZE
    && var h := LoadHeader(data);
      && R.Open(data) == Some(R.Handle(data, h))
      && HEADER_SIZE <= h.footerOffset <= |data| && h.checksum == hash(data[HEADER_SIZE..h.footerOffset])
      && h.stringsOffset + h.stringsSize <= |data|
      && PoolOk(data[h.stringsOffset..h.stringsOffset + h.stringsSize], h.stringsCount)
      && RootsOk(R.Handle(data, h), h.rootCount)
  }

  /** The checks before the pool is looked at. */
  ghost predicate ReachesPool(data: seq<byte>, hash: Hash64) {
    && R.Open(data).Some?
    && var h := LoadHeader(data);
      && HEADER_SIZE <= h.footerOffset <= |data| && h.checksum == hash(data[HEADER_SIZE..h.footerOffset])
  }

  /** What of the pool is inside the buffer. */
  function PoolThere(data: seq<byte>, h: Header): (pool: seq<byte>)
    ensures |pool| <= h.stringsSize
    ensures |pool| == h.stringsSize <==> h.stringsSize == 0 || h.stringsOffset + h.stringsSize <= |data|
  {
    if h.stringsOffset >= |data| then [] else data[h.stringsOffset..Min(h.stringsOffset + h.stringsSize, |data|)]
  }

  ghost function BufferOutcome(data: seq<byte>, hash: Hash64): (o: Outcome) {
    if |data| < HEADER_SIZE + FOOTER_SIZE then Done(TooSmall)
    else
      var h := LoadHeader(data);
      if !R.HeaderAccepted(h, |data|) then Done(HeaderStatus(h, |data|))
      else if R.Open(data).None? then Done(BadFooter)
      else if !ReachesPool(data, hash) then Done(BadChecksum)
      else
        var pool := PoolOutcome(PoolThere(data, h), h.stringsSize, h.stringsCount);
        if pool != Done(Accepted) then pool else RootsOutcome(R.Handle(data, h), h.rootCount)
  }

  /** An accepted header that says the pool is empty puts it before the footer. */
  lemma EmptyPoolInside(data: seq<byte>, hash: Hash64)
    requires ReachesPool(data, hash) && LoadHeader(data).stringsSize == 0
    ensures LoadHeader(data).stringsOffset <= |data|
  {
    hide LoadHeader;
    R.FooterInside(LoadHeader(data), |data|);
  }

  lemma AcceptedIsOk(data: seq<byte>, hash: Hash64)
    ensures BufferOutcome(data, hash) == Done(Accepted) <==> BufferOk(data, hash)
  {
    hide LoadHeader, LayoutOk, PoolOk, RootsOk, Leaves, BreaksAtUtf8, RootsLeave, RepeatsFirst, R.FooterMatches;
    if ReachesPool(data, hash) {
      var h := LoadHeader(data);
      if h.stringsSize == 0 {
        EmptyPoolInside(data, hash);
      }
      if |PoolThere(data, h)| == h.stringsSize {
        WholeStays(PoolThere(data, h));
        assert PoolThere(data, h) == data[h.stringsOffset..h.stringsOffset + h.stringsSize];
      }
    }
  }

  /** When the verifier loads a byte that is not in the buffer. */
  ghost predicate LoadsOutside(data: seq<byte>, hash: Hash64) {
    && ReachesPool(data, hash)
    && var h := LoadHeader(data); var pool := PoolThere(data, h);
      || Leaves(pool, h.stringsSize)
      || (|pool| == h.stringsSize && PoolOk(pool, h.stringsCount) && RootsLeave(R.Handle(data, h), h.rootCount))
  }

  lemma OutsideIsLoaded(data: seq<byte>, hash: Hash64)
    ensures BufferOutcome(data, hash) == Outside <==> LoadsOutside(data, hash)
  {
    hide LoadHeader, LayoutOk, PoolOk, Leaves, BreaksAtUtf8, RepeatsFirst, R.FooterMatches, PoolThere;
    if ReachesPool(data, hash) {
      var h := LoadHeader(data);
      if |PoolThere(data, h)| == h.stringsSize {
        WholeStays(PoolThere(data, h));
      }
      if RootsLeave(R.Handle(data, h), h.rootCount) {
        var i: nat :| i < h.rootCount && LeavesAt(R.Handle(data, h), i);
        assert !RootOk(R.Handle(data, h), i);
      }
    }
  }

  /**
   * For every buffer: the status of the first check that fails; accepted exactly when header, footer, checksum, pool and
   * root index are in order; and a byte beyond the buffer is loaded exactly when, behind checks that pass, the pool or
   * the root index is fine as far as it is inside and goes on beyond.
   */
  method VerifyBuffer(data: seq<byte>, hash: Hash64) returns (outcome: Outcome)
    ensures outcome == BufferOutcome(data, hash)
    ensures outcome == Done(Accepted) <==> BufferOk(data, hash)
    ensures outcome == Outside <==> LoadsOutside(data, hash)
  {
    hide LoadHeader, LoadFooter, LayoutOk, PoolOutcome, RootsOutcome, BufferOk, LoadsOutside, PoolThere;
    AcceptedIsOk(data, hash);
    OutsideIsLoaded(data, hash);
    if |data| < HEADER_SIZE + FOOTER_SIZE {
      return Done(TooSmall);
    }
    var h := LoadHeader(data);
    var status := HeaderStatus(h, |data|);
    if status != Accepted {
      return Done(status);
    }
    R.FooterInside(h, |data|);
    if !R.FooterMatches(data, h) {
      return Done(BadFooter);
    }
    if hash(data[HEADER_SIZE..h.footerOffset]) != h.checksum {
      return Done(BadChecksum);
    }
    outcome := VerifyStringsPool(PoolThere(data, h), h.stringsSize, h.stringsCount);
    if outcome != Done(Accepted) {
      return;
    }
    outcome := VerifyRootIndex(R.Handle(data, h));
  }

  // ----- headers whose sums wrap -----

  /** With pool and root index inside, no load goes beyond the buffer; when no sum wraps they are. */
  lemma InsideStays(data: seq<byte>, hash: Hash64)
    requires ReachesPool(data, hash)
    ensures var h := LoadHeader(data);
      && (NoWrap(h) ==> SectionsInside(h, |data|))
      && (h.stringsOffset + h.stringsSize <= |data| && HEADER_SIZE + h.rootCount * ENTRY_SIZE <= |data| ==> !LoadsOutside(data, hash))
  {
    hide LoadHeader, LayoutOk, Leaves, PoolOk, RootsLeave, R.FooterMatches;
    var h := LoadHeader(data);
    SectionsFollow(h, |data|);
    if h.stringsOffset + h.stringsSize <= |data| && HEADER_SIZE + h.rootCount * ENTRY_SIZE <= |data| {
      WholeStays(PoolThere(data, h));
      RootsStay(R.Handle(data, h), h.rootCount);
    }
  }

  /**
   * Being accepted is not having all sections in place: an accepted buffer has its pool and root index inside, but all of
   * its sections only if its sums do not wrap, which then is whether its nodes section is inside.
   */
  lemma AcceptedIsValid(data: seq<byte>, hash: Hash64)
    requires BufferOk(data, hash)
    ensures var h := LoadHeader(data);
      && h.stringsOffset + h.stringsSize <= |data| && HEADER_SIZE + h.rootCount * ENTRY_SIZE <= |data|
      && (R.Valid(R.Handle(data, h)) <==> NoWrap(h))
      && (NoWrap(h) <==> h.nodesOffset + h.nodesSize <= |data|)
  {
    hide LoadHeader, LayoutOk, PoolOk, R.FooterMatches;
    var h := LoadHeader(data);
    SectionsFollow(h, |data|);
    R.OpenedIsValid(data);
    if h.rootCount > 0 {
      assert RootOk(R.Handle(data, h), h.rootCount - 1);
    }
  }

  /** A buffer of 160 bytes that passes every check up to the checksum, with its pool said to start at byte 1000128. */
  lemma WrappedPasses(hash: Hash64)
    ensures var data := R.BareFile(R.WrappedHeader(hash([])));
      |data| == 160 && ReachesPool(data, hash) && LoadsOutside(data, hash)
  {
    hide LoadHeader, Leaves;
    var h := R.WrappedHeader(hash([]));
    R.WrappedOpens(hash([]));
    assert R.BareFile(h)[HEADER_SIZE..HEADER_SIZE] == [];
    LeavesAtOnce(h.stringsSize);
  }

  lemma LeavesAtOnce(size: nat)
    requires size >= 4
    ensures Leaves([], size)
  {
    assert LeavesAfter([], size, []);
  }

  /** Its nodes section is said to be 24 bytes less than 2^64 large, so that the pool starts before it, in the header's own zeros. */
  function FoldedHeader(checksum: u64): (h: Header) {
    Header(MAGIC, VERSION_MAJOR, VERSION_MINOR, 160, FLAGS_REQUIRED, 0, HEADER_SIZE, 0, HEADER_SIZE, TWO_64 - 24,
           104, 24, 6, HEADER_SIZE, checksum, Zeros(24))
  }

  /** The verifier accepts that file, whatever the hash, without loading a byte beyond it; its sums wrap and its sections are not in place. */
  lemma FoldedIsAccepted(hash: Hash64)
    ensures var h := FoldedHeader(hash([])); var data := R.BareFile(h);
      && |data| == 160 && LoadHeader(data) == h && BufferOk(data, hash) && !LoadsOutside(data, hash)
      && !NoWrap(h) && !R.Valid(R.Handle(data, h))
  {
    hide LoadHeader, PoolOk, Leaves, HeaderBytes, FooterBytes;
    var h := FoldedHeader(hash([]));
    var data := R.BareFile(h);
    R.BareOpens(h);
    assert data[HEADER_SIZE..HEADER_SIZE] == [];
    EmptyRecords(6);
    assert data[104..128] == LoadHeader(data).reserved by { ReservedThere(data); }
    InsideStays(data, hash);
    AcceptedIsValid(data, hash);
  }

  lemma ReservedThere(data: seq<byte>)
    requires |data| >= HEADER_SIZE
    ensures data[104..128] == LoadHeader(data).reserved
  {
  }

  lemma {:induction false} EmptyRecords(n: nat)
    ensures PoolOk(Zeros(4 * n), n)
  {
    hide Record;
    if n == 0 {
      assert IsPool(Zeros(0), []);
    } else {
      EmptyRecords(n - 1);
      var init :| |init| == n - 1 && IsPool(Zeros(4 * (n - 1)), init);
      PoolBytesSnoc(init, []);
      EmptyRecordIsZeros();
      assert Zeros(4 * (n - 1)) + Zeros(4) == Zeros(4 * n);
      assert IsPool(Zeros(4 * n), init + [[]]);
    }
  }

  lemma EmptyRecordIsZeros()
    ensures Record([]) == Zeros(4) && StringOk([])
  {
    hide LE;
    var cs: seq<Utf8.Scalar> := [];
    assert Utf8.Encode(cs) == [];
    ZeroBytes(4);
  }
}
