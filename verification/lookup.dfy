/** Lookup in a hash-sorted entry table: binary search, then a probe left and right through the run of equal hashes. */
module Lookup {
  import opened Bytes
  import opened Options
  import L = Layout

  type Entry = L.Entry

  /** What is looked for and where: entry `i` of the table if it can be read, whether an entry spells the key, and its hash. */
  datatype Query = Query(read: nat -> Option<Entry>, same: Entry -> bool, hash: u64)

  predicate Matches(q: Query, e: Entry) {
    e.hash == q.hash && q.same(e)
  }

  /** The first `count` entries can be read and ascend by hash. */
  ghost predicate Sound(q: Query, count: nat) {
    && (forall i: nat :: i < count ==> q.read(i).Some?)
    && (forall i: nat, j: nat :: i < j < count ==> q.read(i).value.hash <= q.read(j).value.hash)
  }

  ghost predicate MatchAt(q: Query, i: nat) {
    q.read(i).Some? && Matches(q, q.read(i).value)
  }

  ghost predicate HasMatch(q: Query, count: nat) {
    exists i: nat :: i < count && MatchAt(q, i)
  }

  ghost predicate IsMatch(q: Query, count: nat, e: Entry) {
    exists i: nat :: i < count && MatchAt(q, i) && q.read(i).value == e
  }

  /** What probing one way finds: an entry, the end of the run of equal hashes, or an unreadable entry. */
  datatype ProbeResult = Hit(entry: Entry) | Miss | Unreadable

  function ProbeLeft(q: Query, left: int): (p: ProbeResult)
    decreases left + 1
  {
    if left < 0 then Miss
    else if q.read(left).None? then Unreadable
    else if q.read(left).value.hash != q.hash then Miss
    else if q.same(q.read(left).value) then Hit(q.read(left).value)
    else ProbeLeft(q, left - 1)
  }

  function ProbeRight(q: Query, count: nat, right: nat): (p: ProbeResult)
    decreases count - right
  {
    if right >= count then Miss
    else if q.read(right).None? then Unreadable
    else if q.read(right).value.hash != q.hash then Miss
    else if q.same(q.read(right).value) then Hit(q.read(right).value)
    else ProbeRight(q, count, right + 1)
  }

  function ProbeBoth(q: Query, count: nat, index: nat): (e: Option<Entry>) {
    match ProbeLeft(q, index)
    case Hit(entry) => Some(entry)
    case Unreadable => None
    case Miss =>
      match ProbeRight(q, count, index + 1)
      case Hit(entry) => Some(entry)
      case _ => None
  }

  /** The search among positions `low` to `high`. */
  function Search(q: Query, count: nat, low: nat, high: nat): (e: Option<Entry>)
    requires low <= high <= count
    decreases high - low
  {
    if low >= high then None
    else
      var mid := low + (high - low) / 2;
      if q.read(mid).None? then None
      else if q.read(mid).value.hash < q.hash then Search(q, count, mid + 1, high)
      else if q.read(mid).value.hash > q.hash then Search(q, count, low, mid)
      else if q.same(q.read(mid).value) then q.read(mid)
      else ProbeBoth(q, count, mid)
  }

  // ----- the loops -----

  method LinearProbeRange(q: Query, count: nat, index: nat) returns (e: Option<Entry>)
    requires index < count
    ensures e == ProbeBoth(q, count, index)
  {
    var left: int := index;
    while left >= 0
      invariant -1 <= left <= index
      invariant ProbeLeft(q, index) == ProbeLeft(q, left)
    {
      var candidate := q.read(left);
      if candidate.None? {
        return None;
      }
      if candidate.value.hash != q.hash {
        break;
      }
      if q.same(candidate.value) {
        return candidate;
      }
      left := left - 1;
    }
    var right := index + 1;
    while right < count
      invariant index < right <= count
      invariant ProbeRight(q, count, index + 1) == ProbeRight(q, count, right)
    {
      var candidate := q.read(right);
      if candidate.None? {
        return None;
      }
      if candidate.value.hash != q.hash {
        break;
      }
      if q.same(candidate.value) {
        return candidate;
      }
      right := right + 1;
    }
    return None;
  }

  method BinarySearchEntries(q: Query, count: nat) returns (e: Option<Entry>)
    ensures e == Search(q, count, 0, count)
    ensures Sound(q, count) ==> (e.Some? <==> HasMatch(q, count))
    ensures Sound(q, count) && e.Some? ==> IsMatch(q, count, e.value)
  {
    e := BinarySearchLoop(q, count);
    if Sound(q, count) {
      SearchFinds(q, count, 0, count);
    }
  }

  method BinarySearchLoop(q: Query, count: nat) returns (e: Option<Entry>)
    ensures e == Search(q, count, 0, count)
  {
    if count == 0 {
      return None;
    }
    var low, high := 0, count;
    while low < high
      invariant 0 <= low <= high <= count
      invariant Search(q, count, 0, count) == Search(q, count, low, high)
      decreases high - low
    {
      var mid := low + (high - low) / 2;
      var candidate := q.read(mid);
      if candidate.None? {
        return None;
      }
      if candidate.value.hash < q.hash {
        low := mid + 1;
      } else if candidate.value.hash > q.hash {
        high := mid;
      } else {
        if q.same(candidate.value) {
          return candidate;
        }
        e := LinearProbeRange(q, count, mid);
        return e;
      }
    }
    return None;
  }

  // ----- the search agrees with a linear scan -----

  lemma {:induction false} ProbeLeftFinds(q: Query, count: nat, left: int)
    requires Sound(q, count) && -1 <= left < count
    requires left >= 0 ==> q.read(left).value.hash <= q.hash
    ensures ProbeLeft(q, left) != Unreadable
    ensures ProbeLeft(q, left).Hit? ==> IsMatch(q, count, ProbeLeft(q, left).entry)
    ensures ProbeLeft(q, left).Miss? ==> forall i: nat :: i <= left ==> !MatchAt(q, i)
    decreases left + 1
  {
    if left >= 0 {
      var e := q.read(left).value;
      if e.hash == q.hash {
        if q.same(e) {
          assert MatchAt(q, left);
        } else {
          ProbeLeftFinds(q, count, left - 1);
        }
      }
    }
  }

  lemma {:induction false} ProbeRightFinds(q: Query, count: nat, right: nat)
    requires Sound(q, count) && right <= count
    requires right < count ==> q.read(right).value.hash >= q.hash
    ensures ProbeRight(q, count, right) != Unreadable
    ensures ProbeRight(q, count, right).Hit? ==> IsMatch(q, count, ProbeRight(q, count, right).entry)
    ensures ProbeRight(q, count, right).Miss? ==> forall i: nat :: right <= i < count ==> !MatchAt(q, i)
    decreases count - right
  {
    if right < count {
      var e := q.read(right).value;
      if e.hash == q.hash {
        if q.same(e) {
          assert MatchAt(q, right);
        } else {
          ProbeRightFinds(q, count, right + 1);
        }
      }
    }
  }

  lemma ProbeBothFinds(q: Query, count: nat, index: nat)
    requires Sound(q, count) && index < count && q.read(index).value.hash == q.hash
    ensures ProbeBoth(q, count, index).Some? <==> HasMatch(q, count)
    ensures ProbeBoth(q, count, index).Some? ==> IsMatch(q, count, ProbeBoth(q, count, index).value)
  {
    ProbeLeftFinds(q, count, index);
    ProbeRightFinds(q, count, index + 1);
  }

  /** What the hash in the middle says of the entries on either side. */
  lemma BoundsMove(q: Query, count: nat, mid: nat)
    requires Sound(q, count) && mid < count
    ensures q.read(mid).Some? && forall i: nat :: i < count ==> q.read(i).Some?
    ensures q.read(mid).value.hash < q.hash ==> forall i: nat :: i < mid + 1 ==> q.read(i).value.hash < q.hash
    ensures q.read(mid).value.hash > q.hash ==> forall i: nat :: mid <= i < count ==> q.read(i).value.hash > q.hash
  {
  }

  /** On a readable, hash-sorted table the search succeeds exactly when some entry has the hash and the key,
      however many hashes collide, and returns such an entry. */
  lemma {:induction false} SearchFinds(q: Query, count: nat, low: nat, high: nat)
    requires Sound(q, count) && low <= high <= count
    requires forall i: nat :: i < low ==> q.read(i).value.hash < q.hash
    requires forall i: nat :: high <= i < count ==> q.read(i).value.hash > q.hash
    ensures Search(q, count, low, high).Some? <==> HasMatch(q, count)
    ensures Search(q, count, low, high).Some? ==> IsMatch(q, count, Search(q, count, low, high).value)
    decreases high - low
  {
    hide ProbeBoth, Sound;
    if low < high {
      var mid := low + (high - low) / 2;
      BoundsMove(q, count, mid);
      var e := q.read(mid).value;
      if e.hash < q.hash {
        SearchFinds(q, count, mid + 1, high);
      } else if e.hash > q.hash {
        SearchFinds(q, count, low, mid);
      } else if !q.same(e) {
        ProbeBothFinds(q, count, mid);
      } else {
        assert MatchAt(q, mid);
      }
    }
  }

  // ----- which of several entries of one key -----

  ghost predicate HashAt(q: Query, i: nat) {
    q.read(i).Some? && q.read(i).value.hash == q.hash
  }

  /** The entries from `lo` up to `hi` are those of the hash. */
  ghost predicate IsRun(q: Query, count: nat, lo: nat, hi: nat) {
    lo < hi <= count && forall i: nat :: i < count ==> (lo <= i < hi <==> HashAt(q, i))
  }

  /** The first position that halving hits of those from `lo` up to `hi`. */
  function FirstHit(low: nat, high: nat, lo: nat, hi: nat): (m: nat)
    requires low <= lo < hi <= high
    ensures lo <= m < hi
    decreases high - low
  {
    var mid := (low + high) / 2;
    if mid < lo then FirstHit(mid + 1, high, lo, hi)
    else if mid >= hi then FirstHit(low, mid, lo, hi)
    else mid
  }

  /** Entry `i` matches, and is the last at or before `m` that does, or, if there is none, the first behind it. */
  ghost predicate Nearest(q: Query, m: nat, i: nat) {
    && MatchAt(q, i)
    && (i <= m ==> forall j: nat :: i < j <= m ==> !MatchAt(q, j))
    && (i > m ==> forall j: nat :: j < i ==> !MatchAt(q, j))
  }

  lemma {:induction false} ProbeLeftNearest(q: Query, count: nat, left: int, m: nat) returns (i: nat)
    requires Sound(q, count) && left <= m < count && ProbeLeft(q, left).Hit?
    requires forall j: nat :: left < j <= m ==> !MatchAt(q, j)
    ensures i <= left && Nearest(q, m, i) && q.read(i).value == ProbeLeft(q, left).entry
    decreases left + 1
  {
    if q.same(q.read(left).value) {
      i := left;
    } else {
      i := ProbeLeftNearest(q, count, left - 1, m);
    }
  }

  lemma {:induction false} ProbeRightNearest(q: Query, count: nat, right: nat, m: nat) returns (i: nat)
    requires Sound(q, count) && m < right && ProbeRight(q, count, right).Hit?
    requires forall j: nat :: j < right ==> !MatchAt(q, j)
    ensures right <= i < count && Nearest(q, m, i) && q.read(i).value == ProbeRight(q, count, right).entry
    decreases count - right
  {
    if q.same(q.read(right).value) {
      i := right;
    } else {
      i := ProbeRightNearest(q, count, right + 1, m);
    }
  }

  lemma ProbeBothNearest(q: Query, count: nat, m: nat) returns (i: nat)
    requires Sound(q, count) && m < count && q.read(m).value.hash == q.hash && ProbeBoth(q, count, m).Some?
    ensures i < count && Nearest(q, m, i) && q.read(i) == ProbeBoth(q, count, m)
  {
    ProbeLeftFinds(q, count, m);
    if ProbeLeft(q, m).Hit? {
      i := ProbeLeftNearest(q, count, m, m);
    } else {
      i := ProbeRightNearest(q, count, m + 1, m);
    }
  }

  /**
   * Of several entries of one key the one that is found is nearest to the first position of its hash that halving hits, to
   * the left if there is one.
   */
  lemma {:induction false} NearestFound(q: Query, count: nat, low: nat, high: nat, lo: nat, hi: nat) returns (i: nat)
    requires Sound(q, count) && IsRun(q, count, lo, hi) && low <= lo && hi <= high <= count
    requires Search(q, count, low, high).Some?
    ensures i < count && Nearest(q, FirstHit(low, high, lo, hi), i) && q.read(i) == Search(q, count, low, high)
    decreases high - low
  {
    hide ProbeBoth, Nearest, IsRun, Sound;
    var mid := low + (high - low) / 2;
    assert mid == (low + high) / 2;
    BoundsMove(q, count, mid);
    RunStarts(q, count, mid, lo, hi);
    if mid < lo {
      i := NearestFound(q, count, mid + 1, high, lo, hi);
    } else if mid >= hi {
      i := NearestFound(q, count, low, mid, lo, hi);
    } else if q.same(q.read(mid).value) {
      i := mid;
      MatchIsNearest(q, mid);
    } else {
      i := ProbeBothNearest(q, count, mid);
    }
  }

  lemma MatchIsNearest(q: Query, m: nat)
    requires MatchAt(q, m)
    ensures Nearest(q, m, m)
  {
  }

  lemma RunStarts(q: Query, count: nat, mid: nat, lo: nat, hi: nat)
    requires Sound(q, count) && IsRun(q, count, lo, hi) && mid < count
    ensures lo < hi <= count && q.read(mid).Some?
    ensures mid < lo ==> q.read(mid).value.hash < q.hash
    ensures mid >= hi ==> q.read(mid).value.hash > q.hash
    ensures lo <= mid < hi ==> q.read(mid).value.hash == q.hash
  {
    assert HashAt(q, lo) && HashAt(q, hi - 1);
    assert HashAt(q, mid) <==> lo <= mid < hi;
  }
}
