/** The collecting pass: every key and string value is interned, depth first, and its pool offset cached in the node. */
module Collector {
  import opened Bytes
  import opened Document
  import opened EncoderBuffer
  import opened EncoderSession
  import opened PoolLayout
  import opened StringPool
  import opened WriterNode
  import E = Encode

  // ----- collecting strings -----

  ghost predicate Unshared(nodes: set<Node>, objects: set<object>) {
    forall n :: n in nodes ==> n !in objects
  }

  /** Interns the key, if there is one, and caches its offset. */
  method CacheKey(s: Session, node: Node) returns (r: Result<()>)
    requires s.Valid() && (node.key.Some? ==> node.keyHash == s.pool.hash(node.key.value))
    requires node !in s.Repr
    modifies s.Repr, node`cachedKeyOffset
    ensures s.Valid() && fresh(s.Repr - old(s.Repr))
    ensures node.key.None? ==> node.cachedKeyOffset == old(node.cachedKeyOffset)
    ensures r.Ok? && node.key.Some? ==> CachedAs(s.Made().strings, node.key.value, node.cachedKeyOffset)
    ensures IsRun(r, old(s.Made()), s.Made(), if node.key.Some? then [node.key.value] else [])
  {
    hide Session.Valid, Session.Made, Pool.Valid, Outcome, Interned, OffsetOf, PoolBytes;
    if node.key.Some? {
      RunOne(s.Made().strings, node.key.value);
      var offset := s.Intern(node.key.value, node.keyHash);
      if offset.Err? {
        return Err(offset.error);
      }
      OffsetAligned(s.Made().strings, node.key.value);
      node.cachedKeyOffset := offset.value;
    }
    r := Ok(());
  }

  /** Interns the string value, if the node is a string, and caches its offset. */
  method CacheString(s: Session, node: Node) returns (r: Result<()>)
    requires s.Valid()
    requires node !in s.Repr
    modifies s.Repr, node`cachedStringOffset
    ensures s.Valid() && fresh(s.Repr - old(s.Repr))
    ensures r.Ok? && node.content.String? ==> CachedAs(s.Made().strings, node.content.s, node.cachedStringOffset)
    ensures IsRun(r, old(s.Made()), s.Made(), if node.content.String? then [node.content.s] else [])
  {
    hide Session.Valid, Session.Made, Pool.Valid, Outcome, Interned, OffsetOf, PoolBytes;
    if node.content.String? {
      RunOne(s.Made().strings, node.content.s);
      var offset := s.Intern(node.content.s, s.pool.hash(node.content.s));
      if offset.Err? {
        return Err(offset.error);
      }
      OffsetAligned(s.Made().strings, node.content.s);
      node.cachedStringOffset := offset.value;
    }
    r := Ok(());
  }

  /** The step from `before` to `after` interned exactly `more`, or failed as that run does. */
  ghost predicate IsRun(r: Result<()>, before: Product, after: Product, more: seq<Str>) {
    match InternRun(before.strings, more)
    case Err(e) => r == Err(e)
    case Ok(strings) => r.Ok? && after == before.(strings := strings)
  }

  lemma RunsInOrder(r1: Result<()>, r2: Result<()>, a: Product, b: Product, c: Product, first: seq<Str>, second: seq<Str>)
    requires IsRun(r1, a, b, first)
    requires r1.Ok? ==> IsRun(r2, b, c, second)
    ensures IsRun(if r1.Ok? then r2 else r1, a, c, first + second)
  {
    RunConcat(a.strings, first, second);
  }

  lemma RunGrows(r: Result<()>, a: Product, b: Product, more: seq<Str>)
    requires IsRun(r, a, b, more)
    ensures r.Ok? ==> a.strings <= b.strings && b.bytes == a.bytes && b.fixups == a.fixups
  {
    RunExtends(a.strings, more);
  }

  /** Interns one node's key and string value and caches their offsets. */
  method CollectOwn(s: Session, node: Node, ghost all: set<Node>, ghost m: Member, ghost done: set<Node>) returns (r: Result<()>)
    requires s.Valid() && node.KeyBytes() == m.key && node.content == Shell(m.value)
    requires node.key.Some? ==> node.key.value != [] && node.keyHash == s.pool.hash(node.key.value)
    requires AllCached(done, s.Made().strings) && KeylessUncached(all) && node in all && done <= all
    requires Unshared(all, s.Repr)
    modifies s.Repr, node`cachedKeyOffset, node`cachedStringOffset
    ensures s.Valid() && fresh(s.Repr - old(s.Repr)) && Unshared(all, s.Repr)
    ensures IsRun(r, old(s.Made()), s.Made(), OwnStrings(m))
    ensures r.Ok? ==> AllCached(done + {node}, s.Made().strings)
    ensures KeylessUncached(all)
  {
    hide Session.Valid, Session.Made, Pool.Valid, IsRun, CachedAs, Cached;
    ghost var p0, others := s.Made(), done - {node};
    assert AllCached(others, p0.strings);
    assert Unshared(others, s.Repr);
    r := CacheKey(s, node);
    ghost var p1, r1 := s.Made(), r;
    RunGrows(r1, p0, p1, KeyStrings(m));
    if r.Ok? {
      r := CacheString(s, node);
      RunGrows(r, p1, s.Made(), ValueStrings(m));
    }
    RunsInOrder(r1, r, p0, p1, s.Made(), KeyStrings(m), ValueStrings(m));
    if r.Ok? {
      OwnCached(node, others, p0.strings, p1.strings, s.Made().strings);
      assert others + {node} == done + {node};
    }
  }

  lemma OwnCached(node: Node, others: set<Node>, before: seq<Str>, afterKey: seq<Str>, after: seq<Str>)
    requires AllCached(others, before) && before <= afterKey <= after
    requires node.key.None? ==> node.cachedKeyOffset == OFFSET_NONE
    requires node.key.Some? ==> CachedAs(afterKey, node.key.value, node.cachedKeyOffset)
    requires node.content.String? ==> CachedAs(after, node.content.s, node.cachedStringOffset)
    ensures AllCached(others + {node}, after)
  {
    CachedLonger(others, before, after);
    if node.key.Some? {
      OffsetStable(afterKey, after, node.key.value);
    }
    assert Cached(node, after);
  }

  ghost function KeyStrings(m: Member): (r: seq<Str>) {
    if m.key == [] then [] else [m.key]
  }

  ghost function ValueStrings(m: Member): (r: seq<Str>) {
    if m.value.String? then [m.value.s] else []
  }

  /** The strings of one node, its children's aside. */
  ghost function OwnStrings(m: Member): (r: seq<Str>) {
    KeyStrings(m) + ValueStrings(m)
  }

  lemma {:induction false} RunFailsEarly(strings: seq<Str>, kids: seq<Member>, k: nat)
    requires k <= |kids| && InternRun(strings, E.CollectedKids(kids[..k])).Err?
    ensures InternRun(strings, E.CollectedKids(kids)) == InternRun(strings, E.CollectedKids(kids[..k]))
    decreases |kids|
  {
    if k == |kids| {
      assert kids[..k] == kids;
    } else {
      var n := |kids| - 1;
      assert kids[..n][..k] == kids[..k];
      RunFailsEarly(strings, kids[..n], k);
      RunConcat(strings, E.CollectedKids(kids[..n]), E.CollectedMember(kids[n]));
    }
  }

  lemma CollectedMemberParts(m: Member)
    ensures E.CollectedMember(m) == OwnStrings(m) + E.CollectedKids(m.value.Members())
  {
  }

  lemma CollectedSnoc(kids: seq<Member>, i: nat)
    requires i < |kids|
    ensures E.CollectedKids(kids[..i + 1]) == E.CollectedKids(kids[..i]) + E.CollectedMember(kids[i])
  {
    assert kids[..i + 1][..i] == kids[..i];
  }

  /** Collects one node and everything below it. `done'` adds the nodes visited to those whose caches are right. */
  method CollectStrings(s: Session, node: Node, ghost all: set<Node>, ghost m: Member, ghost done: set<Node>)
    returns (r: Result<()>, ghost done': set<Node>)
    requires s.Valid() && done <= all && NodeHolds(all, s.pool.hash, node, m)
    requires AllCached(done, s.Made().strings) && KeylessUncached(all)
    requires Unshared(all, s.Repr)
    modifies s.Repr, all`cachedKeyOffset, all`cachedStringOffset
    ensures s.Valid() && fresh(s.Repr - old(s.Repr)) && KeylessUncached(all) && Unshared(all, s.Repr)
    ensures IsRun(r, old(s.Made()), s.Made(), E.CollectedMember(m))
    ensures r.Ok? ==> done <= done' <= all && AllCached(done', s.Made().strings) && NodeHolds(done', s.pool.hash, node, m)
    decreases 1, m, 1
  {
    hide Session.Valid, Session.Made, Pool.Valid, IsRun, E.CollectedMember, AllCached, NodeHolds, ChainHolds,
         KeylessUncached, E.CollectedKids, OwnStrings, InternRun, Shell, Node.KeyBytes, Buffer.Valid;
    ghost var p0 := s.Made();
    NodeParts(all, s.pool.hash, node, m);
    r := CollectOwn(s, node, all, m, done);
    done' := done + {node};
    ghost var p1, r1 := s.Made(), r;
    CollectedMemberParts(m);
    if r.Ok? {
      r, done' := CollectChildren(s, node.firstChild, all, m.value.Members(), done');
      if r.Ok? {
        NodeFromParts(done', all, s.pool.hash, node, m);
      }
    }
    RunsInOrder(r1, r, p0, p1, s.Made(), OwnStrings(m), E.CollectedKids(m.value.Members()));
  }

  /** Collects a chain of siblings from left to right. */
  method CollectChildren(s: Session, first: Node?, ghost all: set<Node>, ghost kids: seq<Member>, ghost done: set<Node>)
    returns (r: Result<()>, ghost done': set<Node>)
    requires s.Valid() && done <= all && ChainHolds(all, s.pool.hash, first, kids, null)
    requires AllCached(done, s.Made().strings) && KeylessUncached(all)
    requires Unshared(all, s.Repr)
    modifies s.Repr, all`cachedKeyOffset, all`cachedStringOffset
    ensures s.Valid() && fresh(s.Repr - old(s.Repr)) && KeylessUncached(all) && Unshared(all, s.Repr)
    ensures IsRun(r, old(s.Made()), s.Made(), E.CollectedKids(kids))
    ensures r.Ok? ==> done <= done' <= all && AllCached(done', s.Made().strings) && ChainHolds(done', s.pool.hash, first, kids, null)
    decreases if kids == [] then 0 else 1, kids, 1
  {
    hide Session.Valid, Session.Made, Pool.Valid, IsRun, E.CollectedMember, E.CollectedKids, AllCached, NodeHolds, ChainHolds, KeylessUncached;
    ChainStart(all, s.pool.hash, first, kids);
    ChainStart(done, s.pool.hash, first, kids);
    ghost var p0 := s.Made();
    done' := done;
    r := Ok(());
    NoRun(p0);
    var child := first;
    ghost var i := 0;
    while child != null
      invariant 0 <= i <= |kids| && s.Valid() && fresh(s.Repr - old(s.Repr)) && Unshared(all, s.Repr)
      invariant ChainHolds(all, s.pool.hash, child, kids[i..], null) && KeylessUncached(all)
      invariant done <= done' <= all && AllCached(done', s.Made().strings)
      invariant ChainHolds(done', s.pool.hash, first, kids[..i], child)
      invariant r.Ok? && IsRun(r, p0, s.Made(), E.CollectedKids(kids[..i]))
      decreases |kids| - i
    {
      r, done', child := CollectNext(s, first, child, all, kids, i, done', p0, r);
      if r.Err? {
        FailedRun(r, p0, s.Made(), kids, i + 1);
        return;
      }
      i := i + 1;
    }
    ChainEnd(all, s.pool.hash, kids, i);
  }

  /** Collects sibling `i`, those before it having been collected. */
  method CollectNext(s: Session, ghost first: Node?, child: Node, ghost all: set<Node>, ghost kids: seq<Member>, ghost i: nat,
                     ghost done: set<Node>, ghost p0: Product, ghost soFar: Result<()>)
    returns (r: Result<()>, ghost done': set<Node>, next: Node?)
    requires s.Valid() && done <= all && i <= |kids| && ChainHolds(all, s.pool.hash, child, kids[i..], null)
    requires AllCached(done, s.Made().strings) && KeylessUncached(all)
    requires ChainHolds(done, s.pool.hash, first, kids[..i], child)
    requires soFar.Ok? && IsRun(soFar, p0, s.Made(), E.CollectedKids(kids[..i]))
    requires Unshared(all, s.Repr)
    modifies s.Repr, all`cachedKeyOffset, all`cachedStringOffset
    ensures s.Valid() && fresh(s.Repr - old(s.Repr)) && KeylessUncached(all) && Unshared(all, s.Repr)
    ensures i < |kids| && IsRun(r, p0, s.Made(), E.CollectedKids(kids[..i + 1]))
    ensures r.Ok? ==> done <= done' <= all && AllCached(done', s.Made().strings)
    ensures r.Ok? ==> ChainHolds(done', s.pool.hash, first, kids[..i + 1], next) && ChainHolds(all, s.pool.hash, next, kids[i + 1..], null)
    decreases if kids == [] then 0 else 1, kids, 0
  {
    hide Session.Valid, Session.Made, Pool.Valid, IsRun, E.CollectedMember, E.CollectedKids, AllCached, NodeHolds, ChainHolds, KeylessUncached;
    ghost var p1 := s.Made();
    next := child.nextSibling;
    ChainStep(all, s.pool.hash, child, kids, i);
    CollectedSnoc(kids, i);
    r, done' := CollectStrings(s, child, all, kids[i], done);
    RunsInOrder(soFar, r, p0, p1, s.Made(), E.CollectedKids(kids[..i]), E.CollectedMember(kids[i]));
    if r.Ok? {
      ChainHoldsIn(done, done', s.pool.hash, first, kids[..i], child);
      ChainSnoc(done', s.pool.hash, first, kids[..i], child, kids[i]);
      assert kids[..i] + [kids[i]] == kids[..i + 1];
    }
  }

  lemma NoRun(p: Product)
    ensures IsRun(Ok(()), p, p, E.CollectedKids([]))
  {
  }

  lemma FailedRun(r: Result<()>, before: Product, after: Product, kids: seq<Member>, k: nat)
    requires k <= |kids| && r.Err? && IsRun(r, before, after, E.CollectedKids(kids[..k]))
    ensures IsRun(r, before, after, E.CollectedKids(kids))
  {
    RunFailsEarly(before.strings, kids, k);
  }
}
