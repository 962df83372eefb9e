/** The writer's linked nodes, and the tree a chain of siblings stands for. */
module WriterNode {
  import opened Bytes
  import opened Document
  import opened Options
  import opened PoolLayout

  const OFFSET_NONE: u32 := 0xFFFF_FFFF

  class Node {
    /** The kind together with a scalar's value; a container's kind is an empty Array or Block. */
    var content: Value
    /** No key, or a non-empty one: the writer keeps an empty key as a null pointer. */
    var key: Option<Str>
    var keyHash: u64
    var cachedKeyOffset: u32
    var cachedStringOffset: u32
    var childCount: nat
    var parent: Node?
    var firstChild: Node?
    var lastChild: Node?
    var nextSibling: Node?
    /** The children, first to last. */
    ghost var children: seq<Node>
    /** What the finished children stand for. */
    ghost var done: seq<Member>

    constructor (content: Value)
      ensures this.content == content && key == None && childCount == 0 && keyHash == 0
      ensures cachedKeyOffset == OFFSET_NONE && cachedStringOffset == OFFSET_NONE
      ensures parent == null && firstChild == null && lastChild == null && nextSibling == null
      ensures children == [] && done == []
    {
      this.content := content;
      this.key := None;
      this.keyHash := 0;
      this.cachedKeyOffset := OFFSET_NONE;
      this.cachedStringOffset := OFFSET_NONE;
      this.childCount := 0;
      this.parent := null;
      this.firstChild := null;
      this.lastChild := null;
      this.nextSibling := null;
      this.children := [];
      this.done := [];
    }

    function KeyBytes(): (k: Str)
      reads this`key
    {
      if key.Some? then key.value else []
    }
  }

  /** A node in `nodes` that stands for member `m`, children and all. */
  ghost predicate NodeHolds(nodes: set<Node>, hash: Hash64, n: Node, m: Member)
    reads nodes`content, nodes`key, nodes`keyHash, nodes`childCount, nodes`firstChild, nodes`nextSibling
    decreases m, 1
  {
    && n in nodes
    && n.KeyBytes() == m.key
    && (n.key.Some? ==> n.key.value != [] && n.keyHash == hash(n.key.value))
    && n.content == Shell(m.value)
    && (!m.value.IsContainer() ==> n.firstChild == null)
    && (m.value.IsContainer() ==>
          n.childCount == |m.value.kids| && ChainHolds(nodes, hash, n.firstChild, m.value.kids, null))
  }

  /** The siblings from `first` up to, not including, `end` stand for the members `kids`. */
  ghost predicate ChainHolds(nodes: set<Node>, hash: Hash64, first: Node?, kids: seq<Member>, end: Node?)
    reads nodes`content, nodes`key, nodes`keyHash, nodes`childCount, nodes`firstChild, nodes`nextSibling
    decreases kids, 0
  {
    if kids == [] then first == end
    else first != null && NodeHolds(nodes, hash, first, kids[0]) && ChainHolds(nodes, hash, first.nextSibling, kids[1..], end)
  }

  /** What a node that stands for `m` looks like. */
  lemma NodeParts(nodes: set<Node>, hash: Hash64, n: Node, m: Member)
    requires NodeHolds(nodes, hash, n, m)
    ensures n in nodes && n.KeyBytes() == m.key && n.content == Shell(m.value)
    ensures n.key.Some? ==> n.key.value != [] && n.keyHash == hash(n.key.value)
    ensures ChainHolds(nodes, hash, n.firstChild, m.value.Members(), null)
    ensures m.value.IsContainer() ==> n.childCount == |m.value.kids|
  {
  }

  /** A node whose children are in a smaller set of nodes is itself in that set when added to it. */
  lemma NodeFromParts(nodes: set<Node>, all: set<Node>, hash: Hash64, n: Node, m: Member)
    requires NodeHolds(all, hash, n, m) && n in nodes && ChainHolds(nodes, hash, n.firstChild, m.value.Members(), null)
    ensures NodeHolds(nodes, hash, n, m)
  {
  }

  lemma {:induction false} NodeHoldsIn(nodes: set<Node>, more: set<Node>, hash: Hash64, n: Node, m: Member)
    requires nodes <= more && NodeHolds(nodes, hash, n, m)
    ensures NodeHolds(more, hash, n, m)
    decreases m, 1
  {
    if m.value.IsContainer() {
      ChainHoldsIn(nodes, more, hash, n.firstChild, m.value.kids, null);
    }
  }

  lemma {:induction false} ChainHoldsIn(nodes: set<Node>, more: set<Node>, hash: Hash64, first: Node?, kids: seq<Member>, end: Node?)
    requires nodes <= more && ChainHolds(nodes, hash, first, kids, end)
    ensures ChainHolds(more, hash, first, kids, end)
    decreases kids, 0
  {
    if kids != [] {
      NodeHoldsIn(nodes, more, hash, first, kids[0]);
      ChainHoldsIn(nodes, more, hash, first.nextSibling, kids[1..], end);
    }
  }

  // ----- walking a chain -----

  lemma ChainStart(nodes: set<Node>, hash: Hash64, first: Node?, kids: seq<Member>)
    ensures ChainHolds(nodes, hash, first, kids[..0], first)
    ensures ChainHolds(nodes, hash, first, kids, null) ==> ChainHolds(nodes, hash, first, kids[0..], null)
  {
    assert kids[0..] == kids;
  }

  lemma ChainStep(nodes: set<Node>, hash: Hash64, child: Node, kids: seq<Member>, i: nat)
    requires i <= |kids| && ChainHolds(nodes, hash, child, kids[i..], null)
    ensures i < |kids| && child in nodes && NodeHolds(nodes, hash, child, kids[i])
    ensures ChainHolds(nodes, hash, child.nextSibling, kids[i + 1..], null)
  {
    assert kids[i..][1..] == kids[i + 1..];
  }

  lemma ChainEnd(nodes: set<Node>, hash: Hash64, kids: seq<Member>, i: nat)
    requires i <= |kids| && ChainHolds(nodes, hash, null, kids[i..], null)
    ensures i == |kids| && kids[..i] == kids
  {
  }

  /** One more sibling at the end of a chain. */
  lemma {:induction false} ChainSnoc(nodes: set<Node>, hash: Hash64, first: Node?, kids: seq<Member>, last: Node, m: Member)
    requires ChainHolds(nodes, hash, first, kids, last) && NodeHolds(nodes, hash, last, m)
    ensures ChainHolds(nodes, hash, first, kids + [m], last.nextSibling)
    decreases kids
  {
    if kids == [] {
      assert ([] + [m])[1..] == [];
    } else {
      ChainSnoc(nodes, hash, first.nextSibling, kids[1..], last, m);
      assert (kids + [m])[1..] == kids[1..] + [m];
    }
  }

  // ----- cached pool offsets -----

  ghost predicate CachedAs(strings: seq<Str>, s: Str, offset: u32) {
    s in strings && offset == OffsetOf(strings, s) && offset != OFFSET_NONE
  }

  /** The node's cached offsets are those its strings have in the pool. */
  ghost predicate Cached(n: Node, strings: seq<Str>)
    reads n`content, n`key, n`cachedKeyOffset, n`cachedStringOffset
  {
    && (n.key.None? ==> n.cachedKeyOffset == OFFSET_NONE)
    && (n.key.Some? ==> CachedAs(strings, n.key.value, n.cachedKeyOffset))
    && (n.content.String? ==> CachedAs(strings, n.content.s, n.cachedStringOffset))
  }

  ghost predicate AllCached(nodes: set<Node>, strings: seq<Str>)
    reads nodes`content, nodes`key, nodes`cachedKeyOffset, nodes`cachedStringOffset
  {
    forall n :: n in nodes ==> Cached(n, strings)
  }

  /** Only nodes with a key ever get a cached key offset. */
  ghost predicate KeylessUncached(nodes: set<Node>)
    reads nodes`key, nodes`cachedKeyOffset
  {
    forall n :: n in nodes && n.key.None? ==> n.cachedKeyOffset == OFFSET_NONE
  }

  /** Cached offsets survive the growth of the pool. */
  lemma CachedLonger(nodes: set<Node>, strings: seq<Str>, longer: seq<Str>)
    requires AllCached(nodes, strings) && strings <= longer
    ensures AllCached(nodes, longer)
  {
    forall n | n in nodes
      ensures Cached(n, longer)
    {
      assert Cached(n, strings);
      if n.key.Some? {
        OffsetStable(strings, longer, n.key.value);
      }
      if n.content.String? {
        OffsetStable(strings, longer, n.content.s);
      }
    }
  }
}
