/** What the writer keeps true of its linked nodes: well-linked sibling lists, and a path of open containers. */
module WriterTree {
  import opened Bytes
  import opened Document
  import opened Options
  import opened WriterNode
  import M = Machine

  // ----- nodes as values -----

  /** The fields of a node. */
  datatype Fields = Fields(
    content: Value, key: Option<Str>, keyHash: u64, childCount: nat,
    parent: Node?, firstChild: Node?, lastChild: Node?, nextSibling: Node?, children: seq<Node>, done: seq<Member>)
  {
    ghost function Frame(): (f: M.Frame) {
      M.Frame(if key.Some? then key.value else [], content, done)
    }

    /** What the node stands for once it is finished. */
    ghost function Whole(): (m: Member) {
      Frame().Finished()
    }
  }

  type Memory = map<Node, Fields>

  /** The writer's own fields: the list of roots, and the path of open nodes, outermost first. */
  datatype Top = Top(first: Node?, last: Node?, count: nat, children: seq<Node>, roots: seq<Member>, spine: seq<Node>)

  // ----- a list of siblings -----

  ghost predicate LinkOk(m: Memory, children: seq<Node>, i: nat, parent: Node?)
    requires i < |children|
  {
    && children[i] in m
    && m[children[i]].parent == parent
    && m[children[i]].nextSibling == if i + 1 < |children| then children[i + 1] else null
  }

  ghost predicate Linked(m: Memory, children: seq<Node>, parent: Node?, first: Node?, last: Node?, count: nat) {
    && count == |children|
    && first == (if children == [] then null else children[0])
    && last == (if children == [] then null else children[|children| - 1])
    && forall i :: 0 <= i < |children| ==> LinkOk(m, children, i, parent)
  }

  /** A finished sibling stands for its member, and is not open. */
  ghost predicate StandsFor(m: Memory, child: Node, member: Member, spine: seq<Node>) {
    child in m && member == m[child].Whole() && child !in spine
  }

  ghost predicate Stand(m: Memory, children: seq<Node>, done: seq<Member>, spine: seq<Node>) {
    |done| <= |children| && forall i :: 0 <= i < |done| ==> StandsFor(m, children[i], done[i], spine)
  }

  // ----- one node -----

  ghost predicate FieldsOk(f: Fields, hash: Hash64) {
    && f.content == Shell(f.content)
    && (!f.content.IsContainer() ==> f.children == [])
    && (f.key.Some? ==> f.key.value != [] && f.keyHash == hash(f.key.value))
  }

  ghost predicate NodeOk(m: Memory, n: Node, spine: seq<Node>, hash: Hash64)
    requires n in m
  {
    var f := m[n];
    && FieldsOk(f, hash)
    && Linked(m, f.children, n, f.firstChild, f.lastChild, f.childCount)
    && Stand(m, f.children, f.done, spine)
    && (n !in spine ==> |f.done| == |f.children|)
  }

  // ----- the whole tree -----

  /** On the path of open nodes, the next one is the last child, and the only child not finished. */
  ghost predicate SpineAt(m: Memory, spine: seq<Node>, i: nat)
    requires i < |spine|
  {
    && spine[i] in m
    && var f := m[spine[i]];
      if i + 1 < |spine| then f.content.IsContainer() && |f.children| == |f.done| + 1 && f.children[|f.done|] == spine[i + 1]
      else |f.children| == |f.done|
  }

  ghost predicate SpineOk(m: Memory, t: Top) {
    && (if t.spine == [] then |t.children| == |t.roots| else |t.children| == |t.roots| + 1 && t.children[|t.roots|] == t.spine[0])
    && (forall i :: 0 <= i < |t.spine| ==> SpineAt(m, t.spine, i))
    && (forall i, j :: 0 <= i < j < |t.spine| ==> t.spine[i] != t.spine[j])
  }

  ghost predicate AllOk(m: Memory, spine: seq<Node>, hash: Hash64) {
    forall n :: n in m ==> NodeOk(m, n, spine, hash)
  }

  ghost predicate TreeOk(m: Memory, t: Top, hash: Hash64) {
    && AllOk(m, t.spine, hash)
    && Linked(m, t.children, null, t.first, t.last, t.count) && Stand(m, t.children, t.roots, t.spine)
    && SpineOk(m, t)
  }

  /** The open frames, as the stack machine has them. */
  ghost function Frames(m: Memory, spine: seq<Node>): (fs: seq<M.Frame>)
    requires forall i :: 0 <= i < |spine| ==> spine[i] in m
    ensures |fs| == |spine|
  {
    seq(|spine|, i requires 0 <= i < |spine| => m[spine[i]].Frame())
  }

  ghost function StateOf(m: Memory, t: Top, failed: bool): (s: M.State)
    requires SpineOk(m, t)
  {
    assert forall i :: 0 <= i < |t.spine| ==> SpineAt(m, t.spine, i) ==> t.spine[i] in m;
    M.State(t.roots, Frames(m, t.spine), failed)
  }

  // ----- linking one more node -----

  /** A new node that is not linked yet. */
  ghost predicate Loose(f: Fields, hash: Hash64) {
    FieldsOk(f, hash) && f.childCount == 0 && f.firstChild == null && f.lastChild == null && f.nextSibling == null
    && f.children == [] && f.done == []
  }

  /** In both memories the node has the same place and stands for the same. */
  ghost predicate Alike(m: Memory, m': Memory, n: Node) {
    n in m && n in m' && m'[n].parent == m[n].parent && m'[n].nextSibling == m[n].nextSibling && m'[n].Frame() == m[n].Frame()
  }

  /** The same, but `n` has got a next sibling. */
  ghost predicate AlikeButNext(m: Memory, m': Memory, n: Node, next: Node) {
    n in m && n in m' && m'[n].parent == m[n].parent && m'[n].nextSibling == next && m'[n].Frame() == m[n].Frame()
  }

  /** The list with `node` behind its last member. */
  lemma LinkedMore(m: Memory, m': Memory, children: seq<Node>, node: Node, parent: Node?, first: Node?, last: Node?, count: nat)
    requires Linked(m, children, parent, first, last, count)
    requires forall i :: 0 <= i < |children| - 1 ==> Alike(m, m', children[i])
    requires children != [] ==> AlikeButNext(m, m', children[|children| - 1], node)
    requires node in m' && m'[node].parent == parent && m'[node].nextSibling == null
    ensures Linked(m', children + [node], parent, if children == [] then node else first, node, count + 1)
  {
    var more := children + [node];
    forall i | 0 <= i < |more|
      ensures LinkOk(m', more, i, parent)
    {
      assert i < |children| ==> LinkOk(m, children, i, parent);
    }
  }

  lemma ListEnds(m: Memory, children: seq<Node>, parent: Node?, first: Node?, last: Node?, count: nat)
    requires Linked(m, children, parent, first, last, count)
    ensures first == null <==> last == null
    ensures last != null ==> last in m && m[last].parent == parent
  {
    if children != [] {
      assert LinkOk(m, children, |children| - 1, parent);
    }
  }

  lemma LinkedStays(m: Memory, m': Memory, children: seq<Node>, parent: Node?, first: Node?, last: Node?, count: nat)
    requires Linked(m, children, parent, first, last, count)
    requires forall i :: 0 <= i < |children| ==> Alike(m, m', children[i])
    ensures Linked(m', children, parent, first, last, count)
  {
    forall i | 0 <= i < |children|
      ensures LinkOk(m', children, i, parent)
    {
      assert LinkOk(m, children, i, parent) && Alike(m, m', children[i]);
    }
  }

  /** The finished siblings still stand for their members when a node that is not among them joins the list, open. */
  lemma StandStays(m: Memory, m': Memory, children: seq<Node>, more: seq<Node>, done: seq<Member>, spine: seq<Node>, node: Node)
    requires Stand(m, children, done, spine) && children <= more && node !in m
    requires forall i :: 0 <= i < |children| ==> Alike(m, m', children[i]) || AlikeButNext(m, m', children[i], node)
    ensures Stand(m', more, done, spine + [node])
  {
    forall i | 0 <= i < |done|
      ensures StandsFor(m', more[i], done[i], spine + [node])
    {
      assert StandsFor(m, children[i], done[i], spine) && children[i] == more[i];
    }
  }

  /** A node whose list is not the one that grows. */
  lemma NodeStays(m: Memory, m': Memory, n: Node, spine: seq<Node>, node: Node, hash: Hash64)
    requires n in m && n in m' && NodeOk(m, n, spine, hash) && node !in m
    requires m'[n] == m[n].(nextSibling := m'[n].nextSibling)
    requires forall i :: 0 <= i < |m[n].children| ==> Alike(m, m', m[n].children[i])
    ensures NodeOk(m', n, spine + [node], hash)
  {
    hide Linked, Stand;
    var f := m[n];
    LinkedStays(m, m', f.children, n, f.firstChild, f.lastChild, f.childCount);
    StandStays(m, m', f.children, f.children, f.done, spine, node);
  }

  lemma LooseIsOk(m: Memory, node: Node, spine: seq<Node>, hash: Hash64)
    requires node in m && node in spine && Loose(m[node].(parent := null), hash)
    ensures NodeOk(m, node, spine, hash)
  {
  }

  /** No node but the list's own parent has the last member of the list among its children. */
  lemma OnlyInItsList(m: Memory, list: seq<Node>, parent: Node?, first: Node?, last: Node?,
                      count: nat, n: Node, i: nat, spine: seq<Node>, hash: Hash64)
    requires Linked(m, list, parent, first, last, count) && n in m && NodeOk(m, n, spine, hash)
    requires i < |m[n].children| && n != parent
    ensures m[n].children[i] in m && m[n].children[i] != last
  {
    assert LinkOk(m, m[n].children, i, n);
    if list != [] {
      assert LinkOk(m, list, |list| - 1, parent);
    }
  }

  lemma RootEnds(m: Memory, t: Top, hash: Hash64)
    requires TreeOk(m, t, hash)
    ensures t.first == null <==> t.last == null
    ensures t.last != null ==> t.last in m
  {
    ListEnds(m, t.children, null, t.first, t.last, t.count);
  }

  lemma NodeEnds(m: Memory, t: Top, n: Node, hash: Hash64)
    requires TreeOk(m, t, hash) && n in m
    ensures m[n].firstChild == null <==> m[n].lastChild == null
    ensures m[n].lastChild != null ==> m[n].lastChild in m && m[m[n].lastChild].parent == n
  {
    assert NodeOk(m, n, t.spine, hash);
    ListEnds(m, m[n].children, n, m[n].firstChild, m[n].lastChild, m[n].childCount);
  }

  /** The innermost open container is not its own last child. */
  lemma ScopeNotLast(m: Memory, t: Top, hash: Hash64)
    requires TreeOk(m, t, hash) && t.spine != []
    ensures var scope := t.spine[|t.spine| - 1]; scope in m && m[scope].lastChild != scope
  {
    hide TreeOk, Linked, Stand;
    SpineInMemory(m, t, hash);
    var scope := t.spine[|t.spine| - 1];
    ScopeLast(m, t, hash);
  }

  lemma SpineOfTree(m: Memory, t: Top, hash: Hash64)
    requires TreeOk(m, t, hash)
    ensures SpineOk(m, t)
  {
  }

  lemma SpineInMemory(m: Memory, t: Top, hash: Hash64)
    requires TreeOk(m, t, hash) && t.spine != []
    ensures t.spine[|t.spine| - 1] in m
  {
    assert SpineAt(m, t.spine, |t.spine| - 1);
  }

  lemma ScopeLast(m: Memory, t: Top, hash: Hash64)
    requires TreeOk(m, t, hash) && t.spine != [] && t.spine[|t.spine| - 1] in m
    ensures m[t.spine[|t.spine| - 1]].lastChild != t.spine[|t.spine| - 1]
  {
    hide Stand, AllOk, SpineOk;
    var scope := t.spine[|t.spine| - 1];
    ScopeOk(m, t, scope, hash);
    if m[scope].children != [] {
      ScopeChild(m, t, |m[scope].children| - 1, hash);
    }
  }

  // ----- under the root -----

  /** The old last sibling, if there is one, points to the new node. */
  ghost function Chained(m: Memory, last: Node?, node: Node): (r: Memory)
    requires last != null ==> last in m
  {
    if last == null then m else m[last := m[last].(nextSibling := node)]
  }

  ghost predicate RootJoined(m: Memory, t: Top, node: Node, f: Fields, m': Memory, t': Top) {
    && (t.last != null ==> t.last in m)
    && m' == Chained(m, t.last, node)[node := f.(parent := null)]
    && t' == Top(if t.first == null then node else t.first, node, t.count + 1, t.children + [node], t.roots, [node])
  }

  lemma RootJoins(m: Memory, t: Top, node: Node, f: Fields, m': Memory, t': Top, hash: Hash64, failed: bool)
    requires TreeOk(m, t, hash) && t.spine == [] && node !in m && Loose(f, hash) && RootJoined(m, t, node, f, m', t')
    ensures TreeOk(m', t', hash)
    ensures StateOf(m', t', failed) == M.Opened(StateOf(m, t, failed), f.Frame().key, f.content)
  {
    hide Linked, Stand, NodeOk;
    assert t.spine + [node] == [node];
    RootListJoins(m, t, node, f, m', t');
    forall n | n in m'
      ensures NodeOk(m', n, [node], hash)
    {
      if n == node {
        LooseIsOk(m', node, [node], hash);
      } else {
        RootOthers(m, t, node, f, m', t', n, hash);
      }
    }
  }

  lemma RootListJoins(m: Memory, t: Top, node: Node, f: Fields, m': Memory, t': Top)
    requires Linked(m, t.children, null, t.first, t.last, t.count) && Stand(m, t.children, t.roots, t.spine)
    requires t.spine == [] && node !in m && f.nextSibling == null && RootJoined(m, t, node, f, m', t')
    ensures Linked(m', t'.children, null, t'.first, t'.last, t'.count) && Stand(m', t'.children, t'.roots, t'.spine)
  {
    forall i | 0 <= i < |t.children|
      ensures i < |t.children| - 1 ==> Alike(m, m', t.children[i])
      ensures i == |t.children| - 1 ==> AlikeButNext(m, m', t.children[i], node)
    {
      assert LinkOk(m, t.children, i, null);
      assert LinkOk(m, t.children, |t.children| - 1, null);
    }
    LinkedMore(m, m', t.children, node, null, t.first, t.last, t.count);
    StandStays(m, m', t.children, t'.children, t.roots, t.spine, node);
    assert t.spine + [node] == [node];
  }

  lemma RootOthers(m: Memory, t: Top, node: Node, f: Fields, m': Memory, t': Top, n: Node, hash: Hash64)
    requires TreeOk(m, t, hash) && t.spine == [] && node !in m && n in m && RootJoined(m, t, node, f, m', t')
    ensures NodeOk(m', n, [node], hash)
  {
    hide Linked, Stand, FieldsOk;
    assert NodeOk(m, n, t.spine, hash);
    forall i | 0 <= i < |m[n].children|
      ensures Alike(m, m', m[n].children[i])
    {
      OnlyInItsList(m, t.children, null, t.first, t.last, t.count, n, i, t.spine, hash);
    }
    NodeStays(m, m', n, t.spine, node, hash);
    assert t.spine + [node] == [node];
  }

  // ----- under an open container -----

  ghost function Extended(f: Fields, node: Node): (r: Fields) {
    f.(firstChild := if f.firstChild == null then node else f.firstChild, lastChild := node,
       childCount := f.childCount + 1, children := f.children + [node])
  }

  ghost predicate ChildJoined(m: Memory, t: Top, node: Node, f: Fields, m': Memory, t': Top) {
    && t.spine != []
    && var scope := t.spine[|t.spine| - 1];
      && scope in m && m[scope].content.IsContainer()
      && (m[scope].lastChild != null ==> m[scope].lastChild in m)
      && m' == Chained(m, m[scope].lastChild, node)[scope := Extended(m[scope], node)][node := f.(parent := scope)]
      && t' == t.(spine := t.spine + [node])
  }

  lemma ChildIsJoined(m: Memory, t: Top, node: Node, f: Fields, m': Memory, t': Top)
    requires t.spine != [] && t' == t.(spine := t.spine + [node])
    requires var scope := t.spine[|t.spine| - 1];
      && scope in m && m[scope].content.IsContainer()
      && (m[scope].lastChild != null ==> m[scope].lastChild in m) && m[scope].lastChild != scope
      && m' == Chained(m, m[scope].lastChild, node)[scope := Extended(Chained(m, m[scope].lastChild, node)[scope], node)]
                      [node := f.(parent := scope)]
    ensures ChildJoined(m, t, node, f, m', t')
  {
  }

  /** Linking a child behind the innermost open container keeps the tree, and opens one more frame. */
  lemma ChildJoins(m: Memory, t: Top, node: Node, f: Fields, m': Memory, t': Top, hash: Hash64, failed: bool)
    requires TreeOk(m, t, hash) && node !in m && Loose(f, hash) && ChildJoined(m, t, node, f, m', t')
    ensures TreeOk(m', t', hash)
    ensures StateOf(m', t', failed) == M.Opened(StateOf(m, t, failed), f.Frame().key, f.content)
  {
    hide Linked, Stand, NodeOk, SpineOk;
    ScopeJoins(m, t, node, f, m', t', hash);
    ChildRoots(m, t, node, f, m', t', hash);
    forall n | n in m'
      ensures NodeOk(m', n, t'.spine, hash)
    {
      if n == node {
        LooseIsOk(m', node, t'.spine, hash);
      } else if n != t.spine[|t.spine| - 1] {
        ChildOthers(m, t, node, f, m', t', n, hash);
      }
    }
    SpineJoins(m, t, node, f, m', t', failed);
  }

  /** The children of the innermost open container are finished, so it is not one of them. */
  lemma ScopeChild(m: Memory, t: Top, i: nat, hash: Hash64)
    requires TreeOk(m, t, hash) && t.spine != [] && t.spine[|t.spine| - 1] in m
    requires i < |m[t.spine[|t.spine| - 1]].children|
    ensures var scope := t.spine[|t.spine| - 1];
      && m[scope].children[i] in m && m[scope].children[i] !in t.spine
      && m[m[scope].children[i]].parent == scope && LinkOk(m, m[scope].children, i, scope)
      && Linked(m, m[scope].children, scope, m[scope].firstChild, m[scope].lastChild, m[scope].childCount)
      && Stand(m, m[scope].children, m[scope].done, t.spine)
  {
    var scope := t.spine[|t.spine| - 1];
    assert NodeOk(m, scope, t.spine, hash) && SpineAt(m, t.spine, |t.spine| - 1);
    assert LinkOk(m, m[scope].children, i, scope);
    assert StandsFor(m, m[scope].children[i], m[scope].done[i], t.spine);
  }

  lemma ScopeJoins(m: Memory, t: Top, node: Node, f: Fields, m': Memory, t': Top, hash: Hash64)
    requires TreeOk(m, t, hash) && node !in m && f.nextSibling == null && ChildJoined(m, t, node, f, m', t')
    ensures t.spine[|t.spine| - 1] in m' && NodeOk(m', t.spine[|t.spine| - 1], t'.spine, hash)
  {
    hide Stand, SpineOk, AllOk;
    var scope := t.spine[|t.spine| - 1];
    var s := m[scope];
    ScopeOk(m, t, scope, hash);
    forall i | 0 <= i < |s.children|
      ensures i < |s.children| - 1 ==> Alike(m, m', s.children[i])
      ensures i == |s.children| - 1 ==> AlikeButNext(m, m', s.children[i], node)
    {
      ScopeChild(m, t, i, hash);
      ScopeChild(m, t, |s.children| - 1, hash);
    }
    LinkedMore(m, m', s.children, node, scope, s.firstChild, s.lastChild, s.childCount);
    StandStays(m, m', s.children, m'[scope].children, s.done, t.spine, node);
  }

  lemma ScopeOk(m: Memory, t: Top, n: Node, hash: Hash64)
    requires TreeOk(m, t, hash) && n in m
    ensures NodeOk(m, n, t.spine, hash)
  {
  }

  /** Every node but the list's old last member keeps its place and what it stands for. */
  lemma ChildAlike(m: Memory, t: Top, node: Node, f: Fields, m': Memory, t': Top, n: Node)
    requires node !in m && ChildJoined(m, t, node, f, m', t') && n in m
    requires n != m[t.spine[|t.spine| - 1]].lastChild
    ensures Alike(m, m', n)
  {
  }

  lemma ChildRoots(m: Memory, t: Top, node: Node, f: Fields, m': Memory, t': Top, hash: Hash64)
    requires TreeOk(m, t, hash) && node !in m && ChildJoined(m, t, node, f, m', t')
    ensures Linked(m', t.children, null, t.first, t.last, t.count) && Stand(m', t.children, t.roots, t'.spine)
  {
    hide SpineOk, AllOk, Stand;
    var scope := t.spine[|t.spine| - 1];
    ScopeOk(m, t, scope, hash);
    forall i | 0 <= i < |t.children|
      ensures Alike(m, m', t.children[i])
    {
      assert LinkOk(m, t.children, i, null);
      if m[scope].children != [] {
        ScopeChild(m, t, |m[scope].children| - 1, hash);
      }
      ChildAlike(m, t, node, f, m', t', t.children[i]);
    }
    LinkedStays(m, m', t.children, null, t.first, t.last, t.count);
    StandStays(m, m', t.children, t.children, t.roots, t.spine, node);
  }

  lemma ChildOthers(m: Memory, t: Top, node: Node, f: Fields, m': Memory, t': Top, n: Node, hash: Hash64)
    requires TreeOk(m, t, hash) && node !in m && ChildJoined(m, t, node, f, m', t')
    requires n in m && n != t.spine[|t.spine| - 1]
    ensures n in m' && NodeOk(m', n, t'.spine, hash)
  {
    hide Linked, Stand, FieldsOk, SpineOk, AllOk;
    var scope := t.spine[|t.spine| - 1];
    ScopeOk(m, t, scope, hash);
    ScopeOk(m, t, n, hash);
    forall i | 0 <= i < |m[n].children|
      ensures Alike(m, m', m[n].children[i])
    {
      OnlyInItsList(m, m[scope].children, scope, m[scope].firstChild, m[scope].lastChild, m[scope].childCount, n, i, t.spine, hash);
      ChildAlike(m, t, node, f, m', t', m[n].children[i]);
    }
    NodeStays(m, m', n, t.spine, node, hash);
  }

  lemma SpineJoins(m: Memory, t: Top, node: Node, f: Fields, m': Memory, t': Top, failed: bool)
    requires SpineOk(m, t) && node !in m && f.children == [] && f.done == [] && ChildJoined(m, t, node, f, m', t')
    ensures SpineOk(m', t')
    ensures StateOf(m', t', failed) == M.Opened(StateOf(m, t, failed), f.Frame().key, f.content)
  {
    var k := |t.spine|;
    forall i | 0 <= i <= k
      ensures SpineAt(m', t'.spine, i)
      ensures i < k ==> t.spine[i] in m && m'[t.spine[i]].Frame() == m[t.spine[i]].Frame()
    {
      assert i < k ==> SpineAt(m, t.spine, i);
    }
    assert Frames(m', t'.spine) == Frames(m, t.spine) + [f.Frame()];
  }

  // ----- finishing a node -----

  /** The innermost open node is finished: what it stands for is added to its list's finished members. */
  ghost predicate Finished(m: Memory, t: Top, m': Memory, t': Top) {
    && t.spine != []
    && var k := |t.spine| - 1;
      && t.spine[k] in m
      && var member := m[t.spine[k]].Whole();
        if k == 0 then m' == m && t' == t.(roots := t.roots + [member], spine := [])
        else
          && t.spine[k - 1] in m
          && m' == m[t.spine[k - 1] := m[t.spine[k - 1]].(done := m[t.spine[k - 1]].done + [member])]
          && t' == t.(spine := t.spine[..k])
  }

  /** Finishing the innermost open node keeps the tree, and closes the innermost frame. */
  lemma Finishes(m: Memory, t: Top, m': Memory, t': Top, hash: Hash64, failed: bool)
    requires TreeOk(m, t, hash) && Finished(m, t, m', t')
    ensures TreeOk(m', t', hash)
    ensures StateOf(m', t', failed) == M.Closed(StateOf(m, t, failed))
  {
    hide Linked, Stand, NodeOk, SpineOk;
    FinishedRoots(m, t, m', t', hash);
    forall n | n in m'
      ensures NodeOk(m', n, t'.spine, hash)
    {
      FinishedNode(m, t, m', t', n, hash);
    }
    FinishedSpine(m, t, m', t');
    FinishedState(m, t, m', t', failed);
  }

  /** The open nodes are nodes, each the parent of the next. */
  lemma SpineKnown(m: Memory, t: Top, hash: Hash64)
    requires TreeOk(m, t, hash) && t.spine != []
    ensures var k := |t.spine| - 1;
      && t.spine[k] in m
      && (k == 0 ==> m[t.spine[k]].parent == null)
      && (k > 0 ==> t.spine[k - 1] in m && m[t.spine[k]].parent == t.spine[k - 1] && m[t.spine[k - 1]].content.IsContainer())
  {
    hide Stand;
    var k := |t.spine| - 1;
    assert SpineAt(m, t.spine, k);
    if k == 0 {
      assert LinkOk(m, t.children, |t.roots|, null);
    } else {
      assert SpineAt(m, t.spine, k - 1);
      ScopeOk(m, t, t.spine[k - 1], hash);
      assert LinkOk(m, m[t.spine[k - 1]].children, |m[t.spine[k - 1]].done|, t.spine[k - 1]);
    }
  }

  lemma IsFinished(m: Memory, t: Top, m': Memory, t': Top)
    requires t.spine != []
    requires var k := |t.spine| - 1;
      && t.spine[k] in m
      && var member := m[t.spine[k]].Whole();
        if k == 0 then m' == m && t' == t.(roots := t.roots + [member], spine := [])
        else
          && t.spine[k - 1] in m
          && m' == m[t.spine[k - 1] := m[t.spine[k - 1]].(done := m[t.spine[k - 1]].done + [member])]
          && t' == t.(spine := t.spine[..k])
    ensures Finished(m, t, m', t')
  {
  }

  lemma StandShrinks(m: Memory, m': Memory, children: seq<Node>, done: seq<Member>, t: Top, t': Top)
    requires Stand(m, children, done, t.spine) && Finished(m, t, m', t')
    ensures Stand(m', children, done, t'.spine)
  {
    forall i | 0 <= i < |done|
      ensures StandsFor(m', children[i], done[i], t'.spine)
    {
      assert StandsFor(m, children[i], done[i], t.spine);
    }
  }

  lemma FinishedAlike(m: Memory, t: Top, m': Memory, t': Top, children: seq<Node>, parent: Node?, first: Node?, last: Node?, count: nat)
    requires Finished(m, t, m', t') && Linked(m, children, parent, first, last, count)
    ensures Linked(m', children, parent, first, last, count)
  {
    forall i | 0 <= i < |children|
      ensures LinkOk(m', children, i, parent)
    {
      assert LinkOk(m, children, i, parent);
    }
  }

  /** The node just finished joins the finished members of its list. */
  lemma StandGrows(m: Memory, children: seq<Node>, done: seq<Member>, spine: seq<Node>, top: Node)
    requires Stand(m, children, done, spine) && |done| < |children| && children[|done|] == top && top in m && top !in spine
    ensures Stand(m, children, done + [m[top].Whole()], spine)
  {
    forall i | 0 <= i <= |done|
      ensures StandsFor(m, children[i], (done + [m[top].Whole()])[i], spine)
    {
      assert i < |done| ==> StandsFor(m, children[i], done[i], spine);
    }
  }

  lemma FinishedRoots(m: Memory, t: Top, m': Memory, t': Top, hash: Hash64)
    requires TreeOk(m, t, hash) && Finished(m, t, m', t')
    ensures Linked(m', t'.children, null, t'.first, t'.last, t'.count) && Stand(m', t'.children, t'.roots, t'.spine)
  {
    hide Linked, Stand, AllOk;
    FinishedAlike(m, t, m', t', t.children, null, t.first, t.last, t.count);
    StandShrinks(m, m', t.children, t.roots, t, t');
    if |t.spine| == 1 {
      StandGrows(m', t.children, t.roots, t'.spine, t.spine[0]);
    }
  }

  lemma FinishedNode(m: Memory, t: Top, m': Memory, t': Top, n: Node, hash: Hash64)
    requires TreeOk(m, t, hash) && Finished(m, t, m', t') && n in m
    ensures NodeOk(m', n, t'.spine, hash)
  {
    hide Linked, Stand, AllOk, FieldsOk;
    ScopeOk(m, t, n, hash);
    FieldsStayOk(m, t, m', t', n, hash);
    var k := |t.spine| - 1;
    var f := m[n];
    FinishedAlike(m, t, m', t', f.children, n, f.firstChild, f.lastChild, f.childCount);
    StandShrinks(m, m', f.children, f.done, t, t');
    if k > 0 && n == t.spine[k - 1] {
      assert SpineAt(m, t.spine, k - 1);
      StandGrows(m', f.children, f.done, t'.spine, t.spine[k]);
    } else if n == t.spine[k] {
      assert SpineAt(m, t.spine, k);
    }
  }

  lemma FieldsStayOk(m: Memory, t: Top, m': Memory, t': Top, n: Node, hash: Hash64)
    requires Finished(m, t, m', t') && n in m && FieldsOk(m[n], hash)
    ensures FieldsOk(m'[n], hash)
  {
  }

  lemma FinishedSpine(m: Memory, t: Top, m': Memory, t': Top)
    requires SpineOk(m, t) && Finished(m, t, m', t')
    ensures SpineOk(m', t')
  {
    var k := |t.spine| - 1;
    forall i | 0 <= i < k
      ensures SpineAt(m', t.spine[..k], i)
    {
      assert SpineAt(m, t.spine, i);
    }
  }

  lemma FinishedState(m: Memory, t: Top, m': Memory, t': Top, failed: bool)
    requires SpineOk(m, t) && SpineOk(m', t') && Finished(m, t, m', t')
    ensures StateOf(m', t', failed) == M.Closed(StateOf(m, t, failed))
  {
    var k := |t.spine| - 1;
    var was := StateOf(m, t, failed);
    assert was.open[k].Finished() == m[t.spine[k]].Whole();
    assert forall i :: 0 <= i < |t.spine| ==> SpineAt(m, t.spine, i) ==> t.spine[i] in m;
    if k == 0 {
      assert was.open[..k] == [];
    } else {
      var f := was.open[k - 1];
      assert Frames(m', t'.spine) == was.open[..k][..k - 1] + [f.(kids := f.kids + [was.open[k].Finished()])];
    }
  }

  // ----- storing a leaf's value -----

  /** The innermost open node, a leaf, gets its value. */
  ghost predicate Stored(m: Memory, t: Top, value: Value, m': Memory) {
    && t.spine != []
    && var top := t.spine[|t.spine| - 1];
      top in m && !m[top].content.IsContainer() && m' == m[top := m[top].(content := value)]
  }

  lemma IsStored(m: Memory, t: Top, value: Value, m': Memory)
    requires t.spine != []
    requires var top := t.spine[|t.spine| - 1];
      top in m && !m[top].content.IsContainer() && m' == m[top := m[top].(content := value)]
    ensures Stored(m, t, value, m')
  {
  }

  /** A leaf just opened is still blank. */
  lemma OpenedLeaf(m: Memory, t: Top, s: M.State, key: Str, blank: Value, failed: bool)
    requires SpineOk(m, t) && t.spine != [] && StateOf(m, t, failed) == M.Opened(s, key, blank)
    ensures t.spine[|t.spine| - 1] in m && m[t.spine[|t.spine| - 1]].content == blank && failed == s.failed
  {
    var k := |t.spine| - 1;
    assert SpineAt(m, t.spine, k);
    assert StateOf(m, t, failed).open[k] == m[t.spine[k]].Frame();
  }

  /** A leaf gets its value. */
  lemma Stores(m: Memory, t: Top, value: Value, m': Memory, hash: Hash64, s: M.State, key: Str, blank: Value)
    requires TreeOk(m, t, hash) && Stored(m, t, value, m') && !value.IsContainer()
    requires StateOf(m, t, s.failed) == M.Opened(s, key, blank)
    ensures TreeOk(m', t, hash)
    ensures StateOf(m', t, s.failed) == M.Opened(s, key, value)
  {
    hide Linked, Stand, SpineOk;
    StoredStays(m, t, value, m', t.children, null, t.first, t.last, t.count, t.roots);
    forall n | n in m'
      ensures NodeOk(m', n, t.spine, hash)
    {
      ScopeOk(m, t, n, hash);
      StoredStays(m, t, value, m', m[n].children, n, m[n].firstChild, m[n].lastChild, m[n].childCount, m[n].done);
    }
    StoredState(m, t, value, m', s, key, blank);
  }

  lemma StoredStays(m: Memory, t: Top, value: Value, m': Memory, children: seq<Node>, parent: Node?,
                    first: Node?, last: Node?, count: nat, done: seq<Member>)
    requires Linked(m, children, parent, first, last, count) && Stand(m, children, done, t.spine) && Stored(m, t, value, m')
    ensures Linked(m', children, parent, first, last, count) && Stand(m', children, done, t.spine)
  {
    forall i | 0 <= i < |children|
      ensures LinkOk(m', children, i, parent)
    {
      assert LinkOk(m, children, i, parent);
    }
    forall i | 0 <= i < |done|
      ensures StandsFor(m', children[i], done[i], t.spine)
    {
      assert StandsFor(m, children[i], done[i], t.spine);
    }
  }

  lemma StoredState(m: Memory, t: Top, value: Value, m': Memory, s: M.State, key: Str, blank: Value)
    requires SpineOk(m, t) && Stored(m, t, value, m')
    requires StateOf(m, t, s.failed) == M.Opened(s, key, blank)
    ensures SpineOk(m', t) && StateOf(m', t, s.failed) == M.Opened(s, key, value)
  {
    var k := |t.spine| - 1;
    forall i | 0 <= i <= k
      ensures SpineAt(m', t.spine, i) && t.spine[i] in m && t.spine[i] in m'
    {
      assert SpineAt(m, t.spine, i);
    }
    assert StateOf(m, t, s.failed).open[k] == m[t.spine[k]].Frame() == M.Frame(key, blank, []);
    assert Frames(m', t.spine) == Frames(m, t.spine)[..k] + [M.Frame(key, value, [])];
    assert M.Opened(s, key, blank).open[..k] == s.open;
  }

  // ----- what the encoder needs -----

  ghost function Look(n: Node): (f: Fields)
    reads n
  {
    Fields(n.content, n.key, n.keyHash, n.childCount, n.parent, n.firstChild, n.lastChild, n.nextSibling, n.children, n.done)
  }

  /** `m` is how the nodes look now. */
  ghost predicate Seen(nodes: set<Node>, m: Memory)
    reads nodes
  {
    m.Keys == nodes && forall n :: n in nodes ==> m[n] == Look(n)
  }

  /** A finished node and everything below it hold its member. */
  lemma {:induction false} FinishedHolds(nodes: set<Node>, m: Memory, spine: seq<Node>, hash: Hash64, n: Node, member: Member)
    requires Seen(nodes, m) && AllOk(m, spine, hash) && StandsFor(m, n, member, spine)
    ensures NodeHolds(nodes, hash, n, member)
    decreases member, 1
  {
    assert NodeOk(m, n, spine, hash) && m[n] == Look(n);
    if member.value.IsContainer() {
      ListHolds(nodes, m, spine, hash, n.children, n, member.value.kids, 0);
    }
  }

  lemma {:induction false} ListHolds(nodes: set<Node>, m: Memory, spine: seq<Node>, hash: Hash64, children: seq<Node>, parent: Node?,
                                     done: seq<Member>, i: nat)
    requires Seen(nodes, m) && AllOk(m, spine, hash)
    requires forall j :: 0 <= j < |children| ==> LinkOk(m, children, j, parent)
    requires Stand(m, children, done, spine) && |done| == |children| && i <= |done|
    ensures ChainHolds(nodes, hash, if i < |children| then children[i] else null, done[i..], null)
    decreases done, 0, |done| - i
  {
    if i < |done| {
      assert StandsFor(m, children[i], done[i], spine) && LinkOk(m, children, i, parent) && m[children[i]] == Look(children[i]);
      FinishedHolds(nodes, m, spine, hash, children[i], done[i]);
      ListHolds(nodes, m, spine, hash, children, parent, done, i + 1);
      assert done[i..][1..] == done[i + 1..];
    }
  }

  /** When nothing is open, the roots hold the whole document. */
  lemma ClosedTreeHolds(nodes: set<Node>, m: Memory, t: Top, hash: Hash64)
    requires Seen(nodes, m) && TreeOk(m, t, hash) && t.spine == []
    ensures ChainHolds(nodes, hash, t.first, t.roots, null) && t.count == |t.roots|
  {
    ListHolds(nodes, m, t.spine, hash, t.children, null, t.roots, 0);
    assert t.roots[0..] == t.roots;
  }
}
