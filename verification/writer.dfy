/** The writer: a scope machine over a linked tree, with a sticky error flag. */
module Writer {
  import opened Bytes
  import opened Document
  import opened Options
  import opened WriterNode
  import opened WriterTree
  import E = Encode
  import M = Machine
  import Serializer
  import StringPool

  datatype Error = Construction | UnclosedScope | Encoding(error: StringPool.Error)

  datatype Finalized = Bytes(data: seq<byte>) | Refused(error: Error)

  /** A leaf of the right kind whose value is still to be stored. */
  function Blank(v: Value): (b: Value) {
    match v
    case Int64(_) => Int64(0)
    case UInt64(_) => UInt64(0)
    case Float64(_) => Float64(0)
    case String(_) => String([])
    case _ => v
  }

  /** What finalising gives: the file of a closed document, exactly when nothing was refused and the pool does not overflow. */
  ghost function Result(s: M.State, hash: Hash64): (r: Finalized) {
    if s.failed then Refused(Construction)
    else if s.open != [] then Refused(UnclosedScope)
    else
      match Serializer.Interning(s.roots)
      case Ok(_) => Bytes(E.File(s.roots, hash))
      case Err(e) => Refused(Encoding(e))
  }

  class Writer {
    const hash: Hash64
    const workerCount: nat
    var rootFirst: Node?
    var rootLast: Node?
    var rootCount: nat
    var currentScope: Node?
    var errorFlag: bool
    /** Every node made so far. */
    ghost var nodes: set<Node>
    ghost var rootChildren: seq<Node>
    ghost var roots: seq<Member>
    /** The nodes that are not finished, outermost first. */
    ghost var spine: seq<Node>

    ghost function Memory(): (m: WriterTree.Memory)
      reads this`nodes, nodes
    {
      map n | n in nodes :: Look(n)
    }

    ghost function Top(): (t: WriterTree.Top)
      reads this
    {
      WriterTree.Top(rootFirst, rootLast, rootCount, rootChildren, roots, spine)
    }

    /** The tree is in order; a leaf may still be waiting for its value. */
    ghost predicate TreeValid()
      reads this, nodes
    {
      TreeOk(Memory(), Top(), hash) && KeylessUncached(nodes)
    }

    ghost predicate Valid()
      reads this, nodes
    {
      && TreeValid()
      && currentScope == (if spine == [] then null else spine[|spine| - 1])
      && (currentScope != null ==> currentScope in nodes && currentScope.content.IsContainer())
    }

    ghost function State(): (s: M.State)
      requires TreeValid()
      reads this, nodes
    {
      StateOf(Memory(), Top(), errorFlag)
    }

    constructor (hash: Hash64, workerCount: nat)
      ensures Valid() && nodes == {} && State() == M.START
    {
      this.hash := hash;
      this.workerCount := workerCount;
      rootFirst, rootLast, rootCount, currentScope, errorFlag := null, null, 0, null, false;
      nodes, rootChildren, roots, spine := {}, [], [], [];
    }

    // ----- linking -----

    /** The node the last call added. */
    function LastNode(): (n: Node?)
      reads this, currentScope
    {
      if currentScope == null then rootLast else currentScope.lastChild
    }

    method AppendToScope(node: Node)
      requires Valid() && node !in nodes && Loose(Look(node), hash) && node.cachedKeyOffset == OFFSET_NONE
      modifies this`rootFirst, this`rootLast, this`rootCount, this`nodes, this`rootChildren, this`spine,
        nodes`nextSibling, nodes`firstChild, nodes`lastChild, nodes`childCount, nodes`children, node`parent
      ensures TreeValid() && nodes == old(nodes) + {node} && spine == old(spine) + [node] && LastNode() == node
      ensures State() == M.Opened(old(State()), old(node.KeyBytes()), old(node.content))
    {
      hide TreeOk, StateOf, M.Opened, Memory, Loose, KeylessUncached;
      if currentScope == null {
        AppendRoot(node);
      } else {
        AppendChild(node, currentScope);
      }
    }

    method AppendRoot(node: Node)
      requires Valid() && currentScope == null && node !in nodes && Loose(Look(node), hash) && node.cachedKeyOffset == OFFSET_NONE
      modifies this`rootFirst, this`rootLast, this`rootCount, this`nodes, this`rootChildren, this`spine,
        nodes`nextSibling, nodes`firstChild, nodes`lastChild, nodes`childCount, nodes`children, node`parent
      ensures TreeValid() && nodes == old(nodes) + {node} && spine == old(spine) + [node] && rootLast == node
      ensures State() == M.Opened(old(State()), old(node.KeyBytes()), old(node.content))
    {
      hide TreeOk, StateOf, M.Opened, Memory, Loose, KeylessUncached, Chained;
      ghost var m, t, f := Memory(), Top(), Look(node);
      RootEnds(m, t, hash);
      MemoryKeys();
      LinkRoot(node);
      rootChildren, spine := rootChildren + [node], [node];
      RootJoins(m, t, node, f, Memory(), Top(), hash, errorFlag);
    }

    method LinkRoot(node: Node)
      requires (rootFirst == null <==> rootLast == null) && (rootLast != null ==> rootLast in nodes) && node !in nodes
      requires KeylessUncached(nodes) && node.cachedKeyOffset == OFFSET_NONE
      modifies this`rootFirst, this`rootLast, this`rootCount, this`nodes, nodes`nextSibling, node`parent
      ensures nodes == old(nodes) + {node} && rootLast == node && rootCount == old(rootCount) + 1
      ensures rootFirst == if old(rootFirst) == null then node else old(rootFirst)
      ensures Memory() == Chained(old(Memory()), old(rootLast), node)[node := old(Look(node)).(parent := null)]
      ensures KeylessUncached(nodes)
    {
      hide Memory;
      MemoryKeys();
      if rootFirst == null {
        rootFirst := node;
      } else {
        SetNext(rootLast, node);
      }
      AddNode(node, null);
      rootLast := node;
      rootCount := rootCount + 1;
    }

    method AppendChild(node: Node, scope: Node)
      requires Valid() && currentScope == scope && node !in nodes && Loose(Look(node), hash) && node.cachedKeyOffset == OFFSET_NONE
      modifies this`nodes, this`spine, nodes`nextSibling, nodes`firstChild, nodes`lastChild, nodes`childCount, nodes`children, node`parent
      ensures TreeValid() && nodes == old(nodes) + {node} && spine == old(spine) + [node] && scope.lastChild == node
      ensures State() == M.Opened(old(State()), old(node.KeyBytes()), old(node.content))
    {
      hide TreeOk, StateOf, M.Opened, Memory, Loose, KeylessUncached, Chained, Extended, ChildJoined;
      ghost var m, t, f := Memory(), Top(), Look(node);
      MemoryKeys();
      NodeEnds(m, t, scope, hash);
      ScopeNotLast(m, t, hash);
      LinkChild(node, scope);
      spine := spine + [node];
      ChildIsJoined(m, t, node, f, Memory(), Top());
      ChildJoins(m, t, node, f, Memory(), Top(), hash, errorFlag);
    }

    method LinkChild(node: Node, scope: Node)
      requires scope in nodes && node !in nodes && scope.lastChild != scope
      requires (scope.firstChild == null <==> scope.lastChild == null) && (scope.lastChild != null ==> scope.lastChild in nodes)
      requires KeylessUncached(nodes) && node.cachedKeyOffset == OFFSET_NONE
      modifies this`nodes, nodes`nextSibling, scope`firstChild, scope`lastChild, scope`childCount, scope`children, node`parent
      ensures nodes == old(nodes) + {node}
      ensures var m := old(Memory()); scope in m && (old(scope.lastChild) != null ==> old(scope.lastChild) in m)
      ensures var chained := Chained(old(Memory()), old(scope.lastChild), node);
        Memory() == chained[scope := Extended(chained[scope], node)][node := old(Look(node)).(parent := scope)]
      ensures KeylessUncached(nodes) && scope.lastChild == node
    {
      hide Memory, Extended;
      MemoryKeys();
      if scope.firstChild != null {
        SetNext(scope.lastChild, node);
      }
      ExtendScope(scope, node);
      AddNode(node, scope);
    }

    lemma MemoryKeys()
      ensures Memory().Keys == nodes && forall n :: n in nodes ==> Memory()[n] == Look(n)
    {
    }

    /** Changes one link of one node. */
    method SetNext(last: Node, node: Node)
      requires last in nodes
      modifies last`nextSibling
      ensures Memory() == old(Memory())[last := old(Memory())[last].(nextSibling := node)]
    {
      last.nextSibling := node;
    }

    /** Links the new node's parent, and counts it among the writer's nodes. */
    method AddNode(node: Node, parent: Node?)
      requires node !in nodes
      modifies this`nodes, node`parent
      ensures nodes == old(nodes) + {node}
      ensures Memory() == old(Memory())[node := old(Look(node)).(parent := parent)]
    {
      node.parent := parent;
      nodes := nodes + {node};
    }

    method ExtendScope(scope: Node, node: Node)
      requires scope in nodes
      modifies scope`firstChild, scope`lastChild, scope`childCount, scope`children
      ensures Memory() == old(Memory())[scope := Extended(old(Memory())[scope], node)] && scope.lastChild == node
    {
      if scope.firstChild == null {
        scope.firstChild := node;
      }
      scope.lastChild := node;
      scope.childCount := scope.childCount + 1;
      scope.children := scope.children + [node];
    }

    // ----- finishing -----

    /** The innermost open node is finished. */
    ghost method FinishInnermost()
      requires TreeValid() && spine != []
      modifies this`roots, this`spine, nodes`done
      ensures TreeValid() && State() == M.Closed(old(State())) && spine == old(spine)[..|old(spine)| - 1]
    {
      hide TreeOk, StateOf, M.Closed, Memory, KeylessUncached, Finished;
      ghost var m, t, k := Memory(), Top(), |spine| - 1;
      MemoryKeys();
      SpineKnown(m, t, hash);
      var member := m[spine[k]].Whole();
      if k == 0 {
        roots, spine := roots + [member], [];
      } else {
        AddDone(spine[k - 1], member);
        spine := spine[..k];
      }
      IsFinished(m, t, Memory(), Top());
      Finishes(m, t, Memory(), Top(), hash, errorFlag);
    }

    ghost method AddDone(n: Node, member: Member)
      requires n in nodes
      modifies n`done
      ensures Memory() == old(Memory())[n := old(Memory())[n].(done := old(Memory())[n].done + [member])]
    {
      n.done := n.done + [member];
    }

    /** The shell of the innermost open frame is the scope's kind. */
    lemma ScopeShell()
      requires Valid()
      ensures State().failed == errorFlag && |State().open| == |spine|
      ensures currentScope == null <==> State().open == []
      ensures currentScope != null ==> State().open[|spine| - 1].shell == currentScope.content
    {
      hide AllOk, Linked, Stand;
      if spine != [] {
        SpineKnown(Memory(), Top(), hash);
      }
    }

    // ----- adding a leaf -----

    method SetKey(node: Node, key: M.Key) returns (ok: bool)
      modifies node`key, node`keyHash
      ensures ok == M.KeyOk(key)
      ensures ok ==> node.KeyBytes() == M.KeyOf(key) && (node.key.Some? ==> node.key.value != [] && node.keyHash == hash(node.key.value))
    {
      match key {
        case NullKey(length) =>
          if length != 0 {
            return false;
          }
          node.key, node.keyHash := None, hash([]);
        case KeyBytes(bytes) =>
          if |bytes| >= TWO_32 {
            return false;
          }
          node.key := if bytes == [] then None else Some(bytes);
          node.keyHash := hash(bytes);
      }
      ok := true;
    }

    method Fail()
      requires Valid()
      modifies this`errorFlag
      ensures Valid() && State() == M.Failed(old(State()))
    {
      hide TreeOk, Memory, KeylessUncached;
      errorFlag := true;
    }

    /** A new node, not linked yet; without a key when none is required. */
    method MakeNode(content: Value, key: M.Key, keyed: bool) returns (node: Node, ok: bool)
      requires content == Shell(content) && (content.IsContainer() || Blank(content) == content) && (!keyed ==> key == M.NullKey(0))
      ensures fresh(node) && ok == M.KeyOk(key)
      ensures ok ==> Loose(Look(node), hash) && node.cachedKeyOffset == OFFSET_NONE && node.content == content && node.KeyBytes() == M.KeyOf(key)
    {
      node := new Node(content);
      ok := true;
      if keyed {
        ok := SetKey(node, key);
      }
    }

    /** Adds a leaf whose value is still to be stored, or sets the error flag. */
    method AddLeaf(key: M.Key, blank: Value, requireKey: bool) returns (ok: bool)
      requires Valid() && !blank.IsContainer() && blank == Blank(blank) && (!requireKey ==> key == M.NullKey(0))
      modifies this, nodes
      ensures fresh(nodes - old(nodes))
      ensures ok == (!old(State()).failed && M.InArray(old(State())) == !requireKey && M.KeyOk(key))
      ensures !ok ==> Valid() && State() == M.Failed(old(State()))
      ensures ok ==> TreeValid() && State() == M.Opened(old(State()), M.KeyOf(key), blank)
      ensures ok ==> spine == old(spine) + [LastNode()] && currentScope == old(currentScope)
      ensures ok && currentScope != null ==> currentScope in nodes && currentScope.content.IsContainer()
    {
      hide TreeOk, StateOf, M.Opened, Memory, KeylessUncached, Loose;
      ScopeShell();
      if errorFlag {
        assert State() == M.Failed(State());
        return false;
      }
      if requireKey {
        if currentScope != null && !currentScope.content.Block? {
          Fail();
          return false;
        }
      } else {
        if currentScope == null || !currentScope.content.Array? {
          Fail();
          return false;
        }
      }
      var node, keyed := MakeNode(blank, key, requireKey);
      if !keyed {
        Fail();
        return false;
      }
      AppendToScope(node);
      ok := true;
    }

    /** Stores the value of the leaf just added, and with that finishes it. */
    method StoreLast(value: Value, ghost s: M.State, ghost key: Str)
      requires TreeValid() && !value.IsContainer() && spine != [] && LastNode() == spine[|spine| - 1]
      requires State() == M.Opened(s, key, Blank(value))
      modifies this`roots, this`spine, nodes`content, nodes`done
      ensures TreeValid() && spine == old(spine)[..|old(spine)| - 1]
      ensures State() == M.Closed(M.Opened(s, key, value))
      ensures forall n :: n in nodes && old(n.content).IsContainer() ==> n.content == old(n.content)
    {
      hide TreeOk, StateOf, M.Opened, M.Closed, Memory, KeylessUncached, Stored;
      ghost var m, t := Memory(), Top();
      MemoryKeys();
      SpineOfTree(m, t, hash);
      OpenedLeaf(m, t, s, key, Blank(value), errorFlag);
      SetContent(LastNode(), value);
      IsStored(m, t, value, Memory());
      Stores(m, t, value, Memory(), hash, s, key, Blank(value));
      FinishInnermost();
    }

    method SetContent(node: Node, value: Value)
      requires node in nodes
      modifies node`content
      ensures Memory() == old(Memory())[node := old(Memory())[node].(content := value)]
      ensures KeylessUncached(nodes) == old(KeylessUncached(nodes))
    {
      node.content := value;
    }

    // ----- the API -----

    /** set_null, set_bool, set_int64, set_uint64, set_float64 and set_string. */
    method Set(key: M.Key, value: Value) returns (ok: bool)
      requires Valid() && !value.IsContainer()
      modifies this, nodes
      ensures Valid() && fresh(nodes - old(nodes))
      ensures State() == M.Step(old(State()), M.Set(key, value)) && ok == !State().failed
    {
      hide TreeOk, StateOf, M.Opened, M.Closed, M.Step, M.InArray, M.KeyOk, Memory, KeylessUncached;
      ghost var before := State();
      LeafSteps(before, key, value);
      if value.String? && |value.s| >= TWO_32 {
        Fail();
        return false;
      }
      ok := AddLeaf(key, Blank(value), true);
      if ok {
        StoreLast(value, before, M.KeyOf(key));
      }
    }

    /** append_null, append_bool, append_int64, append_uint64, append_float64 and append_string. */
    method Append(value: Value) returns (ok: bool)
      requires Valid() && !value.IsContainer()
      modifies this, nodes
      ensures Valid() && fresh(nodes - old(nodes))
      ensures State() == M.Step(old(State()), M.Append(value)) && ok == !State().failed
    {
      hide TreeOk, StateOf, M.Opened, M.Closed, M.Step, M.InArray, M.KeyOk, Memory, KeylessUncached;
      ghost var before := State();
      LeafSteps(before, M.NullKey(0), value);
      if value.String? && |value.s| >= TWO_32 {
        Fail();
        return false;
      }
      ok := AddLeaf(M.NullKey(0), Blank(value), false);
      if ok {
        StoreLast(value, before, []);
      }
    }

    /** The two leaf calls of the machine, taken or refused. */
    lemma LeafSteps(s: M.State, key: M.Key, value: Value)
      ensures var taken := M.Closed(M.Opened(s, M.KeyOf(key), value));
        && M.Step(s, M.Set(key, value)) ==
             (if !s.failed && M.ValueOk(value) && !M.InArray(s) && M.KeyOk(key) then taken else M.Failed(s))
        && (key == M.NullKey(0) ==>
              M.Step(s, M.Append(value)) == (if !s.failed && M.ValueOk(value) && M.InArray(s) then taken else M.Failed(s)))
        && (!s.failed ==> !taken.failed) && M.KeyOk(M.NullKey(0)) && M.KeyOf(M.NullKey(0)) == []
    {
      FailedKept(s, M.KeyOf(key), value);
    }

    lemma FailedKept(s: M.State, key: Str, value: Value)
      ensures M.Closed(M.Opened(s, key, value)).failed == s.failed
    {
    }

    /** begin_block and begin_array. */
    method Begin(key: M.Key, shell: Value) returns (ok: bool)
      requires Valid() && (shell == Array([]) || shell == Block([]))
      modifies this, nodes
      ensures Valid() && fresh(nodes - old(nodes))
      ensures State() == M.Step(old(State()), M.Begin(key, shell)) && ok == !State().failed
    {
      hide TreeOk, StateOf, Memory, KeylessUncached, Loose;
      ScopeShell();
      if errorFlag {
        assert State() == M.Failed(State());
        return false;
      }
      var inArray := currentScope != null && currentScope.content.Array?;
      if inArray && key != M.NullKey(0) {
        Fail();
        return false;
      }
      var node, keyed := MakeNode(shell, key, !inArray);
      if !keyed {
        Fail();
        return false;
      }
      AppendToScope(node);
      currentScope := node;
      ok := true;
    }

    /** end_block and end_array. */
    method End(shell: Value) returns (ok: bool)
      requires Valid() && (shell == Array([]) || shell == Block([]))
      modifies this, nodes
      ensures Valid() && nodes == old(nodes)
      ensures State() == M.Step(old(State()), M.End(shell)) && ok == !State().failed
    {
      hide TreeOk, StateOf, M.Closed, Memory, KeylessUncached;
      ScopeShell();
      if errorFlag {
        assert State() == M.Failed(State());
        return false;
      }
      if currentScope == null || currentScope.content != shell {
        Fail();
        return false;
      }
      MemoryKeys();
      SpineKnown(Memory(), Top(), hash);
      currentScope := currentScope.parent;
      ghost var before := State();
      FinishInnermost();
      ClosedKept(before);
      ok := true;
    }

    lemma ClosedKept(s: M.State)
      requires s.open != []
      ensures M.Closed(s).failed == s.failed
    {
    }

    /** finalize_to_buffer: serialises a closed document nothing has gone wrong with; the tree stays as it is. */
    method Finalize() returns (r: Finalized)
      requires Valid()
      modifies nodes`cachedKeyOffset, nodes`cachedStringOffset
      ensures Valid() && State() == old(State())
      ensures r == Result(State(), hash)
    {
      hide TreeOk, Memory, Serializer.Interning, E.File;
      ScopeShell();
      if errorFlag {
        return Refused(Construction);
      }
      if currentScope != null {
        return Refused(UnclosedScope);
      }
      ghost var m := Memory();
      MemoryKeys();
      ClosedTreeHolds(nodes, m, Top(), hash);
      var serialized := Serializer.Serialize(hash, workerCount, rootFirst, rootCount, nodes, roots);
      MemoryKeys();
      assert Memory() == m;
      match serialized {
        case Ok(data) => r := Bytes(data);
        case Err(e) => r := Refused(Encoding(e));
      }
    }
  }
}
