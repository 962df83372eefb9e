/** A tree whose blocks an exporter has put in its own order. */
module Arrangement {
  import opened ChildList
  import opened Document

  /** `w` is `v` with the members of every block in the exporter's order. */
  ghost predicate Arranged(v: Value, w: Value, byKey: bool)
    decreases v, 0
  {
    match v
    case Array(kids) => w.Array? && Paired(kids, kids, w.kids, byKey)
    case Block(kids) => w.Block? && exists ps: seq<Member> :: OrderOf(ps, kids, byKey) && Paired(ps, kids, w.kids, byKey)
    case _ => w == v
  }

  /** `ws` are `ps`, which are all among `kids`, each arranged. */
  ghost predicate Paired(ps: seq<Member>, kids: seq<Member>, ws: seq<Member>, byKey: bool)
    decreases kids, 0
  {
    |ws| == |ps| && forall i :: 0 <= i < |ps| ==> ps[i] in kids && ItemArranged(ps[i], ws[i], byKey)
  }

  ghost predicate ItemArranged(m: Member, w: Member, byKey: bool)
    decreases m, 1
  {
    w.key == m.key && Arranged(m.value, w.value, byKey)
  }

  /** The original of an arranged member. */
  lemma PairedKid(ps: seq<Member>, kids: seq<Member>, ws: seq<Member>, i: nat, byKey: bool) returns (j: nat)
    requires Paired(ps, kids, ws, byKey) && i < |ws|
    ensures j < |kids| && kids[j] == ps[i] && ws[i].key == ps[i].key && Arranged(kids[j].value, ws[i].value, byKey)
    ensures ws[i].value.Block? <==> kids[j].value.Block?
  {
    assert ps[i] in kids && ItemArranged(ps[i], ws[i], byKey);
    j :| 0 <= j < |kids| && kids[j] == ps[i];
    SameKind(kids[j].value, ws[i].value, byKey);
  }

  lemma SameKind(v: Value, w: Value, byKey: bool)
    requires Arranged(v, w, byKey)
    ensures w.Block? <==> v.Block?
  {
  }

  /** An exporter that does not sort keeps the order it finds. */
  lemma {:induction false} UnsortedStays(v: Value, w: Value)
    requires Arranged(v, w, false)
    ensures w == v
    decreases v, 0
  {
    if v.IsContainer() {
      KidsStay(v.kids, w.kids);
    }
  }

  lemma {:induction false} KidsStay(kids: seq<Member>, ws: seq<Member>)
    requires Paired(kids, kids, ws, false)
    ensures ws == kids
    decreases kids, 0
  {
    forall i | 0 <= i < |kids|
      ensures ws[i] == kids[i]
    {
      assert ItemArranged(kids[i], ws[i], false);
      UnsortedStays(kids[i].value, ws[i].value);
    }
  }

  lemma NothingToArrange(byKey: bool)
    ensures Arranged(Block([]), Block([]), byKey)
  {
    assert OrderOf([], [], byKey);
    assert Paired([], [], [], byKey);
  }

  /** The members in the exporter's order are the block's. */
  lemma OrderKeeps(ps: seq<Member>, kids: seq<Member>, byKey: bool)
    requires OrderOf(ps, kids, byKey)
    ensures |ps| == |kids| && forall k :: 0 <= k < |ps| ==> ps[k] in kids
    ensures forall k :: 0 <= k < |kids| ==> kids[k] in ps
  {
    assert |multiset(ps)| == |multiset(kids)|;
    forall k | 0 <= k < |ps|
      ensures ps[k] in kids && kids[k] in ps
    {
      assert ps[k] in multiset(ps) && kids[k] in multiset(kids);
    }
  }

  lemma BlockDone(v: Value, ps: seq<Member>, ws: seq<Member>, byKey: bool)
    requires v.Block? && |ws| == |ps| && OrderOf(ps, v.kids, byKey)
    requires (forall k :: 0 <= k < |ps| ==> ps[k] in v.kids) && forall k :: 0 <= k < |ps| ==> ItemArranged(ps[k], ws[k], byKey)
    ensures Arranged(v, Block(ws), byKey)
  {
    hide ItemArranged, OrderOf;
    assert Paired(ps, v.kids, ws, byKey);
  }

  lemma Smaller(v: Value, m: Member)
    requires v.Block? && m in v.kids
    ensures m.value < v
  {
    var i :| 0 <= i < |v.kids| && v.kids[i] == m;
  }
}
