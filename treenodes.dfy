/**
 * The binomial_tree_node_* routines of binheap.c as methods on the node
 * arena: each one takes the arena it works on and returns the arena it
 * leaves, and is proved against the arena functions of `Trees`.
 */
module TreeNodes {
  import opened Wrappers
  import opened Keys
  import opened Scans
  import opened Trees

  /**
   * binomial_tree_merge on two roots: the one with precedence over the
   * other (`a` on ties) becomes the parent of the other, whose identity it
   * appends to its children.
   */
  method Link(nodes: Arena, ghost rank: Ranks, ghost bound: nat, mode: Mode, cmp: Comparator, a: NodeRef, b: NodeRef)
    returns (r: Arena, w: NodeRef)
    requires ComparatorLaws(cmp) && Forest(nodes, rank, bound, mode, cmp) && Closed(nodes)
    requires a in nodes && b in nodes && a != b && nodes[a].parent.None? && nodes[b].parent.None?
    ensures w == Winner(nodes, mode, cmp, a, b) && r == Linked(nodes, mode, cmp, a, b)
    ensures HasPrecedence(mode, cmp, nodes[w].key, nodes[if w == a then b else a].key)
    ensures Forest(r, Relinked(rank, w), bound + 1, mode, cmp) && Closed(r)
    ensures EntriesOf(r) == EntriesOf(nodes)
  {
    var l: NodeRef;
    if HasPrecedence(mode, cmp, nodes[a].key, nodes[b].key) {
      w, l := a, b;
    } else {
      w, l := b, a;
      PrecedenceTotal(mode, cmp, nodes[a].key, nodes[b].key);
    }
    LinkForest(nodes, rank, bound, mode, cmp, w, l);
    AttachEntries(nodes, w, l);
    r := nodes[w := nodes[w].(children := nodes[w].children + [l])];
    r := r[l := r[l].(parent := Some(w))];
    assert r == Attach(nodes, w, l);
    assert w == Winner(nodes, mode, cmp, a, b) && r == Linked(nodes, mode, cmp, a, b);
  }

  /**
   * binomial_tree_node_find_max_child (`dir` = Max) and
   * binomial_tree_node_find_min_child (`dir` = Min): -1 for a childless
   * node, otherwise the index of a child with precedence in `dir` over
   * every sibling, no later sibling having precedence over it.
   */
  method FindExtremeChild(nodes: Arena, cmp: Comparator, x: NodeRef, dir: Mode) returns (idx: int)
    requires ComparatorLaws(cmp)
    requires x in nodes && forall c :: c in nodes[x].children ==> c in nodes
    ensures idx == -1 <==> nodes[x].children == []
    ensures idx != -1 ==>
      var kids := nodes[x].children;
      && 0 <= idx < |kids|
      && idx == ExtremeIndex(dir, cmp, KeysOf(nodes, kids))
      && (forall j :: 0 <= j < |kids| ==> HasPrecedence(dir, cmp, nodes[kids[idx]].key, nodes[kids[j]].key))
      && (forall j :: idx < j < |kids| ==> !HasPrecedence(dir, cmp, nodes[kids[j]].key, nodes[kids[idx]].key))
  {
    var kids := nodes[x].children;
    if |kids| == 0 {
      return -1;
    }
    idx := ScanChildren(nodes, cmp, kids, dir);
    ChildScanMeaning(nodes, kids, dir, cmp, idx);
  }

  /** The loop of the find-child routines: the scan of `kids` keeps the last child with precedence over the best so far. */
  method ScanChildren(nodes: Arena, cmp: Comparator, kids: seq<NodeRef>, dir: Mode) returns (m: nat)
    requires |kids| > 0 && forall c :: c in kids ==> c in nodes
    ensures m == ExtremeIndex(dir, cmp, KeysOf(nodes, kids))
  {
    ghost var ks := KeysOf(nodes, kids);
    m := 0;
    var i := 0;
    while i < |kids|
      invariant 0 <= i <= |kids| && 0 <= m < |kids|
      invariant i == 0 ==> m == 0
      invariant i > 0 ==> m == ExtremeUpTo(dir, cmp, ks, i)
    {
      var cur := kids[i];
      var best := kids[m];
      assert ks[i] == nodes[cur].key && ks[m] == nodes[best].key;
      if HasPrecedence(dir, cmp, nodes[cur].key, nodes[best].key) {
        m := i;
      }
      i := i + 1;
    }
  }

  /** The extreme index of the keys of `kids` names a child with precedence over every sibling and over no later one. */
  lemma ChildScanMeaning(nodes: Arena, kids: seq<NodeRef>, dir: Mode, cmp: Comparator, idx: nat)
    requires ComparatorLaws(cmp) && |kids| > 0 && forall c :: c in kids ==> c in nodes
    requires idx == ExtremeIndex(dir, cmp, KeysOf(nodes, kids))
    ensures idx < |kids|
    ensures forall j :: 0 <= j < |kids| ==> HasPrecedence(dir, cmp, nodes[kids[idx]].key, nodes[kids[j]].key)
    ensures forall j :: idx < j < |kids| ==> !HasPrecedence(dir, cmp, nodes[kids[j]].key, nodes[kids[idx]].key)
  {
    ExtremeIndexMeaning(dir, cmp, KeysOf(nodes, kids));
  }

  /**
   * The first half of binomial_tree_node_destroy for a node `x` with parent
   * `p`: find `x` among the children of `p`, close the gap it leaves, and
   * drop `x`.
   */
  method SpliceChild(nodes: Arena, x: NodeRef, p: NodeRef) returns (r: Arena)
    requires x in nodes && p in nodes && p != x && x in nodes[p].children
    ensures r == SpliceOut(nodes, x, p)
  {
    var pk := nodes[p].children;
    var idx := -1;
    var i := 0;
    while i < |pk|
      invariant 0 <= i <= |pk| && idx == -1 && x !in pk[..i]
    {
      if pk[i] == x {
        idx := i;
        break;
      }
      assert pk[..i + 1] == pk[..i] + [pk[i]];
      i := i + 1;
    }
    assert 0 <= idx < |pk| && pk[idx] == x && x !in pk[..idx];
    FirstIndex(pk, x, idx);
    r := (nodes - {x})[p := nodes[p].(children := Without(pk, idx))];
  }

  /** The re-homing loop of binomial_tree_node_destroy: binomial_tree_node_add of every node of `cs`, in order, under `p`. */
  method AdoptAll(nodes: Arena, p: NodeRef, cs: seq<NodeRef>) returns (r: Arena)
    requires p in nodes && p !in cs && NoDup(cs) && forall c :: c in cs ==> c in nodes
    ensures r == AttachAll(nodes, p, cs)
  {
    r := nodes;
    var i := 0;
    while i < |cs|
      invariant 0 <= i <= |cs|
      invariant r == AttachAll(nodes, p, cs[..i])
    {
      AttachAllSnoc(nodes, p, cs, i);
      var c := cs[i];
      r := r[p := r[p].(children := r[p].children + [c])];
      r := r[c := r[c].(parent := Some(p))];
      i := i + 1;
    }
    assert cs[..|cs|] == cs;
  }

  /**
   * binomial_tree_node_destroy: `x` leaves the arena. A node with a parent
   * is spliced out of the parent's children, which receive the children of
   * `x`; a root with children promotes its mode-extreme child to a
   * parentless node that receives the other children. Every other node
   * keeps its parent, apart from the promoted child.
   */
  method Destroy(nodes: Arena, ghost rank: Ranks, ghost bound: nat, mode: Mode, cmp: Comparator, x: NodeRef)
    returns (r: Arena)
    requires ComparatorLaws(cmp) && Forest(nodes, rank, bound, mode, cmp) && Closed(nodes) && x in nodes
    ensures r == Destroyed(nodes, rank, bound, mode, cmp, x)
    ensures Forest(r, DestroyedRank(nodes, mode, cmp, rank, x), bound, mode, cmp) && Closed(r)
    ensures EntriesOf(r) == EntriesOf(nodes) - {x}
    ensures nodes[x].parent.Some? ==>
      forall n :: n in r ==> (r[n].parent.None? <==> nodes[n].parent.None?)
    ensures nodes[x].parent.None? ==>
      forall n :: n in r ==> (r[n].parent.None? <==> nodes[n].parent.None? || n in PromotedList(nodes, mode, cmp, x))
  {
    NodeFacts(nodes, rank, bound, mode, cmp, x);
    ghost var d := Destroyed(nodes, rank, bound, mode, cmp, x);
    var kids := nodes[x].children;
    if nodes[x].parent.Some? {
      var p := nodes[x].parent.value;
      r := SpliceChild(nodes, x, p);
      r := AdoptAll(r, p, kids);
      assert r == DestroyChild(nodes, x, p) == d;
    } else if kids != [] {
      var ci := FindExtremeChild(nodes, cmp, x, mode);
      var c := kids[ci];
      WithoutMembers(kids, ci);
      r := (nodes - {x})[c := nodes[c].(parent := None)];
      r := AdoptAll(r, c, Without(kids, ci));
      assert ci == PromotedIndex(nodes, mode, cmp, x);
      assert r == DestroyRoot(nodes, x, ci) == d;
    } else {
      r := nodes - {x};
    }
    DestroyedForest(nodes, rank, bound, mode, cmp, x, r);
    DestroyedEntries(nodes, rank, bound, mode, cmp, x);
    DestroyedParents(nodes, rank, bound, mode, cmp, x, r);
  }
}
