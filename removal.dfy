/**
 * The removals of binheap.c on the arena and its root list: taking a node
 * out with binomial_tree_node_destroy and, for a root, putting its promoted
 * child in its place in the list (fetch_value, insert_value); then the
 * extraction of binheap_delete_minimum / binheap_delete_maximum and the
 * removal by key of binheap_delete built on it.
 */
module Removal {
  import opened Wrappers
  import opened Keys
  import opened Scans
  import opened Trees
  import opened TreeNodes
  import opened Search

  /** An arena that lost one of its identities holds one node fewer. */
  lemma ShrunkByOne(n0: Arena, ns: Arena, x: NodeRef)
    requires x in n0 && ns.Keys == n0.Keys - {x}
    ensures |ns| == |n0| - 1
  {
    assert |ns.Keys| == |n0.Keys| - 1;
  }

  /** After `x` is taken out, the other nodes keep their keys and the key multiset loses the key of `x`. */
  lemma RemainingKeys(nodes: Arena, ns: Arena, x: NodeRef)
    requires x in nodes && EntriesOf(ns) == EntriesOf(nodes) - {x}
    ensures KeyBag(EntriesOf(ns)) == KeyBag(EntriesOf(nodes)) - multiset{nodes[x].key}
    ensures forall n :: n in ns ==> n in nodes && ns[n].key == nodes[n].key
  {
    KeyBagRemove(EntriesOf(nodes), x);
    assert forall n :: n in ns ==> ns[n].key == EntriesOf(ns)[n].key;
  }

  /**
   * What destroying `x` leaves of the arena: the arena `Destroyed` gives,
   * still a forest with no dangling link, holding every entry but that of
   * `x`, so one node and one key fewer.
   */
  ghost predicate Shrunk(nodes: Arena, rank: Ranks, bound: nat, mode: Mode, cmp: Comparator, x: NodeRef, ns: Arena)
  {
    && Forest(nodes, rank, bound, mode, cmp) && Closed(nodes) && x in nodes
    && ns == Destroyed(nodes, rank, bound, mode, cmp, x)
    && Forest(ns, DestroyedRank(nodes, mode, cmp, rank, x), bound, mode, cmp) && Closed(ns)
    && EntriesOf(ns) == EntriesOf(nodes) - {x} && ns.Keys == nodes.Keys - {x} && |ns| == |nodes| - 1
    && KeyBag(EntriesOf(ns)) == KeyBag(EntriesOf(nodes)) - multiset{nodes[x].key}
  }

  /**
   * The root list `rts` after destroying `x`: `roots` when `x` had a parent,
   * and otherwise `roots` with `x` replaced, at its own index, by its
   * promoted child if it has one. The new list is exact for `ns`.
   */
  ghost predicate RootsRepaired(nodes: Arena, mode: Mode, cmp: Comparator, roots: seq<NodeRef>, x: NodeRef, ns: Arena, rts: seq<NodeRef>)
  {
    && x in nodes && (forall c :: c in nodes[x].children ==> c in nodes) && RootsExact(ns, rts)
    && (nodes[x].parent.Some? ==> rts == roots)
    && (nodes[x].parent.None? ==>
          x in roots &&
          var i := IndexOf(roots, x);
          rts == roots[..i] + PromotedList(nodes, mode, cmp, x) + roots[i + 1..])
  }

  /** Everything destroying `x` leaves: the arena and the root list. */
  ghost predicate Removed(nodes: Arena, rank: Ranks, bound: nat, mode: Mode, cmp: Comparator, roots: seq<NodeRef>,
                          x: NodeRef, ns: Arena, rts: seq<NodeRef>)
  {
    Shrunk(nodes, rank, bound, mode, cmp, x, ns) && RootsRepaired(nodes, mode, cmp, roots, x, ns, rts)
  }

  /**
   * fetch_value of the root `x` at index `i` of the root list, then, when
   * `x` has children, insert_value of its mode-extreme child at that index.
   */
  method ReplaceRoot(nodes: Arena, ghost rank: Ranks, ghost bound: nat, mode: Mode, cmp: Comparator, roots: seq<NodeRef>, x: NodeRef, i: nat)
    returns (rts: seq<NodeRef>)
    requires ComparatorLaws(cmp) && Forest(nodes, rank, bound, mode, cmp) && Closed(nodes) && RootsExact(nodes, roots)
    requires x in nodes && i < |roots| && roots[i] == x
    ensures IndexOf(roots, x) == i
    ensures rts == roots[..i] + PromotedList(nodes, mode, cmp, x) + roots[i + 1..]
  {
    NodeFacts(nodes, rank, bound, mode, cmp, x);
    var kids := nodes[x].children;
    rts := roots[..i] + roots[i + 1..];
    assert rts[..i] == roots[..i] && rts[i..] == roots[i + 1..];
    if kids != [] {
      var ci := FindExtremeChild(nodes, cmp, x, mode);
      rts := rts[..i] + [kids[ci]] + rts[i..];
      assert [kids[ci]] == PromotedList(nodes, mode, cmp, x);
    } else {
      assert roots[..i] + roots[i + 1..] == roots[..i] + [] + roots[i + 1..];
    }
    assert x !in roots[..i] by {
      forall j | 0 <= j < i ensures roots[j] != x { assert roots[j] != roots[i]; }
    }
    FirstIndex(roots, x, i);
  }

  /** The arena that `Destroy` leaves is what `Shrunk` describes. */
  lemma ShrunkIntro(nodes: Arena, rank: Ranks, bound: nat, mode: Mode, cmp: Comparator, x: NodeRef, ns: Arena)
    requires ComparatorLaws(cmp) && Forest(nodes, rank, bound, mode, cmp) && Closed(nodes) && x in nodes
    requires ns == Destroyed(nodes, rank, bound, mode, cmp, x)
    ensures Shrunk(nodes, rank, bound, mode, cmp, x, ns)
  {
    DestroyedForest(nodes, rank, bound, mode, cmp, x, ns);
    DestroyedEntries(nodes, rank, bound, mode, cmp, x);
    ShrunkByOne(nodes, ns, x);
    KeyBagRemove(EntriesOf(nodes), x);
  }

  /** The root list repaired as the arguments say is what `RootsRepaired` describes. */
  lemma RootsRepairedIntro(nodes: Arena, rank: Ranks, bound: nat, mode: Mode, cmp: Comparator, roots: seq<NodeRef>,
                           x: NodeRef, i: nat, ns: Arena, rts: seq<NodeRef>)
    requires ComparatorLaws(cmp) && Forest(nodes, rank, bound, mode, cmp) && Closed(nodes) && RootsExact(nodes, roots) && x in nodes
    requires ns == Destroyed(nodes, rank, bound, mode, cmp, x)
    requires nodes[x].parent.Some? ==> rts == roots
    requires nodes[x].parent.None? ==>
      && i < |roots| && roots[i] == x && IndexOf(roots, x) == i
      && rts == roots[..i] + PromotedList(nodes, mode, cmp, x) + roots[i + 1..]
    ensures RootsRepaired(nodes, mode, cmp, roots, x, ns, rts)
  {
    NodeFacts(nodes, rank, bound, mode, cmp, x);
    DestroyedParents(nodes, rank, bound, mode, cmp, x, ns);
    if nodes[x].parent.None? {
      RootsAfterRootDestroy(nodes, roots, ns, i, PromotedList(nodes, mode, cmp, x));
    } else {
      RootsAfterBuriedDestroy(nodes, roots, ns, x);
    }
  }

  /**
   * Destroys `x`. A root, found at index `i` of the root list, leaves the
   * list (fetch_value), and its mode-extreme child, if it has children,
   * takes its place (insert_value at the same index); the list is left as it
   * is for a node with a parent.
   */
  method Remove(nodes: Arena, ghost rank: Ranks, ghost bound: nat, mode: Mode, cmp: Comparator, roots: seq<NodeRef>, x: NodeRef, i: nat)
    returns (ns: Arena, rts: seq<NodeRef>)
    requires ComparatorLaws(cmp) && Forest(nodes, rank, bound, mode, cmp) && Closed(nodes) && RootsExact(nodes, roots)
    requires x in nodes && (nodes[x].parent.None? ==> i < |roots| && roots[i] == x)
    ensures Removed(nodes, rank, bound, mode, cmp, roots, x, ns, rts)
  {
    rts := roots;
    if nodes[x].parent.None? {
      rts := ReplaceRoot(nodes, rank, bound, mode, cmp, roots, x, i);
    }
    ns := Destroy(nodes, rank, bound, mode, cmp, x);
    ShrunkIntro(nodes, rank, bound, mode, cmp, x, ns);
    RootsRepairedIntro(nodes, rank, bound, mode, cmp, roots, x, i, ns, rts);
  }

  /**
   * The choice of binheap_delete_minimum (`dir` = Min) and
   * binheap_delete_maximum (`dir` = Max): the root the scan picks at index
   * `i`, or, in the mode opposite to `dir` when that root has children, the
   * leaf the descent from it reaches, which then lies below the root.
   */
  method PickExtreme(nodes: Arena, ghost rank: Ranks, ghost bound: nat, mode: Mode, cmp: Comparator, roots: seq<NodeRef>, dir: Mode)
    returns (target: Option<NodeRef>, i: nat)
    requires ComparatorLaws(cmp) && Forest(nodes, rank, bound, mode, cmp) && Closed(nodes) && RootsExact(nodes, roots)
    ensures target == ExtremeNode(nodes, rank, bound, mode, cmp, roots, dir)
    ensures target.None? <==> |nodes| == 0
    ensures target.Some? ==>
      && i == ScanIndex(dir, cmp, KeysOf(nodes, roots)) && i < |roots|
      && (nodes[target.value].parent.None? <==> target.value == roots[i])
    ensures target.Some? && dir == mode ==> forall n :: n in nodes ==> HasPrecedence(mode, cmp, nodes[target.value].key, nodes[n].key)
  {
    ExtremeNodeMeaning(nodes, rank, bound, mode, cmp, roots, dir);
    var node;
    node, i := MaxMin(nodes, cmp, roots, dir);
    if node.None? {
      return None, i;
    }
    var x := node.value;
    if dir != mode && nodes[x].children != [] {
      x := DescendTo(nodes, rank, bound, mode, cmp, dir, x);
    }
    target := Some(x);
  }

  /**
   * binheap_delete_minimum (`dir` = Min) and binheap_delete_maximum (`dir` =
   * Max): the node `PickExtreme` chooses is destroyed, as `Removed` says; an
   * empty heap is left alone. In the heap's own mode the key removed has
   * precedence over every key left.
   */
  method ExtractExtreme(nodes: Arena, ghost rank: Ranks, ghost bound: nat, mode: Mode, cmp: Comparator, roots: seq<NodeRef>, dir: Mode)
    returns (target: Option<NodeRef>, ns: Arena, rts: seq<NodeRef>)
    requires ComparatorLaws(cmp) && Forest(nodes, rank, bound, mode, cmp) && Closed(nodes) && RootsExact(nodes, roots)
    ensures target == ExtremeNode(nodes, rank, bound, mode, cmp, roots, dir)
    ensures target.None? <==> |nodes| == 0
    ensures target.None? ==> ns == nodes && rts == roots
    ensures target.Some? ==> Removed(nodes, rank, bound, mode, cmp, roots, target.value, ns, rts)
    ensures target.Some? && dir == mode ==>
      forall n :: n in ns ==> HasPrecedence(mode, cmp, nodes[target.value].key, ns[n].key)
  {
    var i;
    target, i := PickExtreme(nodes, rank, bound, mode, cmp, roots, dir);
    if target.None? {
      return None, nodes, roots;
    }
    var x := target.value;
    ns, rts := Remove(nodes, rank, bound, mode, cmp, roots, x, i);
    if dir == mode {
      RemainingKeys(nodes, ns, x);
    }
  }

  /**
   * binheap_delete: the node the guided search finds, if any, is destroyed,
   * as `Removed` says. It compares equal to `key`. A root found this way
   * leaves the root list as an extracted root does (see the README on this
   * choice).
   */
  method RemoveKey(nodes: Arena, ghost rank: Ranks, ghost bound: nat, mode: Mode, cmp: Comparator, roots: seq<NodeRef>, key: Key)
    returns (target: Option<NodeRef>, ns: Arena, rts: seq<NodeRef>)
    requires ComparatorLaws(cmp) && Forest(nodes, rank, bound, mode, cmp) && Closed(nodes) && RootsExact(nodes, roots)
    ensures target == DeleteTarget(nodes, rank, bound, mode, cmp, roots, key)
    ensures target.None? ==> ns == nodes && rts == roots
    ensures target.Some? ==> cmp(nodes[target.value].key, key) == 0 && Removed(nodes, rank, bound, mode, cmp, roots, target.value, ns, rts)
  {
    ghost var path;
    target, path := FindTarget(nodes, rank, bound, mode, cmp, roots, key);
    if target.None? {
      return None, nodes, roots;
    }
    var x := target.value;
    var i := if nodes[x].parent.None? then IndexOf(roots, x) else 0;
    ns, rts := Remove(nodes, rank, bound, mode, cmp, roots, x, i);
  }

  /**
   * binheap_delete as written leaves the root list alone even when the node
   * it destroys is a root: in a MIN heap holding the single key [1],
   * deleting [1] finds that root, and the unchanged root list still names
   * the destroyed node. `RemoveKey` replaces it in the list instead.
   */
  lemma DeleteRootAsWrittenDangles()
    ensures var nodes := map[Ref(0) := Node([1], 7, None, [])];
      var rank := map[Ref(0) := 0];
      && Forest(nodes, rank, 1, Min, DefaultCompare) && Closed(nodes) && RootsExact(nodes, [Ref(0)])
      && DeleteTarget(nodes, rank, 1, Min, DefaultCompare, [Ref(0)], [1]) == Some(Ref(0))
      && !RootsExact(Destroyed(nodes, rank, 1, Min, DefaultCompare, Ref(0)), [Ref(0)])
      && RootsExact(Destroyed(nodes, rank, 1, Min, DefaultCompare, Ref(0)), [])
  {
    var nodes := map[Ref(0) := Node([1], 7, None, [])];
    var rank := map[Ref(0) := 0];
    assert DefaultCompare([1], [1]) == 0;
    var ks := KeysOf(nodes, [Ref(0)]);
    assert ks == [[1]];
    assert ks[..0] == [];
    assert Closest(Min, DefaultCompare, ks, [1]) == Some(0);
    assert Destroyed(nodes, rank, 1, Min, DefaultCompare, Ref(0)) == map[];
  }
}
