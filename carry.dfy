/**
 * The carry loop of binheap_insert over the arena: the state the loop keeps
 * between two links, how one link moves it on, and what it leaves when the
 * loop stops.
 */
module Carry {
  import opened Wrappers
  import opened Keys
  import opened Trees
  import opened TreeNodes

  /**
   * The carry state after `order` links: the carry `node` is a parentless
   * tree of order `order`, the leading `order` trees of `roots0` had orders
   * 0, 1, ... and are now inside the carry, the trees after them are
   * untouched, and together with the carry they are exactly the roots.
   */
  ghost predicate Carrying(n0: Arena, roots0: seq<NodeRef>, ns: Arena, node: NodeRef, order: nat, leaf: NodeRef, e: Entry)
  {
    && order <= |roots0|
    && (forall x :: x in roots0 ==> x in n0)
    && (forall j :: 0 <= j < order ==> Order(n0, roots0[j]) == j)
    && node in ns && ns[node].parent.None? && Order(ns, node) == order
    && RootsExact(ns, [node] + roots0[order..])
    && (forall j :: order <= j < |roots0| ==> roots0[j] in ns && ns[roots0[j]] == n0[roots0[j]])
    && ns.Keys == n0.Keys + {leaf}
    && EntriesOf(ns) == EntriesOf(n0)[leaf := e]
  }

  /** The new one-node tree starts the carry: nothing has been linked yet. */
  lemma CarryStart(n0: Arena, roots0: seq<NodeRef>, leaf: NodeRef, key: Key, value: Value)
    requires RootsExact(n0, roots0) && leaf !in n0
    ensures Carrying(n0, roots0, n0[leaf := Node(key, value, None, [])], leaf, 0, leaf, Entry(key, value))
  {
    var ns := n0[leaf := Node(key, value, None, [])];
    AddLeafEntries(n0, leaf, key, value);
    RootsExactPool(n0, roots0);
    AddLeafPool(n0, multiset(roots0), leaf, key, value);
    assert multiset([leaf] + roots0[0..]) == multiset(roots0) + multiset{leaf} by {
      assert roots0[0..] == roots0;
    }
    RootsExactPool(ns, [leaf] + roots0[0..]);
  }

  /** While trees remain, the carry and the next tree are two distinct roots, and the next tree is untouched. */
  lemma CarryLinkable(n0: Arena, roots0: seq<NodeRef>, ns: Arena, node: NodeRef, order: nat, leaf: NodeRef, e: Entry)
    requires Carrying(n0, roots0, ns, node, order, leaf, e) && order < |roots0|
    ensures var t := roots0[order];
      t in ns && node != t && ns[t].parent.None? && ns[t] == n0[t]
  {
    var r := [node] + roots0[order..];
    assert r[0] == node && r[1] == roots0[order];
  }

  /** The trees after the next one are neither the carry nor the next tree. */
  lemma CarryOthers(n0: Arena, roots0: seq<NodeRef>, ns: Arena, node: NodeRef, order: nat, leaf: NodeRef, e: Entry)
    requires Carrying(n0, roots0, ns, node, order, leaf, e) && order < |roots0|
    ensures forall j :: order + 1 <= j < |roots0| ==> roots0[j] != node && roots0[j] != roots0[order]
  {
    var r := [node] + roots0[order..];
    forall j | order + 1 <= j < |roots0| ensures roots0[j] != node && roots0[j] != roots0[order] {
      assert r[j - order + 1] == roots0[j] && r[1] == roots0[order] && r[0] == node;
    }
  }

  /** Linking the two leading roots `a` and `b` of an exact root list leaves the winner in front of the rest. */
  lemma LinkRoots(ns: Arena, a: NodeRef, b: NodeRef, rest: seq<NodeRef>, w: NodeRef)
    requires RootsExact(ns, [a, b] + rest) && a in ns && b in ns && a != b
    requires w == a || w == b
    ensures var l := if w == a then b else a;
      RootsExact(Attach(ns, w, l), [w] + rest)
  {
    var l := if w == a then b else a;
    RootsExactPool(ns, [a, b] + rest);
    LinkPool(ns, multiset([a, b] + rest), w, l);
    assert multiset([a, b] + rest) - multiset{l} == multiset([w] + rest);
    RootsExactPool(Attach(ns, w, l), [w] + rest);
  }

  /**
   * Linking the carry with the next tree, whose order equals the carry's,
   * leaves a carry of the next order with one tree fewer left.
   */
  lemma CarryStep(n0: Arena, roots0: seq<NodeRef>, ns: Arena, node: NodeRef, order: nat, leaf: NodeRef, e: Entry, w: NodeRef)
    requires Carrying(n0, roots0, ns, node, order, leaf, e)
    requires order < |roots0| && Order(ns, roots0[order]) == order
    requires w == node || w == roots0[order]
    ensures node != roots0[order] && roots0[order] in ns
    ensures var l := if w == node then roots0[order] else node;
      Carrying(n0, roots0, Attach(ns, w, l), w, order + 1, leaf, e)
  {
    CarryLinkable(n0, roots0, ns, node, order, leaf, e);
    var t := roots0[order];
    var l := if w == node then t else node;
    var r := Attach(ns, w, l);
    AttachEntries(ns, w, l);
    Uncons(roots0, order);
    ConsTwo(node, roots0[order..], t, roots0[order + 1..]);
    LinkRoots(ns, node, t, roots0[order + 1..], w);
    CarryOthers(n0, roots0, ns, node, order, leaf, e);
    assert r[w] == ns[w].(children := ns[w].children + [l]);
    assert Order(r, w) == order + 1 && r[w].parent.None?;
    OrdersExtend(n0, roots0, order);
  }

  /** The leading trees whose order equals their index extend by one when the next tree has its index as order. */
  lemma OrdersExtend(n0: Arena, roots0: seq<NodeRef>, order: nat)
    requires order < |roots0| && forall x :: x in roots0 ==> x in n0
    requires forall j :: 0 <= j < order ==> Order(n0, roots0[j]) == j
    requires Order(n0, roots0[order]) == order
    ensures forall j :: 0 <= j < order + 1 ==> Order(n0, roots0[j]) == j
  {
  }

  /** One binomial_tree_merge of the carry with the next tree, as `Link` performs it, moves the carry one order on. */
  lemma CarryLinked(n0: Arena, roots0: seq<NodeRef>, prev: Arena, node: NodeRef, order: nat, leaf: NodeRef, e: Entry,
                    mode: Mode, cmp: Comparator, ns: Arena, w: NodeRef)
    requires Carrying(n0, roots0, prev, node, order, leaf, e)
    requires order < |roots0| && Order(prev, roots0[order]) == order
    requires node != roots0[order] && roots0[order] in prev
    requires w == Winner(prev, mode, cmp, node, roots0[order]) && ns == Linked(prev, mode, cmp, node, roots0[order])
    ensures Carrying(n0, roots0, ns, w, order + 1, leaf, e)
  {
    CarryStep(n0, roots0, prev, node, order, leaf, e, w);
    var l := if w == node then roots0[order] else node;
    assert ns == Attach(prev, w, l);
  }

  /** When the carry stops, it has consumed exactly the leading trees whose order equals their index. */
  lemma CarryDone(n0: Arena, roots0: seq<NodeRef>, ns: Arena, node: NodeRef, order: nat, leaf: NodeRef, e: Entry)
    requires Carrying(n0, roots0, ns, node, order, leaf, e)
    requires order < |roots0| ==> Order(ns, roots0[order]) != order
    ensures CarryFrom(n0, roots0, 0) == order
    ensures OrdersAscending(n0, roots0) ==> OrdersAscending(ns, [node] + roots0[order..])
  {
    CarryFromIs(n0, roots0, 0, order);
    if OrdersAscending(n0, roots0) {
      CarryAscending(n0, roots0, ns, node, order);
    }
  }

  /** An arena grown by one fresh identity holds one node more. */
  lemma GrownByOne(n0: Arena, ns: Arena, leaf: NodeRef)
    requires leaf !in n0 && ns.Keys == n0.Keys + {leaf}
    ensures |ns| == |n0| + 1
  {
    assert |ns.Keys| == |n0.Keys| + 1;
  }

  /** One pass of the carry loop: the carry is linked with the next tree, which has its order. */
  method CarryOnce(n0: Arena, roots0: seq<NodeRef>, leaf: NodeRef, e: Entry, mode: Mode, cmp: Comparator,
                   ns0: Arena, ghost rank: Ranks, ghost bound: nat, node0: NodeRef, order0: nat, tree0: Option<NodeRef>, rest0: seq<NodeRef>)
    returns (ns: Arena, node: NodeRef, order: nat, tree: Option<NodeRef>, rest: seq<NodeRef>, ghost rk: Ranks, ghost bd: nat)
    requires ComparatorLaws(cmp) && Forest(ns0, rank, bound, mode, cmp) && Closed(ns0)
    requires Carrying(n0, roots0, ns0, node0, order0, leaf, e)
    requires (tree0, rest0) == Shift(roots0[order0..]) && tree0.Some? && Order(ns0, tree0.value) == order0
    ensures Forest(ns, rk, bd, mode, cmp) && Closed(ns)
    ensures Carrying(n0, roots0, ns, node, order, leaf, e)
    ensures (tree, rest) == Shift(roots0[order..]) && order == order0 + 1
    ensures node0 in ns0 && tree0.value in ns0 && node0 != tree0.value
    ensures node == Winner(ns0, mode, cmp, node0, tree0.value) && ns == Linked(ns0, mode, cmp, node0, tree0.value)
  {
    Uncons(roots0, order0);
    assert tree0.value == roots0[order0];
    CarryLinkable(n0, roots0, ns0, node0, order0, leaf, e);
    ns, node := Link(ns0, rank, bound, mode, cmp, node0, tree0.value);
    CarryLinked(n0, roots0, ns0, node0, order0, leaf, e, mode, cmp, ns, node);
    rk, bd := Relinked(rank, node), bound + 1;
    order := order0 + 1;
    var s := Shift(rest0);
    tree, rest := s.0, s.1;
  }

  /**
   * The loop of binheap_insert: the carry `node` of order `order` is linked
   * with the next tree, shifted off the root list, for as long as that tree
   * has the carry's order; the tree that stops the carry is returned with
   * the trees after it.
   */
  method CarryLoop(n0: Arena, roots0: seq<NodeRef>, leaf: NodeRef, e: Entry, mode: Mode, cmp: Comparator,
                   ns0: Arena, ghost rank: Ranks, ghost bound: nat)
    returns (ns: Arena, node: NodeRef, order: nat, tree: Option<NodeRef>, rest: seq<NodeRef>, ghost rk: Ranks, ghost bd: nat)
    requires ComparatorLaws(cmp) && Forest(ns0, rank, bound, mode, cmp) && Closed(ns0)
    requires Carrying(n0, roots0, ns0, leaf, 0, leaf, e)
    ensures Forest(ns, rk, bd, mode, cmp) && Closed(ns)
    ensures Carrying(n0, roots0, ns, node, order, leaf, e)
    ensures (tree, rest) == Shift(roots0[order..])
    ensures tree.Some? ==> Order(ns, tree.value) != order
  {
    ns, rk, bd := ns0, rank, bound;
    node, order := leaf, 0;
    var s := Shift(roots0);
    tree, rest := s.0, s.1;
    while tree.Some? && Order(ns, tree.value) == order
      invariant Carrying(n0, roots0, ns, node, order, leaf, e)
      invariant Forest(ns, rk, bd, mode, cmp) && Closed(ns)
      invariant (tree, rest) == Shift(roots0[order..])
      decreases |roots0| - order
    {
      ns, node, order, tree, rest, rk, bd := CarryOnce(n0, roots0, leaf, e, mode, cmp, ns, rk, bd, node, order, tree, rest);
    }
  }

  /**
   * binheap_insert on the arena `n0` with root list `roots0`: the
   * parentless one-node tree `leaf` is linked with every leading tree whose
   * order equals the carry's order, and the carry goes in front of the
   * trees left.
   */
  method InsertLeaf(n0: Arena, ghost rank: Ranks, ghost bound: nat, mode: Mode, cmp: Comparator, roots0: seq<NodeRef>,
                    leaf: NodeRef, key: Key, value: Value)
    returns (ns: Arena, roots: seq<NodeRef>, ghost rk: Ranks, ghost bd: nat)
    requires ComparatorLaws(cmp) && Forest(n0, rank, bound, mode, cmp) && Closed(n0)
    requires RootsExact(n0, roots0) && leaf !in n0
    ensures Forest(ns, rk, bd, mode, cmp) && Closed(ns) && RootsExact(ns, roots)
    ensures ns.Keys == n0.Keys + {leaf} && |ns| == |n0| + 1
    ensures EntriesOf(ns) == EntriesOf(n0)[leaf := Entry(key, value)]
    ensures var k := CarryFrom(n0, roots0, 0);
      && |roots| > 0 && roots[1..] == roots0[k..]
      && Order(ns, roots[0]) == k
    ensures OrdersAscending(n0, roots0) ==> OrdersAscending(ns, roots)
  {
    var e := Entry(key, value);
    ns := n0[leaf := Node(key, value, None, [])];
    AddLeafForest(n0, rank, bound, mode, cmp, leaf, key, value);
    CarryStart(n0, roots0, leaf, key, value);
    var node, order, tree, rest;
    ns, node, order, tree, rest, rk, bd := CarryLoop(n0, roots0, leaf, e, mode, cmp, ns, rank[leaf := 0], bound + 1);
    CarryDone(n0, roots0, ns, node, order, leaf, e);
    GrownByOne(n0, ns, leaf);
    if tree.Some? {
      rest := [tree.value] + rest;
    }
    roots := [node] + rest;
  }
}
