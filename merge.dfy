/**
 * The loop of binheap_merge: each pass either emits a tree into the new
 * root list or links two trees, so the number of trees not yet emitted goes
 * down.
 */
module Merging {
  import opened Wrappers
  import opened Keys
  import opened Trees
  import opened TreeNodes
  import opened Cursors

  /**
   * The carry meets the head of the first list, of the same order: the two
   * are linked and the tree with precedence takes the head's place (the
   * head on a tie).
   */
  method LinkCarryFirst(nodes: Arena, c: Cursor, ghost rank: Ranks, ghost bound: nat, mode: Mode, cmp: Comparator)
    returns (ns: Arena, d: Cursor, ghost rk: Ranks, ghost bd: nat)
    requires ComparatorLaws(cmp) && Inv(nodes, c, rank, bound, mode, cmp) && Heads(nodes, c) && c.node1.Some? && c.merged.Some?
    ensures Inv(ns, d, rk, bd, mode, cmp) && EntriesOf(ns) == EntriesOf(nodes)
    ensures var n, m := c.node1.value, c.merged.value;
      && ns == Linked(nodes, mode, cmp, n, m)
      && d == c.(node1 := Some(Winner(nodes, mode, cmp, n, m)), merged := None)
  {
    var n, m := c.node1.value, c.merged.value;
    var w;
    ns, w := Link(nodes, rank, bound, mode, cmp, n, m);
    d := c.(node1 := Some(w), merged := None);
    rk, bd := Relinked(rank, w), bound + 1;
    LinkedCarryInv(nodes, c, rank, bound, mode, cmp, false, w, d, ns, rk, bd);
  }

  /** The same with the head of the second list. */
  method LinkCarrySecond(nodes: Arena, c: Cursor, ghost rank: Ranks, ghost bound: nat, mode: Mode, cmp: Comparator)
    returns (ns: Arena, d: Cursor, ghost rk: Ranks, ghost bd: nat)
    requires ComparatorLaws(cmp) && Inv(nodes, c, rank, bound, mode, cmp) && Heads(nodes, c) && c.node2.Some? && c.merged.Some?
    ensures Inv(ns, d, rk, bd, mode, cmp) && EntriesOf(ns) == EntriesOf(nodes)
    ensures var n, m := c.node2.value, c.merged.value;
      && ns == Linked(nodes, mode, cmp, n, m)
      && d == c.(node2 := Some(Winner(nodes, mode, cmp, n, m)), merged := None)
  {
    var n, m := c.node2.value, c.merged.value;
    var w;
    ns, w := Link(nodes, rank, bound, mode, cmp, n, m);
    d := c.(node2 := Some(w), merged := None);
    rk, bd := Relinked(rank, w), bound + 1;
    LinkedCarryInv(nodes, c, rank, bound, mode, cmp, true, w, d, ns, rk, bd);
  }

  /** The heads of both lists, of the same order, are linked; the winner takes the first head's place and the second list moves on. */
  method LinkHeadsFirst(nodes: Arena, c: Cursor, ghost rank: Ranks, ghost bound: nat, mode: Mode, cmp: Comparator)
    returns (ns: Arena, d: Cursor, ghost rk: Ranks, ghost bd: nat)
    requires ComparatorLaws(cmp) && Inv(nodes, c, rank, bound, mode, cmp) && Heads(nodes, c) && c.node1.Some? && c.node2.Some?
    ensures Inv(ns, d, rk, bd, mode, cmp) && EntriesOf(ns) == EntriesOf(nodes)
    ensures var n1, n2 := c.node1.value, c.node2.value;
      && ns == Linked(nodes, mode, cmp, n1, n2)
      && d == c.(node1 := Some(Winner(nodes, mode, cmp, n1, n2)), node2 := Shift(c.rest2).0, rest2 := Shift(c.rest2).1)
  {
    var n1, n2 := c.node1.value, c.node2.value;
    var w;
    ns, w := Link(nodes, rank, bound, mode, cmp, n1, n2);
    var s := Shift(c.rest2);
    d := c.(node1 := Some(w), node2 := s.0, rest2 := s.1);
    rk, bd := Relinked(rank, w), bound + 1;
    LinkedHeadsInv(nodes, c, rank, bound, mode, cmp, w, d, ns, rk, bd);
  }

  /** push_value of the carry onto the new root list. */
  method EmitCarry(nodes: Arena, c: Cursor) returns (d: Cursor)
    requires Held(nodes, c) && c.merged.Some?
    ensures Held(nodes, d)
    ensures d == c.(out := c.out + [c.merged.value], merged := None)
  {
    d := c.(out := c.out + [c.merged.value], merged := None);
    assert Pool(d) == Pool(c);
  }

  /** push_value of the head of the first list onto the new root list, and shift_value of the next one. */
  method EmitFirst(nodes: Arena, c: Cursor) returns (d: Cursor)
    requires Held(nodes, c) && c.node1.Some?
    ensures Held(nodes, d)
    ensures d == c.(out := c.out + [c.node1.value], node1 := Shift(c.rest1).0, rest1 := Shift(c.rest1).1)
  {
    var s := Shift(c.rest1);
    d := c.(out := c.out + [c.node1.value], node1 := s.0, rest1 := s.1);
    EmitFirstPool(c, d);
  }

  /** Emitting the head of the first list keeps the pool. */
  lemma EmitFirstPool(c: Cursor, d: Cursor)
    requires c.node1.Some? && d == c.(out := c.out + [c.node1.value], node1 := Shift(c.rest1).0, rest1 := Shift(c.rest1).1)
    ensures Pool(d) == Pool(c) && (d.node1.None? ==> d.rest1 == [])
  {
    assert multiset(d.out) == multiset(c.out) + multiset{c.node1.value};
  }

  /** The same with the head of the second list. */
  method EmitSecond(nodes: Arena, c: Cursor) returns (d: Cursor)
    requires Held(nodes, c) && c.node2.Some?
    ensures Held(nodes, d)
    ensures d == c.(out := c.out + [c.node2.value], node2 := Shift(c.rest2).0, rest2 := Shift(c.rest2).1)
  {
    var s := Shift(c.rest2);
    d := c.(out := c.out + [c.node2.value], node2 := s.0, rest2 := s.1);
    EmitSecondPool(c, d);
  }

  /** Emitting the head of the second list keeps the pool. */
  lemma EmitSecondPool(c: Cursor, d: Cursor)
    requires c.node2.Some? && d == c.(out := c.out + [c.node2.value], node2 := Shift(c.rest2).0, rest2 := Shift(c.rest2).1)
    ensures Pool(d) == Pool(c) && (d.node2.None? ==> d.rest2 == [])
  {
    assert multiset(d.out) == multiset(c.out) + multiset{c.node2.value};
  }

  /** The carry and the head of the first list trade places. */
  method SwapFirst(nodes: Arena, c: Cursor) returns (d: Cursor)
    requires Held(nodes, c) && c.node1.Some? && c.merged.Some?
    ensures Held(nodes, d)
    ensures d == c.(node1 := c.merged, merged := c.node1)
  {
    d := c.(node1 := c.merged, merged := c.node1);
    assert Pool(d) == Pool(c);
  }

  /** The carry and the head of the second list trade places. */
  method SwapSecond(nodes: Arena, c: Cursor) returns (d: Cursor)
    requires Held(nodes, c) && c.node2.Some? && c.merged.Some?
    ensures Held(nodes, d)
    ensures d == c.(node2 := c.merged, merged := c.node2)
  {
    d := c.(node2 := c.merged, merged := c.node2);
    assert Pool(d) == Pool(c);
  }

  /** The head of the first list becomes the carry, and the first list moves on. */
  method CarryFirst(nodes: Arena, c: Cursor) returns (d: Cursor)
    requires Held(nodes, c) && c.node1.Some? && c.merged.None?
    ensures Held(nodes, d)
    ensures d == c.(merged := c.node1, node1 := Shift(c.rest1).0, rest1 := Shift(c.rest1).1)
  {
    var s := Shift(c.rest1);
    d := c.(merged := c.node1, node1 := s.0, rest1 := s.1);
    assert Pool(d) == Pool(c);
  }

  /**
   * The first half of a pass of binheap_merge, when a carry `merged` is
   * present: the carry is linked with the head of the same order (`node1`
   * first); with both lists exhausted the carry is emitted (and the pass
   * ends, `emitted`); otherwise the carry swaps places with a head of
   * higher order, if there is one (`node1` first).
   */
  method AbsorbCarry(nodes: Arena, c: Cursor, ghost rank: Ranks, ghost bound: nat, mode: Mode, cmp: Comparator)
    returns (ns: Arena, d: Cursor, emitted: bool, ghost rk: Ranks, ghost bd: nat)
    requires ComparatorLaws(cmp) && Inv(nodes, c, rank, bound, mode, cmp) && c.merged.Some?
    ensures Inv(ns, d, rk, bd, mode, cmp) && EntriesOf(ns) == EntriesOf(nodes)
    ensures emitted <==> c.node1.None? && c.node2.None?
    ensures emitted ==> d.out == c.out + [c.merged.value] && Pending(d) < Pending(c)
    ensures !emitted ==> d.out == c.out && Pending(d) <= Pending(c) && (d.node1.Some? || d.node2.Some?)
  {
    Slots(nodes, c);
    var m := c.merged.value;
    ns, rk, bd := nodes, rank, bound;
    emitted := false;
    if c.node1.Some? && Order(nodes, c.node1.value) == Order(nodes, m) {
      ns, d, rk, bd := LinkCarryFirst(nodes, c, rank, bound, mode, cmp);
    } else if c.node2.Some? && Order(nodes, c.node2.value) == Order(nodes, m) {
      ns, d, rk, bd := LinkCarrySecond(nodes, c, rank, bound, mode, cmp);
    } else if c.node1.None? && c.node2.None? {
      d := EmitCarry(nodes, c);
      emitted := true;
    } else if c.node1.Some? && Order(nodes, c.node1.value) > Order(nodes, m) {
      d := SwapFirst(nodes, c);
    } else if c.node2.Some? && Order(nodes, c.node2.value) > Order(nodes, m) {
      d := SwapSecond(nodes, c);
    } else {
      d := c;
    }
  }

  /**
   * Two heads of equal order: they are linked (`node1` the parent on a
   * tie), the winner is linked with the carry if there is one (the winner
   * the parent on a tie), the result is the new carry, and both lists move
   * on.
   */
  method LinkHeads(nodes: Arena, c: Cursor, ghost rank: Ranks, ghost bound: nat, mode: Mode, cmp: Comparator)
    returns (ns: Arena, d: Cursor, ghost rk: Ranks, ghost bd: nat)
    requires ComparatorLaws(cmp) && Inv(nodes, c, rank, bound, mode, cmp) && c.node1.Some? && c.node2.Some?
    ensures Inv(ns, d, rk, bd, mode, cmp) && EntriesOf(ns) == EntriesOf(nodes)
    ensures d.out == c.out && d.merged.Some? && Pending(d) == Pending(c) - 1 - |OptBag(c.merged)|
    ensures (d.node1, d.rest1) == Shift(c.rest1) && (d.node2, d.rest2) == Shift(c.rest2)
  {
    Slots(nodes, c);
    var e;
    ns, e, rk, bd := LinkHeadsFirst(nodes, c, rank, bound, mode, cmp);
    if e.merged.Some? {
      Slots(ns, e);
      ns, e, rk, bd := LinkCarryFirst(ns, e, rk, bd, mode, cmp);
    }
    d := CarryFirst(ns, e);
  }

  /**
   * The second half of a pass of binheap_merge: a lone head, or the carry
   * when both lists are exhausted, is emitted and its list moves on; of two
   * heads of different orders the lower-order one is; two heads of equal
   * order are linked and carried.
   */
  method EmitOrLink(nodes: Arena, c: Cursor, ghost rank: Ranks, ghost bound: nat, mode: Mode, cmp: Comparator)
    returns (ns: Arena, d: Cursor, ghost rk: Ranks, ghost bd: nat)
    requires ComparatorLaws(cmp) && Inv(nodes, c, rank, bound, mode, cmp)
    requires c.node1.Some? || c.node2.Some? || c.merged.Some?
    ensures Inv(ns, d, rk, bd, mode, cmp) && EntriesOf(ns) == EntriesOf(nodes)
    ensures Pending(d) < Pending(c)
    ensures c.node1.Some? && c.node2.None? ==> d.out == c.out + [c.node1.value]
    ensures c.node2.Some? && c.node1.None? ==> d.out == c.out + [c.node2.value]
    ensures c.node1.None? && c.node2.None? ==> d.out == c.out + [c.merged.value]
    ensures c.node1.Some? && c.node2.Some? ==>
      var o1, o2 := Order(nodes, c.node1.value), Order(nodes, c.node2.value);
      && (o1 < o2 ==> d.out == c.out + [c.node1.value])
      && (o2 < o1 ==> d.out == c.out + [c.node2.value])
      && (o1 == o2 ==> d.out == c.out && d.merged.Some?)
  {
    Slots(nodes, c);
    ns, rk, bd := nodes, rank, bound;
    if c.node1.Some? && c.node2.None? {
      d := EmitFirst(nodes, c);
    } else if c.node2.Some? && c.node1.None? {
      d := EmitSecond(nodes, c);
    } else if c.node1.None? && c.node2.None? {
      d := EmitCarry(nodes, c);
    } else if Order(nodes, c.node1.value) < Order(nodes, c.node2.value) {
      d := EmitFirst(nodes, c);
    } else if Order(nodes, c.node2.value) < Order(nodes, c.node1.value) {
      d := EmitSecond(nodes, c);
    } else {
      ns, d, rk, bd := LinkHeads(nodes, c, rank, bound, mode, cmp);
    }
  }

  /**
   * The loop of binheap_merge: passes run while a head or the carry is
   * left. A pass absorbs the carry first; unless that emitted it, it then
   * emits a tree or links the two heads. Every pass lowers the number of
   * trees not yet emitted, and at the end both lists are drained and the new
   * root list holds every root exactly once.
   */
  method MergeLoop(nodes: Arena, c0: Cursor, ghost rank: Ranks, ghost bound: nat, mode: Mode, cmp: Comparator)
    returns (ns: Arena, c: Cursor, ghost rk: Ranks, ghost bd: nat)
    requires ComparatorLaws(cmp) && Inv(nodes, c0, rank, bound, mode, cmp) && c0.out == []
    ensures Forest(ns, rk, bd, mode, cmp) && Closed(ns) && RootsExact(ns, c.out)
    ensures EntriesOf(ns) == EntriesOf(nodes) && ns.Keys == nodes.Keys
    ensures c == Cursor(c.out, None, [], None, [], None)
  {
    ns, c, rk, bd := nodes, c0, rank, bound;
    while c.node1.Some? || c.node2.Some? || c.merged.Some?
      invariant Inv(ns, c, rk, bd, mode, cmp) && EntriesOf(ns) == EntriesOf(nodes)
      decreases Pending(c)
    {
      var emitted := false;
      if c.merged.Some? {
        ns, c, emitted, rk, bd := AbsorbCarry(ns, c, rk, bd, mode, cmp);
      }
      if !emitted {
        ns, c, rk, bd := EmitOrLink(ns, c, rk, bd, mode, cmp);
      }
    }
    assert Pool(c) == multiset(c.out);
    RootsExactPool(ns, c.out);
  }

  /** The first shift_value of both root lists leaves a cursor holding both lists once each. */
  lemma StartPool(roots1: seq<NodeRef>, roots2: seq<NodeRef>, c0: Cursor)
    requires c0 == Cursor([], Shift(roots1).0, Shift(roots1).1, Shift(roots2).0, Shift(roots2).1, None)
    ensures Pool(c0) == multiset(roots1) + multiset(roots2)
    ensures (c0.node1.None? ==> c0.rest1 == []) && (c0.node2.None? ==> c0.rest2 == [])
  {
  }

  /** The first shift_value of both root lists starts the loop with both heaps' roots held once each. */
  lemma MergeStart(n1: Arena, roots1: seq<NodeRef>, rank1: Ranks, bound1: nat,
                   n2: Arena, roots2: seq<NodeRef>, rank2: Ranks, bound2: nat,
                   mode: Mode, cmp: Comparator, c0: Cursor, rank: Ranks, bound: nat)
    requires n1.Keys !! n2.Keys
    requires Forest(n1, rank1, bound1, mode, cmp) && Closed(n1) && RootsExact(n1, roots1)
    requires Forest(n2, rank2, bound2, mode, cmp) && Closed(n2) && RootsExact(n2, roots2)
    requires c0 == Cursor([], Shift(roots1).0, Shift(roots1).1, Shift(roots2).0, Shift(roots2).1, None)
    requires rank == UnionRank(n1, rank1, n2, rank2) && bound == if bound1 < bound2 then bound2 else bound1
    ensures Inv(n1 + n2, c0, rank, bound, mode, cmp)
    ensures EntriesOf(n1 + n2) == EntriesOf(n1) + EntriesOf(n2)
  {
    UnionForest(n1, rank1, bound1, n2, rank2, bound2, mode, cmp);
    RootsExactPool(n1, roots1);
    RootsExactPool(n2, roots2);
    UnionPool(n1, multiset(roots1), n2, multiset(roots2));
    StartPool(roots1, roots2, c0);
  }

  /** Two disjoint arenas together hold as many nodes as both. */
  lemma UnionSize(n1: Arena, n2: Arena)
    requires n1.Keys !! n2.Keys
    ensures |n1 + n2| == |n1| + |n2|
  {
    assert (n1 + n2).Keys == n1.Keys + n2.Keys;
  }

  /**
   * binheap_merge after the mode check, on the memory holding the nodes of
   * both heaps: the root lists `roots1` and `roots2`, each exact for its own
   * half of the arena, are drained into one new root list that holds every
   * tree of both, linked where orders met; no stored entry changes.
   */
  method MergeRoots(n1: Arena, roots1: seq<NodeRef>, ghost rank1: Ranks, ghost bound1: nat,
                    n2: Arena, roots2: seq<NodeRef>, ghost rank2: Ranks, ghost bound2: nat,
                    mode: Mode, cmp: Comparator)
    returns (ns: Arena, roots: seq<NodeRef>, ghost rk: Ranks, ghost bd: nat)
    requires ComparatorLaws(cmp) && n1.Keys !! n2.Keys
    requires Forest(n1, rank1, bound1, mode, cmp) && Closed(n1) && RootsExact(n1, roots1)
    requires Forest(n2, rank2, bound2, mode, cmp) && Closed(n2) && RootsExact(n2, roots2)
    ensures Forest(ns, rk, bd, mode, cmp) && Closed(ns) && RootsExact(ns, roots)
    ensures EntriesOf(ns) == EntriesOf(n1) + EntriesOf(n2) && ns.Keys == n1.Keys + n2.Keys
    ensures KeyBag(EntriesOf(ns)) == KeyBag(EntriesOf(n1)) + KeyBag(EntriesOf(n2))
    ensures |ns| == |n1| + |n2|
  {
    var s1, s2 := Shift(roots1), Shift(roots2);
    var c0 := Cursor([], s1.0, s1.1, s2.0, s2.1, None);
    ghost var bound0 := if bound1 < bound2 then bound2 else bound1;
    MergeStart(n1, roots1, rank1, bound1, n2, roots2, rank2, bound2, mode, cmp, c0, UnionRank(n1, rank1, n2, rank2), bound0);
    var c;
    ns, c, rk, bd := MergeLoop(n1 + n2, c0, UnionRank(n1, rank1, n2, rank2), bound0, mode, cmp);
    roots := c.out;
    assert EntriesOf(ns) == EntriesOf(n1 + n2) == EntriesOf(n1) + EntriesOf(n2);
    KeyBagUnion(EntriesOf(n1), EntriesOf(n2));
    UnionSize(n1, n2);
  }

  /**
   * The second link of an equal-order pass of binheap_merge, when the head
   * of the first list won the first link, as the source writes it: the
   * head becomes the carry's parent when it compares >= 0 to the carry,
   * whatever the mode.
   */
  function LinkHeadCarryAsWritten(nodes: Arena, cmp: Comparator, head: NodeRef, carry: NodeRef): (r: Arena)
    requires head in nodes && carry in nodes && head != carry
    ensures r.Keys == nodes.Keys
  {
    if cmp(nodes[head].key, nodes[carry].key) >= 0 then Attach(nodes, head, carry) else Attach(nodes, carry, head)
  }

  /**
   * Two MIN heaps built by inserting 9, 1, 5 and 10, 2, 6 and then
   * extracting their minimum have the root lists [5, 9] and [6, 10]. Their
   * merge links 5 over 6 into the carry and 9 over 10; this is the arena
   * then, with the head 9 (`Ref(0)`) and the carry 5 (`Ref(2)`).
   */
  function HeadAndCarry(): Arena
  {
    map[
      Ref(0) := Node([9], 0, None, [Ref(1)]), Ref(1) := Node([10], 1, Some(Ref(0)), []),
      Ref(2) := Node([5], 2, None, [Ref(3)]), Ref(3) := Node([6], 3, Some(Ref(2)), [])]
  }

  /** The arena of `HeadAndCarry` is heap-ordered for a MIN heap. */
  lemma HeadAndCarryOrdered()
    ensures HeapOrdered(HeadAndCarry(), Min, DefaultCompare)
  {
    var nodes := HeadAndCarry();
    assert DefaultCompare([9], [10]) < 0 && DefaultCompare([5], [6]) < 0;
    forall p, c | p in nodes && c in nodes[p].children && c in nodes
      ensures HasPrecedence(Min, DefaultCompare, nodes[p].key, nodes[c].key)
    {
      assert p == Ref(0) || p == Ref(2);
    }
  }

  /** As written, the head 9 becomes the parent of the carry 5. */
  lemma AsWrittenLinkDisordered()
    ensures !HeapOrdered(LinkHeadCarryAsWritten(HeadAndCarry(), DefaultCompare, Ref(0), Ref(2)), Min, DefaultCompare)
  {
    var bad := LinkHeadCarryAsWritten(HeadAndCarry(), DefaultCompare, Ref(0), Ref(2));
    assert DefaultCompare([9], [5]) > 0;
    assert Ref(2) in bad[Ref(0)].children;
  }

  /** Linking by precedence makes the carry 5 the parent of the head 9 and keeps the order. */
  lemma PrecedenceLinkOrdered()
    ensures HeapOrdered(Linked(HeadAndCarry(), Min, DefaultCompare, Ref(0), Ref(2)), Min, DefaultCompare)
  {
    var nodes := HeadAndCarry();
    assert DefaultCompare([9], [10]) < 0 && DefaultCompare([5], [6]) < 0;
    assert DefaultCompare([9], [5]) > 0 && DefaultCompare([5], [9]) < 0;
    var good := Linked(nodes, Min, DefaultCompare, Ref(0), Ref(2));
    assert good == Attach(nodes, Ref(2), Ref(0));
    forall p, c | p in good && c in good[p].children && c in good
      ensures HasPrecedence(Min, DefaultCompare, good[p].key, good[c].key)
    {
      assert p == Ref(0) || p == Ref(2);
      if p == Ref(2) {
        assert c == Ref(3) || c == Ref(0);
      }
    }
  }

  /**
   * The heap order holds before the second link of the merge of the two
   * heaps of `HeadAndCarry`; as written that link breaks it, while linking
   * by precedence keeps it.
   */
  lemma CarryLinkAsWrittenBreaksOrder()
    ensures var nodes := HeadAndCarry();
      && HeapOrdered(nodes, Min, DefaultCompare)
      && !HeapOrdered(LinkHeadCarryAsWritten(nodes, DefaultCompare, Ref(0), Ref(2)), Min, DefaultCompare)
      && HeapOrdered(Linked(nodes, Min, DefaultCompare, Ref(0), Ref(2)), Min, DefaultCompare)
  {
    HeadAndCarryOrdered();
    AsWrittenLinkDisordered();
    PrecedenceLinkOrdered();
  }
}
