/**
 * The state binheap_merge keeps between two passes of its loop, over the
 * union of two disjoint arenas: the heads `node1` and `node2` of the two
 * root lists, the carry `merged`, and the new root list `out`; and how a
 * link of two of the trees it holds keeps every root held exactly once.
 */
module Cursors {
  import opened Wrappers
  import opened Keys
  import opened Trees
  import opened TreeNodes

  /** The local variables of binheap_merge: the new root list, the two heads with what is left of their lists, and the carry. */
  datatype Cursor = Cursor(
    out: seq<NodeRef>,
    node1: Option<NodeRef>, rest1: seq<NodeRef>,
    node2: Option<NodeRef>, rest2: seq<NodeRef>,
    merged: Option<NodeRef>)

  /** Every tree the cursor holds: emitted, waiting in either list, at either head, or carried. */
  ghost function Pool(c: Cursor): multiset<NodeRef>
  {
    multiset(c.out) + multiset(c.rest1) + multiset(c.rest2) + OptBag(c.node1) + OptBag(c.node2) + OptBag(c.merged)
  }

  /** The number of trees not yet emitted. */
  function Pending(c: Cursor): nat
  {
    |c.rest1| + |c.rest2| + |OptBag(c.node1)| + |OptBag(c.node2)| + |OptBag(c.merged)|
  }

  /** The cursor holds every root of the arena exactly once, and a list is empty once its head is. */
  ghost predicate Held(nodes: Arena, c: Cursor)
  {
    && RootPool(nodes, Pool(c))
    && (c.node1.None? ==> c.rest1 == [])
    && (c.node2.None? ==> c.rest2 == [])
  }

  /** The loop invariant: the trees form a heap-ordered forest whose roots the cursor holds. */
  ghost predicate Inv(nodes: Arena, c: Cursor, rank: Ranks, bound: nat, mode: Mode, cmp: Comparator)
  {
    Forest(nodes, rank, bound, mode, cmp) && Closed(nodes) && Held(nodes, c)
  }

  /** The heads and the carry are distinct live roots. */
  ghost predicate Heads(nodes: Arena, c: Cursor)
  {
    && (c.node1.Some? ==> c.node1.value in nodes && nodes[c.node1.value].parent.None?)
    && (c.node2.Some? ==> c.node2.value in nodes && nodes[c.node2.value].parent.None?)
    && (c.merged.Some? ==> c.merged.value in nodes && nodes[c.merged.value].parent.None?)
    && (c.node1.Some? && c.node2.Some? ==> c.node1.value != c.node2.value)
    && (c.node1.Some? && c.merged.Some? ==> c.node1.value != c.merged.value)
    && (c.node2.Some? && c.merged.Some? ==> c.node2.value != c.merged.value)
  }

  /** Holding every root exactly once, the cursor's heads and carry are distinct live roots. */
  lemma Slots(nodes: Arena, c: Cursor)
    requires RootPool(nodes, Pool(c))
    ensures Heads(nodes, c)
  {
    var p := Pool(c);
    if c.node1.Some? { assert p[c.node1.value] >= 1; }
    if c.node2.Some? { assert p[c.node2.value] >= 1; }
    if c.merged.Some? { assert p[c.merged.value] >= 1; }
    if c.node1.Some? && c.node2.Some? {
      assert p[c.node1.value] >= 1 + (if c.node2.value == c.node1.value then 1 else 0);
    }
    if c.node1.Some? && c.merged.Some? {
      assert p[c.node1.value] >= 1 + (if c.merged.value == c.node1.value then 1 else 0);
    }
    if c.node2.Some? && c.merged.Some? {
      assert p[c.node2.value] >= 1 + (if c.merged.value == c.node2.value then 1 else 0);
    }
  }

  /** Linking the carry with the head of the second list, the winner in the head's place, drops the loser from the pool. */
  lemma LinkedSecondPool(c: Cursor, w: NodeRef, l: NodeRef)
    requires c.node2.Some? && c.merged.Some?
    requires (w, l) == (c.node2.value, c.merged.value) || (w, l) == (c.merged.value, c.node2.value)
    ensures Pool(c.(node2 := Some(w), merged := None)) == Pool(c) - multiset{l}
  {
  }

  /** Linking the two heads, the winner at the head of the first list and the second list moving on, drops the loser from the pool. */
  lemma LinkedHeadsPool(c: Cursor, w: NodeRef, l: NodeRef)
    requires c.node1.Some? && c.node2.Some?
    requires (w, l) == (c.node1.value, c.node2.value) || (w, l) == (c.node2.value, c.node1.value)
    ensures var s := Shift(c.rest2);
      Pool(c.(node1 := Some(w), node2 := s.0, rest2 := s.1)) == Pool(c) - multiset{l}
  {
  }

  /** Linking the carry with the head of the first list, the winner in the head's place, drops the loser from the pool. */
  lemma LinkedFirstPool(c: Cursor, w: NodeRef, l: NodeRef)
    requires c.node1.Some? && c.merged.Some?
    requires (w, l) == (c.node1.value, c.merged.value) || (w, l) == (c.merged.value, c.node1.value)
    ensures Pool(c.(node1 := Some(w), merged := None)) == Pool(c) - multiset{l}
  {
  }

  /** Linking the carry with the head of the first list, the winner in the head's place, keeps every root held once. */
  lemma LinkedFirst(nodes: Arena, c: Cursor, w: NodeRef, l: NodeRef)
    requires Held(nodes, c) && Heads(nodes, c) && c.node1.Some? && c.merged.Some?
    requires (w, l) == (c.node1.value, c.merged.value) || (w, l) == (c.merged.value, c.node1.value)
    ensures Held(Attach(nodes, w, l), c.(node1 := Some(w), merged := None))
  {
    LinkedFirstPool(c, w, l);
    LinkPool(nodes, Pool(c), w, l);
  }

  /** The same with the head of the second list. */
  lemma LinkedSecond(nodes: Arena, c: Cursor, w: NodeRef, l: NodeRef)
    requires Held(nodes, c) && Heads(nodes, c) && c.node2.Some? && c.merged.Some?
    requires (w, l) == (c.node2.value, c.merged.value) || (w, l) == (c.merged.value, c.node2.value)
    ensures Held(Attach(nodes, w, l), c.(node2 := Some(w), merged := None))
  {
    LinkedSecondPool(c, w, l);
    LinkPool(nodes, Pool(c), w, l);
  }

  /** Linking the two heads, the winner at the head of the first list and the second list moving on, keeps every root held once. */
  lemma LinkedHeads(nodes: Arena, c: Cursor, w: NodeRef, l: NodeRef)
    requires Held(nodes, c) && Heads(nodes, c) && c.node1.Some? && c.node2.Some?
    requires (w, l) == (c.node1.value, c.node2.value) || (w, l) == (c.node2.value, c.node1.value)
    ensures var s := Shift(c.rest2);
      Held(Attach(nodes, w, l), c.(node1 := Some(w), node2 := s.0, rest2 := s.1))
  {
    LinkedHeadsPool(c, w, l);
    LinkPool(nodes, Pool(c), w, l);
  }

  /**
   * Linking the carry with the head of the first list (`second` false) or
   * of the second list (`second` true), the winner taking the head's place,
   * keeps the loop invariant and every stored entry.
   */
  lemma LinkedCarryInv(nodes: Arena, c: Cursor, rank: Ranks, bound: nat, mode: Mode, cmp: Comparator, second: bool,
                        w: NodeRef, d: Cursor, ns: Arena, rk: Ranks, bd: nat)
    requires ComparatorLaws(cmp) && Inv(nodes, c, rank, bound, mode, cmp) && Heads(nodes, c) && c.merged.Some?
    requires if second then c.node2.Some? else c.node1.Some?
    requires w == Winner(nodes, mode, cmp, (if second then c.node2 else c.node1).value, c.merged.value)
    requires d == if second then c.(node2 := Some(w), merged := None) else c.(node1 := Some(w), merged := None)
    requires ns == Linked(nodes, mode, cmp, (if second then c.node2 else c.node1).value, c.merged.value)
    requires rk == Relinked(rank, w) && bd == bound + 1
    ensures Inv(ns, d, rk, bd, mode, cmp)
  {
    var n, m := (if second then c.node2 else c.node1).value, c.merged.value;
    var l := if w == n then m else n;
    if w == m {
      PrecedenceTotal(mode, cmp, nodes[n].key, nodes[m].key);
    }
    LinkForest(nodes, rank, bound, mode, cmp, w, l);
    AttachEntries(nodes, w, l);
    if second {
      LinkedSecond(nodes, c, w, l);
    } else {
      LinkedFirst(nodes, c, w, l);
    }
  }

  /** Linking the two heads, the winner at the head of the first list and the second list moving on, keeps the loop invariant. */
  lemma LinkedHeadsInv(nodes: Arena, c: Cursor, rank: Ranks, bound: nat, mode: Mode, cmp: Comparator,
                       w: NodeRef, d: Cursor, ns: Arena, rk: Ranks, bd: nat)
    requires ComparatorLaws(cmp) && Inv(nodes, c, rank, bound, mode, cmp) && Heads(nodes, c) && c.node1.Some? && c.node2.Some?
    requires w == Winner(nodes, mode, cmp, c.node1.value, c.node2.value)
    requires d == c.(node1 := Some(w), node2 := Shift(c.rest2).0, rest2 := Shift(c.rest2).1)
    requires ns == Linked(nodes, mode, cmp, c.node1.value, c.node2.value)
    requires rk == Relinked(rank, w) && bd == bound + 1
    ensures Inv(ns, d, rk, bd, mode, cmp)
  {
    var n1, n2 := c.node1.value, c.node2.value;
    var l := if w == n1 then n2 else n1;
    if w == n2 {
      PrecedenceTotal(mode, cmp, nodes[n1].key, nodes[n2].key);
    }
    LinkForest(nodes, rank, bound, mode, cmp, w, l);
    LinkedHeads(nodes, c, w, l);
  }
}
