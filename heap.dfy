/**
 * The binomial heap of binheap.c: the `trees` root list over the node arena,
 * the element count, the mode and the comparator. Every public operation is
 * a method of `BinomialHeap` that keeps `Valid()` and states its effect on
 * the stored entries (`Contents()`), on the multiset of stored keys
 * (`StoredKeys()`) and on the root list.
 */
module Heap {
  import opened Wrappers
  import opened Keys
  import opened Scans
  import opened Trees
  import opened TreeNodes
  import opened Carry
  import opened Search
  import opened Removal
  import opened Merging
  import opened Relabel
  import opened States

  /**
   * The state a removal of `x` leaves, with one entry fewer and the rank of
   * `DestroyedRank`, keeps the heap invariant and holds the old entries but
   * that of `x`.
   */
  lemma RemovalKeepsState(s: State, mode: Mode, cmp: Comparator, x: NodeRef, s2: State)
    requires Good(s, mode, cmp)
    requires Removed(s.nodes, s.rank, s.bound, mode, cmp, s.roots, x, s2.nodes, s2.roots)
    requires s2.count == s.count - 1 && s2.next == s.next && s2.bound == s.bound
    requires s2.rank == DestroyedRank(s.nodes, mode, cmp, s.rank, x)
    ensures Good(s2, mode, cmp)
    ensures EntriesOf(s.nodes)[x] == Entry(s.nodes[x].key, s.nodes[x].value)
    ensures EntriesOf(s2.nodes) == EntriesOf(s.nodes) - {x}
    ensures KeyBag(EntriesOf(s2.nodes)) == KeyBag(EntriesOf(s.nodes)) - multiset{s.nodes[x].key}
    ensures forall n :: n in EntriesOf(s2.nodes) ==> EntriesOf(s2.nodes)[n].key == s2.nodes[n].key
  {
  }

  /**
   * The merge of two valid heap states of the same mode and comparator:
   * the trees of both root lists merged into one valid state holding the
   * entries of both, with the counts added.
   */
  method MergeStates(s1: State, s2: State, mode: Mode, cmp: Comparator) returns (m: State)
    requires Good(s1, mode, cmp) && Good(s2, mode, cmp) && s1.nodes.Keys !! s2.nodes.Keys
    ensures Good(m, mode, cmp)
    ensures EntriesOf(m.nodes) == EntriesOf(s1.nodes) + EntriesOf(s2.nodes) && m.count == s1.count + s2.count
    ensures KeyBag(EntriesOf(m.nodes)) == KeyBag(EntriesOf(s1.nodes)) + KeyBag(EntriesOf(s2.nodes))
  {
    var nodes, roots;
    ghost var rank, bound;
    nodes, roots, rank, bound := MergeRoots(s1.nodes, s1.roots, s1.rank, s1.bound, s2.nodes, s2.roots, s2.rank, s2.bound, mode, cmp);
    var next := if s1.next < s2.next then s2.next else s1.next;
    m := State(nodes, roots, s1.count + s2.count, next, rank, bound);
    MergedState(s1, s2, m, mode, cmp);
  }

  class BinomialHeap {
    const mode: Mode
    const cmp: Comparator
    var st: State

    /** The heap invariant: a heap-ordered forest, its exact root list, the element count and the allocator. */
    ghost predicate Valid()
      reads this
    {
      Good(st, mode, cmp)
    }

    /** The stored entries, by node. */
    ghost function Contents(): map<NodeRef, Entry>
      reads this
    {
      EntriesOf(st.nodes)
    }

    /** The multiset of stored keys. */
    ghost function StoredKeys(): multiset<Key>
      reads this
    {
      KeyBag(EntriesOf(st.nodes))
    }

    /** binheap_create: an empty heap with the caller's comparator, or the default one when none is given. */
    constructor (userCmp: Option<Comparator>, mode: Mode)
      requires userCmp.Some? ==> ComparatorLaws(userCmp.value)
      ensures Valid() && Contents() == map[] && st.count == 0 && st.roots == []
      ensures this.mode == mode
      ensures userCmp.Some? ==> forall a, b :: cmp(a, b) == userCmp.value(a, b)
      ensures userCmp.None? ==> forall a, b :: cmp(a, b) == DefaultCompare(a, b)
    {
      this.mode := mode;
      if userCmp.Some? {
        cmp := userCmp.value;
      } else {
        cmp := DefaultCompare;
        DefaultCompareLaws();
      }
      st := State(map[], [], 0, 0, map[], 0);
    }

    /** binheap_count: the number of stored entries. */
    function Count(): (n: int)
      reads this
      requires Valid()
      ensures n == |Contents()| && n == |StoredKeys()|
    {
      KeyBagSize(EntriesOf(st.nodes));
      st.count
    }

    /**
     * binheap_insert: a new one-node tree of order 0 is carried along the
     * front of the root list, linked with every leading tree whose order
     * equals the carry's order; the carry then goes in front of the trees
     * left. The `k` leading trees consumed are exactly those whose order
     * equals their index.
     */
    method Insert(key: Key, value: Value) returns (id: NodeRef)
      requires Valid()
      modifies this
      ensures Valid()
      ensures id !in old(st.nodes) && Contents() == old(Contents())[id := Entry(key, value)]
      ensures st.count == old(st.count) + 1 && StoredKeys() == old(StoredKeys()) + multiset{key}
      ensures var k := CarryFrom(old(st.nodes), old(st.roots), 0);
        && |st.roots| > 0 && st.roots[1..] == old(st.roots)[k..]
        && Order(st.nodes, st.roots[0]) == k
      ensures OrdersAscending(old(st.nodes), old(st.roots)) ==> OrdersAscending(st.nodes, st.roots)
    {
      id := Ref(st.next);
      KeyBagAdd(EntriesOf(st.nodes), id, Entry(key, value));
      var nodes, roots;
      ghost var rank, bound;
      nodes, roots, rank, bound := InsertLeaf(st.nodes, st.rank, st.bound, mode, cmp, st.roots, id, key, value);
      st := State(nodes, roots, st.count + 1, st.next + 1, rank, bound);
    }

    /**
     * binheap_maximum (`dir` = Max) and binheap_minimum (`dir` = Min):
     * nothing for an empty heap; otherwise the entry at the root the scan
     * picks, or, in the mode opposite to `dir`, at the childless node the
     * descent from that root reaches. In the heap's own mode this is a
     * global extreme. The heap is not changed.
     */
    method Extreme(dir: Mode) returns (r: Option<Entry>)
      requires Valid()
      ensures r.None? <==> st.count == 0
      ensures var t := ExtremeNode(st.nodes, st.rank, st.bound, mode, cmp, st.roots, dir);
        r == if t.Some? then Some(Contents()[t.value]) else None
      ensures r.Some? && dir == mode ==> forall n :: n in Contents() ==> HasPrecedence(mode, cmp, r.value.key, Contents()[n].key)
      ensures r.Some? && dir != mode ==> forall j :: 0 <= j < |st.roots| ==> HasPrecedence(dir, cmp, r.value.key, Contents()[st.roots[j]].key)
    {
      ExtremeNodeMeaning(st.nodes, st.rank, st.bound, mode, cmp, st.roots, dir);
      var node, i := MaxMin(st.nodes, cmp, st.roots, dir);
      if node.None? {
        return None;
      }
      var x := node.value;
      if dir != mode {
        x := DescendTo(st.nodes, st.rank, st.bound, mode, cmp, dir, x);
      }
      r := Some(Entry(st.nodes[x].key, st.nodes[x].value));
    }

    /**
     * binheap_delete_minimum (`dir` = Min) and binheap_delete_maximum (`dir`
     * = Max): nothing happens to an empty heap; otherwise the node that
     * `Extreme(dir)` reports is destroyed and its value returned. In the
     * heap's own mode its key has precedence over every key left, so
     * repeated extraction yields the keys in precedence order. A root leaves
     * the root list at its index, replaced by its promoted child; removing
     * a node below a root leaves the root list as it is.
     */
    method DeleteExtreme(dir: Mode) returns (r: Option<Value>)
      requires Valid()
      modifies this
      ensures Valid()
      ensures r.None? <==> old(st.count) == 0
      ensures r.None? ==> st == old(st)
      ensures var t := ExtremeNode(old(st.nodes), old(st.rank), old(st.bound), mode, cmp, old(st.roots), dir);
        t.Some? ==>
        var e := old(Contents())[t.value];
        && r == Some(e.value)
        && Contents() == old(Contents()) - {t.value}
        && st.count == old(st.count) - 1
        && StoredKeys() == old(StoredKeys()) - multiset{e.key}
        && (dir == mode ==> forall n :: n in Contents() ==> HasPrecedence(mode, cmp, e.key, Contents()[n].key))
        && Removed(old(st.nodes), old(st.rank), old(st.bound), mode, cmp, old(st.roots), t.value, st.nodes, st.roots)
    {
      var t, ns, rts := ExtractExtreme(st.nodes, st.rank, st.bound, mode, cmp, st.roots, dir);
      if t.None? {
        return None;
      }
      var x := t.value;
      r := Some(st.nodes[x].value);
      ghost var s0 := st;
      st := State(ns, rts, st.count - 1, st.next, DestroyedRank(st.nodes, mode, cmp, st.rank, x), st.bound);
      RemovalKeepsState(s0, mode, cmp, x, st);
    }

    /**
     * binheap_delete: the node the guided search finds, whose key compares
     * equal to `key`, is destroyed and its value returned; when the search
     * finds nothing the heap is unchanged. A root found this way is replaced
     * in the root list by its promoted child.
     */
    method Delete(key: Key) returns (r: Option<Value>)
      requires Valid()
      modifies this
      ensures Valid()
      ensures var t := DeleteTarget(old(st.nodes), old(st.rank), old(st.bound), mode, cmp, old(st.roots), key);
        && (t.None? ==> r.None? && st == old(st))
        && (t.Some? ==>
              var e := old(Contents())[t.value];
              && r == Some(e.value)
              && cmp(e.key, key) == 0
              && Contents() == old(Contents()) - {t.value}
              && st.count == old(st.count) - 1
              && StoredKeys() == old(StoredKeys()) - multiset{e.key}
              && Removed(old(st.nodes), old(st.rank), old(st.bound), mode, cmp, old(st.roots), t.value, st.nodes, st.roots))
    {
      var t, ns, rts := RemoveKey(st.nodes, st.rank, st.bound, mode, cmp, st.roots, key);
      if t.None? {
        return None;
      }
      var x := t.value;
      r := Some(st.nodes[x].value);
      ghost var s0 := st;
      st := State(ns, rts, st.count - 1, st.next, DestroyedRank(st.nodes, mode, cmp, st.rank, x), st.bound);
      RemovalKeepsState(s0, mode, cmp, x, st);
    }

    /**
     * binheap_merge: heaps of different modes are refused and both are left
     * as they were. Otherwise the trees of both root lists are merged into a
     * new root list of this heap, which then holds the entries of both, with
     * the counts added; the other heap is drained. The other heap's nodes are
     * taken over under identities moved above every identity of this heap.
     */
    method Merge(other: BinomialHeap) returns (ok: bool)
      requires Valid() && other.Valid() && other != this
      requires mode == other.mode ==> forall a, b :: other.cmp(a, b) == cmp(a, b)
      modifies this, other
      ensures ok <==> mode == other.mode
      ensures !ok ==> st == old(st) && other.st == old(other.st)
      ensures ok ==> Valid() && other.Valid()
      ensures ok ==> Contents() == old(Contents()) + MoveKeys(old(other.Contents()), old(st.next))
      ensures ok ==> st.count == old(st.count) + old(other.st.count)
      ensures ok ==> StoredKeys() == old(StoredKeys()) + old(other.StoredKeys())
      ensures ok ==> other.st.roots == [] && other.Contents() == map[] && other.st.count == 0
    {
      if mode != other.mode {
        return false;
      }
      ok := true;
      SameComparatorGood(other.st, mode, other.cmp, cmp);
      var moved := Moved(other.st, st.next);
      MovedGood(other.st, mode, cmp, st.next);
      EntriesMoved(other.st.nodes, st.next);
      KeysMoved(other.st.nodes, st.next);
      assert st.nodes.Keys !! moved.nodes.Keys by {
        forall n | n in st.nodes ensures n !in moved.nodes {
          assert n.addr < st.next;
        }
      }
      var merged := MergeStates(st, moved, mode, cmp);
      var drained := State(map[], [], 0, other.st.next, map[], 0);
      DrainedState(drained, mode, other.cmp);
      st := merged;
      other.st := drained;
    }
  }
}
