/**
 * The fields of binheap_t that the heap operations update, the invariant
 * they keep, and the facts about whole states that the merge needs: a
 * merged state, a drained state, a state under an agreeing comparator and a
 * state whose node identities are moved.
 */
module States {
  import opened Wrappers
  import opened Keys
  import opened Trees
  import opened Relabel

  /**
   * The fields of binheap_t that its operations update, with the memory
   * they reach: the live nodes by identity, the `trees` root list,
   * `count`, the allocator's next fresh identity, and (for the proofs only)
   * the rank that witnesses that the parent links form a forest.
   */
  datatype State = State(nodes: Arena, roots: seq<NodeRef>, count: int, next: nat, ghost rank: Ranks, ghost bound: nat)

  /** A heap state: a heap-ordered forest, its exact root list, the element count and the allocator. */
  ghost predicate Good(s: State, mode: Mode, cmp: Comparator)
  {
    && ComparatorLaws(cmp)
    && Forest(s.nodes, s.rank, s.bound, mode, cmp) && Closed(s.nodes)
    && RootsExact(s.nodes, s.roots)
    && s.count == |s.nodes|
    && (forall n :: n in s.nodes ==> n.addr < s.next)
  }

  /** Two valid states whose arenas `MergeRoots` combined into `m`, with the counts added, give a valid state. */
  lemma MergedState(s1: State, s2: State, m: State, mode: Mode, cmp: Comparator)
    requires ComparatorLaws(cmp)
    requires s1.count == |s1.nodes| && forall n :: n in s1.nodes ==> n.addr < s1.next
    requires s2.count == |s2.nodes| && forall n :: n in s2.nodes ==> n.addr < s2.next
    requires Forest(m.nodes, m.rank, m.bound, mode, cmp) && Closed(m.nodes) && RootsExact(m.nodes, m.roots)
    requires m.nodes.Keys == s1.nodes.Keys + s2.nodes.Keys && |m.nodes| == |s1.nodes| + |s2.nodes|
    requires m.count == s1.count + s2.count && m.next == if s1.next < s2.next then s2.next else s1.next
    ensures Good(m, mode, cmp)
  {
    forall n | n in m.nodes ensures n.addr < m.next {
      assert n in s1.nodes || n in s2.nodes;
    }
  }

  /** The state a drained heap is left in is valid and holds nothing. */
  lemma DrainedState(d: State, mode: Mode, cmp: Comparator)
    requires ComparatorLaws(cmp)
    requires d.nodes == map[] && d.roots == [] && d.count == 0 && d.rank == map[] && d.bound == 0
    ensures Good(d, mode, cmp) && EntriesOf(d.nodes) == map[]
  {
    EmptyForest(mode, cmp);
  }

  /** A valid state stays valid under a comparator that agrees with its own on every pair of keys. */
  lemma SameComparatorGood(s: State, mode: Mode, c1: Comparator, c2: Comparator)
    requires Good(s, mode, c1) && ComparatorLaws(c2) && forall a, b :: c1(a, b) == c2(a, b)
    ensures Good(s, mode, c2)
  {
    SameComparatorForest(s.nodes, s.rank, s.bound, mode, c1, c2);
  }

  /** The state `s` with every node identity moved up by `k`, and its allocator with it. */
  function Moved(s: State, k: nat): State
  {
    State(MoveArena(s.nodes, k), BumpAll(s.roots, k), s.count, s.next + k, MoveKeys(s.rank, k), s.bound)
  }

  /** Moving the node identities of a valid state keeps it valid. */
  lemma MovedGood(s: State, mode: Mode, cmp: Comparator, k: nat)
    requires Good(s, mode, cmp)
    ensures Good(Moved(s, k), mode, cmp)
  {
    MovedParts(s.nodes, s.roots, s.rank, s.bound, mode, cmp, k);
    MovedBelow(s.nodes, s.next, k);
  }
}
