/**
 * Moving a whole arena to fresh node identities. Each heap numbers its nodes
 * from its own allocator, so before binheap_merge takes over the trees of the
 * other heap their nodes are given identities offset by `k`, above every
 * node of this heap. The offset is injective, so the forest, the root list,
 * the entries and the stored keys are carried over unchanged.
 */
module Relabel {
  import opened Wrappers
  import opened Keys
  import opened Trees

  /** The identity that `Bump` moved to `m`. */
  function Back(m: NodeRef, k: nat): (n: NodeRef)
    requires m.addr >= k
    ensures n.addr + k == m.addr
  {
    Ref(m.addr - k)
  }

  /** The identity `n` moved up by `k`; `Back` undoes it. */
  function Bump(n: NodeRef, k: nat): (m: NodeRef)
    ensures m.addr == n.addr + k && Back(m, k) == n
  {
    Ref(n.addr + k)
  }

  /** Every identity of `s` moved up by `k`, in order. */
  function BumpAll(s: seq<NodeRef>, k: nat): (r: seq<NodeRef>)
    ensures |r| == |s| && forall i :: 0 <= i < |s| ==> r[i] == Bump(s[i], k)
  {
    seq(|s|, i requires 0 <= i < |s| => Bump(s[i], k))
  }

  /** A node record whose parent and children are moved up by `k`. */
  function BumpNode(nd: Node, k: nat): (r: Node)
    ensures r.key == nd.key && r.value == nd.value
    ensures r.parent.Some? <==> nd.parent.Some?
    ensures r.parent.Some? ==> r.parent.value == Bump(nd.parent.value, k)
    ensures r.children == BumpAll(nd.children, k)
  {
    var p := if nd.parent.Some? then Some(Bump(nd.parent.value, k)) else None;
    Node(nd.key, nd.value, p, BumpAll(nd.children, k))
  }

  /** The map `m` with every key moved up by `k`. */
  function MoveKeys<V>(m: map<NodeRef, V>, k: nat): (r: map<NodeRef, V>)
    ensures forall n {:trigger n in m} :: n in m ==> Bump(n, k) in r && r[Bump(n, k)] == m[n]
    ensures forall x :: x in r ==> x.addr >= k && Back(x, k) in m
  {
    map n | n in m :: Bump(n, k) := m[n]
  }

  /** The arena `nodes` with every identity, and every link, moved up by `k`. */
  function MoveArena(nodes: Arena, k: nat): (r: Arena)
    ensures forall n {:trigger n in nodes} :: n in nodes ==> Bump(n, k) in r && r[Bump(n, k)] == BumpNode(nodes[n], k)
    ensures forall x :: x in r ==> x.addr >= k && Back(x, k) in nodes
  {
    map n | n in nodes :: Bump(n, k) := BumpNode(nodes[n], k)
  }

  /** An identity is in the moved sequence exactly when the one it came from is in `s`. */
  lemma BumpAllMembers(s: seq<NodeRef>, k: nat)
    ensures forall n :: n in s ==> Bump(n, k) in BumpAll(s, k)
    ensures forall x :: x in BumpAll(s, k) ==> x.addr >= k && Back(x, k) in s
    ensures NoDup(s) ==> NoDup(BumpAll(s, k))
  {
    var r := BumpAll(s, k);
    forall n | n in s ensures Bump(n, k) in r {
      var i :| 0 <= i < |s| && s[i] == n;
      assert r[i] == Bump(n, k);
    }
    forall x | x in r ensures x.addr >= k && Back(x, k) in s {
      var i :| 0 <= i < |r| && r[i] == x;
      assert Back(x, k) == s[i];
    }
  }

  /** The keys stored at the moved nodes are the keys stored at the nodes they came from. */
  lemma {:induction false} BagOfMoved(m: map<NodeRef, Entry>, k: nat, s: set<NodeRef>)
    requires s <= m.Keys
    ensures (set n | n in s :: Bump(n, k)) <= MoveKeys(m, k).Keys
    ensures BagOf(MoveKeys(m, k), set n | n in s :: Bump(n, k)) == BagOf(m, s)
    decreases s
  {
    var r := MoveKeys(m, k);
    var img := set n | n in s :: Bump(n, k);
    if s != {} {
      var y :| y in s;
      var rest := set n | n in s - {y} :: Bump(n, k);
      assert img - {Bump(y, k)} == rest by {
        forall x | x in img - {Bump(y, k)} ensures x in rest {
          var n :| n in s && x == Bump(n, k);
          assert n != y;
        }
      }
      BagOfMoved(m, k, s - {y});
      BagOfRemove(m, s, y);
      BagOfRemove(r, img, Bump(y, k));
    } else {
      assert img == {};
    }
  }

  /** Moving the entries keeps the multiset of stored keys and the number of entries. */
  lemma KeyBagMoved(m: map<NodeRef, Entry>, k: nat)
    ensures KeyBag(MoveKeys(m, k)) == KeyBag(m)
    ensures |MoveKeys(m, k)| == |m|
  {
    var r := MoveKeys(m, k);
    assert (set n | n in m.Keys :: Bump(n, k)) == r.Keys by {
      forall x | x in r.Keys ensures x in (set n | n in m.Keys :: Bump(n, k)) {
        assert x == Bump(Back(x, k), k);
      }
    }
    BagOfMoved(m, k, m.Keys);
    KeyBagSize(m);
    KeyBagSize(r);
  }

  /** The entries of the moved arena are the moved entries. */
  lemma EntriesMoved(nodes: Arena, k: nat)
    ensures EntriesOf(MoveArena(nodes, k)) == MoveKeys(EntriesOf(nodes), k)
  {
    var a := EntriesOf(MoveArena(nodes, k));
    var b := MoveKeys(EntriesOf(nodes), k);
    forall x | x in a ensures x in b && a[x] == b[x] {
      assert x == Bump(Back(x, k), k);
    }
    forall x | x in b ensures x in a {
      assert x == Bump(Back(x, k), k);
    }
  }

  /** The moved arena stores the same multiset of keys. */
  lemma KeysMoved(nodes: Arena, k: nat)
    ensures KeyBag(EntriesOf(MoveArena(nodes, k))) == KeyBag(EntriesOf(nodes))
  {
    var e := MoveKeys(EntriesOf(nodes), k);
    EntriesMoved(nodes, k);
    KeyBagMoved(EntriesOf(nodes), k);
    assert KeyBag(EntriesOf(MoveArena(nodes, k))) == KeyBag(e);
  }

  /** The children of a moved node are the moved children of the node it came from. */
  lemma MovedChild(nodes: Arena, k: nat, p: NodeRef, c: NodeRef)
    requires p in MoveArena(nodes, k) && c in MoveArena(nodes, k)[p].children
    ensures Back(p, k) in nodes && c.addr >= k && Back(c, k) in nodes[Back(p, k)].children
  {
    BumpAllMembers(nodes[Back(p, k)].children, k);
  }

  /** Every child of a moved node lists it back as its parent. */
  lemma MovedChildrenLinked(nodes: Arena, k: nat)
    requires ChildrenLinked(nodes)
    ensures ChildrenLinked(MoveArena(nodes, k))
  {
    var r := MoveArena(nodes, k);
    forall p, c | p in r && c in r[p].children ensures c in r && r[c].parent == Some(p) {
      MovedChild(nodes, k, p, c);
      var c0 := Back(c, k);
      assert nodes[c0].parent == Some(Back(p, k));
      assert r[Bump(c0, k)] == BumpNode(nodes[c0], k);
    }
  }

  /** A moved node with a live parent is among that parent's children. */
  lemma MovedParentsLinked(nodes: Arena, k: nat)
    requires ParentsLinked(nodes)
    ensures ParentsLinked(MoveArena(nodes, k))
  {
    var r := MoveArena(nodes, k);
    forall n | n in r && r[n].parent.Some? && r[n].parent.value in r
      ensures n in r[r[n].parent.value].children
    {
      var n0 := Back(n, k);
      assert r[Bump(n0, k)] == BumpNode(nodes[n0], k);
      var q0 := nodes[n0].parent.value;
      assert r[n].parent.value == Bump(q0, k);
      assert q0 in nodes && n0 in nodes[q0].children;
      assert r[Bump(q0, k)] == BumpNode(nodes[q0], k);
      BumpAllMembers(nodes[q0].children, k);
    }
  }

  /** Moved children are still free of duplicates. */
  lemma MovedDistinct(nodes: Arena, k: nat)
    requires DistinctChildren(nodes)
    ensures DistinctChildren(MoveArena(nodes, k))
  {
    var r := MoveArena(nodes, k);
    forall p | p in r ensures NoDup(r[p].children) {
      var p0 := Back(p, k);
      assert r[Bump(p0, k)] == BumpNode(nodes[p0], k);
      BumpAllMembers(nodes[p0].children, k);
    }
  }

  /** Moving keeps the heap order and the ranks. */
  lemma MovedOrderedRanked(nodes: Arena, rank: Ranks, bound: nat, mode: Mode, cmp: Comparator, k: nat)
    requires HeapOrdered(nodes, mode, cmp) && Ranked(nodes, rank, bound)
    ensures HeapOrdered(MoveArena(nodes, k), mode, cmp) && Ranked(MoveArena(nodes, k), MoveKeys(rank, k), bound)
  {
    var r := MoveArena(nodes, k);
    var rk := MoveKeys(rank, k);
    forall p, c | p in r && c in r[p].children && c in r
      ensures HasPrecedence(mode, cmp, r[p].key, r[c].key) && p in rk && c in rk && rk[p] < rk[c]
    {
      MovedChild(nodes, k, p, c);
      var p0, c0 := Back(p, k), Back(c, k);
      assert r[Bump(p0, k)] == BumpNode(nodes[p0], k) && r[Bump(c0, k)] == BumpNode(nodes[c0], k);
      assert rk[Bump(p0, k)] == rank[p0] && rk[Bump(c0, k)] == rank[c0];
    }
    forall n | n in r ensures n in rk && rk[n] < bound {
      assert n == Bump(Back(n, k), k);
    }
  }

  /** Moving an arena keeps the forest invariant, under the moved ranks, and keeps it closed. */
  lemma MovedForest(nodes: Arena, rank: Ranks, bound: nat, mode: Mode, cmp: Comparator, k: nat)
    requires Forest(nodes, rank, bound, mode, cmp) && Closed(nodes)
    ensures Forest(MoveArena(nodes, k), MoveKeys(rank, k), bound, mode, cmp) && Closed(MoveArena(nodes, k))
  {
    var r := MoveArena(nodes, k);
    MovedChildrenLinked(nodes, k);
    MovedParentsLinked(nodes, k);
    MovedDistinct(nodes, k);
    MovedOrderedRanked(nodes, rank, bound, mode, cmp, k);
    forall n | n in r && r[n].parent.Some? ensures r[n].parent.value in r {
      var n0 := Back(n, k);
      assert r[Bump(n0, k)] == BumpNode(nodes[n0], k);
      assert r[n].parent.value == Bump(nodes[n0].parent.value, k);
    }
  }

  /** Moving an arena and its root list keeps the root list exact. */
  lemma MovedRoots(nodes: Arena, roots: seq<NodeRef>, k: nat)
    requires RootsExact(nodes, roots)
    ensures RootsExact(MoveArena(nodes, k), BumpAll(roots, k))
  {
    var r := MoveArena(nodes, k);
    BumpAllMembers(roots, k);
    forall x | x in BumpAll(roots, k) ensures x in r && r[x].parent.None? {
      assert x == Bump(Back(x, k), k);
    }
    forall n | n in r && r[n].parent.None? ensures n in BumpAll(roots, k) {
      assert n == Bump(Back(n, k), k);
    }
  }

  /** Moving an arena keeps the forest, the exact root list and the number of nodes. */
  lemma MovedParts(nodes: Arena, roots: seq<NodeRef>, rank: Ranks, bound: nat, mode: Mode, cmp: Comparator, k: nat)
    ensures Forest(nodes, rank, bound, mode, cmp) && Closed(nodes) ==>
      Forest(MoveArena(nodes, k), MoveKeys(rank, k), bound, mode, cmp) && Closed(MoveArena(nodes, k))
    ensures RootsExact(nodes, roots) ==> RootsExact(MoveArena(nodes, k), BumpAll(roots, k))
    ensures |MoveArena(nodes, k)| == |nodes|
  {
    if Forest(nodes, rank, bound, mode, cmp) && Closed(nodes) {
      MovedForest(nodes, rank, bound, mode, cmp, k);
    }
    if RootsExact(nodes, roots) {
      MovedRoots(nodes, roots, k);
    }
    MovedSize(nodes, k);
  }

  /** Moving an arena keeps its number of nodes. */
  lemma MovedSize(nodes: Arena, k: nat)
    ensures |MoveArena(nodes, k)| == |nodes|
  {
    EntriesMoved(nodes, k);
    KeyBagMoved(EntriesOf(nodes), k);
    assert |MoveArena(nodes, k)| == |EntriesOf(MoveArena(nodes, k))|;
  }

  /** Identities below `next` are moved below `next + k`. */
  lemma MovedBelow(nodes: Arena, next: nat, k: nat)
    ensures (forall n :: n in nodes ==> n.addr < next) ==> forall n :: n in MoveArena(nodes, k) ==> k <= n.addr < next + k
  {
    if forall n :: n in nodes ==> n.addr < next {
      forall n | n in MoveArena(nodes, k) ensures k <= n.addr < next + k {
        assert Back(n, k).addr < next;
      }
    }
  }
}
