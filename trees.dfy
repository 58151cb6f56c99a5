/**
 * The binomial-tree forest as an arena: every live node is an entry of a map
 * from node identities to node records holding the key, the value, the parent
 * link and the ordered children. This module states the forest invariant, the
 * effect of the linkage primitives and of node destruction as functions on
 * arenas, and proves that they keep the invariant.
 */
module Trees {
  import opened Wrappers
  import opened Keys
  import opened Scans

  /** The identity of a tree node: the address its allocation returns, as a number no live node holds. */
  datatype NodeRef = Ref(addr: nat)

  /** The caller's value payload, stored and returned but never inspected. */
  type Value = int

  /** binomial_tree_node_t, without the back-reference to the heap (mode and comparator are passed instead). */
  datatype Node = Node(key: Key, value: Value, parent: Option<NodeRef>, children: seq<NodeRef>)

  /** A stored key with its value, as a caller sees it. */
  datatype Entry = Entry(key: Key, value: Value)

  type Arena = map<NodeRef, Node>
  type Ranks = map<NodeRef, nat>

  /** num_children: the order of a binomial tree. */
  function Order(nodes: Arena, n: NodeRef): nat
    requires n in nodes
  {
    |nodes[n].children|
  }

  /** A node without a live parent: either none or one that has been destroyed. */
  predicate Detached(nodes: Arena, n: NodeRef)
    requires n in nodes
  {
    nodes[n].parent.None? || nodes[n].parent.value !in nodes
  }

  /** Every child lists its parent back. */
  ghost predicate ChildrenLinked(nodes: Arena)
  {
    forall p, c {:trigger c in nodes[p].children} :: p in nodes && c in nodes[p].children ==> c in nodes && nodes[c].parent == Some(p)
  }

  /** Every node whose parent is live is listed among that parent's children. */
  ghost predicate ParentsLinked(nodes: Arena)
  {
    forall n :: n in nodes && nodes[n].parent.Some? && nodes[n].parent.value in nodes ==>
      n in nodes[nodes[n].parent.value].children
  }

  ghost predicate DistinctChildren(nodes: Arena)
  {
    forall p :: p in nodes ==> NoDup(nodes[p].children)
  }

  /** Heap order: no child has precedence over its parent; the parent has precedence over the child. */
  ghost predicate HeapOrdered(nodes: Arena, mode: Mode, cmp: Comparator)
  {
    forall p, c {:trigger c in nodes[p].children} :: p in nodes && c in nodes[p].children && c in nodes ==>
      HasPrecedence(mode, cmp, nodes[p].key, nodes[c].key)
  }

  /** A ghost rank below `bound` that grows from parent to child witnesses that the links form a forest. */
  ghost predicate Ranked(nodes: Arena, rank: Ranks, bound: nat)
  {
    && (forall n :: n in nodes ==> n in rank && rank[n] < bound)
    && (forall p, c {:trigger c in nodes[p].children} :: p in nodes && c in nodes[p].children && c in nodes ==> p in rank && c in rank && rank[p] < rank[c])
  }

  /** The forest invariant. */
  ghost predicate Forest(nodes: Arena, rank: Ranks, bound: nat, mode: Mode, cmp: Comparator)
  {
    ChildrenLinked(nodes) && ParentsLinked(nodes) && DistinctChildren(nodes) && HeapOrdered(nodes, mode, cmp) && Ranked(nodes, rank, bound)
  }

  /** No parent link points at a destroyed node. */
  ghost predicate Closed(nodes: Arena)
  {
    forall n :: n in nodes && nodes[n].parent.Some? ==> nodes[n].parent.value in nodes
  }

  /** A multiset of node identities holding every parentless node exactly once and nothing else. */
  ghost predicate RootPool(nodes: Arena, pool: multiset<NodeRef>)
  {
    && (forall x :: x in pool ==> x in nodes && nodes[x].parent.None? && pool[x] == 1)
    && (forall x :: x in nodes && nodes[x].parent.None? ==> pool[x] == 1)
  }

  /** The stored entries, by node. */
  ghost function EntriesOf(nodes: Arena): (m: map<NodeRef, Entry>)
    ensures m.Keys == nodes.Keys
  {
    map n | n in nodes :: Entry(nodes[n].key, nodes[n].value)
  }

  /** The keys of a sequence of nodes. */
  ghost function KeysOf(nodes: Arena, ids: seq<NodeRef>): (ks: seq<Key>)
    requires forall x :: x in ids ==> x in nodes
    ensures |ks| == |ids| && forall i :: 0 <= i < |ids| ==> ks[i] == nodes[ids[i]].key
  {
    seq(|ids|, i requires 0 <= i < |ids| => nodes[ids[i]].key)
  }

  /** Root orders strictly ascending along the root list. */
  ghost predicate OrdersAscending(nodes: Arena, roots: seq<NodeRef>)
    requires forall x :: x in roots ==> x in nodes
  {
    forall i, j :: 0 <= i < j < |roots| ==> Order(nodes, roots[i]) < Order(nodes, roots[j])
  }

  /** The number of leading roots, from index `i` on, whose order equals their index: the carry length of an insertion. */
  ghost function CarryFrom(nodes: Arena, roots: seq<NodeRef>, i: nat): (k: nat)
    requires i <= |roots| && forall x :: x in roots ==> x in nodes
    ensures i <= k <= |roots|
    ensures forall j :: i <= j < k ==> Order(nodes, roots[j]) == j
    ensures k < |roots| ==> Order(nodes, roots[k]) != k
    decreases |roots| - i
  {
    if i < |roots| && Order(nodes, roots[i]) == i then CarryFrom(nodes, roots, i + 1) else i
  }

  // ---------------------------------------------------------------------------
  // Facts read off the invariant

  lemma ChildFacts(nodes: Arena, rank: Ranks, bound: nat, mode: Mode, cmp: Comparator, p: NodeRef, c: NodeRef)
    requires Forest(nodes, rank, bound, mode, cmp) && p in nodes && c in nodes[p].children
    ensures c in nodes && nodes[c].parent == Some(p) && c != p
    ensures HasPrecedence(mode, cmp, nodes[p].key, nodes[c].key)
    ensures p in rank && c in rank && rank[p] < rank[c] < bound
  {
  }

  lemma ParentFacts(nodes: Arena, rank: Ranks, bound: nat, mode: Mode, cmp: Comparator, n: NodeRef)
    requires Forest(nodes, rank, bound, mode, cmp) && Closed(nodes) && n in nodes && nodes[n].parent.Some?
    ensures nodes[n].parent.value in nodes && n in nodes[nodes[n].parent.value].children
    ensures HasPrecedence(mode, cmp, nodes[nodes[n].parent.value].key, nodes[n].key)
    ensures rank[nodes[n].parent.value] < rank[n]
  {
    ChildFacts(nodes, rank, bound, mode, cmp, nodes[n].parent.value, n);
  }

  /** A node's children are live, distinct from it and from its parent. */
  lemma NodeFacts(nodes: Arena, rank: Ranks, bound: nat, mode: Mode, cmp: Comparator, x: NodeRef)
    requires Forest(nodes, rank, bound, mode, cmp) && Closed(nodes) && x in nodes
    ensures forall c :: c in nodes[x].children ==> c in nodes && c != x && nodes[c].parent == Some(x)
    ensures nodes[x].parent.Some? ==>
      var p := nodes[x].parent.value;
      p in nodes && p != x && x in nodes[p].children && p !in nodes[x].children
  {
    forall c | c in nodes[x].children ensures c in nodes && c != x && nodes[c].parent == Some(x) {
      ChildFacts(nodes, rank, bound, mode, cmp, x, c);
    }
    if nodes[x].parent.Some? {
      ParentFacts(nodes, rank, bound, mode, cmp, x);
      var p := nodes[x].parent.value;
      if p in nodes[x].children {
        ChildFacts(nodes, rank, bound, mode, cmp, x, p);
      }
    }
  }

  /** A root-list sequence that is an exact root pool lists live parentless nodes, once each, and all of them. */
  lemma RootPoolMembers(nodes: Arena, s: seq<NodeRef>)
    requires RootPool(nodes, multiset(s))
    ensures forall x :: x in s ==> x in nodes && nodes[x].parent.None?
    ensures forall n :: n in nodes && nodes[n].parent.None? ==> n in s
    ensures NoDup(s)
  {
    forall x | x in s ensures x in nodes && nodes[x].parent.None? {
      assert multiset(s)[x] > 0;
    }
    forall n | n in nodes && nodes[n].parent.None? ensures n in s {
      assert multiset(s)[n] == 1;
    }
    forall i, j | 0 <= i < j < |s| ensures s[i] != s[j] {
      RepeatCounted(s, i, j);
    }
  }

  lemma RepeatCounted<T>(s: seq<T>, i: nat, j: nat)
    requires i < j < |s|
    ensures s[i] == s[j] ==> multiset(s)[s[i]] >= 2
  {
    if s[i] == s[j] {
      assert s == s[..j] + [s[j]] + s[j + 1..];
      assert s[i] in s[..j];
      assert multiset(s)[s[i]] >= multiset(s[..j])[s[i]] + 1;
    }
  }

  // ---------------------------------------------------------------------------
  // Linkage primitives

  /** binomial_tree_node_add / binomial_tree_merge: append `c` to the children of `p` and make `p` its parent. */
  function Attach(nodes: Arena, p: NodeRef, c: NodeRef): (r: Arena)
    requires p in nodes && c in nodes && p != c
    ensures r.Keys == nodes.Keys
    ensures forall n :: n in nodes && n != p && n != c ==> r[n] == nodes[n]
  {
    nodes[p := nodes[p].(children := nodes[p].children + [c])][c := nodes[c].(parent := Some(p))]
  }

  /** Which of two roots binomial_tree_merge keeps as the parent: the one with precedence, `a` on a tie. */
  function Winner(nodes: Arena, mode: Mode, cmp: Comparator, a: NodeRef, b: NodeRef): NodeRef
    requires a in nodes && b in nodes
  {
    if HasPrecedence(mode, cmp, nodes[a].key, nodes[b].key) then a else b
  }

  /** The arena after binomial_tree_merge of the roots `a` and `b`: the loser becomes the winner's last child. */
  function Linked(nodes: Arena, mode: Mode, cmp: Comparator, a: NodeRef, b: NodeRef): Arena
    requires a in nodes && b in nodes && a != b
  {
    var w := Winner(nodes, mode, cmp, a, b);
    Attach(nodes, w, if w == a then b else a)
  }

  /** Attaching every node of `cs`, in order, under `p`. */
  function AttachAll(nodes: Arena, p: NodeRef, cs: seq<NodeRef>): (r: Arena)
    requires p in nodes && p !in cs && NoDup(cs) && forall c :: c in cs ==> c in nodes
    ensures r.Keys == nodes.Keys
    ensures r[p] == nodes[p].(children := nodes[p].children + cs)
    ensures forall c :: c in cs ==> r[c] == nodes[c].(parent := Some(p))
    ensures forall n :: n in nodes && n != p && n !in cs ==> r[n] == nodes[n]
    decreases |cs|
  {
    if cs == [] then nodes
    else
      var init := cs[..|cs| - 1];
      var last := cs[|cs| - 1];
      assert cs == init + [last];
      assert forall c :: c in init ==> c != last;
      Attach(AttachAll(nodes, p, init), p, last)
  }

  /** Attaching one more node of `cs` extends the attachment of the prefix before it. */
  lemma AttachAllSnoc(nodes: Arena, p: NodeRef, cs: seq<NodeRef>, i: nat)
    requires p in nodes && p !in cs && NoDup(cs) && forall c :: c in cs ==> c in nodes
    requires i < |cs|
    ensures NoDup(cs[..i]) && NoDup(cs[..i + 1]) && cs[i] in nodes && cs[i] != p
    ensures p in AttachAll(nodes, p, cs[..i])
    ensures AttachAll(nodes, p, cs[..i + 1]) == Attach(AttachAll(nodes, p, cs[..i]), p, cs[i])
  {
    assert cs[..i + 1][..i] == cs[..i];
  }

  lemma AttachChildrenLinked(nodes: Arena, p: NodeRef, c: NodeRef)
    requires ChildrenLinked(nodes) && p in nodes && c in nodes && p != c && Detached(nodes, c)
    ensures ChildrenLinked(Attach(nodes, p, c))
  {
    var r := Attach(nodes, p, c);
    forall q, d | q in r && d in r[q].children ensures d in r && r[d].parent == Some(q) {
      if q == p && d == c {
      } else {
        assert d in nodes[q].children;
      }
    }
  }

  lemma AttachParentsLinked(nodes: Arena, p: NodeRef, c: NodeRef)
    requires ParentsLinked(nodes) && p in nodes && c in nodes && p != c
    ensures ParentsLinked(Attach(nodes, p, c))
  {
    var r := Attach(nodes, p, c);
    forall n | n in r && r[n].parent.Some? && r[n].parent.value in r
      ensures n in r[r[n].parent.value].children
    {
      if n != c {
        assert r[n].parent == nodes[n].parent;
      }
    }
  }

  lemma AttachDistinct(nodes: Arena, p: NodeRef, c: NodeRef)
    requires ChildrenLinked(nodes) && DistinctChildren(nodes) && p in nodes && c in nodes && p != c && Detached(nodes, c)
    ensures DistinctChildren(Attach(nodes, p, c))
  {
    assert c !in nodes[p].children;
  }

  lemma AttachOrdered(nodes: Arena, mode: Mode, cmp: Comparator, p: NodeRef, c: NodeRef)
    requires HeapOrdered(nodes, mode, cmp) && p in nodes && c in nodes && p != c
    requires HasPrecedence(mode, cmp, nodes[p].key, nodes[c].key)
    ensures HeapOrdered(Attach(nodes, p, c), mode, cmp)
  {
    var r := Attach(nodes, p, c);
    forall q, d | q in r && d in r[q].children && d in r
      ensures HasPrecedence(mode, cmp, r[q].key, r[d].key)
    {
      if q == p && d == c {
      } else {
        assert d in nodes[q].children;
      }
    }
  }

  lemma AttachRanked(nodes: Arena, rank: Ranks, bound: nat, p: NodeRef, c: NodeRef)
    requires Ranked(nodes, rank, bound) && p in nodes && c in nodes && p != c && rank[p] < rank[c]
    ensures Ranked(Attach(nodes, p, c), rank, bound)
  {
    var r := Attach(nodes, p, c);
    forall q, d | q in r && d in r[q].children && d in r
      ensures q in rank && d in rank && rank[q] < rank[d]
    {
      if q == p && d == c {
      } else {
        assert d in nodes[q].children;
      }
    }
  }

  /** Attaching a detached node under a node with precedence over it, lower in rank, keeps the forest. */
  lemma AttachForest(nodes: Arena, rank: Ranks, bound: nat, mode: Mode, cmp: Comparator, p: NodeRef, c: NodeRef)
    requires Forest(nodes, rank, bound, mode, cmp)
    requires p in nodes && c in nodes && p != c && Detached(nodes, c)
    requires HasPrecedence(mode, cmp, nodes[p].key, nodes[c].key) && rank[p] < rank[c]
    ensures Forest(Attach(nodes, p, c), rank, bound, mode, cmp)
  {
    AttachChildrenLinked(nodes, p, c);
    AttachParentsLinked(nodes, p, c);
    AttachDistinct(nodes, p, c);
    AttachOrdered(nodes, mode, cmp, p, c);
    AttachRanked(nodes, rank, bound, p, c);
  }

  /** Attaching, in order, detached nodes under a node with precedence over each of them keeps the forest. */
  lemma {:induction false} AttachAllForest(nodes: Arena, rank: Ranks, bound: nat, mode: Mode, cmp: Comparator, p: NodeRef, cs: seq<NodeRef>)
    requires Forest(nodes, rank, bound, mode, cmp)
    requires p in nodes && p !in cs && NoDup(cs)
    requires forall c :: c in cs ==> c in nodes && Detached(nodes, c)
    requires forall c :: c in cs ==> HasPrecedence(mode, cmp, nodes[p].key, nodes[c].key) && rank[p] < rank[c]
    ensures Forest(AttachAll(nodes, p, cs), rank, bound, mode, cmp)
    decreases |cs|
  {
    if cs != [] {
      var init := cs[..|cs| - 1];
      var last := cs[|cs| - 1];
      assert cs == init + [last];
      assert NoDup(init) && forall c :: c in init ==> c != last;
      AttachAllForest(nodes, rank, bound, mode, cmp, p, init);
      var prev := AttachAll(nodes, p, init);
      assert prev[last] == nodes[last];
      AttachForest(prev, rank, bound, mode, cmp, p, last);
    }
  }

  /** The ranks after linking root `w` over another root: `w` drops to zero, every other node moves one down. */
  ghost function Relinked(rank: Ranks, w: NodeRef): (r: Ranks)
    ensures r.Keys == rank.Keys
  {
    map n | n in rank :: if n == w then 0 else rank[n] + 1
  }

  /**
   * binomial_tree_merge on two roots: linking the root `l` under the root `w`,
   * which has precedence over it, keeps the forest and leaves no dangling link.
   */
  lemma LinkForest(nodes: Arena, rank: Ranks, bound: nat, mode: Mode, cmp: Comparator, w: NodeRef, l: NodeRef)
    requires Forest(nodes, rank, bound, mode, cmp) && Closed(nodes)
    requires w in nodes && l in nodes && w != l && nodes[w].parent.None? && nodes[l].parent.None?
    requires HasPrecedence(mode, cmp, nodes[w].key, nodes[l].key)
    ensures Forest(Attach(nodes, w, l), Relinked(rank, w), bound + 1, mode, cmp)
    ensures Closed(Attach(nodes, w, l))
  {
    var rk := Relinked(rank, w);
    assert Ranked(nodes, rk, bound + 1) by {
      forall q, d | q in nodes && d in nodes[q].children && d in nodes
        ensures q in rk && d in rk && rk[q] < rk[d]
      {
        assert nodes[d].parent == Some(q);
      }
    }
    AttachForest(nodes, rk, bound + 1, mode, cmp, w, l);
  }

  /** Linking keeps the exact root pool, less the root that became a child. */
  lemma LinkPool(nodes: Arena, pool: multiset<NodeRef>, w: NodeRef, l: NodeRef)
    requires RootPool(nodes, pool)
    requires w in nodes && l in nodes && w != l && nodes[w].parent.None? && nodes[l].parent.None?
    ensures RootPool(Attach(nodes, w, l), pool - multiset{l})
  {
  }

  // ---------------------------------------------------------------------------
  // binomial_tree_node_destroy

  /** The index of the child promoted when a root with children is destroyed: the mode-extreme child. */
  ghost function PromotedIndex(nodes: Arena, mode: Mode, cmp: Comparator, x: NodeRef): (i: nat)
    requires x in nodes && nodes[x].children != [] && forall c :: c in nodes[x].children ==> c in nodes
    ensures i < |nodes[x].children|
  {
    ExtremeIndex(mode, cmp, KeysOf(nodes, nodes[x].children))
  }

  /** The arena without `x`, and with `x` removed from the children of its parent `p`. */
  ghost function SpliceOut(nodes: Arena, x: NodeRef, p: NodeRef): (r: Arena)
    requires x in nodes && p in nodes && p != x && x in nodes[p].children
    ensures r.Keys == nodes.Keys - {x}
  {
    (nodes - {x})[p := nodes[p].(children := Without(nodes[p].children, IndexOf(nodes[p].children, x)))]
  }

  /** The arena without `x`, with `c` made parentless. */
  ghost function Unparent(nodes: Arena, x: NodeRef, c: NodeRef): (r: Arena)
    requires c in nodes && c != x
    ensures r.Keys == nodes.Keys - {x}
  {
    (nodes - {x})[c := nodes[c].(parent := None)]
  }

  /** Destroying `x`, which has parent `p`: `x` leaves the children of `p`, which receives the children of `x`. */
  ghost function DestroyChild(nodes: Arena, x: NodeRef, p: NodeRef): (r: Arena)
    requires x in nodes && p in nodes && p != x && x in nodes[p].children && p !in nodes[x].children
    requires NoDup(nodes[x].children) && forall c :: c in nodes[x].children ==> c in nodes && c != x
    ensures r.Keys == nodes.Keys - {x}
  {
    AttachAll(SpliceOut(nodes, x, p), p, nodes[x].children)
  }

  /** Destroying the root `x`: its child at index `ci` becomes a root and receives the other children. */
  ghost function DestroyRoot(nodes: Arena, x: NodeRef, ci: nat): (r: Arena)
    requires x in nodes && ci < |nodes[x].children|
    requires NoDup(nodes[x].children) && forall c :: c in nodes[x].children ==> c in nodes && c != x
    ensures r.Keys == nodes.Keys - {x}
  {
    var kids := nodes[x].children;
    WithoutMembers(kids, ci);
    AttachAll(Unparent(nodes, x, kids[ci]), kids[ci], Without(kids, ci))
  }

  /**
   * The arena after destroying `x`:
   * - with a parent, `x` is spliced out of that parent's children and its
   *   own children are appended to the parent;
   * - a root with children loses its mode-extreme child, which becomes
   *   parentless and receives the other children;
   * - a childless root is simply dropped.
   */
  ghost function Destroyed(nodes: Arena, rank: Ranks, bound: nat, mode: Mode, cmp: Comparator, x: NodeRef): (r: Arena)
    requires Forest(nodes, rank, bound, mode, cmp) && Closed(nodes) && x in nodes
    ensures r.Keys == nodes.Keys - {x}
  {
    NodeFacts(nodes, rank, bound, mode, cmp, x);
    if nodes[x].parent.Some? then DestroyChild(nodes, x, nodes[x].parent.value)
    else if nodes[x].children != [] then DestroyRoot(nodes, x, PromotedIndex(nodes, mode, cmp, x))
    else nodes - {x}
  }

  /** The ranks after destroying `x`: a promoted child drops to rank zero. */
  ghost function DestroyedRank(nodes: Arena, mode: Mode, cmp: Comparator, rank: Ranks, x: NodeRef): Ranks
    requires x in nodes && forall c :: c in nodes[x].children ==> c in nodes
  {
    if nodes[x].parent.None? && nodes[x].children != [] then rank[nodes[x].children[PromotedIndex(nodes, mode, cmp, x)] := 0]
    else rank
  }

  /** Splicing `x` out keeps every other record, except that its parent no longer lists it. */
  lemma SpliceOutShape(nodes: Arena, x: NodeRef, p: NodeRef)
    requires ChildrenLinked(nodes) && DistinctChildren(nodes)
    requires x in nodes && p in nodes && p != x && x in nodes[p].children && nodes[x].parent == Some(p)
    ensures forall q :: q in SpliceOut(nodes, x, p) ==>
      var b := SpliceOut(nodes, x, p)[q];
      && b.key == nodes[q].key && b.value == nodes[q].value && b.parent == nodes[q].parent
      && NoDup(b.children)
      && forall d :: d in b.children <==> d in nodes[q].children && d != x
  {
    var pk := nodes[p].children;
    var i := IndexOf(pk, x);
    WithoutMembers(pk, i);
    forall d | d in pk && d != x ensures d in Without(pk, i) {
    }
  }

  lemma SpliceOutForest(nodes: Arena, rank: Ranks, bound: nat, mode: Mode, cmp: Comparator, x: NodeRef, p: NodeRef)
    requires Forest(nodes, rank, bound, mode, cmp)
    requires x in nodes && p in nodes && p != x && x in nodes[p].children && nodes[x].parent == Some(p)
    ensures Forest(SpliceOut(nodes, x, p), rank, bound, mode, cmp)
  {
    var b := SpliceOut(nodes, x, p);
    SpliceOutShape(nodes, x, p);
    assert ChildrenLinked(b) by {
      forall q, d | q in b && d in b[q].children ensures d in b && b[d].parent == Some(q) {
        assert d in nodes[q].children;
      }
    }
    assert ParentsLinked(b) by {
      forall n | n in b && b[n].parent.Some? && b[n].parent.value in b
        ensures n in b[b[n].parent.value].children
      {
        assert n in nodes[nodes[n].parent.value].children;
      }
    }
    assert HeapOrdered(b, mode, cmp) by {
      forall q, d | q in b && d in b[q].children && d in b ensures HasPrecedence(mode, cmp, b[q].key, b[d].key) {
        assert d in nodes[q].children;
      }
    }
    assert Ranked(b, rank, bound) by {
      forall q, d | q in b && d in b[q].children && d in b ensures q in rank && d in rank && rank[q] < rank[d] {
        assert d in nodes[q].children;
      }
    }
  }

  /** Dropping the root `x` and unparenting its child `c` keeps every other record. */
  lemma UnparentShape(nodes: Arena, rank: Ranks, bound: nat, mode: Mode, cmp: Comparator, x: NodeRef, c: NodeRef)
    requires Forest(nodes, rank, bound, mode, cmp)
    requires x in nodes && nodes[x].parent.None? && c in nodes[x].children
    ensures c in nodes && c != x
    ensures forall q :: q in Unparent(nodes, x, c) ==>
      var b := Unparent(nodes, x, c)[q];
      && b.key == nodes[q].key && b.value == nodes[q].value && b.children == nodes[q].children
      && (q != c ==> b.parent == nodes[q].parent)
      && x !in b.children && c !in b.children
  {
    ChildFacts(nodes, rank, bound, mode, cmp, x, c);
  }

  lemma UnparentForest(nodes: Arena, rank: Ranks, bound: nat, mode: Mode, cmp: Comparator, x: NodeRef, c: NodeRef)
    requires Forest(nodes, rank, bound, mode, cmp)
    requires x in nodes && nodes[x].parent.None? && c in nodes[x].children
    ensures c in nodes && c != x
    ensures Forest(Unparent(nodes, x, c), rank[c := 0], bound, mode, cmp)
  {
    UnparentShape(nodes, rank, bound, mode, cmp, x, c);
    var b := Unparent(nodes, x, c);
    var rk := rank[c := 0];
    assert ChildrenLinked(b) by {
      forall q, d | q in b && d in b[q].children ensures d in b && b[d].parent == Some(q) {
        assert d in nodes[q].children;
      }
    }
    assert ParentsLinked(b) by {
      forall n | n in b && b[n].parent.Some? && b[n].parent.value in b
        ensures n in b[b[n].parent.value].children
      {
        assert n in nodes[nodes[n].parent.value].children;
      }
    }
    assert HeapOrdered(b, mode, cmp) by {
      forall q, d | q in b && d in b[q].children && d in b ensures HasPrecedence(mode, cmp, b[q].key, b[d].key) {
        assert d in nodes[q].children;
      }
    }
    assert Ranked(b, rk, bound) by {
      forall q, d | q in b && d in b[q].children && d in b ensures q in rk && d in rk && rk[q] < rk[d] {
        assert d in nodes[q].children;
      }
    }
  }

  /** Destroying a node with a parent keeps the forest and the set of parentless nodes. */
  lemma DestroyParentCase(nodes: Arena, rank: Ranks, bound: nat, mode: Mode, cmp: Comparator, x: NodeRef)
    requires ComparatorLaws(cmp) && Forest(nodes, rank, bound, mode, cmp) && Closed(nodes)
    requires x in nodes && nodes[x].parent.Some?
    ensures Forest(Destroyed(nodes, rank, bound, mode, cmp, x), rank, bound, mode, cmp)
    ensures Closed(Destroyed(nodes, rank, bound, mode, cmp, x))
    ensures forall n :: n in Destroyed(nodes, rank, bound, mode, cmp, x) ==>
      (Destroyed(nodes, rank, bound, mode, cmp, x)[n].parent.None? <==> nodes[n].parent.None?)
  {
    NodeFacts(nodes, rank, bound, mode, cmp, x);
    var kids := nodes[x].children;
    var p := nodes[x].parent.value;
    var b := SpliceOut(nodes, x, p);
    SplicedChildrenAdoptable(nodes, rank, bound, mode, cmp, x);
    AttachAllForest(b, rank, bound, mode, cmp, p, kids);
    assert AttachAll(b, p, kids) == Destroyed(nodes, rank, bound, mode, cmp, x);
    DestroyChildClosed(nodes, rank, bound, mode, cmp, x);
  }

  /** Once `x` is spliced out, its children are detached and its parent has precedence over each of them. */
  lemma SplicedChildrenAdoptable(nodes: Arena, rank: Ranks, bound: nat, mode: Mode, cmp: Comparator, x: NodeRef)
    requires ComparatorLaws(cmp) && Forest(nodes, rank, bound, mode, cmp) && Closed(nodes)
    requires x in nodes && nodes[x].parent.Some?
    ensures var p := nodes[x].parent.value;
      && p in nodes && p != x && x in nodes[p].children
      && var b := SpliceOut(nodes, x, p);
      && Forest(b, rank, bound, mode, cmp)
      && p in b && p !in nodes[x].children && NoDup(nodes[x].children)
      && forall c :: c in nodes[x].children ==>
        && c in b && Detached(b, c)
        && HasPrecedence(mode, cmp, b[p].key, b[c].key) && rank[p] < rank[c]
  {
    NodeFacts(nodes, rank, bound, mode, cmp, x);
    var kids := nodes[x].children;
    var p := nodes[x].parent.value;
    var b := SpliceOut(nodes, x, p);
    SpliceOutShape(nodes, x, p);
    SpliceOutForest(nodes, rank, bound, mode, cmp, x, p);
    ParentFacts(nodes, rank, bound, mode, cmp, x);
    forall c | c in kids
      ensures c in b && Detached(b, c)
      ensures HasPrecedence(mode, cmp, b[p].key, b[c].key) && rank[p] < rank[c]
    {
      ChildFacts(nodes, rank, bound, mode, cmp, x, c);
      PrecedenceTransitive(mode, cmp, nodes[p].key, nodes[x].key, nodes[c].key);
    }
  }

  /** Destroying a node with a parent leaves no dangling parent link and no new parentless node. */
  lemma DestroyChildClosed(nodes: Arena, rank: Ranks, bound: nat, mode: Mode, cmp: Comparator, x: NodeRef)
    requires Forest(nodes, rank, bound, mode, cmp) && Closed(nodes)
    requires x in nodes && nodes[x].parent.Some?
    ensures Closed(Destroyed(nodes, rank, bound, mode, cmp, x))
    ensures forall n :: n in Destroyed(nodes, rank, bound, mode, cmp, x) ==>
      (Destroyed(nodes, rank, bound, mode, cmp, x)[n].parent.None? <==> nodes[n].parent.None?)
  {
    NodeFacts(nodes, rank, bound, mode, cmp, x);
    var kids := nodes[x].children;
    var p := nodes[x].parent.value;
    DestroyChildShape(nodes, x, p);
    var r := Destroyed(nodes, rank, bound, mode, cmp, x);
    assert r == DestroyChild(nodes, x, p);
    forall n | n in r && r[n].parent.Some? ensures r[n].parent.value in r {
      if n == p {
        if nodes[p].parent == Some(x) {
          ParentFacts(nodes, rank, bound, mode, cmp, p);
        }
      } else if n !in kids {
        if nodes[n].parent == Some(x) {
          ParentFacts(nodes, rank, bound, mode, cmp, n);
        }
      }
    }
  }

  /** The promoted child has precedence over its siblings, which are detached once their root is dropped. */
  lemma PromotedPrecedes(nodes: Arena, rank: Ranks, bound: nat, mode: Mode, cmp: Comparator, x: NodeRef)
    requires ComparatorLaws(cmp) && Forest(nodes, rank, bound, mode, cmp) && Closed(nodes)
    requires x in nodes && nodes[x].parent.None? && nodes[x].children != []
    ensures forall c :: c in nodes[x].children ==> c in nodes && c != x
    ensures var ci := PromotedIndex(nodes, mode, cmp, x);
      var c := nodes[x].children[ci];
      var b := Unparent(nodes, x, c);
      && c !in Without(nodes[x].children, ci) && NoDup(Without(nodes[x].children, ci))
      && forall d :: d in Without(nodes[x].children, ci) ==>
        && d in b && Detached(b, d)
        && HasPrecedence(mode, cmp, b[c].key, b[d].key) && rank[c := 0][c] < rank[c := 0][d]
  {
    NodeFacts(nodes, rank, bound, mode, cmp, x);
    var kids := nodes[x].children;
    var ci := PromotedIndex(nodes, mode, cmp, x);
    var c := kids[ci];
    var b := Unparent(nodes, x, c);
    WithoutMembers(kids, ci);
    ExtremeIndexMeaning(mode, cmp, KeysOf(nodes, kids));
    forall d | d in Without(kids, ci)
      ensures d in b && Detached(b, d)
      ensures HasPrecedence(mode, cmp, b[c].key, b[d].key) && rank[c := 0][c] < rank[c := 0][d]
    {
      ChildFacts(nodes, rank, bound, mode, cmp, x, d);
      var j := IndexOf(kids, d);
      assert KeysOf(nodes, kids)[j] == nodes[d].key;
    }
  }

  /** Destroying a root with children keeps the forest; the promoted child joins the parentless nodes. */
  lemma DestroyRootCase(nodes: Arena, rank: Ranks, bound: nat, mode: Mode, cmp: Comparator, x: NodeRef)
    requires ComparatorLaws(cmp) && Forest(nodes, rank, bound, mode, cmp) && Closed(nodes)
    requires x in nodes && nodes[x].parent.None? && nodes[x].children != []
    ensures forall c :: c in nodes[x].children ==> c in nodes
    ensures Forest(Destroyed(nodes, rank, bound, mode, cmp, x), DestroyedRank(nodes, mode, cmp, rank, x), bound, mode, cmp)
    ensures var r := Destroyed(nodes, rank, bound, mode, cmp, x);
      var c := nodes[x].children[PromotedIndex(nodes, mode, cmp, x)];
      Closed(r) && forall n :: n in r ==> (r[n].parent.None? <==> nodes[n].parent.None? || n == c)
  {
    PromotedPrecedes(nodes, rank, bound, mode, cmp, x);
    var kids := nodes[x].children;
    var ci := PromotedIndex(nodes, mode, cmp, x);
    var c := kids[ci];
    var others := Without(kids, ci);
    UnparentForest(nodes, rank, bound, mode, cmp, x, c);
    var b := Unparent(nodes, x, c);
    AttachAllForest(b, rank[c := 0], bound, mode, cmp, c, others);
    var r := AttachAll(b, c, others);
    NodeFacts(nodes, rank, bound, mode, cmp, x);
    assert r == DestroyRoot(nodes, x, ci);
    assert DestroyRoot(nodes, x, ci) == Destroyed(nodes, rank, bound, mode, cmp, x);
    assert DestroyedRank(nodes, mode, cmp, rank, x) == rank[c := 0];
    DestroyRootClosed(nodes, rank, bound, mode, cmp, x);
  }

  /** Record by record, what destroying a root with children does. */
  lemma DestroyRootShape(nodes: Arena, x: NodeRef, ci: nat)
    requires x in nodes && ci < |nodes[x].children|
    requires NoDup(nodes[x].children) && forall c :: c in nodes[x].children ==> c in nodes && c != x
    ensures var r := DestroyRoot(nodes, x, ci);
      var kids := nodes[x].children;
      forall n :: n in r ==>
        && r[n].key == nodes[n].key && r[n].value == nodes[n].value
        && if n == kids[ci] then r[n].parent.None?
           else if n in kids then r[n].parent == Some(kids[ci])
           else r[n] == nodes[n]
  {
    WithoutMembers(nodes[x].children, ci);
  }

  /** Record by record, what destroying a node with a parent does. */
  lemma DestroyChildShape(nodes: Arena, x: NodeRef, p: NodeRef)
    requires ChildrenLinked(nodes) && DistinctChildren(nodes)
    requires x in nodes && p in nodes && p != x && x in nodes[p].children && p !in nodes[x].children
    requires nodes[x].parent == Some(p)
    requires NoDup(nodes[x].children) && forall c :: c in nodes[x].children ==> c in nodes && c != x
    ensures var r := DestroyChild(nodes, x, p);
      forall n :: n in r ==>
        && r[n].key == nodes[n].key && r[n].value == nodes[n].value
        && if n in nodes[x].children then r[n].parent == Some(p) else r[n].parent == nodes[n].parent
  {
    SpliceOutShape(nodes, x, p);
  }

  lemma DestroyRootClosed(nodes: Arena, rank: Ranks, bound: nat, mode: Mode, cmp: Comparator, x: NodeRef)
    requires Forest(nodes, rank, bound, mode, cmp) && Closed(nodes)
    requires x in nodes && nodes[x].parent.None? && nodes[x].children != []
    ensures forall c :: c in nodes[x].children ==> c in nodes
    ensures var r := Destroyed(nodes, rank, bound, mode, cmp, x);
      var c := nodes[x].children[PromotedIndex(nodes, mode, cmp, x)];
      Closed(r) && forall n :: n in r ==> (r[n].parent.None? <==> nodes[n].parent.None? || n == c)
  {
    NodeFacts(nodes, rank, bound, mode, cmp, x);
    DestroyRootShape(nodes, x, PromotedIndex(nodes, mode, cmp, x));
    var r := Destroyed(nodes, rank, bound, mode, cmp, x);
    var c := nodes[x].children[PromotedIndex(nodes, mode, cmp, x)];
    forall n | n in r
      ensures r[n].parent.Some? ==> r[n].parent.value in r
      ensures r[n].parent.None? <==> nodes[n].parent.None? || n == c
    {
      if n != c && n !in nodes[x].children && nodes[n].parent == Some(x) {
        ParentFacts(nodes, rank, bound, mode, cmp, n);
      }
    }
  }

  /** Destroying a childless root keeps the forest and the other parentless nodes. */
  lemma DestroyLeafRoot(nodes: Arena, rank: Ranks, bound: nat, mode: Mode, cmp: Comparator, x: NodeRef)
    requires Forest(nodes, rank, bound, mode, cmp) && Closed(nodes)
    requires x in nodes && nodes[x].parent.None? && nodes[x].children == []
    ensures Destroyed(nodes, rank, bound, mode, cmp, x) == nodes - {x}
    ensures Forest(nodes - {x}, rank, bound, mode, cmp) && Closed(nodes - {x})
  {
    var r := nodes - {x};
    forall n | n in r && r[n].parent.Some? ensures r[n].parent.value in r {
      if nodes[n].parent == Some(x) {
        ParentFacts(nodes, rank, bound, mode, cmp, n);
      }
    }
    forall q, d | q in r && d in r[q].children ensures d in r {
      ChildFacts(nodes, rank, bound, mode, cmp, q, d);
    }
  }

  /** Destroying `x` keeps every other entry unchanged and drops exactly the entry of `x`. */
  lemma DestroyedEntries(nodes: Arena, rank: Ranks, bound: nat, mode: Mode, cmp: Comparator, x: NodeRef)
    requires Forest(nodes, rank, bound, mode, cmp) && Closed(nodes) && x in nodes
    ensures EntriesOf(Destroyed(nodes, rank, bound, mode, cmp, x)) == EntriesOf(nodes) - {x}
  {
    NodeFacts(nodes, rank, bound, mode, cmp, x);
    var r := Destroyed(nodes, rank, bound, mode, cmp, x);
    if nodes[x].parent.Some? {
      var p := nodes[x].parent.value;
      assert r == DestroyChild(nodes, x, p);
      DestroyChildShape(nodes, x, p);
    } else if nodes[x].children != [] {
      var ci := PromotedIndex(nodes, mode, cmp, x);
      assert r == DestroyRoot(nodes, x, ci);
      DestroyRootShape(nodes, x, ci);
    } else {
      assert r == nodes - {x};
    }
    EntriesWithout(nodes, r, x);
  }

  /** An arena that lost `x` and changed no other key or value stores the entries of the old one but that of `x`. */
  lemma EntriesWithout(nodes: Arena, r: Arena, x: NodeRef)
    requires r.Keys == nodes.Keys - {x}
    requires forall n :: n in r ==> r[n].key == nodes[n].key && r[n].value == nodes[n].value
    ensures EntriesOf(r) == EntriesOf(nodes) - {x}
  {
  }

  /** Destroying `x` keeps the forest, under the ranks `DestroyedRank` gives. */
  lemma DestroyedForest(nodes: Arena, rank: Ranks, bound: nat, mode: Mode, cmp: Comparator, x: NodeRef, r: Arena)
    requires ComparatorLaws(cmp) && Forest(nodes, rank, bound, mode, cmp) && Closed(nodes) && x in nodes
    requires r == Destroyed(nodes, rank, bound, mode, cmp, x)
    ensures Forest(r, DestroyedRank(nodes, mode, cmp, rank, x), bound, mode, cmp) && Closed(r)
  {
    if nodes[x].parent.Some? {
      DestroyParentCase(nodes, rank, bound, mode, cmp, x);
    } else if nodes[x].children != [] {
      DestroyRootCase(nodes, rank, bound, mode, cmp, x);
    } else {
      DestroyLeafRoot(nodes, rank, bound, mode, cmp, x);
    }
  }

  /**
   * Which nodes are parentless after destroying `x`: the same as before
   * when `x` had a parent; otherwise those, and the promoted child.
   */
  lemma DestroyedParents(nodes: Arena, rank: Ranks, bound: nat, mode: Mode, cmp: Comparator, x: NodeRef, r: Arena)
    requires ComparatorLaws(cmp) && Forest(nodes, rank, bound, mode, cmp) && Closed(nodes) && x in nodes
    requires r == Destroyed(nodes, rank, bound, mode, cmp, x)
    ensures nodes[x].parent.Some? ==>
      forall n :: n in r ==> (r[n].parent.None? <==> nodes[n].parent.None?)
    ensures nodes[x].parent.None? ==>
      forall n :: n in r ==> (r[n].parent.None? <==> nodes[n].parent.None? || n in PromotedList(nodes, mode, cmp, x))
  {
    NodeFacts(nodes, rank, bound, mode, cmp, x);
    if nodes[x].parent.Some? {
      DestroyParentCase(nodes, rank, bound, mode, cmp, x);
    } else if nodes[x].children != [] {
      DestroyRootCase(nodes, rank, bound, mode, cmp, x);
      var c := nodes[x].children[PromotedIndex(nodes, mode, cmp, x)];
      assert PromotedList(nodes, mode, cmp, x) == [c];
      forall n | n in r ensures r[n].parent.None? <==> nodes[n].parent.None? || n in PromotedList(nodes, mode, cmp, x) {
        assert n in PromotedList(nodes, mode, cmp, x) <==> n == c;
      }
    } else {
      assert r == nodes - {x};
      assert PromotedList(nodes, mode, cmp, x) == [];
      forall n | n in r ensures r[n].parent.None? <==> nodes[n].parent.None? {
        assert r[n] == nodes[n];
      }
    }
  }

  // ---------------------------------------------------------------------------
  // Stored keys

  /** The multiset of the keys stored at the nodes of `s`. */
  ghost function BagOf(m: map<NodeRef, Entry>, s: set<NodeRef>): multiset<Key>
    requires s <= m.Keys
    decreases s
  {
    if s == {} then multiset{}
    else
      var n :| n in s;
      BagOf(m, s - {n}) + multiset{m[n].key}
  }

  /** The multiset of stored keys. */
  ghost function KeyBag(m: map<NodeRef, Entry>): multiset<Key>
  {
    BagOf(m, m.Keys)
  }

  lemma {:induction false} BagOfRemove(m: map<NodeRef, Entry>, s: set<NodeRef>, x: NodeRef)
    requires s <= m.Keys && x in s
    ensures BagOf(m, s) == BagOf(m, s - {x}) + multiset{m[x].key}
    decreases s
  {
    var y :| y in s && BagOf(m, s) == BagOf(m, s - {y}) + multiset{m[y].key};
    if y != x {
      BagOfRemove(m, s - {y}, x);
      BagOfRemove(m, s - {x}, y);
      assert s - {y} - {x} == s - {x} - {y};
    }
  }

  lemma {:induction false} BagOfFrame(m1: map<NodeRef, Entry>, m2: map<NodeRef, Entry>, s: set<NodeRef>)
    requires s <= m1.Keys && s <= m2.Keys && forall n :: n in s ==> m1[n].key == m2[n].key
    ensures BagOf(m1, s) == BagOf(m2, s)
    decreases s
  {
    if s != {} {
      var y :| y in s;
      BagOfRemove(m1, s, y);
      BagOfRemove(m2, s, y);
      BagOfFrame(m1, m2, s - {y});
    }
  }

  lemma {:induction false} BagOfSize(m: map<NodeRef, Entry>, s: set<NodeRef>)
    requires s <= m.Keys
    ensures |BagOf(m, s)| == |s|
    decreases s
  {
    if s != {} {
      var y :| y in s;
      BagOfRemove(m, s, y);
      BagOfSize(m, s - {y});
    }
  }

  lemma {:induction false} BagOfUnion(m: map<NodeRef, Entry>, s: set<NodeRef>, t: set<NodeRef>)
    requires s <= m.Keys && t <= m.Keys && s !! t
    ensures BagOf(m, s + t) == BagOf(m, s) + BagOf(m, t)
    decreases t
  {
    if t == {} {
      assert s + t == s;
    } else {
      var y :| y in t;
      var t' := t - {y};
      assert (s + t) - {y} == s + t';
      calc {
        BagOf(m, s + t);
        { BagOfRemove(m, s + t, y); }
        BagOf(m, s + t') + multiset{m[y].key};
        { BagOfUnion(m, s, t'); }
        BagOf(m, s) + BagOf(m, t') + multiset{m[y].key};
        { BagOfRemove(m, t, y); }
        BagOf(m, s) + BagOf(m, t);
      }
    }
  }

  /** There are as many stored keys as stored nodes. */
  lemma KeyBagSize(m: map<NodeRef, Entry>)
    ensures |KeyBag(m)| == |m|
  {
    BagOfSize(m, m.Keys);
  }

  lemma KeyBagAdd(m: map<NodeRef, Entry>, x: NodeRef, e: Entry)
    requires x !in m
    ensures KeyBag(m[x := e]) == KeyBag(m) + multiset{e.key}
  {
    var m' := m[x := e];
    assert m'.Keys - {x} == m.Keys;
    BagOfRemove(m', m'.Keys, x);
    BagOfFrame(m', m, m.Keys);
  }

  lemma KeyBagRemove(m: map<NodeRef, Entry>, x: NodeRef)
    requires x in m
    ensures KeyBag(m - {x}) == KeyBag(m) - multiset{m[x].key}
  {
    var m' := m - {x};
    BagOfRemove(m, m.Keys, x);
    BagOfFrame(m, m', m'.Keys);
  }

  lemma KeyBagUnion(a: map<NodeRef, Entry>, b: map<NodeRef, Entry>)
    requires a.Keys !! b.Keys
    ensures KeyBag(a + b) == KeyBag(a) + KeyBag(b)
  {
    var u := a + b;
    BagOfUnion(u, a.Keys, b.Keys);
    BagOfFrame(u, a, a.Keys);
    BagOfFrame(u, b, b.Keys);
  }

  // ---------------------------------------------------------------------------
  // The root list

  /** The root list holds every parentless node exactly once, and nothing else. */
  ghost predicate RootsExact(nodes: Arena, roots: seq<NodeRef>)
  {
    && (forall x :: x in roots ==> x in nodes && nodes[x].parent.None?)
    && (forall n :: n in nodes && nodes[n].parent.None? ==> n in roots)
    && NoDup(roots)
  }

  lemma {:induction false} NoDupCount<T>(s: seq<T>, x: T)
    requires NoDup(s) && x in s
    ensures multiset(s)[x] == 1
    decreases |s|
  {
    assert s == [s[0]] + s[1..];
    if s[0] == x {
      assert x !in s[1..];
    } else {
      NoDupCount(s[1..], x);
    }
  }

  /** The index form and the multiset form of an exact root list agree. */
  lemma RootsExactPool(nodes: Arena, roots: seq<NodeRef>)
    ensures RootsExact(nodes, roots) <==> RootPool(nodes, multiset(roots))
  {
    if RootPool(nodes, multiset(roots)) {
      RootPoolMembers(nodes, roots);
    }
    if RootsExact(nodes, roots) {
      forall x | x in nodes && nodes[x].parent.None? ensures multiset(roots)[x] == 1 {
        NoDupCount(roots, x);
      }
      forall x | x in multiset(roots) ensures multiset(roots)[x] == 1 {
        NoDupCount(roots, x);
      }
    }
  }

  /** Every node lies below a root with precedence over it. */
  lemma {:induction false} DominatingRoot(nodes: Arena, rank: Ranks, bound: nat, mode: Mode, cmp: Comparator, n: NodeRef) returns (r: NodeRef)
    requires ComparatorLaws(cmp) && Forest(nodes, rank, bound, mode, cmp) && Closed(nodes) && n in nodes
    ensures r in nodes && nodes[r].parent.None? && HasPrecedence(mode, cmp, nodes[r].key, nodes[n].key)
    decreases rank[n]
  {
    if nodes[n].parent.None? {
      r := n;
      PrecedenceReflexive(mode, cmp, nodes[n].key);
    } else {
      ParentFacts(nodes, rank, bound, mode, cmp, n);
      var p := nodes[n].parent.value;
      r := DominatingRoot(nodes, rank, bound, mode, cmp, p);
      PrecedenceTransitive(mode, cmp, nodes[r].key, nodes[p].key, nodes[n].key);
    }
  }

  /** A non-empty forest has a root. */
  lemma EmptyIffNoRoots(nodes: Arena, rank: Ranks, bound: nat, mode: Mode, cmp: Comparator, roots: seq<NodeRef>)
    requires ComparatorLaws(cmp) && Forest(nodes, rank, bound, mode, cmp) && Closed(nodes) && RootsExact(nodes, roots)
    ensures roots == [] <==> |nodes| == 0
  {
    if |nodes| != 0 {
      var n :| n in nodes;
      var r := DominatingRoot(nodes, rank, bound, mode, cmp, n);
    }
    if roots != [] {
      assert roots[0] in nodes;
    }
  }

  /** A root of a forest, under every root of which lies no key dominating `key`, does not hold such a key anywhere. */
  lemma RootsBoundKeys(nodes: Arena, rank: Ranks, bound: nat, mode: Mode, cmp: Comparator, key: Key, n: NodeRef)
    requires ComparatorLaws(cmp) && Forest(nodes, rank, bound, mode, cmp) && Closed(nodes) && n in nodes
    requires HasPrecedence(mode, cmp, nodes[n].key, key)
    ensures exists r :: r in nodes && nodes[r].parent.None? && HasPrecedence(mode, cmp, nodes[r].key, key)
  {
    var r := DominatingRoot(nodes, rank, bound, mode, cmp, n);
    PrecedenceTransitive(mode, cmp, nodes[r].key, nodes[n].key, key);
  }

  // ---------------------------------------------------------------------------
  // Greedy descent

  /** The node reached from `x` by repeatedly stepping to the `dir`-extreme child until a childless node. */
  ghost function Descend(nodes: Arena, rank: Ranks, bound: nat, mode: Mode, cmp: Comparator, dir: Mode, x: NodeRef): (leaf: NodeRef)
    requires Forest(nodes, rank, bound, mode, cmp) && x in nodes
    ensures leaf in nodes && nodes[leaf].children == []
    decreases bound - rank[x]
  {
    if nodes[x].children == [] then x
    else
      var kids := nodes[x].children;
      var c := kids[ExtremeIndex(dir, cmp, KeysOf(nodes, kids))];
      ChildFacts(nodes, rank, bound, mode, cmp, x, c);
      Descend(nodes, rank, bound, mode, cmp, dir, c)
  }

  /** Descending against the heap order only moves towards `dir`: the leaf has `dir`-precedence over the start. */
  lemma {:induction false} DescendMonotone(nodes: Arena, rank: Ranks, bound: nat, mode: Mode, cmp: Comparator, dir: Mode, x: NodeRef)
    requires ComparatorLaws(cmp) && Forest(nodes, rank, bound, mode, cmp) && x in nodes && dir == Flip(mode)
    ensures HasPrecedence(dir, cmp, nodes[Descend(nodes, rank, bound, mode, cmp, dir, x)].key, nodes[x].key)
    decreases bound - rank[x]
  {
    if nodes[x].children == [] {
      PrecedenceReflexive(dir, cmp, nodes[x].key);
    } else {
      var kids := nodes[x].children;
      var c := kids[ExtremeIndex(dir, cmp, KeysOf(nodes, kids))];
      ChildFacts(nodes, rank, bound, mode, cmp, x, c);
      DescendMonotone(nodes, rank, bound, mode, cmp, dir, c);
      PrecedenceFlip(mode, cmp, nodes[x].key, nodes[c].key);
      PrecedenceTransitive(dir, cmp, nodes[Descend(nodes, rank, bound, mode, cmp, dir, c)].key, nodes[c].key, nodes[x].key);
    }
  }

  // ---------------------------------------------------------------------------
  // Union of two disjoint forests

  ghost function UnionRank(n1: Arena, r1: Ranks, n2: Arena, r2: Ranks): (r: Ranks)
    requires n1.Keys <= r1.Keys && n2.Keys <= r2.Keys
    ensures r.Keys == n1.Keys + n2.Keys
  {
    map k | k in n1.Keys + n2.Keys :: if k in n2 then r2[k] else r1[k]
  }

  lemma UnionForest(n1: Arena, r1: Ranks, b1: nat, n2: Arena, r2: Ranks, b2: nat, mode: Mode, cmp: Comparator)
    requires Forest(n1, r1, b1, mode, cmp) && Closed(n1) && Forest(n2, r2, b2, mode, cmp) && Closed(n2)
    requires n1.Keys !! n2.Keys
    ensures n1.Keys <= r1.Keys && n2.Keys <= r2.Keys
    ensures Forest(n1 + n2, UnionRank(n1, r1, n2, r2), if b1 < b2 then b2 else b1, mode, cmp)
    ensures Closed(n1 + n2)
    ensures EntriesOf(n1 + n2) == EntriesOf(n1) + EntriesOf(n2)
  {
    UnionLinked(n1, n2);
    UnionOrdered(n1, r1, b1, n2, r2, b2, mode, cmp);
  }

  lemma UnionLinked(n1: Arena, n2: Arena)
    requires ChildrenLinked(n1) && ParentsLinked(n1) && Closed(n1) && DistinctChildren(n1)
    requires ChildrenLinked(n2) && ParentsLinked(n2) && Closed(n2) && DistinctChildren(n2)
    requires n1.Keys !! n2.Keys
    ensures ChildrenLinked(n1 + n2) && ParentsLinked(n1 + n2) && Closed(n1 + n2) && DistinctChildren(n1 + n2)
  {
    var u := n1 + n2;
    forall q, d | q in u && d in u[q].children ensures d in u && u[d].parent == Some(q) {
      if q in n2 {
        assert d in n2[q].children;
      } else {
        assert d in n1[q].children;
      }
    }
    forall n | n in u && u[n].parent.Some? && u[n].parent.value in u ensures n in u[u[n].parent.value].children {
      if n in n2 {
        assert n2[n].parent.value in n2;
      } else {
        assert n1[n].parent.value in n1;
      }
    }
  }

  lemma UnionOrdered(n1: Arena, r1: Ranks, b1: nat, n2: Arena, r2: Ranks, b2: nat, mode: Mode, cmp: Comparator)
    requires Forest(n1, r1, b1, mode, cmp) && Forest(n2, r2, b2, mode, cmp)
    requires n1.Keys !! n2.Keys
    ensures n1.Keys <= r1.Keys && n2.Keys <= r2.Keys
    ensures HeapOrdered(n1 + n2, mode, cmp) && Ranked(n1 + n2, UnionRank(n1, r1, n2, r2), if b1 < b2 then b2 else b1)
  {
    var u := n1 + n2;
    var rk := UnionRank(n1, r1, n2, r2);
    forall q, d | q in u && d in u[q].children && d in u
      ensures HasPrecedence(mode, cmp, u[q].key, u[d].key) && q in rk && d in rk && rk[q] < rk[d]
    {
      if q in n2 {
        assert d in n2[q].children;
      } else {
        assert d in n1[q].children;
      }
    }
  }

  lemma UnionPool(n1: Arena, p1: multiset<NodeRef>, n2: Arena, p2: multiset<NodeRef>)
    requires RootPool(n1, p1) && RootPool(n2, p2) && n1.Keys !! n2.Keys
    ensures RootPool(n1 + n2, p1 + p2)
  {
  }

  /** A fresh node with no parent and no children joins the forest as a root of its own. */
  lemma AddLeafForest(nodes: Arena, rank: Ranks, bound: nat, mode: Mode, cmp: Comparator, id: NodeRef, key: Key, value: Value)
    requires Forest(nodes, rank, bound, mode, cmp) && Closed(nodes) && id !in nodes
    ensures var r := nodes[id := Node(key, value, None, [])];
      Forest(r, rank[id := 0], bound + 1, mode, cmp) && Closed(r)
  {
    AddLeafLinked(nodes, id, key, value);
    AddLeafOrdered(nodes, rank, bound, mode, cmp, id, key, value);
  }

  lemma AddLeafLinked(nodes: Arena, id: NodeRef, key: Key, value: Value)
    requires ChildrenLinked(nodes) && ParentsLinked(nodes) && DistinctChildren(nodes) && Closed(nodes) && id !in nodes
    ensures var r := nodes[id := Node(key, value, None, [])];
      ChildrenLinked(r) && ParentsLinked(r) && DistinctChildren(r) && Closed(r)
  {
    var r := nodes[id := Node(key, value, None, [])];
    forall p, c | p in r && c in r[p].children ensures c in r && r[c].parent == Some(p) {
      assert c in nodes[p].children;
    }
    forall n | n in r && r[n].parent.Some? ensures r[n].parent.value in nodes && n in r[r[n].parent.value].children {
      assert n != id;
    }
  }

  lemma AddLeafOrdered(nodes: Arena, rank: Ranks, bound: nat, mode: Mode, cmp: Comparator, id: NodeRef, key: Key, value: Value)
    requires Forest(nodes, rank, bound, mode, cmp) && id !in nodes
    ensures var r := nodes[id := Node(key, value, None, [])];
      HeapOrdered(r, mode, cmp) && Ranked(r, rank[id := 0], bound + 1)
  {
    var r := nodes[id := Node(key, value, None, [])];
    var rk := rank[id := 0];
    forall p, c | p in r && c in r[p].children && c in r
      ensures HasPrecedence(mode, cmp, r[p].key, r[c].key) && p in rk && c in rk && rk[p] < rk[c]
    {
      assert p != id && c in nodes[p].children && c != id;
    }
  }

  /** The fresh node's entry is the only new one. */
  lemma AddLeafEntries(nodes: Arena, id: NodeRef, key: Key, value: Value)
    requires id !in nodes
    ensures EntriesOf(nodes[id := Node(key, value, None, [])]) == EntriesOf(nodes)[id := Entry(key, value)]
  {
  }

  /** The fresh node joins the root pool. */
  lemma AddLeafPool(nodes: Arena, pool: multiset<NodeRef>, id: NodeRef, key: Key, value: Value)
    requires RootPool(nodes, pool) && id !in nodes
    ensures RootPool(nodes[id := Node(key, value, None, [])], pool + multiset{id})
  {
  }

  /** Linking changes no stored entry. */
  lemma AttachEntries(nodes: Arena, p: NodeRef, c: NodeRef)
    requires p in nodes && c in nodes && p != c
    ensures EntriesOf(Attach(nodes, p, c)) == EntriesOf(nodes)
  {
  }

  // ---------------------------------------------------------------------------
  // Insertion carry

  lemma {:induction false} CarryFromIs(nodes: Arena, roots: seq<NodeRef>, i: nat, k: nat)
    requires i <= k <= |roots| && forall x :: x in roots ==> x in nodes
    requires forall j :: i <= j < k ==> Order(nodes, roots[j]) == j
    requires k < |roots| ==> Order(nodes, roots[k]) != k
    ensures CarryFrom(nodes, roots, i) == k
    decreases k - i
  {
    if i < k {
      CarryFromIs(nodes, roots, i + 1, k);
    }
  }

  lemma {:induction false} AscendingAtLeast(nodes: Arena, roots: seq<NodeRef>, j: nat)
    requires forall x :: x in roots ==> x in nodes
    requires OrdersAscending(nodes, roots) && j < |roots|
    ensures Order(nodes, roots[j]) >= j
  {
    if j > 0 {
      AscendingAtLeast(nodes, roots, j - 1);
    }
  }

  /** Putting a root of order k in front of the roots after the first k keeps the orders strictly ascending, when the root at k is not of order k. */
  lemma CarryAscending(nodes0: Arena, roots0: seq<NodeRef>, nodes: Arena, w: NodeRef, k: nat)
    requires forall x :: x in roots0 ==> x in nodes0
    requires OrdersAscending(nodes0, roots0) && k <= |roots0|
    requires k < |roots0| ==> Order(nodes0, roots0[k]) != k
    requires w in nodes && Order(nodes, w) == k
    requires forall j :: k <= j < |roots0| ==> roots0[j] in nodes && Order(nodes, roots0[j]) == Order(nodes0, roots0[j])
    ensures forall x :: x in [w] + roots0[k..] ==> x in nodes
    ensures OrdersAscending(nodes, [w] + roots0[k..])
  {
    var r := [w] + roots0[k..];
    if k < |roots0| {
      AscendingAtLeast(nodes0, roots0, k);
    }
    forall a, b | 0 <= a < b < |r| ensures Order(nodes, r[a]) < Order(nodes, r[b]) {
      assert r[b] == roots0[k + b - 1];
      if a > 0 {
        assert r[a] == roots0[k + a - 1];
      } else if b > 1 {
        assert Order(nodes0, roots0[k]) < Order(nodes0, roots0[k + b - 1]);
      }
    }
  }

  // ---------------------------------------------------------------------------
  // The root list around node destruction

  /** The promoted child of a root, as a list of at most one node. */
  ghost function PromotedList(nodes: Arena, mode: Mode, cmp: Comparator, x: NodeRef): (p: seq<NodeRef>)
    requires x in nodes && forall c :: c in nodes[x].children ==> c in nodes
    ensures |p| <= 1 && forall c :: c in p ==> c in nodes[x].children
    ensures p == [] <==> nodes[x].children == []
  {
    if nodes[x].children == [] then [] else [nodes[x].children[PromotedIndex(nodes, mode, cmp, x)]]
  }

  /** Destroying a root and putting its promoted child, if any, in its place in the root list keeps the list exact. */
  lemma RootsAfterRootDestroy(nodes0: Arena, roots0: seq<NodeRef>, nodes: Arena, i: nat, promoted: seq<NodeRef>)
    requires RootsExact(nodes0, roots0) && i < |roots0|
    requires nodes.Keys == nodes0.Keys - {roots0[i]}
    requires |promoted| <= 1 && forall c :: c in promoted ==> c in nodes && c !in roots0
    requires forall n :: n in nodes ==> (nodes[n].parent.None? <==> nodes0[n].parent.None? || n in promoted)
    ensures RootsExact(nodes, roots0[..i] + promoted + roots0[i + 1..])
  {
    ReplaceMembers(roots0, i, promoted);
  }

  /** Destroying a node with a parent leaves the root list exact. */
  lemma RootsAfterBuriedDestroy(nodes0: Arena, roots0: seq<NodeRef>, nodes: Arena, x: NodeRef)
    requires RootsExact(nodes0, roots0) && x in nodes0 && nodes0[x].parent.Some?
    requires nodes.Keys == nodes0.Keys - {x}
    requires forall n :: n in nodes ==> (nodes[n].parent.None? <==> nodes0[n].parent.None?)
    ensures RootsExact(nodes, roots0)
  {
  }

  /** A node with precedence over every root has precedence over every node. */
  lemma RootDominatesAll(nodes: Arena, rank: Ranks, bound: nat, mode: Mode, cmp: Comparator, roots: seq<NodeRef>, r: NodeRef)
    requires ComparatorLaws(cmp) && Forest(nodes, rank, bound, mode, cmp) && Closed(nodes) && RootsExact(nodes, roots)
    requires r in nodes && forall j :: 0 <= j < |roots| ==> HasPrecedence(mode, cmp, nodes[r].key, nodes[roots[j]].key)
    ensures forall n :: n in nodes ==> HasPrecedence(mode, cmp, nodes[r].key, nodes[n].key)
  {
    forall n | n in nodes ensures HasPrecedence(mode, cmp, nodes[r].key, nodes[n].key) {
      var t := DominatingRoot(nodes, rank, bound, mode, cmp, n);
      var j := IndexOf(roots, t);
      PrecedenceTransitive(mode, cmp, nodes[r].key, nodes[t].key, nodes[n].key);
    }
  }

  /** The forest invariant depends on the comparator only through its results. */
  lemma SameComparatorForest(nodes: Arena, rank: Ranks, bound: nat, mode: Mode, c1: Comparator, c2: Comparator)
    requires Forest(nodes, rank, bound, mode, c1)
    requires forall a, b :: c1(a, b) == c2(a, b)
    ensures Forest(nodes, rank, bound, mode, c2)
  {
    forall p, c | p in nodes && c in nodes[p].children && c in nodes
      ensures HasPrecedence(mode, c2, nodes[p].key, nodes[c].key)
    {
      assert HasPrecedence(mode, c1, nodes[p].key, nodes[c].key);
    }
  }

  /** The empty arena is a forest with an empty root list. */
  lemma EmptyForest(mode: Mode, cmp: Comparator)
    ensures Forest(map[], map[], 0, mode, cmp) && Closed(map[]) && RootsExact(map[], [])
  {
  }
}
