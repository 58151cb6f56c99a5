/**
 * The read-only walks of binheap.c over the arena: the root scan of
 * __binheap_maxmin, the greedy descents of binheap_maximum, binheap_minimum
 * and the extractions, and the guided search of binheap_delete. Each
 * method is proved against a ghost function that names the node it finds.
 */
module Search {
  import opened Wrappers
  import opened Keys
  import opened Scans
  import opened Trees
  import opened TreeNodes

  /**
   * __binheap_maxmin (`dir` = Max for maxmin 0, Min otherwise): the first
   * root is taken, then every later root that compares >= 0 to the current
   * pick (maximum) or < 0 to it (minimum). Returns the root and its index.
   */
  method MaxMin(nodes: Arena, cmp: Comparator, roots: seq<NodeRef>, dir: Mode) returns (node: Option<NodeRef>, index: nat)
    requires ComparatorLaws(cmp) && forall x :: x in roots ==> x in nodes
    ensures node.None? <==> roots == []
    ensures node.Some? ==>
      && index == ScanIndex(dir, cmp, KeysOf(nodes, roots)) && index < |roots| && node.value == roots[index]
      && (forall j :: 0 <= j < |roots| ==> HasPrecedence(dir, cmp, nodes[node.value].key, nodes[roots[j]].key))
      && (dir == Max ==> forall j :: index < j < |roots| ==> cmp(nodes[roots[j]].key, nodes[node.value].key) < 0)
      && (dir == Min ==> forall j :: 0 <= j < index ==> cmp(nodes[node.value].key, nodes[roots[j]].key) < 0)
  {
    node, index := None, 0;
    ghost var ks := KeysOf(nodes, roots);
    var i := 0;
    while i < |roots|
      invariant 0 <= i <= |roots|
      invariant node.None? <==> i == 0
      invariant i > 0 ==> index < i && node.value == roots[index] && index == ScanUpTo(dir, cmp, ks, i)
    {
      var cur := roots[i];
      if node.None? {
        node, index := Some(cur), i;
      } else {
        var isBigger := cmp(nodes[cur].key, nodes[node.value].key) >= 0;
        if (dir == Max && isBigger) || (dir == Min && !isBigger) {
          node, index := Some(cur), i;
        }
      }
      i := i + 1;
    }
    if node.Some? {
      ScanIndexMeaning(dir, cmp, ks);
    }
  }

  /**
   * The descent loops of binheap_maximum, binheap_minimum and the
   * extractions: from `x`, step to the child that find_max_child (`dir` =
   * Max) or find_min_child (`dir` = Min) picks until a childless node.
   */
  method DescendTo(nodes: Arena, ghost rank: Ranks, ghost bound: nat, mode: Mode, cmp: Comparator, dir: Mode, x: NodeRef)
    returns (leaf: NodeRef)
    requires ComparatorLaws(cmp) && Forest(nodes, rank, bound, mode, cmp) && Closed(nodes) && x in nodes
    ensures leaf == Descend(nodes, rank, bound, mode, cmp, dir, x)
    ensures leaf in nodes && nodes[leaf].children == []
    ensures leaf == x || nodes[leaf].parent.Some?
    ensures dir == Flip(mode) ==> HasPrecedence(dir, cmp, nodes[leaf].key, nodes[x].key)
  {
    leaf := x;
    while nodes[leaf].children != []
      invariant leaf in nodes && Descend(nodes, rank, bound, mode, cmp, dir, leaf) == Descend(nodes, rank, bound, mode, cmp, dir, x)
      invariant leaf == x || nodes[leaf].parent.Some?
      decreases bound - rank[leaf]
    {
      NodeFacts(nodes, rank, bound, mode, cmp, leaf);
      var ci := FindExtremeChild(nodes, cmp, leaf, dir);
      var c := nodes[leaf].children[ci];
      ChildFacts(nodes, rank, bound, mode, cmp, leaf, c);
      leaf := c;
    }
    if dir == Flip(mode) {
      DescendMonotone(nodes, rank, bound, mode, cmp, dir, x);
    }
  }

  /**
   * The node binheap_maximum (`dir` = Max) or binheap_minimum (`dir` = Min)
   * reports: the root the scan picks, and in the mode opposite to `dir`
   * the childless node the descent from that root reaches.
   */
  ghost function ExtremeNode(nodes: Arena, rank: Ranks, bound: nat, mode: Mode, cmp: Comparator, roots: seq<NodeRef>, dir: Mode): (r: Option<NodeRef>)
    requires Forest(nodes, rank, bound, mode, cmp) && forall x :: x in roots ==> x in nodes
    ensures r.Some? ==> r.value in nodes
  {
    if roots == [] then None
    else
      var t := roots[ScanIndex(dir, cmp, KeysOf(nodes, roots))];
      if dir == mode then Some(t) else Some(Descend(nodes, rank, bound, mode, cmp, dir, t))
  }

  /**
   * There is no extreme node exactly when the heap is empty. In the heap's
   * own mode it is the global extreme: its key has precedence over every
   * stored key. In the opposite mode it is childless and its key has
   * precedence in `dir` over every root key.
   */
  lemma ExtremeNodeMeaning(nodes: Arena, rank: Ranks, bound: nat, mode: Mode, cmp: Comparator, roots: seq<NodeRef>, dir: Mode)
    requires ComparatorLaws(cmp) && Forest(nodes, rank, bound, mode, cmp) && Closed(nodes) && RootsExact(nodes, roots)
    ensures ExtremeNode(nodes, rank, bound, mode, cmp, roots, dir).None? <==> |nodes| == 0
    ensures dir == mode && ExtremeNode(nodes, rank, bound, mode, cmp, roots, dir).Some? ==>
      forall n :: n in nodes ==> HasPrecedence(mode, cmp, nodes[ExtremeNode(nodes, rank, bound, mode, cmp, roots, dir).value].key, nodes[n].key)
    ensures dir != mode && ExtremeNode(nodes, rank, bound, mode, cmp, roots, dir).Some? ==>
      var e := ExtremeNode(nodes, rank, bound, mode, cmp, roots, dir).value;
      && nodes[e].children == []
      && forall j :: 0 <= j < |roots| ==> HasPrecedence(dir, cmp, nodes[e].key, nodes[roots[j]].key)
  {
    EmptyIffNoRoots(nodes, rank, bound, mode, cmp, roots);
    if roots != [] {
      var ks := KeysOf(nodes, roots);
      ScanIndexMeaning(dir, cmp, ks);
      var t := roots[ScanIndex(dir, cmp, ks)];
      if dir == mode {
        RootDominatesAll(nodes, rank, bound, mode, cmp, roots, t);
      } else {
        assert dir == Flip(mode);
        DescendMonotone(nodes, rank, bound, mode, cmp, dir, t);
        var e := Descend(nodes, rank, bound, mode, cmp, dir, t);
        forall j | 0 <= j < |roots| ensures HasPrecedence(dir, cmp, nodes[e].key, nodes[roots[j]].key) {
          PrecedenceTransitive(dir, cmp, nodes[e].key, nodes[t].key, nodes[roots[j]].key);
        }
      }
    }
  }

  /**
   * The candidate selection of binheap_delete over the roots or over the
   * children of one node: among the nodes whose key has precedence over
   * `key`, a later one replaces the pick when the pick has precedence over it.
   */
  method ClosestAmong(nodes: Arena, mode: Mode, cmp: Comparator, ids: seq<NodeRef>, key: Key) returns (r: Option<NodeRef>)
    requires forall x :: x in ids ==> x in nodes
    ensures var c := Closest(mode, cmp, KeysOf(nodes, ids), key);
      && (r.None? <==> c.None?)
      && (r.Some? ==> r.value == ids[c.value])
  {
    r := None;
    ghost var ks := KeysOf(nodes, ids);
    ghost var m: Option<nat> := None;
    var i := 0;
    while i < |ids|
      invariant 0 <= i <= |ids|
      invariant m == Closest(mode, cmp, ks[..i], key)
      invariant r.None? <==> m.None?
      invariant m.Some? ==> m.value < i && r.value == ids[m.value]
    {
      assert ks[..i + 1][..i] == ks[..i];
      var cur := ids[i];
      if HasPrecedence(mode, cmp, nodes[cur].key, key) {
        if r.None? || HasPrecedence(mode, cmp, nodes[r.value].key, nodes[cur].key) {
          r, m := Some(cur), Some(i);
        }
      }
      i := i + 1;
    }
    assert ks[..|ids|] == ks;
  }

  /**
   * The search of binheap_delete from node `x`: `x` itself when its key
   * compares equal to `key`; otherwise the search goes on at the closest
   * child with precedence over `key`, and fails when no child has it.
   */
  ghost function SearchFrom(nodes: Arena, rank: Ranks, bound: nat, mode: Mode, cmp: Comparator, key: Key, x: NodeRef): (r: Option<NodeRef>)
    requires Forest(nodes, rank, bound, mode, cmp) && x in nodes
    ensures r.Some? ==> r.value in nodes && cmp(nodes[r.value].key, key) == 0
    decreases bound - rank[x]
  {
    if cmp(nodes[x].key, key) == 0 then Some(x)
    else
      var kids := nodes[x].children;
      var c := Closest(mode, cmp, KeysOf(nodes, kids), key);
      if c.None? then None
      else
        ChildFacts(nodes, rank, bound, mode, cmp, x, kids[c.value]);
        SearchFrom(nodes, rank, bound, mode, cmp, key, kids[c.value])
  }

  /** The node binheap_delete destroys: the search from the closest root with precedence over `key`, if there is one. */
  ghost function DeleteTarget(nodes: Arena, rank: Ranks, bound: nat, mode: Mode, cmp: Comparator, roots: seq<NodeRef>, key: Key): (r: Option<NodeRef>)
    requires Forest(nodes, rank, bound, mode, cmp) && forall x :: x in roots ==> x in nodes
    ensures r.Some? ==> r.value in nodes && cmp(nodes[r.value].key, key) == 0
  {
    var c := Closest(mode, cmp, KeysOf(nodes, roots), key);
    if c.None? then None else SearchFrom(nodes, rank, bound, mode, cmp, key, roots[c.value])
  }

  /**
   * A stored key that compares equal to `key` has precedence over it, and
   * so does the root the heap order puts above it: the root selection of
   * binheap_delete then finds a candidate.
   */
  lemma MatchHasCandidate(nodes: Arena, rank: Ranks, bound: nat, mode: Mode, cmp: Comparator, roots: seq<NodeRef>, key: Key, n: NodeRef)
    requires ComparatorLaws(cmp) && Forest(nodes, rank, bound, mode, cmp) && Closed(nodes) && RootsExact(nodes, roots)
    requires n in nodes && cmp(nodes[n].key, key) == 0
    ensures Closest(mode, cmp, KeysOf(nodes, roots), key).Some?
  {
    assert HasPrecedence(mode, cmp, nodes[n].key, key);
    RootsBoundKeys(nodes, rank, bound, mode, cmp, key, n);
    var r :| r in nodes && nodes[r].parent.None? && HasPrecedence(mode, cmp, nodes[r].key, key);
    var j := IndexOf(roots, r);
    assert KeysOf(nodes, roots)[j] == nodes[r].key;
    ClosestMeaning(mode, cmp, KeysOf(nodes, roots), key);
  }

  /** When no root has precedence over `key`, no stored key compares equal to it. */
  lemma NoCandidateNoMatch(nodes: Arena, rank: Ranks, bound: nat, mode: Mode, cmp: Comparator, roots: seq<NodeRef>, key: Key)
    requires ComparatorLaws(cmp) && Forest(nodes, rank, bound, mode, cmp) && Closed(nodes) && RootsExact(nodes, roots)
    ensures Closest(mode, cmp, KeysOf(nodes, roots), key).None? ==> forall n :: n in nodes ==> cmp(nodes[n].key, key) != 0
  {
    forall n | n in nodes && cmp(nodes[n].key, key) == 0 ensures Closest(mode, cmp, KeysOf(nodes, roots), key).Some? {
      MatchHasCandidate(nodes, rank, bound, mode, cmp, roots, key, n);
    }
  }

  /**
   * The nodes a search visits: parent to child, each with precedence over
   * `key`.
   */
  ghost predicate SearchPath(nodes: Arena, mode: Mode, cmp: Comparator, key: Key, path: seq<NodeRef>)
  {
    && (forall i :: 0 <= i < |path| ==> path[i] in nodes && HasPrecedence(mode, cmp, nodes[path[i]].key, key))
    && (forall i :: 0 <= i < |path| - 1 ==> path[i] in nodes && path[i + 1] in nodes[path[i]].children)
  }

  /** A search path extended by a child of its last node with precedence over `key` is again one. */
  lemma SearchPathExtend(nodes: Arena, mode: Mode, cmp: Comparator, key: Key, path: seq<NodeRef>, c: NodeRef)
    requires SearchPath(nodes, mode, cmp, key, path) && path != []
    requires c in nodes && c in nodes[path[|path| - 1]].children && HasPrecedence(mode, cmp, nodes[c].key, key)
    ensures SearchPath(nodes, mode, cmp, key, path + [c])
  {
    var p := path + [c];
    assert forall i :: 0 <= i < |path| ==> p[i] == path[i];
    assert p[|path|] == c;
  }

  /**
   * The descent loop of binheap_delete from `start`: while the current node
   * does not compare equal to `key`, move to its closest child with
   * precedence over `key`, or stop with nothing.
   */
  method SearchDown(nodes: Arena, ghost rank: Ranks, ghost bound: nat, mode: Mode, cmp: Comparator, key: Key, start: NodeRef)
    returns (target: Option<NodeRef>, ghost path: seq<NodeRef>)
    requires ComparatorLaws(cmp) && Forest(nodes, rank, bound, mode, cmp) && Closed(nodes)
    requires start in nodes && HasPrecedence(mode, cmp, nodes[start].key, key)
    ensures target == SearchFrom(nodes, rank, bound, mode, cmp, key, start)
    ensures path != [] && path[0] == start && SearchPath(nodes, mode, cmp, key, path)
    ensures target.Some? ==> path[|path| - 1] == target.value
  {
    var toDelete := Some(start);
    path := [start];
    while toDelete.Some? && cmp(nodes[toDelete.value].key, key) != 0
      invariant path != [] && path[0] == start && SearchPath(nodes, mode, cmp, key, path)
      invariant toDelete.Some? ==>
        && toDelete.value in nodes && path[|path| - 1] == toDelete.value
        && SearchFrom(nodes, rank, bound, mode, cmp, key, toDelete.value) == SearchFrom(nodes, rank, bound, mode, cmp, key, start)
      invariant toDelete.None? ==> SearchFrom(nodes, rank, bound, mode, cmp, key, start).None?
      decreases if toDelete.Some? then bound - rank[toDelete.value] + 1 else 0
    {
      var x := toDelete.value;
      NodeFacts(nodes, rank, bound, mode, cmp, x);
      var kids := nodes[x].children;
      var next := ClosestAmong(nodes, mode, cmp, kids, key);
      ClosestMeaning(mode, cmp, KeysOf(nodes, kids), key);
      if next.Some? {
        ChildFacts(nodes, rank, bound, mode, cmp, x, next.value);
        SearchPathExtend(nodes, mode, cmp, key, path, next.value);
        path := path + [next.value];
      }
      toDelete := next;
    }
    target := toDelete;
  }

  /**
   * The selection and descent loops of binheap_delete. The node found, if
   * any, compares equal to `key`; the `path` of nodes visited starts at a
   * root, goes from parent to child, and only visits nodes whose key has
   * precedence over `key`. Finding no root to start from means no stored
   * key compares equal to `key`.
   */
  method FindTarget(nodes: Arena, ghost rank: Ranks, ghost bound: nat, mode: Mode, cmp: Comparator, roots: seq<NodeRef>, key: Key)
    returns (target: Option<NodeRef>, ghost path: seq<NodeRef>)
    requires ComparatorLaws(cmp) && Forest(nodes, rank, bound, mode, cmp) && Closed(nodes) && RootsExact(nodes, roots)
    ensures target == DeleteTarget(nodes, rank, bound, mode, cmp, roots, key)
    ensures target.Some? ==> target.value in nodes && cmp(nodes[target.value].key, key) == 0
    ensures target.Some? ==> path != [] && path[|path| - 1] == target.value
    ensures path != [] ==> path[0] in roots
    ensures SearchPath(nodes, mode, cmp, key, path)
    ensures path == [] ==> target.None? && forall n :: n in nodes ==> cmp(nodes[n].key, key) != 0
  {
    var tree := ClosestAmong(nodes, mode, cmp, roots, key);
    ghost var ks := KeysOf(nodes, roots);
    ClosestMeaning(mode, cmp, ks, key);
    NoCandidateNoMatch(nodes, rank, bound, mode, cmp, roots, key);
    if tree.None? {
      return None, [];
    }
    assert ks[Closest(mode, cmp, ks, key).value] == nodes[tree.value].key;
    target, path := SearchDown(nodes, rank, bound, mode, cmp, key, tree.value);
  }
}
