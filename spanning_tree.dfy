/**
 * The passage graph of a maze: cells are vertices and every removed shared
 * wall is an edge.  A maze is perfect when this graph is a spanning tree.
 */
module SpanningTree {
  import opened Lattice

  /** A walk through open passages: consecutive cells are adjacent and the wall between them is in `E`. */
  ghost predicate IsWalk(E: set<Edge>, p: seq<Cell>) {
    |p| > 0 &&
    forall i :: 0 <= i < |p| - 1 ==> Adjacent(p[i], p[i + 1]) && EdgeBetween(p[i], p[i + 1]) in E
  }

  ghost predicate Reachable(E: set<Edge>, a: Cell, b: Cell) {
    exists p :: IsWalk(E, p) && p[0] == a && p[|p| - 1] == b
  }

  /** Cell `i` of `p` and the cell after it, cyclically, are joined by an open passage. */
  ghost predicate JoinedToNext(E: set<Edge>, p: seq<Cell>, i: int)
    requires 0 <= i < |p|
  {
    Adjacent(p[i], p[(i + 1) % |p|]) && EdgeBetween(p[i], p[(i + 1) % |p|]) in E
  }

  /** At least three cells, each joined to the next and the last to the first. */
  ghost predicate ClosedWalk(E: set<Edge>, p: seq<Cell>) {
    |p| >= 3 && forall i :: 0 <= i < |p| ==> JoinedToNext(E, p, i)
  }

  /** A closed walk through distinct cells. */
  ghost predicate IsCycle(E: set<Edge>, p: seq<Cell>) {
    ClosedWalk(E, p) && forall i, j :: 0 <= i < j < |p| ==> p[i] != p[j]
  }

  /** Every cell of `V` other than the root has a strictly shallower parent, joined to it by an edge of `E`. */
  ghost predicate ParentLinks(V: set<Cell>, E: set<Edge>, root: Cell,
                              parent: map<Cell, Cell>, depth: map<Cell, nat>)
  {
    (forall c :: c in V ==> c in depth) &&
    forall c {:trigger c in parent} :: c in V && c != root ==>
      c in parent && parent[c] in V && Adjacent(c, parent[c]) &&
      EdgeBetween(c, parent[c]) in E && depth[parent[c]] < depth[c]
  }

  /** Every edge of `E` joins two cells of `V`, one of them the parent of the other. */
  ghost predicate EdgesAreLinks(V: set<Cell>, E: set<Edge>, root: Cell, parent: map<Cell, Cell>) {
    forall e {:trigger Lo(e)} :: e in E ==>
      Lo(e) in V && Hi(e) in V &&
      ((Lo(e) != root && Lo(e) in parent && parent[Lo(e)] == Hi(e)) ||
       (Hi(e) != root && Hi(e) in parent && parent[Hi(e)] == Lo(e)))
  }

  /**
   * `E` over the cells `V` is a tree rooted at `root`, witnessed by a parent
   * for every other cell, joined to it by an edge of `E` and strictly
   * shallower, with every edge of `E` joining some cell to its parent.
   */
  ghost predicate RootedTree(V: set<Cell>, E: set<Edge>, root: Cell,
                             parent: map<Cell, Cell>, depth: map<Cell, nat>)
  {
    root in V && ParentLinks(V, E, root, parent, depth) && EdgesAreLinks(V, E, root, parent)
  }

  /** The one-cell tree the traversal starts from. */
  lemma SingleCellTree(root: Cell)
    ensures RootedTree({root}, {}, root, map[], map[root := 0])
  {
  }

  /**
   * Hanging a new cell `next` below `cur` by the wall between them keeps a
   * rooted tree, and that wall was not yet an edge.
   */
  lemma GrowTree(V: set<Cell>, E: set<Edge>, root: Cell, parent: map<Cell, Cell>,
                 depth: map<Cell, nat>, cur: Cell, next: Cell)
    requires RootedTree(V, E, root, parent, depth)
    requires cur in V && next !in V && Adjacent(cur, next)
    ensures EdgeBetween(cur, next) !in E
    ensures RootedTree(V + {next}, E + {EdgeBetween(cur, next)}, root,
                       parent[next := cur], depth[next := depth[cur] + 1])
  {
    var e := EdgeBetween(cur, next);
    EdgeEnds(cur, next);
    EdgeBetweenSymmetric(cur, next);
    var V', E', parent', depth' := V + {next}, E + {e}, parent[next := cur], depth[next := depth[cur] + 1];
    forall c | c in V' && c != root
      ensures c in parent' && parent'[c] in V' && Adjacent(c, parent'[c])
      ensures EdgeBetween(c, parent'[c]) in E' && depth'[parent'[c]] < depth'[c]
    {
      if c != next {
        assert parent'[c] == parent[c] && parent[c] != next;
      }
    }
    assert ParentLinks(V', E', root, parent', depth');
    forall f | f in E'
      ensures Lo(f) in V' && Hi(f) in V'
      ensures (Lo(f) != root && Lo(f) in parent' && parent'[Lo(f)] == Hi(f)) ||
              (Hi(f) != root && Hi(f) in parent' && parent'[Hi(f)] == Lo(f))
    {
      if f != e {
        assert Lo(f) != next && Hi(f) != next;
      }
    }
    assert EdgesAreLinks(V', E', root, parent');
  }

  /** Every cell of a rooted tree is reached from the root by a walk along tree edges. */
  lemma {:induction false} WalkFromRoot(V: set<Cell>, E: set<Edge>, root: Cell,
                                        parent: map<Cell, Cell>, depth: map<Cell, nat>, c: Cell)
    returns (p: seq<Cell>)
    requires RootedTree(V, E, root, parent, depth)
    requires c in V
    ensures IsWalk(E, p) && p[0] == root && p[|p| - 1] == c
    decreases depth[c]
  {
    if c == root {
      p := [root];
    } else {
      var up := parent[c];
      var q := WalkFromRoot(V, E, root, parent, depth, up);
      EdgeBetweenSymmetric(c, up);
      p := q + [c];
      forall i | 0 <= i < |p| - 1
        ensures Adjacent(p[i], p[i + 1]) && EdgeBetween(p[i], p[i + 1]) in E
      {
        if i < |q| - 1 {
          assert p[i] == q[i] && p[i + 1] == q[i + 1];
        } else {
          assert p[i] == up && p[i + 1] == c;
        }
      }
    }
  }

  /** A rooted tree is connected: every cell of it is reachable from the root. */
  lemma TreeConnected(V: set<Cell>, E: set<Edge>, root: Cell,
                      parent: map<Cell, Cell>, depth: map<Cell, nat>)
    requires RootedTree(V, E, root, parent, depth)
    ensures forall c :: c in V ==> Reachable(E, root, c)
  {
    forall c | c in V
      ensures Reachable(E, root, c)
    {
      var p := WalkFromRoot(V, E, root, parent, depth, c);
    }
  }

  /** An index of a cell of greatest depth in `p`. */
  lemma {:induction false} DeepestIndex(p: seq<Cell>, depth: map<Cell, nat>) returns (k: nat)
    requires |p| > 0 && forall i :: 0 <= i < |p| ==> p[i] in depth
    ensures k < |p| && forall i :: 0 <= i < |p| ==> depth[p[i]] <= depth[p[k]]
  {
    if |p| == 1 {
      k := 0;
    } else {
      var k' := DeepestIndex(p[..|p| - 1], depth);
      assert forall i :: 0 <= i < |p| - 1 ==> p[..|p| - 1][i] == p[i];
      k := if depth[p[|p| - 1]] > depth[p[k']] then |p| - 1 else k';
    }
  }

  /** An edge to a cell no deeper than `v` leads to the parent of `v`. */
  lemma EdgeToShallower(V: set<Cell>, E: set<Edge>, root: Cell,
                        parent: map<Cell, Cell>, depth: map<Cell, nat>, v: Cell, u: Cell)
    requires RootedTree(V, E, root, parent, depth)
    requires Adjacent(v, u) && EdgeBetween(v, u) in E
    requires v in depth && u in depth && depth[u] <= depth[v]
    ensures v != root && v in parent && parent[v] == u
  {
    EdgeEnds(v, u);
  }

  /** Each cell of a closed walk is beside an edge of `E`, so it is a cell of the tree. */
  lemma ClosedWalkInTree(V: set<Cell>, E: set<Edge>, root: Cell,
                         parent: map<Cell, Cell>, depth: map<Cell, nat>, p: seq<Cell>)
    requires RootedTree(V, E, root, parent, depth)
    requires ClosedWalk(E, p)
    ensures forall i :: 0 <= i < |p| ==> p[i] in V && p[i] in depth
  {
    forall i | 0 <= i < |p|
      ensures p[i] in V
    {
      assert JoinedToNext(E, p, i);
      EdgeEnds(p[i], p[(i + 1) % |p|]);
    }
  }

  /** The positions before and after `k` on a cycle of length `n`, which differ when n >= 3. */
  lemma CycleNeighbourIndices(n: int, k: int) returns (kPrev: int, kNext: int)
    requires 3 <= n && 0 <= k < n
    ensures 0 <= kPrev < n && 0 <= kNext < n && kPrev != kNext
    ensures (k + 1) % n == kNext && (kPrev + 1) % n == k
  {
    kNext := if k == n - 1 then 0 else k + 1;
    kPrev := if k == 0 then n - 1 else k - 1;
  }

  /**
   * A closed walk in a rooted tree visits some cell twice: both cycle
   * neighbours of its deepest cell are that cell's parent.
   */
  lemma ClosedWalkRepeats(V: set<Cell>, E: set<Edge>, root: Cell,
                          parent: map<Cell, Cell>, depth: map<Cell, nat>, p: seq<Cell>)
    requires RootedTree(V, E, root, parent, depth)
    requires ClosedWalk(E, p)
    ensures exists i, j :: 0 <= i < j < |p| && p[i] == p[j]
  {
    ClosedWalkInTree(V, E, root, parent, depth, p);
    var k := DeepestIndex(p, depth);
    var kPrev, kNext := CycleNeighbourIndices(|p|, k);
    var v, u, w := p[k], p[kNext], p[kPrev];
    assert v in parent && parent[v] == u by {
      assert JoinedToNext(E, p, k);
      EdgeToShallower(V, E, root, parent, depth, v, u);
    }
    assert v in parent && parent[v] == w by {
      assert JoinedToNext(E, p, kPrev);
      EdgeBetweenSymmetric(w, v);
      EdgeToShallower(V, E, root, parent, depth, v, w);
    }
    if kPrev < kNext {
      assert p[kPrev] == p[kNext];
    } else {
      assert p[kNext] == p[kPrev];
    }
  }

  /** A rooted tree has no cycle. */
  lemma TreeAcyclic(V: set<Cell>, E: set<Edge>, root: Cell,
                    parent: map<Cell, Cell>, depth: map<Cell, nat>)
    requires RootedTree(V, E, root, parent, depth)
    ensures forall p :: !IsCycle(E, p)
  {
    forall p | ClosedWalk(E, p)
      ensures !IsCycle(E, p)
    {
      ClosedWalkRepeats(V, E, root, parent, depth, p);
    }
  }
}
