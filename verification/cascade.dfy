/**
 * The orphan cascade of `Dag::remove_orphan` (dag.h), stated on the two
 * maps: the invariant it keeps, what one call achieves, and the theorem
 * that on an acyclic graph it evicts exactly the nodes no longer reachable
 * from an orphan once the removed node's citations are severed.
 */
module Cascade {
  import opened Adjacency

  /** A height function: every edge goes from a higher node to a strictly lower one. */
  ghost predicate Ranked<T>(children: Adj<T>, rank: map<T, nat>)
  {
    && children.Keys <= rank.Keys
    && forall p, c | p in children && c in children[p] :: c in rank && rank[c] < rank[p]
  }

  ghost predicate Acyclic<T(!new)>(children: Adj<T>)
  {
    exists rank :: Ranked(children, rank)
  }

  /** The nodes without parents. */
  ghost function Orphans<T>(parents: Adj<T>): set<T>
  {
    set r | r in parents && parents[r] == {}
  }

  /**
   * The nodes the cascade keeps when `v` is removed: those reachable, once
   * every citation of `v` is severed, from an orphan other than `v`.
   */
  ghost function Kept<T(!new)>(children: Adj<T>, parents: Adj<T>, v: T): set<T>
  {
    set x | x in children && exists r | r in Orphans(parents) - {v} :: Reachable(CutIn(children, v), r, x)
  }

  /**
   * The maps in the middle of a cascade whose active calls are on the nodes
   * of `dying`: those are orphans whose own child links may already be
   * half undone; every other link is recorded on both sides.
   */
  ghost predicate Consistent<T>(children: Adj<T>, parents: Adj<T>, dying: set<T>)
  {
    && children.Keys == parents.Keys
    && dying <= children.Keys
    && (forall d | d in dying :: parents[d] == {})
    && (forall p, c | p in children && p !in dying && c in children[p] :: c in parents && p in parents[c])
    && (forall c, p | c in parents && p in parents[c] :: p in children && c in children[p])
  }

  /** What `remove_orphan(v)` demands, with the calls in `dying` still active above it. */
  ghost predicate OrphanPre<T>(children: Adj<T>, parents: Adj<T>, v: T, dying: set<T>, rank: map<T, nat>)
  {
    && Consistent(children, parents, dying) && Ranked(children, rank)
    && v in children && v !in dying && parents[v] == {}
    && forall d | d in dying :: d in rank && v in rank && rank[v] < rank[d]
  }

  /**
   * What one call `remove_orphan(v)` does to the maps `C`, `P`: it removes
   * `v` and some other nodes, each of which had parents and lost all of them
   * to the removal; the surviving nodes keep their children, lose exactly
   * the removed parents, and none of them becomes an orphan.
   */
  ghost predicate CascadeStep<T>(C: Adj<T>, P: Adj<T>, children: Adj<T>, parents: Adj<T>, v: T)
  {
    var removed := C.Keys - children.Keys;
    && C.Keys == P.Keys && children.Keys == parents.Keys
    && children.Keys <= C.Keys && v !in children
    && (forall x | x in children :: children[x] == C[x] && parents[x] == P[x] - removed)
    && (forall r | r in removed :: r == v || (P[r] != {} && P[r] <= removed))
    && (forall x | x in children && parents[x] == {} :: P[x] == {})
  }

  /**
   * The loop invariant of `remove_orphan(v)` started on `C`, `P`: `todo` are
   * the children of `v` not yet visited, which still hold `v` as a parent.
   */
  ghost predicate Cascading<T>(C: Adj<T>, P: Adj<T>, children: Adj<T>, parents: Adj<T>,
                               v: T, todo: set<T>, dying: set<T>, rank: map<T, nat>)
  {
    var removed := C.Keys - children.Keys;
    && OrphanPre(C, P, v, dying, rank)
    && todo <= C[v] && todo <= children.Keys
    && v in children && children.Keys <= C.Keys
    && Consistent(children, parents, dying + {v})
    && (forall x | x in children :: children[x] == C[x])
    && (forall x | x in children :: parents[x] == P[x] - removed - (if x in todo then {} else {v}))
    && (forall r | r in removed :: P[r] != {} && P[r] <= removed + {v})
    && (forall x | x in children && parents[x] == {} :: P[x] == {})
  }

  /** Erasing the link from a dying node `v` to its child `c`. */
  lemma ConsistentUnlink<T>(children: Adj<T>, parents: Adj<T>, dying: set<T>, v: T, c: T)
    requires Consistent(children, parents, dying) && v in dying && c in parents && c !in dying
    ensures Consistent(children, parents[c := parents[c] - {v}], dying)
  {
    var parents' := parents[c := parents[c] - {v}];
    forall p, x | p in children && p !in dying && x in children[p]
      ensures x in parents' && p in parents'[x]
    {
      assert x in parents && p in parents[x];
    }
    forall x, p | x in parents' && p in parents'[x]
      ensures p in children && x in children[p]
    {
      assert p in parents[x];
    }
  }

  lemma CascadingInit<T>(C: Adj<T>, P: Adj<T>, v: T, dying: set<T>, rank: map<T, nat>)
    requires OrphanPre(C, P, v, dying, rank)
    ensures Cascading(C, P, C, P, v, C[v], dying, rank)
  {
    forall x | x in C
      ensures P[x] == P[x] - {} - (if x in C[v] then {} else {v})
    {
      if v in P[x] {
        assert x in C[v];
      }
    }
    assert C.Keys - C.Keys == {};
  }

  /** Visiting a child that keeps another parent. */
  lemma CascadingSkip<T>(C: Adj<T>, P: Adj<T>, children: Adj<T>, parents: Adj<T>,
                         v: T, c: T, todo: set<T>, dying: set<T>, rank: map<T, nat>)
    requires Cascading(C, P, children, parents, v, todo, dying, rank)
    requires c in todo && parents[c] - {v} != {}
    ensures Cascading(C, P, children, parents[c := parents[c] - {v}], v, todo - {c}, dying, rank)
  {
    assert c !in dying + {v} by {
      assert rank[c] < rank[v];
    }
    ConsistentUnlink(children, parents, dying + {v}, v, c);
  }

  /** Visiting a child that has just lost its last parent: the recursive call may start. */
  lemma CascadingOrphan<T>(C: Adj<T>, P: Adj<T>, children: Adj<T>, parents: Adj<T>,
                           v: T, c: T, todo: set<T>, dying: set<T>, rank: map<T, nat>)
    requires Cascading(C, P, children, parents, v, todo, dying, rank)
    requires c in todo && parents[c] - {v} == {}
    ensures OrphanPre(children, parents[c := {}], c, dying + {v}, rank)
    ensures c in rank && v in rank && rank[c] < rank[v]
  {
    assert rank[c] < rank[v];
    assert c !in dying + {v};
    ConsistentUnlink(children, parents, dying + {v}, v, c);
    assert parents[c := parents[c] - {v}] == parents[c := {}];
    assert Ranked(children, rank);
  }

  /** The premises shared by the steps after a recursive call on the orphaned child `c`. */
  ghost predicate AfterRecursion<T>(C: Adj<T>, P: Adj<T>, children: Adj<T>, parents: Adj<T>,
                                    v: T, c: T, todo: set<T>, dying: set<T>, rank: map<T, nat>,
                                    children': Adj<T>, parents': Adj<T>)
  {
    && Cascading(C, P, children, parents, v, todo, dying, rank)
    && c in todo && parents[c] - {v} == {}
    && CascadeStep(children, parents[c := {}], children', parents', c)
    && Consistent(children', parents', dying + {v})
  }

  lemma RecurseSparesSiblings<T>(C: Adj<T>, P: Adj<T>, children: Adj<T>, parents: Adj<T>,
                                 v: T, c: T, todo: set<T>, dying: set<T>, rank: map<T, nat>,
                                 children': Adj<T>, parents': Adj<T>)
    requires AfterRecursion(C, P, children, parents, v, c, todo, dying, rank, children', parents')
    ensures todo - {c} <= children'.Keys
  {
    forall x | x in todo - {c}
      ensures x in children'
    {
      assert v in P[x];
      assert v in parents[x];
    }
  }

  lemma RecurseTracksParents<T>(C: Adj<T>, P: Adj<T>, children: Adj<T>, parents: Adj<T>,
                                v: T, c: T, todo: set<T>, dying: set<T>, rank: map<T, nat>,
                                children': Adj<T>, parents': Adj<T>)
    requires AfterRecursion(C, P, children, parents, v, c, todo, dying, rank, children', parents')
    ensures forall x | x in children' :: parents'[x] == P[x] - (C.Keys - children'.Keys) - (if x in todo - {c} then {} else {v})
  {
    var removed' := C.Keys - children'.Keys;
    assert removed' == (C.Keys - children.Keys) + (children.Keys - children'.Keys);
    forall x | x in children'
      ensures parents'[x] == P[x] - removed' - (if x in todo - {c} then {} else {v})
    {
      assert x != c;
    }
  }

  lemma RecurseExplainsRemoved<T>(C: Adj<T>, P: Adj<T>, children: Adj<T>, parents: Adj<T>,
                                  v: T, c: T, todo: set<T>, dying: set<T>, rank: map<T, nat>,
                                  children': Adj<T>, parents': Adj<T>)
    requires AfterRecursion(C, P, children, parents, v, c, todo, dying, rank, children', parents')
    ensures forall r | r in C.Keys - children'.Keys :: P[r] != {} && P[r] <= (C.Keys - children'.Keys) + {v}
  {
    var sub := children.Keys - children'.Keys;
    var removed' := C.Keys - children'.Keys;
    assert removed' == (C.Keys - children.Keys) + sub;
    forall r | r in removed'
      ensures P[r] != {} && P[r] <= removed' + {v}
    {
      if r in sub {
        if r == c {
          assert v in P[c];
        } else {
          assert parents[r] <= P[r];
        }
      }
    }
  }

  /** After the recursive call on the orphaned child `c`. */
  lemma CascadingRecurse<T>(C: Adj<T>, P: Adj<T>, children: Adj<T>, parents: Adj<T>,
                            v: T, c: T, todo: set<T>, dying: set<T>, rank: map<T, nat>,
                            children': Adj<T>, parents': Adj<T>)
    requires Cascading(C, P, children, parents, v, todo, dying, rank)
    requires c in todo && parents[c] - {v} == {}
    requires CascadeStep(children, parents[c := {}], children', parents', c)
    requires Consistent(children', parents', dying + {v})
    ensures Cascading(C, P, children', parents', v, todo - {c}, dying, rank)
  {
    RecurseSparesSiblings(C, P, children, parents, v, c, todo, dying, rank, children', parents');
    RecurseTracksParents(C, P, children, parents, v, c, todo, dying, rank, children', parents');
    RecurseExplainsRemoved(C, P, children, parents, v, c, todo, dying, rank, children', parents');
  }

  /** Erasing an orphan `v` that is nobody's parent any more. */
  lemma EraseDetached<T>(children: Adj<T>, parents: Adj<T>, v: T, dying: set<T>)
    requires Consistent(children, parents, dying + {v}) && v !in dying
    requires forall x | x in parents :: v !in parents[x]
    ensures Consistent(children - {v}, parents - {v}, dying)
  {
    var c, p := children - {v}, parents - {v};
    forall x, y | x in c && x !in dying && y in c[x]
      ensures y in p && x in p[y]
    {
      assert y in parents && x in parents[y];
    }
    forall y, x | y in p && x in p[y]
      ensures x in c && y in c[x]
    {
      assert x in parents[y];
    }
  }

  lemma DoneStep<T>(C: Adj<T>, P: Adj<T>, children: Adj<T>, parents: Adj<T>,
                    v: T, dying: set<T>, rank: map<T, nat>)
    requires Cascading(C, P, children, parents, v, {}, dying, rank)
    ensures CascadeStep(C, P, children - {v}, parents - {v}, v)
  {
    var c := children - {v};
    var removed := C.Keys - children.Keys;
    assert C.Keys - c.Keys == removed + {v};
  }

  /** After the loop, `v` itself is erased from both maps. */
  lemma CascadingDone<T>(C: Adj<T>, P: Adj<T>, children: Adj<T>, parents: Adj<T>,
                         v: T, dying: set<T>, rank: map<T, nat>)
    requires Cascading(C, P, children, parents, v, {}, dying, rank)
    ensures CascadeStep(C, P, children - {v}, parents - {v}, v)
    ensures Consistent(children - {v}, parents - {v}, dying)
  {
    DoneStep(C, P, children, parents, v, dying, rank);
    assert forall x | x in parents :: v !in parents[x];
    EraseDetached(children, parents, v, dying);
  }

  /** Severing the citations of `v` and clearing its parent set makes it a removable orphan. */
  lemma CutStartsCascade<T>(C: Adj<T>, P: Adj<T>, v: T, rank: map<T, nat>)
    requires Mirrored(C, P) && Ranked(C, rank) && v in C
    ensures OrphanPre(CutIn(C, v), P[v := {}], v, {}, rank)
  {
    var c, p := CutIn(C, v), P[v := {}];
    forall x, y | x in c && y in c[x]
      ensures y in p && x in p[y]
    {
      assert y in C[x];
    }
    forall y, x | y in p && x in p[y]
      ensures x in c && y in c[x]
    {
      assert x in P[y];
    }
    assert Consistent(c, p, {});
  }

  /** Every node reachable from a kept orphan survives the cascade. */
  lemma {:induction false} KeptSurvives<T(!new)>(C: Adj<T>, P: Adj<T>, v: T, C2: Adj<T>, P2: Adj<T>, x: T)
    requires Mirrored(C, P) && v in C
    requires CascadeStep(CutIn(C, v), P[v := {}], C2, P2, v)
    requires x in Kept(C, P, v)
    ensures x in C2
  {
    var g := CutIn(C, v);
    var r :| r in Orphans(P) - {v} && Reachable(g, r, x);
    var path :| IsPath(g, path) && path[0] == r && path[|path| - 1] == x;
    assert r in C2 by {
      assert P[v := {}][r] == {};
    }
    var i := 0;
    while i < |path| - 1
      invariant 0 <= i < |path| && path[i] in C2
    {
      var a, b := path[i], path[i + 1];
      assert b in C[a] && b != v;
      assert a in P[v := {}][b];
      i := i + 1;
    }
  }

  /** The nodes ranked strictly above `x`. */
  ghost function Above<T>(keys: set<T>, rank: map<T, nat>, x: T): set<T>
    requires x in rank
  {
    set y | y in keys && y in rank && rank[y] > rank[x]
  }

  /** Every node the cascade keeps is reachable from a kept orphan. */
  lemma {:induction false} SurvivorKept<T(!new)>(C: Adj<T>, P: Adj<T>, v: T, rank: map<T, nat>, C2: Adj<T>, P2: Adj<T>, x: T)
    requires Mirrored(C, P) && Ranked(C, rank) && v in C
    requires CascadeStep(CutIn(C, v), P[v := {}], C2, P2, v) && Consistent(C2, P2, {})
    requires x in C2
    ensures x in Kept(C, P, v)
    decreases Above(C.Keys, rank, x)
  {
    var g := CutIn(C, v);
    if P2[x] == {} {
      assert P[x] == {};
      ReachableSelf(g, x);
      assert x in Orphans(P) - {v};
    } else {
      var p :| p in P2[x];
      assert p in C2;
      assert p in P[x];
      assert rank[x] < rank[p];
      assert p in Above(C.Keys, rank, x) - Above(C.Keys, rank, p);
      SurvivorKept(C, P, v, rank, C2, P2, p);
      var r :| r in Orphans(P) - {v} && Reachable(g, r, p);
      ReachableStep(g, r, p, x);
    }
  }

  /** The cascade keeps exactly the nodes of `Kept`. */
  lemma {:induction false} CascadeKeeps<T(!new)>(C: Adj<T>, P: Adj<T>, v: T, rank: map<T, nat>, C2: Adj<T>, P2: Adj<T>)
    requires Mirrored(C, P) && Ranked(C, rank) && v in C
    requires CascadeStep(CutIn(C, v), P[v := {}], C2, P2, v) && Consistent(C2, P2, {})
    ensures C2.Keys == Kept(C, P, v)
  {
    forall x | x in Kept(C, P, v)
      ensures x in C2
    {
      KeptSurvives(C, P, v, C2, P2, x);
    }
    forall x | x in C2
      ensures x in Kept(C, P, v)
    {
      SurvivorKept(C, P, v, rank, C2, P2, x);
    }
  }

  /** A survivor keeps exactly its links to other survivors. */
  lemma SurvivorLinks<T>(C: Adj<T>, P: Adj<T>, v: T, C2: Adj<T>, P2: Adj<T>, x: T)
    requires Mirrored(C, P) && v in C && v !in C2
    requires CascadeStep(CutIn(C, v), P[v := {}], C2, P2, v)
    requires x in C2
    ensures C2[x] == C[x] * C2.Keys && P2[x] == P[x] * C2.Keys
  {
    forall y | y in C[x] && y != v
      ensures y in C2
    {
      assert x in P[v := {}][y];
    }
    assert P2[x] == P[x] - (C.Keys - C2.Keys);
  }

  /**
   * The orphan cascade started by removing `v` from an acyclic mirrored
   * graph keeps exactly the nodes reachable from an orphan other than `v`
   * once the citations of `v` are severed, and each keeps only its links to
   * other kept nodes.
   */
  lemma {:induction false} CascadeOutcome<T(!new)>(C: Adj<T>, P: Adj<T>, v: T, rank: map<T, nat>, C2: Adj<T>, P2: Adj<T>)
    requires Mirrored(C, P) && Ranked(C, rank) && v in C
    requires CascadeStep(CutIn(C, v), P[v := {}], C2, P2, v) && Consistent(C2, P2, {})
    ensures C2 == Prune(C, Kept(C, P, v))
    ensures P2 == Prune(P, Kept(C, P, v))
    ensures Mirrored(C2, P2) && Ranked(C2, rank)
  {
    CascadeKeeps(C, P, v, rank, C2, P2);
    CascadePrunes(C, P, v, C2, P2);
    CascadeKeepsShape(C, P, v, rank, C2, P2);
  }

  lemma CascadePrunes<T>(C: Adj<T>, P: Adj<T>, v: T, C2: Adj<T>, P2: Adj<T>)
    requires Mirrored(C, P) && v in C
    requires CascadeStep(CutIn(C, v), P[v := {}], C2, P2, v)
    ensures C2 == Prune(C, C2.Keys) && P2 == Prune(P, C2.Keys)
  {
    forall x | x in C2
      ensures C2[x] == C[x] * C2.Keys && P2[x] == P[x] * C2.Keys
    {
      SurvivorLinks(C, P, v, C2, P2, x);
    }
  }

  lemma CascadeKeepsShape<T>(C: Adj<T>, P: Adj<T>, v: T, rank: map<T, nat>, C2: Adj<T>, P2: Adj<T>)
    requires Ranked(C, rank) && v in C
    requires CascadeStep(CutIn(C, v), P[v := {}], C2, P2, v) && Consistent(C2, P2, {})
    ensures Mirrored(C2, P2) && Ranked(C2, rank)
  {
  }

  /** Along the edges of a ranked graph the rank never grows. */
  lemma {:induction false} RankDescends<T(!new)>(g: Adj<T>, rank: map<T, nat>, a: T, b: T)
    requires Ranked(g, rank) && a in g && Reachable(g, a, b)
    ensures b in rank && rank[b] <= rank[a]
  {
    var path :| IsPath(g, path) && path[0] == a && path[|path| - 1] == b;
    var i := 0;
    while i < |path| - 1
      invariant 0 <= i < |path| && path[i] in rank && rank[path[i]] <= rank[a]
    {
      i := i + 1;
    }
  }

  /** In an acyclic rooted graph the root cites nothing, so it is the only orphan. */
  lemma {:induction false} RootIsOnlyOrphan<T(!new)>(C: Adj<T>, P: Adj<T>, root: T, rank: map<T, nat>)
    requires Rooted(C, P, root) && Ranked(C, rank)
    ensures Orphans(P) == {root}
  {
    if P[root] != {} {
      var p :| p in P[root];
      RankDescends(C, rank, root, p);
      assert false;
    }
    forall r | r in Orphans(P)
      ensures r == root
    {
      UniqueOrphan(C, P, root, r);
    }
  }

  /**
   * On an acyclic rooted graph the cascade keeps exactly the publications
   * the citation graph's `remove` keeps: those still reachable from the root.
   */
  lemma {:induction false} KeptIsSurviving<T(!new)>(C: Adj<T>, P: Adj<T>, root: T, v: T, rank: map<T, nat>)
    requires Rooted(C, P, root) && Ranked(C, rank) && v != root
    ensures Kept(C, P, v) == Surviving(C, root, v)
  {
    RootIsOnlyOrphan(C, P, root, rank);
    assert Orphans(P) - {v} == {root};
  }
}
