/**
 * `Dag<T>` of dag.h: the plain reference model of a citation graph, two
 * maps from a node to its children and to its parents, with removal by an
 * orphan cascade. The citation graph's `remove` is cross-checked against it.
 */
module Dags {
  import opened Adjacency
  import opened Cascade
  import Journal

  datatype Option<T> = None | Some(value: T)

  /** `addIfAbsent(m, node)`: `node` gets an empty set unless it already has one. */
  function AddIfAbsent<T>(m: Adj<T>, node: T): (r: Adj<T>)
    ensures r.Keys == m.Keys + {node}
    ensures forall k | k in m :: r[k] == m[k]
    ensures node !in m ==> r[node] == {}
  {
    if node in m then m else m[node := {}]
  }

  /** Registering a fresh leaf under live parents keeps the maps mirrored. */
  lemma {:induction false} WithVertexKeepsMirrored<T>(children: Adj<T>, parents: Adj<T>, n: T, ps: set<T>)
    requires Mirrored(children, parents) && n !in children && ps <= children.Keys && n !in ps
    ensures Mirrored(WithVertex(children, n, ps), parents[n := ps])
  {
    var c, p := WithVertex(children, n, ps), parents[n := ps];
    assert c.Keys == p.Keys;
    forall x, y | x in c && y in c[x]
      ensures y in p && x in p[y]
    {
      if y != n {
        assert y in children[x];
      }
    }
    forall y, x | y in p && x in p[y]
      ensures x in c && y in c[x]
    {
      if y != n {
        assert x in parents[y];
      }
    }
  }

  /** A fresh leaf can be ranked below everything, so the graph stays acyclic. */
  lemma {:induction false} WithVertexKeepsAcyclic<T(!new)>(children: Adj<T>, n: T, ps: set<T>)
    requires Acyclic(children) && n !in children && n !in ps
    requires forall k | k in children :: n !in children[k]
    ensures Acyclic(WithVertex(children, n, ps))
  {
    var rank :| Ranked(children, rank);
    var c := WithVertex(children, n, ps);
    var lifted := map k | k in rank.Keys + ps + {n} :: if k == n then 0 else if k in rank then rank[k] + 1 else 1;
    forall x, y | x in c && y in c[x]
      ensures y in lifted && x in lifted && lifted[y] < lifted[x]
    {
      if y != n {
        assert y in children[x];
      }
    }
    assert Ranked(c, lifted);
  }

  /** Adding the same edge twice is adding it once. */
  lemma WithEdgeIdempotent<T>(m: Adj<T>, a: T, b: T)
    ensures WithEdge(WithEdge(m, a, b), a, b) == WithEdge(m, a, b)
  {
    var once := WithEdge(m, a, b);
    assert WithEdge(once, a, b).Keys == once.Keys;
  }

  /** `WithEdge` is the insertion into a map that already holds both ends. */
  lemma WithEdgeAfterAdding<T>(m: Adj<T>, a: T, b: T)
    ensures WithEdge(m, a, b) == AddIfAbsent(AddIfAbsent(m, a), b)[a := Get(m, a) + {b}]
  {
    var grown := AddIfAbsent(AddIfAbsent(m, a), b);
    assert WithEdge(m, a, b).Keys == grown.Keys;
  }

  /** On mirrored maps, having no parents means being nobody's child. */
  lemma OrphanHasNoParentLink<T>(children: Adj<T>, parents: Adj<T>, v: T)
    ensures Mirrored(children, parents) ==> (Get(parents, v) == {} <==> forall p | p in children :: v !in children[p])
  {
    if Mirrored(children, parents) && Get(parents, v) != {} {
      var p :| p in parents[v];
      assert v in children[p];
    }
  }

  /**
   * On mirrored maps no cycle passes through an orphan: nothing it reaches
   * leads back to it, so the cascade never re-enters the node it started from.
   */
  lemma NoCycleThroughOrphan<T(!new)>(children: Adj<T>, parents: Adj<T>, v: T, y: T)
    requires Mirrored(children, parents) && Get(parents, v) == {} && v in children && y in children[v]
    ensures !Reachable(children, y, v)
  {
    if Reachable(children, y, v) && y != v {
      ReachablePredecessor(children, y, v);
    }
  }

  lemma WithVertexNone<T>(m: Adj<T>, n: T)
    ensures WithVertex(m, n, {}) == m[n := {}]
  {
    var w := WithVertex(m, n, {});
    forall k | k in w
      ensures w[k] == m[n := {}][k]
    {
    }
    assert w.Keys == m[n := {}].Keys;
  }

  lemma WithVertexOne<T>(m: Adj<T>, n: T, p: T)
    ensures WithVertex(m, n, {p}) == m[n := {}][p := Get(m[n := {}], p) + {n}]
  {
    var w, u := WithVertex(m, n, {p}), m[n := {}][p := Get(m[n := {}], p) + {n}];
    forall k | k in w
      ensures w[k] == u[k]
    {
    }
    assert w.Keys == u.Keys;
  }

  lemma WithVertexMore<T>(m: Adj<T>, n: T, ps: set<T>, p: T)
    ensures WithVertex(m, n, ps + {p}) == WithVertex(m, n, ps)[p := Get(WithVertex(m, n, ps), p) + {n}]
  {
    var w, u := WithVertex(m, n, ps + {p}), WithVertex(m, n, ps)[p := Get(WithVertex(m, n, ps), p) + {n}];
    forall k | k in w
      ensures w[k] == u[k]
    {
    }
    assert w.Keys == u.Keys;
  }

  /** A second update of the same key overrides the first. */
  lemma Overwrite<T>(m: Adj<T>, k: T, a: set<T>, b: set<T>)
    ensures m[k := a][k := b] == m[k := b]
  {
    assert m[k := a][k := b].Keys == m[k := b].Keys;
  }

  class Dag<T(==, !new)> {
    var children: Adj<T>
    var parents: Adj<T>

    constructor ()
      ensures children == map[] && parents == map[]
    {
      children := map[];
      parents := map[];
    }

    /** `add_vertex(n, p)`: `n` becomes a leaf whose only parent is `p`. */
    method AddVertex(n: T, p: T)
      modifies this
      ensures parents == old(parents)[n := {p}]
      ensures children == WithVertex(old(children), n, {p})
    {
      parents := parents[n := {p}];
      children := children[n := {}];
      children := children[p := Get(children, p) + {n}];
      WithVertexOne(old(children), n, p);
    }

    /** `add_vertices(n, ps)`: `n` becomes a leaf whose parents are the members of `ps`. */
    method AddVertices(n: T, ps: seq<T>)
      modifies this
      ensures parents == old(parents)[n := Journal.Elements(ps)]
      ensures children == WithVertex(old(children), n, Journal.Elements(ps))
    {
      ghost var c0, p0 := children, parents;
      parents := parents[n := {}];
      children := children[n := {}];
      assert Journal.Elements(ps[..0]) == {};
      WithVertexNone(c0, n);
      for i := 0 to |ps|
        invariant parents == p0[n := Journal.Elements(ps[..i])]
        invariant children == WithVertex(c0, n, Journal.Elements(ps[..i]))
      {
        var p := ps[i];
        ghost var done := Journal.Elements(ps[..i]);
        Journal.ElementsPrefix(ps, i);
        WithVertexMore(c0, n, done, p);
        Overwrite(p0, n, done, done + {p});
        parents := parents[n := parents[n] + {p}];
        children := children[p := Get(children, p) + {n}];
      }
      assert ps[..|ps|] == ps;
    }

    /** `get_root`: a node without parents, or `None` when every node has a parent. */
    method GetRoot() returns (r: Option<T>)
      ensures r.Some? ==> r.value in parents && parents[r.value] == {}
      ensures r.None? <==> forall k | k in parents :: parents[k] != {}
    {
      var rest := parents.Keys;
      while rest != {}
        invariant rest <= parents.Keys
        invariant forall k | k in parents && k !in rest :: parents[k] != {}
        decreases rest
      {
        var k :| k in rest;
        if parents[k] == {} {
          return Some(k);
        }
        rest := rest - {k};
      }
      return None;
    }

    /** `add_if_absent(node)`: `node` is a key of both maps afterwards; existing entries are kept. */
    method AddIfAbsentBoth(node: T)
      modifies this
      ensures children == AddIfAbsent(old(children), node)
      ensures parents == AddIfAbsent(old(parents), node)
    {
      children := AddIfAbsent(children, node);
      parents := AddIfAbsent(parents, node);
    }

    /** `add_edge(from, to)`: both ends become nodes and the edge is recorded on both sides. */
    method AddEdge(from: T, to: T)
      modifies this
      ensures children == WithEdge(old(children), from, to)
      ensures parents == WithEdge(old(parents), to, from)
    {
      AddIfAbsentBoth(from);
      AddIfAbsentBoth(to);
      WithEdgeAfterAdding(old(children), from, to);
      WithEdgeAfterAdding(old(parents), to, from);
      children := children[from := children[from] + {to}];
      parents := parents[to := parents[to] + {from}];
    }

    /** `is_orphan(v)`: `v` has no parent; on mirrored maps, no node lists `v` as a child. */
    function IsOrphan(v: T): (b: bool)
      reads this
      ensures Mirrored(children, parents) ==> (b <==> forall p | p in children :: v !in children[p])
    {
      OrphanHasNoParentLink(children, parents, v);
      Get(parents, v) == {}
    }

    /**
     * `remove_orphan(v)`: erases `v` from the parent set of each of its
     * children, recursively removes each child left without parents, then
     * drops `v` from both maps. `dying` are the nodes whose calls are still
     * active above this one; `rank` orders the recursion.
     */
    method RemoveOrphan(v: T, ghost dying: set<T>, ghost rank: map<T, nat>)
      requires OrphanPre(children, parents, v, dying, rank)
      modifies this
      ensures CascadeStep(old(children), old(parents), children, parents, v)
      ensures Consistent(children, parents, dying)
      decreases rank[v]
    {
      ghost var C, P := children, parents;
      CascadingInit(C, P, v, dying, rank);
      var todo := children[v];
      while todo != {}
        invariant Cascading(C, P, children, parents, v, todo, dying, rank)
        decreases todo
      {
        var c :| c in todo;
        ghost var C1, P1 := children, parents;
        parents := parents[c := parents[c] - {v}];
        if IsOrphan(c) {
          CascadingOrphan(C, P, C1, P1, v, c, todo, dying, rank);
          assert parents == P1[c := {}];
          RemoveOrphan(c, dying + {v}, rank);
          CascadingRecurse(C, P, C1, P1, v, c, todo, dying, rank, children, parents);
        } else {
          CascadingSkip(C, P, C1, P1, v, c, todo, dying, rank);
        }
        todo := todo - {c};
      }
      ghost var C2, P2 := children, parents;
      parents := parents - {v};
      children := children - {v};
      CascadingDone(C, P, C2, P2, v, dying, rank);
    }

    /**
     * `remove_vertex(v)`: severs every citation of `v`, clears its parent
     * set and runs the orphan cascade from it. On an acyclic mirrored graph
     * (`rank` witnesses the acyclicity) exactly the nodes reachable from an
     * orphan other than `v` remain, each with its links to other remaining
     * nodes. For an unknown `v` the lookups of the source create its entries
     * and the cascade erases them again, so nothing changes.
     */
    method RemoveVertex(v: T, ghost rank: map<T, nat>)
      requires Mirrored(children, parents) && Ranked(children, rank)
      modifies this
      ensures old(v in children) ==> children == Prune(old(children), Kept(old(children), old(parents), v))
      ensures old(v in children) ==> parents == Prune(old(parents), Kept(old(children), old(parents), v))
      ensures old(v !in children) ==> children == old(children) && parents == old(parents)
      ensures v !in children
      ensures Mirrored(children, parents) && Ranked(children, rank)
    {
      if v !in children {
        return;
      }
      ghost var C, P := children, parents;
      var todo := parents[v];
      while todo != {}
        invariant todo <= P[v] && parents == P
        invariant children.Keys == C.Keys
        invariant forall p | p in children :: children[p] == if p in P[v] && p !in todo then C[p] - {v} else C[p]
        decreases todo
      {
        var p :| p in todo;
        assert v in C[p];
        children := children[p := children[p] - {v}];
        todo := todo - {p};
      }
      forall p | p in children
        ensures children[p] == CutIn(C, v)[p]
      {
        if v in C[p] {
          assert p in P[v];
        }
      }
      assert children == CutIn(C, v);
      parents := parents[v := {}];
      CutStartsCascade(C, P, v, rank);
      RemoveOrphan(v, {}, rank);
      CascadeOutcome(C, P, v, rank, children, parents);
    }
  }
}
