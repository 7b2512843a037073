/**
 * Adjacency maps shared by the citation graph and the reference DAG.
 * `children[p]` is the set of publications that cite `p`; `parents[c]` is
 * the set of publications that `c` cites. Both graphs are given by such a
 * pair of maps, and the key set of `children` is the set of live
 * publications (the registry).
 */
module Adjacency {

  type Adj<T> = map<T, set<T>>

  /** `m[k]` as a C++ `std::map<T, std::set<T>>` reads it: an absent key reads as the empty set. */
  function Get<T>(m: Adj<T>, k: T): set<T>
  {
    if k in m then m[k] else {}
  }

  /** Both maps have the same keys and every edge is recorded on both sides. */
  ghost predicate Mirrored<T>(children: Adj<T>, parents: Adj<T>)
  {
    && children.Keys == parents.Keys
    && (forall p, c | p in children && c in children[p] :: c in parents && p in parents[c])
    && (forall c, p | c in parents && p in parents[c] :: p in children && c in children[p])
  }

  /** A non-empty walk along `g`'s edges. */
  ghost predicate IsPath<T>(g: Adj<T>, path: seq<T>)
  {
    && |path| > 0
    && forall i | 0 <= i < |path| - 1 :: path[i] in g && path[i + 1] in g[path[i]]
  }

  ghost predicate Reachable<T(!new)>(g: Adj<T>, root: T, x: T)
  {
    exists path :: IsPath(g, path) && path[0] == root && path[|path| - 1] == x
  }

  /** The keys of `g` that can be reached from `root`. */
  ghost function ReachableSet<T(!new)>(g: Adj<T>, root: T): set<T>
  {
    set x | x in g && Reachable(g, root, x)
  }

  /** `g` with every edge into `v` severed; `v` keeps its key and its own children. */
  function CutIn<T>(g: Adj<T>, v: T): Adj<T>
  {
    map k | k in g :: g[k] - {v}
  }

  /** The publications still reachable from the root once every citation of `v` is severed. */
  ghost function Surviving<T(!new)>(children: Adj<T>, root: T, v: T): set<T>
  {
    ReachableSet(CutIn(children, v), root)
  }

  /** Only the keys in `keep`, and in each kept set only the members in `keep`. */
  function Prune<T>(m: Adj<T>, keep: set<T>): Adj<T>
  {
    map k | k in m && k in keep :: m[k] * keep
  }

  /** `b` inserted into the set of `a`, with empty sets created for a missing `a` or `b`. */
  function WithEdge<T>(m: Adj<T>, a: T, b: T): Adj<T>
  {
    map k | k in m.Keys + {a, b} :: if k == a then Get(m, k) + {b} else Get(m, k)
  }

  /**
   * `n` registered citing every member of `ps`: `n` gets an empty set of
   * its own and joins the set of each `p` in `ps` (created empty when missing).
   */
  function WithVertex<T>(m: Adj<T>, n: T, ps: set<T>): Adj<T>
  {
    map k | k in m.Keys + {n} + ps :: (if k == n then {} else Get(m, k)) + (if k in ps then {n} else {})
  }

  /** On two present keys, `WithEdge` is one insertion. */
  lemma WithEdgePresent<T>(m: Adj<T>, a: T, b: T)
    requires a in m && b in m
    ensures WithEdge(m, a, b) == m[a := m[a] + {b}]
  {
    assert WithEdge(m, a, b).Keys == m.Keys;
  }

  /** The invariant of a citation graph whose root is `root`: liveness is reachability. */
  ghost predicate Rooted<T(!new)>(children: Adj<T>, parents: Adj<T>, root: T)
  {
    && root in children
    && Mirrored(children, parents)
    && forall x | x in children :: Reachable(children, root, x)
  }

  lemma ReachableSelf<T(!new)>(g: Adj<T>, root: T)
    ensures Reachable(g, root, root)
  {
    assert IsPath(g, [root]);
  }

  /** Following one more edge from a reachable node stays reachable. */
  lemma ReachableStep<T(!new)>(g: Adj<T>, root: T, x: T, y: T)
    requires Reachable(g, root, x) && x in g && y in g[x]
    ensures Reachable(g, root, y)
  {
    var path :| IsPath(g, path) && path[0] == root && path[|path| - 1] == x;
    var longer := path + [y];
    forall i | 0 <= i < |longer| - 1
      ensures longer[i] in g && longer[i + 1] in g[longer[i]]
    {
      if i < |path| - 1 {
        assert longer[i] == path[i] && longer[i + 1] == path[i + 1];
      }
    }
    assert IsPath(g, longer) && longer[0] == root && longer[|longer| - 1] == y;
  }

  /** Every node on a path is reachable from the path's first node. */
  lemma PrefixReachable<T(!new)>(g: Adj<T>, path: seq<T>, i: int)
    requires IsPath(g, path) && 0 <= i < |path|
    ensures Reachable(g, path[0], path[i])
  {
    var prefix := path[..i + 1];
    assert IsPath(g, prefix) && prefix[0] == path[0] && prefix[|prefix| - 1] == path[i];
  }

  /** Whatever is reachable from the root lies in every edge-closed set that holds the root. */
  lemma ClosedContainsReachable<T(!new)>(g: Adj<T>, s: set<T>, root: T, x: T)
    requires root in s
    requires forall k | k in s && k in g :: g[k] <= s
    requires Reachable(g, root, x)
    ensures x in s
  {
    var path :| IsPath(g, path) && path[0] == root && path[|path| - 1] == x;
    var i := 0;
    while i < |path| - 1
      invariant 0 <= i < |path|
      invariant path[i] in s
    {
      i := i + 1;
    }
  }

  /** A reachable node other than the root is a child of some reachable node. */
  lemma ReachablePredecessor<T(!new)>(g: Adj<T>, root: T, x: T)
    requires Reachable(g, root, x) && x != root
    ensures exists y :: Reachable(g, root, y) && y in g && x in g[y]
  {
    var path :| IsPath(g, path) && path[0] == root && path[|path| - 1] == x;
    var n := |path|;
    PrefixReachable(g, path, n - 2);
    assert path[n - 2] in g && x in g[path[n - 2]];
  }

  /** Adding edges never makes a node unreachable. */
  lemma ReachableMonotone<T(!new)>(g: Adj<T>, h: Adj<T>, root: T, x: T)
    requires forall k | k in g :: k in h && g[k] <= h[k]
    requires Reachable(g, root, x)
    ensures Reachable(h, root, x)
  {
    var path :| IsPath(g, path) && path[0] == root && path[|path| - 1] == x;
    assert IsPath(h, path);
  }

  /** In a rooted graph every publication other than the root cites at least one publication. */
  lemma NonRootHasParent<T(!new)>(children: Adj<T>, parents: Adj<T>, root: T, x: T)
    requires Rooted(children, parents, root) && x in children && x != root
    ensures x in parents && parents[x] != {}
  {
    ReachablePredecessor(children, root, x);
    var y :| Reachable(children, root, y) && y in children && x in children[y];
    assert y in parents[x];
  }

  /** The root is the only publication of a rooted graph that cites nothing. */
  lemma UniqueOrphan<T(!new)>(children: Adj<T>, parents: Adj<T>, root: T, x: T)
    requires Rooted(children, parents, root) && x in parents && parents[x] == {}
    ensures x == root
  {
    if x != root {
      NonRootHasParent(children, parents, root, x);
    }
  }

  /** Once its citations are severed, a publication other than the root is not reachable. */
  lemma RemovedNotSurviving<T(!new)>(children: Adj<T>, root: T, v: T)
    requires v != root
    ensures v !in Surviving(children, root, v)
  {
    var cut := CutIn(children, v);
    if Reachable(cut, root, v) {
      ReachablePredecessor(cut, root, v);
      assert false;
    }
  }

  /**
   * Removing `v` and keeping only what is still reachable from the root
   * yields a rooted graph again.
   */
  lemma PruneKeepsRooted<T(!new)>(children: Adj<T>, parents: Adj<T>, root: T, v: T)
    requires Rooted(children, parents, root) && v != root
    ensures Rooted(Prune(children, Surviving(children, root, v)),
                   Prune(parents, Surviving(children, root, v)), root)
  {
    var cut := CutIn(children, v);
    var s := Surviving(children, root, v);
    var pc, pp := Prune(children, s), Prune(parents, s);
    ReachableSelf(cut, root);
    assert root in s;
    forall x | x in pc
      ensures Reachable(pc, root, x)
    {
      var path :| IsPath(cut, path) && path[0] == root && path[|path| - 1] == x;
      forall i | 0 <= i < |path|
        ensures path[i] in s
      {
        PrefixReachable(cut, path, i);
      }
      forall i | 0 <= i < |path| - 1
        ensures path[i] in pc && path[i + 1] in pc[path[i]]
      {
        assert path[i + 1] in cut[path[i]];
      }
      assert IsPath(pc, path);
    }
    assert Mirrored(pc, pp);
  }

  /** In a mirrored graph, whatever is reachable from a live root is live. */
  lemma ReachableIsLive<T(!new)>(children: Adj<T>, parents: Adj<T>, root: T, x: T)
    requires Mirrored(children, parents) && root in children && Reachable(children, root, x)
    ensures x in children
  {
    if x != root {
      ReachablePredecessor(children, root, x);
    }
  }

  /** In a rooted graph a publication is live exactly when it is reachable from the root. */
  lemma LiveIffReachable<T(!new)>(children: Adj<T>, parents: Adj<T>, root: T, x: T)
    requires Rooted(children, parents, root)
    ensures x in children <==> Reachable(children, root, x)
  {
    if Reachable(children, root, x) {
      ReachableIsLive(children, parents, root, x);
    }
  }

  /** Registering a fresh publication that cites live publications keeps the graph rooted. */
  lemma WithVertexKeepsRooted<T(!new)>(children: Adj<T>, parents: Adj<T>, root: T, n: T, ps: set<T>)
    requires Rooted(children, parents, root)
    requires n !in children && ps != {} && ps <= children.Keys && n !in ps
    ensures Rooted(WithVertex(children, n, ps), parents[n := ps], root)
  {
    var c, p := WithVertex(children, n, ps), parents[n := ps];
    assert c.Keys == p.Keys;
    forall x | x in children
      ensures Reachable(c, root, x)
    {
      ReachableMonotone(children, c, root, x);
    }
    var q :| q in ps;
    ReachableStep(c, root, q, n);
    assert Mirrored(c, p);
  }

  /** Adding an edge on both sides keeps the maps mirrored. */
  lemma {:induction false} WithEdgeKeepsMirrored<T>(children: Adj<T>, parents: Adj<T>, a: T, b: T)
    requires Mirrored(children, parents)
    ensures Mirrored(WithEdge(children, a, b), WithEdge(parents, b, a))
  {
    var c, p := WithEdge(children, a, b), WithEdge(parents, b, a);
    assert c.Keys == p.Keys;
    forall x, y | x in c && y in c[x]
      ensures y in p && x in p[y]
    {
      if x != a || y != b {
        assert y in children[x];
      }
    }
    forall y, x | y in p && x in p[y]
      ensures x in c && y in c[x]
    {
      if x != a || y != b {
        assert x in parents[y];
      }
    }
  }

  /** Adding a citation between two live publications keeps the graph rooted. */
  lemma WithEdgeKeepsRooted<T(!new)>(children: Adj<T>, parents: Adj<T>, root: T, a: T, b: T)
    requires Rooted(children, parents, root) && a in children && b in children
    ensures Rooted(WithEdge(children, a, b), WithEdge(parents, b, a), root)
  {
    var c := WithEdge(children, a, b);
    assert c.Keys == children.Keys;
    forall x | x in c
      ensures Reachable(c, root, x)
    {
      ReachableMonotone(children, c, root, x);
    }
    WithEdgeKeepsMirrored(children, parents, a, b);
  }
}
