/**
 * Removal scenarios of the citation graph's unit tests
 * (unit_tests.cpp, `UnconectedGraph` and `UnconectedGraph_two_sources`),
 * worked out on the model. Publication ids are numbers: X = 0 (the source),
 * A = 1, C = 2, D = 3, E = 4, B = 5.
 */
module Scenarios {
  import opened Adjacency
  import Journal
  import Dags

  /** The chain X <- A <- C <- D <- E (each publication cites the previous one). */
  function ChainChildren(): Adj<int>
  {
    map[0 := {1}, 1 := {2}, 2 := {3}, 3 := {4}, 4 := {}]
  }

  function ChainParents(): Adj<int>
  {
    map[0 := {}, 1 := {0}, 2 := {1}, 3 := {2}, 4 := {3}]
  }

  /** The chain with a second source B citing X and cited by E. */
  function TwoSourcesChildren(): Adj<int>
  {
    map[0 := {1, 5}, 1 := {2}, 2 := {3}, 3 := {4}, 4 := {}, 5 := {4}]
  }

  function TwoSourcesParents(): Adj<int>
  {
    map[0 := {}, 1 := {0}, 2 := {1}, 3 := {2}, 4 := {3, 5}, 5 := {0}]
  }

  /**
   * The chain is what the test builds: starting from X alone, `create(A, X)`,
   * `create(C, A)`, `create(D, C)`, `create(E, D)`, each one the new maps
   * that `CitationGraph.Create` promises on success.
   */
  lemma ChainBuilt()
    ensures ChainChildren() == WithVertex(WithVertex(WithVertex(WithVertex(map[0 := {}],
              1, Journal.Elements([0])), 2, Journal.Elements([1])), 3, Journal.Elements([2])), 4, Journal.Elements([3]))
    ensures ChainParents() == map[0 := {}][1 := Journal.Elements([0])][2 := Journal.Elements([1])]
                                  [3 := Journal.Elements([2])][4 := Journal.Elements([3])]
  {
    assert Journal.Elements([0]) == {0} && Journal.Elements([1]) == {1};
    assert Journal.Elements([2]) == {2} && Journal.Elements([3]) == {3};
    ChainChildrenBuilt();
    var p := map[0 := {}][1 := {0}][2 := {1}][3 := {2}][4 := {3}];
    assert p.Keys == ChainParents().Keys;
  }

  lemma ChainChildrenBuilt()
    ensures ChainChildren() == WithVertex(WithVertex(WithVertex(WithVertex(map[0 := {}], 1, {0}), 2, {1}), 3, {2}), 4, {3})
  {
    ChainGrown1();
    ChainGrown2();
    ChainGrown3();
    ChainGrown4();
  }

  lemma ChainGrown1()
    ensures WithVertex(map[0 := {}], 1, {0}) == map[0 := {1}, 1 := {}]
  {
    var _ := Grown(map[0 := {}], 1, 0, map[0 := {1}, 1 := {}]);
  }

  lemma ChainGrown2()
    ensures WithVertex(map[0 := {1}, 1 := {}], 2, {1}) == map[0 := {1}, 1 := {2}, 2 := {}]
  {
    var _ := Grown(map[0 := {1}, 1 := {}], 2, 1, map[0 := {1}, 1 := {2}, 2 := {}]);
  }

  lemma ChainGrown3()
    ensures WithVertex(map[0 := {1}, 1 := {2}, 2 := {}], 3, {2}) == map[0 := {1}, 1 := {2}, 2 := {3}, 3 := {}]
  {
    var _ := Grown(map[0 := {1}, 1 := {2}, 2 := {}], 3, 2, map[0 := {1}, 1 := {2}, 2 := {3}, 3 := {}]);
  }

  lemma ChainGrown4()
    ensures WithVertex(map[0 := {1}, 1 := {2}, 2 := {3}, 3 := {}], 4, {3}) == ChainChildren()
  {
    var _ := Grown(map[0 := {1}, 1 := {2}, 2 := {3}, 3 := {}], 4, 3, ChainChildren());
  }

  /** One `create(n, q)` step on the children map, checked key by key against its expected outcome `r`. */
  lemma Grown(m: Adj<int>, n: int, q: int, r: Adj<int>) returns (g: Adj<int>)
    requires n !in m && q in m && q != n
    requires r.Keys == m.Keys + {n} && r[n] == {} && r[q] == m[q] + {n}
    requires forall k | k in m && k != q :: r[k] == m[k]
    ensures g == r && WithVertex(m, n, {q}) == r
  {
    Dags.WithVertexOne(m, n, q);
    g := WithVertex(m, n, {q});
    assert g.Keys == r.Keys;
    forall k | k in r
      ensures g[k] == r[k]
    {
    }
  }

  /** One `add_citation(a, b)` step on a map holding both ends, checked key by key against `r`. */
  lemma Linked(m: Adj<int>, a: int, b: int, r: Adj<int>)
    requires a in m && b in m
    requires r.Keys == m.Keys && r[a] == m[a] + {b}
    requires forall k | k in m && k != a :: r[k] == m[k]
    ensures WithEdge(m, a, b) == r
  {
    var g := WithEdge(m, a, b);
    assert g.Keys == r.Keys;
    forall k | k in r
      ensures g[k] == r[k]
    {
    }
  }

  /**
   * The two-sources graph is the chain followed by `create(B, X)` and
   * `add_citation(E, B)`, as `Create` and `AddCitation` promise them.
   */
  lemma TwoSourcesBuilt()
    ensures TwoSourcesChildren() == WithEdge(WithVertex(ChainChildren(), 5, Journal.Elements([0])), 5, 4)
    ensures TwoSourcesParents() == WithEdge(ChainParents()[5 := Journal.Elements([0])], 4, 5)
  {
    assert Journal.Elements([0]) == {0};
    TwoSourcesChildrenBuilt();
    TwoSourcesParentsBuilt();
  }

  lemma TwoSourcesChildrenBuilt()
    ensures TwoSourcesChildren() == WithEdge(WithVertex(ChainChildren(), 5, {0}), 5, 4)
  {
    var c := Grown(ChainChildren(), 5, 0, map[0 := {1, 5}, 1 := {2}, 2 := {3}, 3 := {4}, 4 := {}, 5 := {}]);
    Linked(c, 5, 4, TwoSourcesChildren());
  }

  lemma TwoSourcesParentsBuilt()
    ensures TwoSourcesParents() == WithEdge(ChainParents()[5 := {0}], 4, 5)
  {
    Linked(ChainParents()[5 := {0}], 4, 5, TwoSourcesParents());
  }

  /** The chain is a citation graph rooted at X. */
  lemma {:induction false} ChainRooted()
    ensures Rooted(ChainChildren(), ChainParents(), 0)
  {
    var g := ChainChildren();
    ReachableSelf(g, 0);
    ReachableStep(g, 0, 0, 1);
    ReachableStep(g, 0, 1, 2);
    ReachableStep(g, 0, 2, 3);
    ReachableStep(g, 0, 3, 4);
    assert g.Keys == {0, 1, 2, 3, 4};
  }

  /** Removing C from the chain evicts C, D and E: only X and A survive. */
  lemma {:induction false} ChainRemoval()
    ensures Surviving(ChainChildren(), 0, 2) == {0, 1}
  {
    var cut := CutIn(ChainChildren(), 2);
    assert 0 in cut && cut[0] == {1} && 1 in cut && cut[1] == {};
    ReachableSelf(cut, 0);
    ReachableStep(cut, 0, 0, 1);
    forall x | x in cut && Reachable(cut, 0, x)
      ensures x in {0, 1}
    {
      ClosedContainsReachable(cut, {0, 1}, 0, x);
    }
  }

  /** After the removal A is left without children and X keeps one. */
  lemma ChainPruned()
    ensures Prune(ChainChildren(), {0, 1}) == map[0 := {1}, 1 := {}]
    ensures Prune(ChainParents(), {0, 1}) == map[0 := {}, 1 := {0}]
  {
    var pc, pp := Prune(ChainChildren(), {0, 1}), Prune(ChainParents(), {0, 1});
    assert pc.Keys == {0, 1} && pc[0] == {1} && pc[1] == {};
    assert pp.Keys == {0, 1} && pp[0] == {} && pp[1] == {0};
  }

  /** The two-sources graph is a citation graph rooted at X. */
  lemma {:induction false} TwoSourcesRooted()
    ensures Rooted(TwoSourcesChildren(), TwoSourcesParents(), 0)
  {
    var g := TwoSourcesChildren();
    ReachableSelf(g, 0);
    ReachableStep(g, 0, 0, 1);
    ReachableStep(g, 0, 0, 5);
    ReachableStep(g, 0, 1, 2);
    ReachableStep(g, 0, 2, 3);
    ReachableStep(g, 0, 3, 4);
    assert g.Keys == {0, 1, 2, 3, 4, 5};
  }

  /** Removing C when E is also cited by B evicts only C and D: E survives through B. */
  lemma {:induction false} TwoSourcesRemoval()
    ensures Surviving(TwoSourcesChildren(), 0, 2) == {0, 1, 4, 5}
  {
    var cut := CutIn(TwoSourcesChildren(), 2);
    assert 0 in cut && cut[0] == {1, 5} && 1 in cut && cut[1] == {};
    assert 4 in cut && cut[4] == {} && 5 in cut && cut[5] == {4};
    ReachableSelf(cut, 0);
    ReachableStep(cut, 0, 0, 1);
    ReachableStep(cut, 0, 0, 5);
    ReachableStep(cut, 0, 5, 4);
    forall x | x in cut && Reachable(cut, 0, x)
      ensures x in {0, 1, 4, 5}
    {
      ClosedContainsReachable(cut, {0, 1, 4, 5}, 0, x);
    }
  }

  /** After the removal E keeps B as its only parent, A has no children and X keeps two. */
  lemma TwoSourcesPruned()
    ensures Prune(TwoSourcesChildren(), {0, 1, 4, 5}) == map[0 := {1, 5}, 1 := {}, 4 := {}, 5 := {4}]
    ensures Prune(TwoSourcesParents(), {0, 1, 4, 5}) == map[0 := {}, 1 := {0}, 4 := {5}, 5 := {0}]
  {
    var keep := {0, 1, 4, 5};
    var pc, pp := Prune(TwoSourcesChildren(), keep), Prune(TwoSourcesParents(), keep);
    assert pc.Keys == keep && pc[0] == {1, 5} && pc[1] == {} && pc[4] == {} && pc[5] == {4};
    assert pp.Keys == keep && pp[0] == {} && pp[1] == {0} && pp[4] == {5} && pp[5] == {0};
  }
}
