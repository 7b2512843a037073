/**
 * Parts of citation_graph.h modelled as the code stands, next to the
 * behaviour the surrounding design evidently intends (which the rest of the
 * model follows), each with an input on which the two part ways.
 */
module AsWritten {
  import opened Adjacency
  import opened Journal
  import opened CitationGraphs
  import opened Scenarios

  // ---------------------------------------------------------------------
  // The journal's flag: `failed` is value-initialised to false and
  // `commit` sets it to false, so the destructor never erases anything.
  // ---------------------------------------------------------------------

  datatype WrittenJournal<E> = WrittenJournal(toBeRemoved: seq<E>, failed: bool)

  /** What a caller does with an open journal. */
  datatype Use<E> = Record(e: E) | CommitUse

  function WrittenStep<E>(j: WrittenJournal<E>, u: Use<E>): WrittenJournal<E>
  {
    match u
    case Record(e) => j.(toBeRemoved := j.toBeRemoved + [e])
    case CommitUse => j.(failed := false)
  }

  /** The journal after a freshly constructed one has seen `uses`, in order. */
  function Replay<E>(uses: seq<Use<E>>): WrittenJournal<E>
  {
    if uses == [] then WrittenJournal([], false)
    else WrittenStep(Replay(uses[..|uses| - 1]), uses[|uses| - 1])
  }

  /** The destructor as written, over a set container. */
  function WrittenClose<E>(j: WrittenJournal<E>, s: set<E>): set<E>
  {
    if j.failed then s - Elements(j.toBeRemoved) else s
  }

  /** Whatever was recorded, and whether or not `commit` was called, the journal is never failed. */
  lemma {:induction false} WrittenNeverFailed<E>(uses: seq<Use<E>>)
    ensures !Replay(uses).failed
  {
    if uses != [] {
      WrittenNeverFailed(uses[..|uses| - 1]);
    }
  }

  /** Hence closing a journal that was never committed erases nothing. */
  lemma WrittenNeverErases<E>(uses: seq<Use<E>>, s: set<E>)
    ensures WrittenClose(Replay(uses), s) == s
  {
    WrittenNeverFailed(uses);
  }

  /**
   * Where `try_add` of test_transaction.cpp stops: it inserts each `x` of
   * `xs` while `x - 1` is present and raises at the first `x` whose
   * predecessor is missing. With `everyEmplace` the journal takes the
   * iterator of every `emplace`, as the test's code does, whether or not it
   * inserted; without it, only the insertions that added a member.
   */
  datatype Stop = Stop(s: set<int>, log: seq<int>, raised: bool)

  function TryAddRun(s: set<int>, xs: seq<int>, log: seq<int>, everyEmplace: bool): Stop
    decreases |xs|
  {
    if xs == [] then Stop(s, log, false)
    else if xs[0] - 1 !in s then Stop(s, log, true)
    else TryAddRun(s + {xs[0]}, xs[1..], if everyEmplace || xs[0] !in s then log + [xs[0]] else log, everyEmplace)
  }

  function Uses(st: Stop): seq<Use<int>>
  {
    (seq(|st.log|, i requires 0 <= i < |st.log| => Record(st.log[i])))
      + (if st.raised then [] else [CommitUse])
  }

  /**
   * The loop of the test's `try_add` run against the journal of
   * citation_graph.h: every emplace journalled, the journal closed as
   * written. The test itself builds a two-parameter `Transaction` from the
   * set and calls a one-argument `add`; no source file declares either, so
   * this is the nearest reading of the test that the header supports.
   */
  function TryAddWritten(s: set<int>, xs: seq<int>): set<int>
  {
    var st := TryAddRun(s, xs, [], true);
    WrittenClose(Replay(Uses(st)), st.s)
  }

  /** `try_add` journalling every emplace, with the journal rolling back as intended. */
  function TryAddRollback(s: set<int>, xs: seq<int>): set<int>
  {
    var st := TryAddRun(s, xs, [], true);
    if st.raised then st.s - Elements(st.log) else st.s
  }

  /** `try_add` as intended: only insertions journalled, an abandoned journal erasing them. */
  function TryAdd(s: set<int>, xs: seq<int>): set<int>
  {
    var st := TryAddRun(s, xs, [], false);
    if st.raised then st.s - Elements(st.log) else st.s
  }

  /** Against the header's journal, the failed `try_add` of the test leaves 2 and 4 behind: six members instead of four. */
  lemma TryAddWrittenKeepsPartialWork()
    ensures TryAddWritten({1, 3, 5, 7}, [2, 4, 10]) == {1, 2, 3, 4, 5, 7}
  {
    var st := TryAddRun({1, 3, 5, 7}, [2, 4, 10], [], true);
    assert [2, 4, 10][1..] == [4, 10] && [4, 10][1..] == [10];
    assert st == TryAddRun({1, 2, 3, 5, 7}, [4, 10], [2], true);
    assert st == TryAddRun({1, 2, 3, 4, 5, 7}, [10], [2, 4], true);
    assert st == Stop({1, 2, 3, 4, 5, 7}, [2, 4], true);
    WrittenNeverErases(Uses(st), st.s);
  }

  /**
   * Even with a rolling-back journal, journalling every emplace loses a
   * member that was there before: 2 is already in {1, 2}, its iterator is
   * journalled, and the raise at 5 erases it.
   */
  lemma TryAddRollbackLosesMember()
    ensures TryAddRollback({1, 2}, [2, 5]) == {1}
  {
    assert [2, 5][1..] == [5];
    var st := TryAddRun({1, 2}, [2, 5], [], true);
    assert st == TryAddRun({1, 2}, [5], [2], true);
    assert st == Stop({1, 2}, [2], true);
    assert Elements([2]) == {2};
  }

  /** The run's set is the starting set plus the log, and the log holds only new members. */
  lemma {:induction false} TryAddRunShape(s0: set<int>, s: set<int>, xs: seq<int>, log: seq<int>)
    requires s == s0 + Elements(log) && Elements(log) !! s0
    ensures TryAddRun(s, xs, log, false).s == s0 + Elements(TryAddRun(s, xs, log, false).log)
    ensures Elements(TryAddRun(s, xs, log, false).log) !! s0
    ensures !TryAddRun(s, xs, log, false).raised ==> TryAddRun(s, xs, log, false).s == s + Elements(xs)
    decreases |xs|
  {
    if xs != [] && xs[0] - 1 in s {
      var x := xs[0];
      var log' := if x !in s then log + [x] else log;
      ElementsSnoc(log, x);
      TryAddRunShape(s0, s + {x}, xs[1..], log');
      assert xs == [x] + xs[1..];
      assert Elements(xs) == {x} + Elements(xs[1..]);
    }
  }

  /** As intended, `try_add` either adds every member of `xs` or leaves the set as it was. */
  lemma TryAddAllOrNothing(s: set<int>, xs: seq<int>)
    ensures TryAdd(s, xs) == s || TryAdd(s, xs) == s + Elements(xs)
    ensures TryAddRun(s, xs, [], false).raised ==> TryAdd(s, xs) == s
  {
    assert Elements<int>([]) == {};
    TryAddRunShape(s, s, xs, []);
  }

  /** The failed call of test_transaction.cpp leaves the four members it started with. */
  lemma TryAddFailingScenario()
    ensures TryAdd({1, 3, 5, 7}, [2, 4, 10]) == {1, 3, 5, 7}
  {
    assert [2, 4, 10][1..] == [4, 10] && [4, 10][1..] == [10];
    var st := TryAddRun({1, 3, 5, 7}, [2, 4, 10], [], false);
    assert st == TryAddRun({1, 2, 3, 5, 7}, [4, 10], [2], false);
    assert st == TryAddRun({1, 2, 3, 4, 5, 7}, [10], [2, 4], false);
    assert st.raised;
    TryAddAllOrNothing({1, 3, 5, 7}, [2, 4, 10]);
  }

  /** The second call of test_transaction.cpp completes with eight members. */
  lemma TryAddPassingScenario()
    ensures TryAdd({1, 3, 5, 7}, [2, 4, 6, 8]) == {1, 2, 3, 4, 5, 6, 7, 8}
  {
    var s0, s1, s2, s3 := {1, 3, 5, 7}, {1, 2, 3, 5, 7}, {1, 2, 3, 4, 5, 7}, {1, 2, 3, 4, 5, 6, 7};
    var xs := [2, 4, 6, 8];
    assert xs[1..] == [4, 6, 8] && xs[2..] == [6, 8] && xs[3..] == [8] && xs[4..] == [];
    assert xs[1..][1..] == xs[2..] && xs[2..][1..] == xs[3..];
    assert s0 + {2} == s1 && s1 + {4} == s2 && s2 + {6} == s3;
    assert [2] + [4] == [2, 4] && [2, 4] + [6] == [2, 4, 6] && [2, 4, 6] + [8] == [2, 4, 6, 8];
    assert TryAddRun(s3, xs[3..], [2, 4, 6], false) == Stop(s3 + {8}, [2, 4, 6, 8], false);
    assert TryAddRun(s2, xs[2..], [2, 4], false) == TryAddRun(s3, xs[3..], [2, 4, 6], false);
    assert TryAddRun(s1, xs[1..], [2], false) == TryAddRun(s2, xs[2..], [2, 4], false);
    assert TryAddRun(s0, xs, [], false) == TryAddRun(s1, xs[1..], [2], false);
  }

  // ---------------------------------------------------------------------
  // `remove`: the doomed ids are recorded in a journal that is then
  // committed, so nothing leaves the registry.
  // ---------------------------------------------------------------------

  /** How a call of the source ends: with a value, or never (unbounded recursion). */
  datatype Run<T> = Returns(value: T) | Diverges

  /** Some cycle can be reached from `id`. */
  ghost predicate CycleBelow<Id(!new)>(children: Adj<Id>, id: Id)
  {
    exists x, y :: Reachable(children, id, x) && x in children && y in children[x] && Reachable(children, y, x)
  }

  /**
   * The ids `remove` records. With one parent, `DFS` records the publication
   * and recurses into every child without remembering what it has visited.
   * This model reads that recursion as returning with every descendant
   * recorded when no cycle lies below, and as never returning otherwise:
   * the case split is the reading, not something derived from a model of
   * the call stack. `CycleBelowUnbounded` backs the diverging half: below a
   * cycle, `DFS` has paths of every length to follow. With several parents
   * only the publication itself is recorded.
   */
  ghost function WrittenRemoveLog<Id(!new)>(children: Adj<Id>, parents: Adj<Id>, id: Id): (r: Run<set<Id>>)
    requires id in children
    ensures r.Diverges? <==> |Get(parents, id)| == 1 && CycleBelow(children, id)
    ensures r.Returns? ==> id in r.value
    ensures r.Returns? && |Get(parents, id)| == 1 ==> forall x | x in children && Reachable(children, id, x) :: x in r.value
  {
    ReachableSelf(children, id);
    if |Get(parents, id)| != 1 then Returns({id})
    else if CycleBelow(children, id) then Diverges
    else Returns(ReachableSet(children, id))
  }

  /**
   * `remove` as written: the checks, then the recording traversal, then a
   * committed journal, so a call that returns leaves the registry unchanged.
   * As written, `remove` does not compile once instantiated: `DFS` takes a
   * non-const `shared_ptr<Node> &` but is handed the const `second` of a
   * `const_iterator`, and `add` takes an `iterator` but is handed that
   * `const_iterator`. This model reads the code as if both calls compiled.
   */
  ghost function WrittenRemove<Id(!new)>(children: Adj<Id>, parents: Adj<Id>, root: Id, id: Id): (r: Run<Result<Adj<Id>>>)
    ensures r.Returns? && r.value.Err? <==> RemoveOutcome(children, root, id).Fail?
    ensures r.Diverges? <==> RemoveOutcome(children, root, id) == Pass && |Get(parents, id)| == 1 && CycleBelow(children, id)
    ensures r.Returns? && r.value.Ok? ==> r.value.value.Keys == children.Keys
  {
    match RemoveOutcome(children, root, id)
    case Fail(e) => Returns(Err(e))
    case Pass =>
      if WrittenRemoveLog(children, parents, id).Diverges? then Diverges else Returns(Ok(children))
  }

  /** `q` continues `p` along an edge from the last node of `p` to the first of `q`. */
  lemma PathAppend<Id>(g: Adj<Id>, p: seq<Id>, q: seq<Id>)
    requires IsPath(g, p) && IsPath(g, q) && p[|p| - 1] in g && q[0] in g[p[|p| - 1]]
    ensures IsPath(g, p + q)
  {
    var r := p + q;
    forall i | 0 <= i < |r| - 1
      ensures r[i] in g && r[i + 1] in g[r[i]]
    {
      if i < |p| - 1 {
        assert r[i] == p[i] && r[i + 1] == p[i + 1];
      } else if i == |p| - 1 {
        assert r[i] == p[|p| - 1] && r[i + 1] == q[0];
      } else {
        assert r[i] == q[i - |p|] && r[i + 1] == q[i - |p| + 1];
      }
    }
  }

  /** Going round the cycle through `x` and `y` once more lengthens a path to `x`. */
  lemma {:induction false} LongPathTo<Id(!new)>(g: Adj<Id>, id: Id, x: Id, y: Id, n: nat) returns (p: seq<Id>)
    requires Reachable(g, id, x) && x in g && y in g[x] && Reachable(g, y, x)
    ensures IsPath(g, p) && p[0] == id && p[|p| - 1] == x && |p| > n
    decreases n
  {
    if n == 0 {
      p :| IsPath(g, p) && p[0] == id && p[|p| - 1] == x;
    } else {
      var q := LongPathTo(g, id, x, y, n - 1);
      var c :| IsPath(g, c) && c[0] == y && c[|c| - 1] == x;
      PathAppend(g, q, c);
      p := q + c;
    }
  }

  /**
   * Below a cycle, paths from `id` come in every length. `DFS` follows
   * every path from the publication it starts at and keeps no visited set,
   * so its recursion then has no bound.
   */
  lemma {:induction false} CycleBelowUnbounded<Id(!new)>(children: Adj<Id>, id: Id, n: nat)
    requires CycleBelow(children, id)
    ensures exists path :: IsPath(children, path) && path[0] == id && |path| > n
  {
    var x, y :| Reachable(children, id, x) && x in children && y in children[x] && Reachable(children, y, x);
    var p := LongPathTo(children, id, x, y, n);
  }

  /** As written, removing C from the chain keeps C, D and E, which the design evicts. */
  lemma WrittenRemoveKeepsEvicted()
    ensures WrittenRemove(ChainChildren(), ChainParents(), 0, 2).Returns?
    ensures WrittenRemove(ChainChildren(), ChainParents(), 0, 2).value.Ok?
    ensures 2 in WrittenRemove(ChainChildren(), ChainParents(), 0, 2).value.value
    ensures 2 !in Surviving(ChainChildren(), 0, 2)
  {
    ChainRemoval();
    ChainAcyclicBelow();
  }

  /** Below C the chain has no cycle: every edge goes to a larger id. */
  lemma ChainAcyclicBelow()
    ensures !CycleBelow(ChainChildren(), 2)
  {
    var g := ChainChildren();
    forall a, b | Reachable(g, a, b)
      ensures a <= b
    {
      ChainPathsAscend(a, b);
    }
  }

  lemma {:induction false} ChainPathsAscend(a: int, b: int)
    requires Reachable(ChainChildren(), a, b)
    ensures a <= b
  {
    var g := ChainChildren();
    var path :| IsPath(g, path) && path[0] == a && path[|path| - 1] == b;
    var i := 0;
    while i < |path| - 1
      invariant 0 <= i < |path| && a <= path[i]
    {
      assert path[i] in g && path[i + 1] in g[path[i]];
      i := i + 1;
    }
  }

  /**
   * X <- A <- B <- C, and then B also cites C: the publications below A
   * form a cycle B, C.
   */
  function CycleChildren(): Adj<int>
  {
    map[0 := {1}, 1 := {2}, 2 := {3}, 3 := {2}]
  }

  function CycleParents(): Adj<int>
  {
    map[0 := {}, 1 := {0}, 2 := {1, 3}, 3 := {2}]
  }

  /**
   * As written, `remove(A)` on that graph never returns: A has one parent,
   * and `DFS` runs B, C, B, ... for ever.
   */
  lemma WrittenRemoveDiverges()
    ensures Rooted(CycleChildren(), CycleParents(), 0)
    ensures WrittenRemove(CycleChildren(), CycleParents(), 0, 1) == Diverges
  {
    var g := CycleChildren();
    ReachableSelf(g, 0);
    ReachableStep(g, 0, 0, 1);
    ReachableStep(g, 0, 1, 2);
    ReachableStep(g, 0, 2, 3);
    assert g.Keys == {0, 1, 2, 3};
    assert Mirrored(g, CycleParents());
    ReachableSelf(g, 1);
    ReachableStep(g, 1, 1, 2);
    ReachableSelf(g, 3);
    ReachableStep(g, 3, 3, 2);
    assert 3 in g[2];
    assert CycleBelow(g, 1);
    assert Get(CycleParents(), 1) == {0};
  }

  /** As intended, removing A there leaves only X: B and C no longer hang from the source. */
  lemma CycleRemoval()
    ensures Surviving(CycleChildren(), 0, 1) == {0}
  {
    var cut := CutIn(CycleChildren(), 1);
    assert 0 in cut && cut[0] == {};
    ReachableSelf(cut, 0);
    forall x | x in cut && Reachable(cut, 0, x)
      ensures x in {0}
    {
      ClosedContainsReachable(cut, {0}, 0, x);
    }
  }

  /**
   * Were the recorded ids erased, the descendants of C would still be too
   * many: E is a descendant of C but stays cited by B.
   */
  lemma DescendantsOverreach()
    ensures WrittenRemoveLog(TwoSourcesChildren(), TwoSourcesParents(), 2).Returns?
    ensures 4 in WrittenRemoveLog(TwoSourcesChildren(), TwoSourcesParents(), 2).value
    ensures 4 in Surviving(TwoSourcesChildren(), 0, 2)
  {
    var g := TwoSourcesChildren();
    assert |Get(TwoSourcesParents(), 2)| == 1;
    forall a, b | Reachable(g, a, b) && a in {2, 3, 4}
      ensures b in {2, 3, 4} && a <= b
    {
      TwoSourcesPathsBelowC(a, b);
    }
    forall x, y | Reachable(g, 2, x) && x in g && y in g[x]
      ensures !Reachable(g, y, x)
    {
      assert y == x + 1;
    }
    assert !CycleBelow(g, 2);
    ReachableSelf(g, 2);
    ReachableStep(g, 2, 2, 3);
    ReachableStep(g, 2, 3, 4);
    TwoSourcesRemoval();
  }

  /** Below C the two-sources graph only steps C, D, E upwards. */
  lemma {:induction false} TwoSourcesPathsBelowC(a: int, b: int)
    requires Reachable(TwoSourcesChildren(), a, b) && a in {2, 3, 4}
    ensures b in {2, 3, 4} && a <= b
  {
    var g := TwoSourcesChildren();
    var path :| IsPath(g, path) && path[0] == a && path[|path| - 1] == b;
    var i := 0;
    while i < |path| - 1
      invariant 0 <= i < |path| && path[i] in {2, 3, 4} && a <= path[i]
    {
      assert path[i] in g && path[i + 1] in g[path[i]];
      i := i + 1;
    }
  }

  // ---------------------------------------------------------------------
  // `add_citation` journals the parent-set entry even when the citation
  // already existed, so undoing it erases a citation it did not add.
  // ---------------------------------------------------------------------

  /** The parent sets after `add_citation(c, p)` is undone following a raise in `add_child`, as written. */
  function WrittenCitationRollback<Id>(parents: Adj<Id>, c: Id, p: Id): (r: Adj<Id>)
    requires c in parents
    ensures r.Keys == parents.Keys
    ensures p !in r[c]
  {
    Unlink(parents[c := parents[c] + {p}], {(c, p)})
  }

  /** A already cites X in the chain; undoing a repeated citation erases it from A's parents only. */
  lemma WrittenCitationRollbackBreaksMirror()
    ensures Mirrored(ChainChildren(), ChainParents())
    ensures !Mirrored(ChainChildren(), WrittenCitationRollback(ChainParents(), 1, 0))
  {
    ChainRooted();
    var r := WrittenCitationRollback(ChainParents(), 1, 0);
    assert 1 in ChainChildren()[0] && 0 !in r[1];
  }

  // ---------------------------------------------------------------------
  // `create` journals the child-set entry only after `add_parent`, so a
  // raise inside `add_parent` leaves the new id in a parent's child set.
  // ---------------------------------------------------------------------

  /**
   * The child sets after `create(id, [p])` raises inside `add_parent`, as
   * written: the new key is erased, but the child-set journal is still empty.
   */
  function WrittenCreateAbort<Id>(children: Adj<Id>, id: Id, p: Id): (r: Adj<Id>)
    requires id !in children && p in children
    ensures r.Keys == children.Keys
    ensures id in r[p]
  {
    Unlink(WithVertex(children, id, {p}) - {id}, {})
  }

  /** Creating publication 9 citing X, with `add_parent` raising, leaves a child that is not registered. */
  lemma WrittenCreateAbortDangles()
    ensures 9 in WrittenCreateAbort(ChainChildren(), 9, 0)[0]
    ensures 9 !in WrittenCreateAbort(ChainChildren(), 9, 0)
    ensures !Mirrored(WrittenCreateAbort(ChainChildren(), 9, 0), ChainParents())
  {
    var r := WrittenCreateAbort(ChainChildren(), 9, 0);
    assert 9 !in ChainParents();
  }
}
