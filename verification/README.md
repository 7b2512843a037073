# Citation graph and reference DAG

A model of the citation graph of the JNP5 repository, plus the reference DAG that its tests check it against.

**`CitationGraph<Publication>`** (citation_graph.h)
- It is a registry of publications with one permanent source publication.
- Every publication except the source cites at least one other publication.
- The operations are:
  - look-ups: `find_or_throw`, `exists`, `operator[]`, `get_children`, `get_parents`, `get_root_id`;
  - creation, with one parent or several;
  - adding a citation;
  - removal: a removed publication is meant to take with it every publication that is no longer reachable from the source (CitationGraph.h:54-58). The code does not do this (see Findings).
- Each mutation is made atomic by undo journals, `Transaction<Container>`. A journal records what was inserted and is meant to erase it again at scope exit unless it was committed. As written it never erases anything (see Findings).

**`Dag<T>`** (dag.h)
- A plain pair of maps, `children` and `parents`.
- It supports vertex insertion, edge insertion, orphan tests, and the orphan cascade `remove_orphan` / `remove_vertex`.

Modules:

- `Adjacency`: the shared state.
  - `children[p]` is the set of publications citing `p`. `parents[c]` is the set of publications that `c` cites.
  - The key set is the registry.
  - `Mirrored` says each edge is recorded on both sides.
  - Reachability is defined by paths.
  - `Rooted` is the citation graph's invariant: the source is present, the maps are mirrored, and every live publication is reachable from the source.
  - `Surviving(children, root, v)` is what remains reachable once every citation of `v` is severed.
- `Journal`: the undo journal. It is a class with a log and a commit flag. Closing it erases either keys (`CloseMap`) or set entries (`CloseLinks`).
- `CitationGraphs`: the `CitationGraph` class, which keeps the two maps as fields.
  - Each mutation takes `faults`, the numbers of its container steps that raise. This models a comparison of ids that throws inside an ordered container.
  - Each mutation then proves the strong guarantee: the outcome is the fault-free outcome or `ComparisonFailed`, and a failed call changes nothing.
- `Cascade`: the specification of the orphan cascade.
  - The loop and recursion invariants of `remove_orphan`.
  - The theorem that, on an acyclic graph, it keeps exactly the nodes reachable from an orphan other than the removed one. On a rooted graph these are `Surviving` (`KeptIsSurviving`), which ties the DAG to the citation graph.
- `Dags`: the `Dag` class.
- `Scenarios`: the removal scenarios of unit_tests.cpp, worked out on the model.
- `AsWritten`: the places where the code does not do what the design around it intends (see Findings).

Publications are identified by their ids. A publication carries nothing but its id, so the registry's `shared_ptr<Node>` values, and the `weak_ptr` parent links, become set membership of ids.

## Model

| member | source | states |
|---|---|---|
| Journal.Transaction.constructor | citation_graph.h:38 | a new journal has an empty log and is not committed |
| Journal.Transaction.Add | citation_graph.h:50-52 | the entry is appended to the log; the commit flag is untouched |
| Journal.Transaction.Commit | citation_graph.h:48 | the journal is committed and its log kept |
| Journal.CloseMap | citation_graph.h:40-46 | at scope exit a committed journal leaves the map alone; an abandoned one erases every recorded key |
| Journal.CloseLinks | citation_graph.h:40-46 | at scope exit a committed journal leaves the sets alone; an abandoned one erases every recorded entry from the set it was inserted into |
| Journal.UnlinkLink | citation_graph.h:40-46 | erasing entries that were inserted fresh restores the sets exactly |
| Journal.AbandonRestores | citation_graph.h:213-240 | abandoning the registry journal and then the set journals of a creation restores the container |
| CitationGraphs.ToVector | citation_graph.h:139-157 | the vector lists every member of the set exactly once, so it is as long as the set |
| CitationGraphs.Sweep | citation_graph.h:263-270 | without a raise, the traversal from the root returns exactly the nodes reachable from it; a raise is reported only when a faulty step lies at or after the first step |
| CitationGraphs.CreateRollback | citation_graph.h:213-240 | the abandoned journals of a creation restore both maps of a rooted graph |
| CitationGraphs.CreateLinks | citation_graph.h:222-235 | the journals of a completed creation hold exactly the new publication's citations of each parent |
| CitationGraphs.UnlinkInsertion | citation_graph.h:252-260 | undoing one set insertion restores the set, both when the entry was new (recorded) and when it was already there (not recorded) |
| CitationGraphs.CitationGraph.constructor | citation_graph.h:161-165 | the new graph holds only the source, with no links, and is rooted |
| CitationGraphs.CitationGraph.GetRootId | citation_graph.h:178-180 | returns the source id fixed at construction; it is registered and every registered publication is reachable from it |
| CitationGraphs.CitationGraph.FindOrThrow | citation_graph.h:125-131 | passes exactly for a registered id, otherwise PublicationNotFound |
| CitationGraphs.CitationGraph.Exists | citation_graph.h:192-194 | true exactly when the publication is reachable from the source |
| CitationGraphs.CitationGraph.GetChildren | citation_graph.h:182-185 | PublicationNotFound exactly for an unknown id; otherwise every citing publication, once each, and each listed one cites the id |
| CitationGraphs.CitationGraph.GetParents | citation_graph.h:187-190 | PublicationNotFound exactly for an unknown id; otherwise every cited publication, once each, and each listed one is cited by the id |
| CitationGraphs.CitationGraph.Lookup | citation_graph.h:196-198 | returns the publication whose id is the given one exactly when it is registered, else PublicationNotFound |
| CitationGraphs.CitationGraph.UnwindLinks | citation_graph.h:40-46 | scope exit of a pair of set journals: each map is kept or has its recorded entries erased |
| CitationGraphs.CitationGraph.UnwindCreate | citation_graph.h:213-215 | scope exit of the three journals of `create`, in reverse order of declaration |
| CitationGraphs.CitationGraph.AttachChild | citation_graph.h:231 | the new publication joins the parent's child set and the entry is journalled only when new |
| CitationGraphs.CitationGraph.AttachParent | citation_graph.h:232 | the parent joins the new publication's parent set and the entry is journalled only when new |
| CitationGraphs.CitationGraph.AbandonCreate | citation_graph.h:213-240 | an abandoned creation leaves both maps exactly as before the call |
| CitationGraphs.CitationGraph.AttachAll | citation_graph.h:222-235 | either every listed parent is linked both ways and journalled, or the call fails with the maps as before: PublicationNotFound for a missing parent or for the id itself, ComparisonFailed for a raise |
| CitationGraphs.CitationGraph.Create | citation_graph.h:200-240 | the outcome is PublicationAlreadyCreated, PublicationNotFound (empty list, missing parent, self-citation) or success as the header promises, or ComparisonFailed; on success the new publication cites exactly the listed parents and is their child; on failure nothing changes; the graph stays rooted |
| CitationGraphs.CitationGraph.AddCitation | citation_graph.h:243-261 | PublicationNotFound for an unknown id or a self-citation; on success the citation is recorded on both sides; on failure nothing changes; the graph stays rooted |
| CitationGraphs.CitationGraph.Remove | CitationGraph.h:54-58 | PublicationNotFound for an unknown id, TriedToRemoveRoot for the source; on success exactly the publications still reachable from the source once the removed one's citations are severed remain, with their links among themselves; on failure nothing changes; the graph stays rooted |
| Adjacency.LiveIffReachable | CitationGraph.h:57 | in a rooted graph a publication is registered exactly when it is reachable from the source |
| Adjacency.PruneKeepsRooted | CitationGraph.h:57 | keeping only the survivors of a removal yields a rooted graph |
| Adjacency.RemovedNotSurviving | CitationGraph.h:54-57 | a removed publication other than the source never survives its own removal |
| Adjacency.UniqueOrphan | citation_graph.h:209-211 | since creation demands a parent, the source is the only publication that cites nothing |
| Adjacency.WithVertexKeepsRooted | citation_graph.h:204-240 | a created publication citing registered ones keeps the graph rooted |
| Adjacency.WithEdgeKeepsMirrored | dag.h:64-69 | adding an edge on both sides keeps the maps mirrored |
| Adjacency.WithEdgeKeepsRooted | citation_graph.h:243-261 | a new citation between registered publications keeps the graph rooted |
| Cascade.CutStartsCascade | dag.h:88-93 | severing the citations of `v` and clearing its parent set makes `v` an orphan with the precondition of `remove_orphan` |
| Cascade.CascadingOrphan | dag.h:78-80 | a child left without parents ranks strictly below `v`, so the recursion terminates, and it satisfies the precondition of `remove_orphan` |
| Cascade.CascadingRecurse | dag.h:79-81 | after the recursive call the loop invariant of `remove_orphan` holds again |
| Cascade.CascadingDone | dag.h:83-84 | once every child has been visited, erasing `v` completes one cascade step |
| Cascade.CascadeOutcome | dag.h:88-94 | on an acyclic mirrored graph, `remove_vertex` leaves exactly the nodes reachable from an orphan other than `v` once `v`'s citations are severed, with their links among themselves, still mirrored and acyclic |
| Cascade.RootIsOnlyOrphan | citation_graph.h:209-211 | in a rooted acyclic graph the source is the only orphan |
| Cascade.KeptIsSurviving | dag.h:88-94 | on a rooted acyclic graph the cascade keeps exactly what the citation graph's removal keeps |
| Dags.AddIfAbsent | dag.h:53-57 | the key is present afterwards; existing entries are untouched and a missing key gets an empty set |
| Dags.WithVertexKeepsMirrored | dag.h:35-42 | registering a fresh leaf under present parents keeps the maps mirrored |
| Dags.WithVertexKeepsAcyclic | dag.h:35-42 | registering a fresh leaf keeps the graph acyclic |
| Dags.WithEdgeIdempotent | dag.h:64-69 | adding the same edge twice is adding it once |
| Dags.Dag.constructor | dag.h:27 | both maps are empty |
| Dags.Dag.AddVertex | dag.h:29-33 | the new node's parent set is exactly the given parent, its child set is empty, and it joins the parent's child set |
| Dags.Dag.AddVertices | dag.h:35-42 | the new node's parent set is exactly the listed parents, its child set is empty, and it joins each parent's child set |
| Dags.Dag.GetRoot | dag.h:45-51 | returns a node without parents, and none exactly when every node has a parent |
| Dags.Dag.AddIfAbsentBoth | dag.h:59-62 | the node is a key of both maps; existing entries are kept |
| Dags.Dag.AddEdge | dag.h:64-69 | both ends become nodes and the edge is recorded in the child set of `from` and the parent set of `to` |
| Dags.Dag.IsOrphan | dag.h:71-73 | on mirrored maps a node has no parents exactly when no node lists it as a child |
| Dags.Dag.RemoveOrphan | dag.h:75-85 | one call erases `v`, and recursively every descendant left without parents, keeping the maps consistent |
| Dags.NoCycleThroughOrphan | dag.h:75-94 | on mirrored maps nothing reachable from an orphan's child leads back to the orphan, so the cascade of `remove_vertex` never re-enters the node it started from |
| Dags.Dag.RemoveVertex | dag.h:88-94 | on an acyclic mirrored graph exactly the nodes reachable from an orphan other than `v` remain, with their links among themselves, mirrored and acyclic; an unknown `v` changes nothing |
| Scenarios.ChainBuilt | unit_tests.cpp:117-122 | the chain maps are what `create(A, X)`, `create(C, A)`, `create(D, C)`, `create(E, D)` produce from X alone, step by step as `Create` promises |
| Scenarios.TwoSourcesBuilt | unit_tests.cpp:163-170 | the two-sources maps are the chain followed by `create(B, X)` and `add_citation(E, B)`, as `Create` and `AddCitation` promise |
| Scenarios.ChainRooted | unit_tests.cpp:116-132 | the chain X, A, C, D, E is a graph rooted at X |
| Scenarios.ChainRemoval | unit_tests.cpp:134-137 | removing C leaves only X and A |
| Scenarios.ChainPruned | unit_tests.cpp:136-137 | afterwards A has no children and X has one |
| Scenarios.TwoSourcesRooted | unit_tests.cpp:162-182 | the chain with B citing X and cited by E is rooted at X |
| Scenarios.TwoSourcesRemoval | unit_tests.cpp:184-195 | removing C leaves X, A, B and E |
| Scenarios.TwoSourcesPruned | unit_tests.cpp:186-195 | afterwards X has two children, A and E none, B one, and E is cited only by B |
| AsWritten.WrittenNeverFailed | citation_graph.h:35-48 | as written, a journal's flag is never set, whatever is recorded and whether or not it is committed |
| AsWritten.WrittenNeverErases | citation_graph.h:40-46 | as written, closing a journal that was never committed erases nothing |
| AsWritten.TryAddWrittenKeepsPartialWork | test_transaction.cpp:32-38 | the loop of the test's `try_add`, run against the journal of citation_graph.h whose flag is never set, leaves six members after the failed call where the test expects four; the test itself builds a two-parameter `Transaction` from the set and calls a one-argument `add`, which no source file declares |
| AsWritten.TryAddAllOrNothing | test_transaction.cpp:13-27 | with rollback and a journal that records only real insertions, `try_add` either adds every member or leaves the set unchanged, and a raise always leaves it unchanged |
| AsWritten.TryAddRollbackLosesMember | test_transaction.cpp:20-21 | with rollback but every `emplace` journalled, as the test writes it, a failed `try_add` of an existing member erases that member: {1, 2} with [2, 5] and a raise at 5 ends as {1} |
| AsWritten.TryAddFailingScenario | test_transaction.cpp:32-38 | with rollback, the failed call leaves the four original members |
| AsWritten.TryAddPassingScenario | test_transaction.cpp:41-44 | the successful call ends with eight members |
| AsWritten.WrittenRemoveLog | citation_graph.h:263-270 | the model's reading of the DFS of `remove`, which keeps no visited set: with a single parent and a cycle below, it never returns (a case split of the definition, backed by `CycleBelowUnbounded`); when it returns, the recorded ids include the removed one and, with a single parent, every descendant |
| AsWritten.CycleBelowUnbounded | citation_graph.h:264-269 | below a cycle there are paths from the publication of every length, so a traversal that follows every child without a visited set has no bound on its recursion |
| AsWritten.WrittenRemove | citation_graph.h:272-297 | read as if its calls at lines 289 and 291 compiled (as written they do not: a const `shared_ptr` and a `const_iterator` are passed where non-const ones are taken), `remove` fails as the header says; it never returns exactly when the DFS diverges; otherwise on success it keeps every registered publication |
| AsWritten.WrittenRemoveDiverges | citation_graph.h:263-270 | on the rooted graph X <- A <- B <- C with B also citing C, `remove(A)` never returns |
| AsWritten.CycleRemoval | CitationGraph.h:54-57 | on that graph the header's rule removes A, B and C and keeps only X |
| AsWritten.WrittenRemoveKeepsEvicted | citation_graph.h:288-296 | as written, removing C from the chain keeps C, which the header's rule evicts |
| AsWritten.DescendantsOverreach | citation_graph.h:288-289 | the recorded descendants of C include E, which the header's rule keeps |
| AsWritten.WrittenCitationRollback | citation_graph.h:254-257 | a rolled-back citation that already existed disappears from the child's parent set |
| AsWritten.WrittenCitationRollbackBreaksMirror | citation_graph.h:254-257 | on the chain, undoing a repeated citation of X by A breaks the mirror between the two maps |
| AsWritten.WrittenCreateAbort | citation_graph.h:231-234 | as written, a raise in `add_parent` leaves the new id in the parent's child set although its key is erased |
| AsWritten.WrittenCreateAbortDangles | citation_graph.h:231-234 | on the chain, creating 9 under X with that raise leaves a child that is not registered |

## Left out

- Faults are injected only at the container steps of `create`, `add_citation` and `remove`. Allocation failures, `Publication` constructors that throw and raises inside the `Dag` are not modelled.
- Node objects, `shared_ptr` and `weak_ptr` ownership, and the `PtrComparator` and `WeakComparator` orderings become ids in sets. A publication's payload is its id only. Publication.h, publication.h and Node.h are not part of this model.
- Vector order: `ToVector`, `GetChildren` and `GetParents` promise the members once each, but not the ordered-set order of the source.
- The move constructor and move assignment (citation_graph.h:167-176) are left out: they only swap ownership.
- `operator<<`, `read_raw`, `from_vector`, `assert_same`, `to_string` (dag.h:96-146), dag_generator.c, main.cpp and the `INPUTFILE` redirection are left out as I/O and test tooling.
- CitationGraphs.Sweep: replaces the recursive `DFS` (citation_graph.h:263-270) rather than transcribing it. `DFS` starts at the removed publication, collects its descendants and keeps no visited set. `Sweep` starts at the source on the graph with the removed publication's citations severed, collects the survivors, and keeps a visited set. The traversal as written is `AsWritten.WrittenRemoveLog`. Recursion order and stack depth are not captured.
- CitationGraphs.CitationGraph.Remove: models the removal the header promises (CitationGraph.h:54-58), not the committed no-op the code performs (see Findings).
- AsWritten.TryAddAllOrNothing: states the all-or-nothing promise for a journal that records only insertions that inserted. test_transaction.cpp:20-21 journals every `emplace`, even one that found the member present; with rollback that version erases a member that was there before (`AsWritten.TryAddRollbackLosesMember`), so the promise does not hold for the test's code.
- Journals are modelled with the rollback the design intends, recording only insertions that inserted. `create` is modelled as journalling each set entry right after its insertion (see Findings).
- Cycles: `add_citation` does not reject a citation that closes a cycle, and the model allows it too, so `Rooted` does not demand acyclicity.
- Dags.Dag.RemoveOrphan: requires an acyclic graph, witnessed by a ghost `rank` map that decreases along edges. On mirrored maps no cycle passes through an orphan (`Dags.NoCycleThroughOrphan`), so the recursion cannot loop back to its start. A cycle that an orphan does not reach any more is kept by the code, though, and that cyclic case is not modelled.
- Dags.Dag.RemoveVertex: likewise requires the `rank` witness of acyclicity.
- Dags.Dag.IsOrphan: the default-inserting `operator[]` of `std::map` is modelled as a read. For an absent `v`, `is_orphan` inserts an empty `parents[v]`; the model adds nothing and counts the set as empty. `remove_orphan` and `remove_vertex` use `operator[]` the same way, and the model reads it the same way there. `get_root` iterates over `parents` and does not use it.
- Dags.Dag.GetRoot: `get_root` throws when every node has a parent, and the model returns `None` instead. Which parentless node it returns is left open, where the source returns the least one in map order.
- `remove_orphan`'s `assert(is_orphan(v))` is the precondition of `RemoveOrphan`.

## Findings

| source | as written | input that shows it | evidently intended | confidence | as-written member | corrected member |
|---|---|---|---|---|---|---|
| citation_graph.h:35-48 | `failed` is value-initialised to false and `commit` sets it to false, so the destructor never erases anything | the loop of `try_add` in test_transaction.cpp, run against this journal on {1,3,5,7} with [2,4,10], raises and leaves 6 members; the test as written calls a `Transaction` constructor and `add` that no source file declares | an uncommitted journal erases its recorded insertions (the test expects 4 members) | high, not executed | AsWritten.WrittenNeverErases | Journal.CloseMap |
| citation_graph.h:280-296 | `remove` records the doomed ids in a journal and then commits it, so nothing is removed. Also, lines 289 and 291 do not compile once `remove` is instantiated: they pass a const `shared_ptr` and a `const_iterator` where non-const ones are taken. The model reads them as if they compiled | the chain X, A, C, D, E of unit_tests.cpp:116-137: after `remove(C)`, C is still registered | the removed publication and everything no longer reachable from the source leave the registry (CitationGraph.h:54-58) | high, not executed | AsWritten.WrittenRemoveKeepsEvicted | CitationGraphs.CitationGraph.Remove |
| citation_graph.h:264-269 | `DFS` keeps no visited set, so it recurses forever on a cycle below a publication with a single parent | X <- A <- B <- C, then `add_citation(B, C)` closes the cycle B, C; `remove(A)` never returns | the traversal terminates and `remove` evicts A, B and C | high, not executed | AsWritten.WrittenRemoveDiverges | CitationGraphs.Sweep |
| test_transaction.cpp:20-21 | `try_add` journals every `emplace`, also one that found the member already present | {1, 2} with [2, 5] and a raise at 5: once the journal rolls back, 2 is erased and {1} remains | only real insertions are journalled, so a failed call leaves the set as it was | high, not executed | AsWritten.TryAddRollbackLosesMember | AsWritten.TryAddAllOrNothing |
| citation_graph.h:288-289 | with one parent, `remove` records every descendant of the removed publication | unit_tests.cpp:162-195: removing C records E, which B still cites | only publications that are no longer reachable from the source are removed | high, not executed | AsWritten.DescendantsOverreach | Scenarios.TwoSourcesRemoval |
| citation_graph.h:254-257 | `add_citation` journals the parent-set entry even when the citation already existed; it shows once the journal rolls back as intended | A already cites X; `add_citation(A, X)` with `add_child` raising erases X from A's parents, but X keeps A as a child | only entries that were actually inserted are undone | medium, not executed | AsWritten.WrittenCitationRollbackBreaksMirror | CitationGraphs.UnlinkInsertion |
| citation_graph.h:231-234 | `create` journals the child-set entry only after `add_parent` returns; it shows once the journal rolls back as intended | `create(9, [X])` with `add_parent` raising: 9 stays in X's child set while its key is erased | each insertion is journalled as soon as it is made | medium, not executed | AsWritten.WrittenCreateAbortDangles | CitationGraphs.CitationGraph.AttachChild |
