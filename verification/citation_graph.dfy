/**
 * `CitationGraph<Publication>` of citation_graph.h: a registry of
 * publications rooted at one permanent source publication, with atomic
 * creation, citation and removal.
 *
 * Nodes are identified by their ids: `children[p]` is the child set of the
 * node `p` (the publications citing it), `parents[c]` its parent set, and the
 * key set of `children` is the registry. A publication carries only its id.
 *
 * Every comparison of ids inside an ordered container may raise. A mutation
 * takes `faults`, the numbers of its container steps that raise (the steps of
 * one call are numbered 0, 1, 2, ... in the order the code performs them);
 * a raise surfaces as `ComparisonFailed` after the journals have undone every
 * recorded edit.
 */
module CitationGraphs {
  import opened Adjacency
  import opened Journal

  datatype Error =
    | PublicationAlreadyCreated
    | PublicationNotFound
    | TriedToRemoveRoot
    | ComparisonFailed

  datatype Outcome = Pass | Fail(error: Error)

  datatype Result<T> = Ok(value: T) | Err(error: Error)

  datatype Publication<Id> = Publication(id: Id) {
    function GetId(): Id { id }
  }

  /** The outcome of `create` when no comparison raises. */
  function CreateOutcome<Id>(children: Adj<Id>, id: Id, parentIds: seq<Id>): Outcome
  {
    if id in children then Fail(PublicationAlreadyCreated)
    else if |parentIds| == 0 then Fail(PublicationNotFound)
    else if forall p | p in parentIds :: p != id && p in children then Pass
    else Fail(PublicationNotFound)
  }

  /** The outcome of `add_citation` when no comparison raises. */
  function CitationOutcome<Id>(children: Adj<Id>, childId: Id, parentId: Id): Outcome
  {
    if childId !in children || parentId !in children || childId == parentId then Fail(PublicationNotFound)
    else Pass
  }

  /** The outcome of `remove` when no comparison raises. */
  function RemoveOutcome<Id>(children: Adj<Id>, root: Id, id: Id): Outcome
  {
    if id !in children then Fail(PublicationNotFound)
    else if id == root then Fail(TriedToRemoveRoot)
    else Pass
  }

  /** The ids of a set, listed once each in some order (`to_vector`). */
  method ToVector<Id>(s: set<Id>) returns (v: seq<Id>)
    ensures |v| == |s|
    ensures forall x | x in v :: x in s
    ensures forall x | x in s :: x in v
    ensures forall i, j | 0 <= i < j < |v| :: v[i] != v[j]
  {
    v := [];
    var rest := s;
    while rest != {}
      invariant rest <= s
      invariant forall x | x in v :: x in s && x !in rest
      invariant forall x | x in s :: x in v || x in rest
      invariant forall i, j | 0 <= i < j < |v| :: v[i] != v[j]
      invariant |v| + |rest| == |s|
      decreases rest
    {
      var x :| x in rest;
      v := v + [x];
      rest := rest - {x};
    }
  }

  /**
   * The reachability sweep of `remove`: the nodes reachable from `root`
   * along `g`, visited one at a time; visit number `step + k` raises when it
   * is in `faults`.
   */
  method Sweep<Id(!new)>(g: Adj<Id>, root: Id, faults: set<nat>, step: nat) returns (r: Result<set<Id>>)
    requires root in g
    requires forall k | k in g :: g[k] <= g.Keys
    ensures r.Ok? ==> r.value == ReachableSet(g, root)
    ensures r.Err? ==> r.error == ComparisonFailed && exists k | k in faults :: k >= step
    ensures (forall k | k in faults :: k < step) ==> r.Ok?
  {
    var seen, todo := {root}, {root};
    var visit := step;
    ReachableSelf(g, root);
    while todo != {}
      invariant todo <= seen <= g.Keys
      invariant root in seen
      invariant forall x | x in seen :: Reachable(g, root, x)
      invariant forall x | x in seen && x !in todo :: g[x] <= seen
      invariant visit >= step
      decreases g.Keys - seen, todo
    {
      var x :| x in todo;
      if visit in faults {
        return Err(ComparisonFailed);
      }
      visit := visit + 1;
      var found := g[x] - seen;
      forall y | y in found
        ensures Reachable(g, root, y)
      {
        ReachableStep(g, root, x, y);
      }
      seen, todo := seen + found, todo - {x} + found;
    }
    forall x | x in g && Reachable(g, root, x)
      ensures x in seen
    {
      ClosedContainsReachable(g, seen, root, x);
    }
    return Ok(seen);
  }

  /** The abandoned journals of a creation leave both maps as they were. */
  lemma CreateRollback<Id(!new)>(children: Adj<Id>, parents: Adj<Id>, root: Id, id: Id,
                                 cRec: set<(Id, Id)>, pRec: set<(Id, Id)>)
    requires Rooted(children, parents, root) && id !in children
    requires forall e | e in cRec :: e.0 in children && e.1 == id
    requires forall e | e in pRec :: e.0 == id
    ensures Unlink(Link(children[id := {}], cRec) - {id}, cRec) == children
    ensures Unlink(Link(parents[id := {}], pRec) - {id}, pRec) == parents
  {
    forall e | e in cRec
      ensures e.0 == id || (e.0 in children && e.1 !in children[e.0])
    {
      assert id !in parents;
    }
    AbandonRestores(children, id, cRec);
    AbandonRestores(parents, id, pRec);
  }

  /** The journals of a completed creation hold exactly the new citations. */
  lemma CreateLinks<Id>(children: Adj<Id>, parents: Adj<Id>, id: Id, parentIds: seq<Id>)
    requires id !in children && forall q | q in parentIds :: q in children
    ensures Link(children[id := {}], set q | q in parentIds :: (q, id)) == WithVertex(children, id, Elements(parentIds))
    ensures Link(parents[id := {}], set q | q in parentIds :: (id, q)) == parents[id := Elements(parentIds)]
  {
    CreateChildLinks(children, id, parentIds);
    CreateParentLinks(parents, id, parentIds);
  }

  lemma CreateChildLinks<Id>(children: Adj<Id>, id: Id, parentIds: seq<Id>)
    requires id !in children && forall q | q in parentIds :: q in children
    ensures Link(children[id := {}], set q | q in parentIds :: (q, id)) == WithVertex(children, id, Elements(parentIds))
  {
    var ps := Elements(parentIds);
    var cs := set q | q in parentIds :: (q, id);
    forall k | k in children[id := {}]
      ensures Targets(cs, k) == if k in ps then {id} else {}
    {
      if k in ps {
        assert (k, id) in cs;
      }
    }
    assert Link(children[id := {}], cs).Keys == WithVertex(children, id, ps).Keys;
  }

  lemma CreateParentLinks<Id>(parents: Adj<Id>, id: Id, parentIds: seq<Id>)
    ensures Link(parents[id := {}], set q | q in parentIds :: (id, q)) == parents[id := Elements(parentIds)]
  {
    var ps := Elements(parentIds);
    var pe := set q | q in parentIds :: (id, q);
    var grown := Link(parents[id := {}], pe);
    forall k | k in parents[id := {}]
      ensures grown[k] == parents[id := ps][k]
    {
      if k == id {
        forall q | q in ps
          ensures q in Targets(pe, k)
        {
          assert (id, q) in pe;
        }
      } else {
        assert Targets(pe, k) == {};
      }
    }
    assert grown.Keys == parents[id := ps].Keys;
  }

  lemma LinksSnoc<Id>(qs: seq<Id>, p: Id, id: Id)
    ensures (set q | q in qs + [p] :: (q, id)) == (set q | q in qs :: (q, id)) + {(p, id)}
  {
    assert forall q | q in qs + [p] :: q in qs || q == p;
  }

  lemma CitesSnoc<Id>(id: Id, qs: seq<Id>, p: Id)
    ensures (set q | q in qs + [p] :: (id, q)) == (set q | q in qs :: (id, q)) + {(id, p)}
  {
    assert forall q | q in qs + [p] :: q in qs || q == p;
  }

  /** Undoing the journal of one insertion into the set of `k` restores the map. */
  lemma UnlinkInsertion<Id>(m: Adj<Id>, k: Id, v: Id, rec: set<(Id, Id)>)
    requires k in m
    requires (rec == {(k, v)} && v !in m[k]) || (rec == {} && v in m[k])
    ensures Unlink(m[k := m[k] + {v}], rec) == m
  {
    var grown := m[k := m[k] + {v}];
    if rec == {} {
      assert m[k] + {v} == m[k];
      assert grown == m;
      UnlinkNothing(m);
    } else {
      forall j | j in grown
        ensures Unlink(grown, rec)[j] == m[j]
      {
        assert Targets(rec, j) == if j == k then {v} else {};
      }
    }
  }

  class CitationGraph<Id(==, !new)> {
    var children: Adj<Id>
    var parents: Adj<Id>
    const sourceId: Id

    ghost predicate Valid()
      reads this
    {
      Rooted(children, parents, sourceId)
    }

    /** A graph holding only the source publication `stemId`. */
    constructor (stemId: Id)
      ensures Valid() && sourceId == stemId
      ensures children == map[stemId := {}] && parents == map[stemId := {}]
    {
      children := map[stemId := {}];
      parents := map[stemId := {}];
      sourceId := stemId;
      new;
      ReachableSelf(children, stemId);
    }

    /** The id of the source, fixed at construction: every live publication is reachable from it. */
    function GetRootId(): (r: Id)
      reads this
      requires Valid()
      ensures r == sourceId
      ensures r in children && forall x | x in children :: Reachable(children, r, x)
    {
      sourceId
    }

    /** `find_or_throw`: passes exactly for a registered id. */
    function FindOrThrow(id: Id): (r: Outcome)
      reads this
      requires Valid()
      ensures r == Pass || r == Fail(PublicationNotFound)
      ensures r == Pass <==> id in parents
    {
      if id in children then Pass else Fail(PublicationNotFound)
    }

    /** `exists`: a publication is registered exactly when it is reachable from the source. */
    function Exists(id: Id): (b: bool)
      reads this
      requires Valid()
      ensures b <==> Reachable(children, sourceId, id)
    {
      LiveIffReachable(children, parents, sourceId, id);
      id in children
    }

    /** `get_children`: the publications citing `id`, each listed once. */
    method GetChildren(id: Id) returns (r: Result<seq<Id>>)
      requires Valid()
      ensures r.Err? <==> id !in children
      ensures r.Err? ==> r.error == PublicationNotFound
      ensures r.Ok? ==> |r.value| == |children[id]|
      ensures r.Ok? ==> forall c | c in r.value :: c in parents && id in parents[c]
      ensures r.Ok? ==> forall c | c in children[id] :: c in r.value
    {
      if FindOrThrow(id) != Pass {
        return Err(PublicationNotFound);
      }
      var v := ToVector(children[id]);
      return Ok(v);
    }

    /** `get_parents`: the publications `id` cites, each listed once. */
    method GetParents(id: Id) returns (r: Result<seq<Id>>)
      requires Valid()
      ensures r.Err? <==> id !in children
      ensures r.Err? ==> r.error == PublicationNotFound
      ensures r.Ok? ==> |r.value| == |parents[id]|
      ensures r.Ok? ==> forall p | p in r.value :: p in children && id in children[p]
      ensures r.Ok? ==> forall p | p in parents[id] :: p in r.value
    {
      if FindOrThrow(id) != Pass {
        return Err(PublicationNotFound);
      }
      var v := ToVector(parents[id]);
      return Ok(v);
    }

    /** `operator[]`: the publication registered under `id`. */
    method Lookup(id: Id) returns (r: Result<Publication<Id>>)
      requires Valid()
      ensures r.Ok? <==> id in children
      ensures r.Ok? ==> r.value.GetId() == id
      ensures r.Err? ==> r.error == PublicationNotFound
    {
      if FindOrThrow(id) != Pass {
        return Err(PublicationNotFound);
      }
      return Ok(Publication(id));
    }

    /** Scope exit of the journals over the parent and child sets, in that order. */
    method UnwindLinks(cTrans: Transaction<(Id, Id)>, pTrans: Transaction<(Id, Id)>)
      modifies this
      ensures children == if cTrans.committed then old(children) else Unlink(old(children), cTrans.Recorded())
      ensures parents == if pTrans.committed then old(parents) else Unlink(old(parents), pTrans.Recorded())
    {
      parents := CloseLinks(pTrans, parents);
      children := CloseLinks(cTrans, children);
    }

    /** The scope exit of `create`: the registry journal first, then the set journals. */
    method UnwindCreate(cTrans: Transaction<(Id, Id)>, pTrans: Transaction<(Id, Id)>, nlTrans: Transaction<Id>)
      requires !cTrans.committed && !pTrans.committed && !nlTrans.committed
      modifies this
      ensures children == Unlink(old(children) - nlTrans.Recorded(), cTrans.Recorded())
      ensures parents == Unlink(old(parents) - nlTrans.Recorded(), pTrans.Recorded())
    {
      children := CloseMap(nlTrans, children);
      parents := CloseMap(nlTrans, parents);
      UnwindLinks(cTrans, pTrans);
    }

    /**
     * The state of a `create` of `id` under way from `c0`, `p0`: `id` is
     * registered, the parents in `cDone` hold it as a child and its parent set
     * holds `pDone`, and the journals record exactly those insertions.
     */
    ghost predicate Pending(id: Id, c0: Adj<Id>, p0: Adj<Id>,
                            cTrans: Transaction<(Id, Id)>, pTrans: Transaction<(Id, Id)>, nlTrans: Transaction<Id>,
                            cDone: seq<Id>, pDone: seq<Id>)
      reads this, cTrans, pTrans, nlTrans
    {
      && Rooted(c0, p0, sourceId) && id !in c0
      && cTrans != pTrans && nlTrans as object != cTrans && nlTrans as object != pTrans
      && !cTrans.committed && !pTrans.committed && !nlTrans.committed
      && nlTrans.Recorded() == {id}
      && (forall q | q in cDone :: q in c0)
      && cTrans.Recorded() == (set q | q in cDone :: (q, id))
      && pTrans.Recorded() == (set q | q in pDone :: (id, q))
      && children == Link(c0[id := {}], cTrans.Recorded())
      && parents == Link(p0[id := {}], pTrans.Recorded())
    }

    /** `parent->add_child(child)` with its journal entry. */
    method AttachChild(id: Id, p: Id, ghost c0: Adj<Id>, ghost p0: Adj<Id>,
                       cTrans: Transaction<(Id, Id)>, pTrans: Transaction<(Id, Id)>, nlTrans: Transaction<Id>,
                       ghost cDone: seq<Id>, ghost pDone: seq<Id>)
      requires Pending(id, c0, p0, cTrans, pTrans, nlTrans, cDone, pDone) && p in c0
      modifies this, cTrans
      ensures Pending(id, c0, p0, cTrans, pTrans, nlTrans, cDone + [p], pDone)
    {
      ghost var cRec := cTrans.Recorded();
      assert p in children;
      LinksSnoc(cDone, p, id);
      if id !in children[p] {
        children := children[p := children[p] + {id}];
        cTrans.Add((p, id));
      } else {
        assert id !in c0[p] by {
          assert id !in p0;
        }
        assert (p, id) in cRec;
      }
      LinkOneMore(c0[id := {}], cRec, p, id);
    }

    /** `child->add_parent(parent)` with its journal entry. */
    method AttachParent(id: Id, p: Id, ghost c0: Adj<Id>, ghost p0: Adj<Id>,
                        cTrans: Transaction<(Id, Id)>, pTrans: Transaction<(Id, Id)>, nlTrans: Transaction<Id>,
                        ghost cDone: seq<Id>, ghost pDone: seq<Id>)
      requires Pending(id, c0, p0, cTrans, pTrans, nlTrans, cDone, pDone)
      modifies this, pTrans
      ensures Pending(id, c0, p0, cTrans, pTrans, nlTrans, cDone, pDone + [p])
    {
      ghost var pRec := pTrans.Recorded();
      CitesSnoc(id, pDone, p);
      if p !in parents[id] {
        parents := parents[id := parents[id] + {p}];
        pTrans.Add((id, p));
      } else {
        assert (id, p) in pRec;
      }
      LinkOneMore(p0[id := {}], pRec, id, p);
    }

    /** The scope exit of a `create` that raised: every journal is abandoned. */
    method AbandonCreate(id: Id, ghost c0: Adj<Id>, ghost p0: Adj<Id>,
                         cTrans: Transaction<(Id, Id)>, pTrans: Transaction<(Id, Id)>, nlTrans: Transaction<Id>,
                         ghost cDone: seq<Id>, ghost pDone: seq<Id>)
      requires Pending(id, c0, p0, cTrans, pTrans, nlTrans, cDone, pDone)
      modifies this
      ensures children == c0 && parents == p0
    {
      CreateRollback(c0, p0, sourceId, id, cTrans.Recorded(), pTrans.Recorded());
      UnwindCreate(cTrans, pTrans, nlTrans);
    }

    /**
     * The loop of `create` over `parent_ids`: links `id` to every listed
     * parent, or stops at the first parent that is `id` itself or
     * unregistered, or at the first raising comparison (step `step` onwards),
     * and then abandons every journal.
     */
    method AttachAll(id: Id, parentIds: seq<Id>, faults: set<nat>, step: nat, ghost c0: Adj<Id>, ghost p0: Adj<Id>,
                     cTrans: Transaction<(Id, Id)>, pTrans: Transaction<(Id, Id)>, nlTrans: Transaction<Id>)
      returns (r: Outcome)
      requires Pending(id, c0, p0, cTrans, pTrans, nlTrans, [], []) && |parentIds| > 0
      modifies this, cTrans, pTrans
      ensures r == CreateOutcome(c0, id, parentIds) || r == Fail(ComparisonFailed)
      ensures faults == {} ==> r == CreateOutcome(c0, id, parentIds)
      ensures r == Pass ==> Pending(id, c0, p0, cTrans, pTrans, nlTrans, parentIds, parentIds)
      ensures r != Pass ==> children == c0 && parents == p0
    {
      var k := step;
      var i := 0;
      while i < |parentIds|
        invariant 0 <= i <= |parentIds|
        invariant Pending(id, c0, p0, cTrans, pTrans, nlTrans, parentIds[..i], parentIds[..i])
      {
        var p := parentIds[i];
        assert parentIds[..i + 1] == parentIds[..i] + [p];
        assert forall q | q in parentIds[..i] :: q != id && q in c0;
        if p == id {
          r := Fail(PublicationNotFound);
          AbandonCreate(id, c0, p0, cTrans, pTrans, nlTrans, parentIds[..i], parentIds[..i]);
          return;
        }
        // publication_ids.find(parent_id)
        if k in faults {
          r := Fail(ComparisonFailed);
          AbandonCreate(id, c0, p0, cTrans, pTrans, nlTrans, parentIds[..i], parentIds[..i]);
          return;
        }
        k := k + 1;
        if p !in children {
          r := Fail(PublicationNotFound);
          AbandonCreate(id, c0, p0, cTrans, pTrans, nlTrans, parentIds[..i], parentIds[..i]);
          return;
        }
        // parent->add_child(child)
        if k in faults {
          r := Fail(ComparisonFailed);
          AbandonCreate(id, c0, p0, cTrans, pTrans, nlTrans, parentIds[..i], parentIds[..i]);
          return;
        }
        k := k + 1;
        AttachChild(id, p, c0, p0, cTrans, pTrans, nlTrans, parentIds[..i], parentIds[..i]);
        // child->add_parent(parent)
        if k in faults {
          r := Fail(ComparisonFailed);
          AbandonCreate(id, c0, p0, cTrans, pTrans, nlTrans, parentIds[..i + 1], parentIds[..i]);
          return;
        }
        k := k + 1;
        AttachParent(id, p, c0, p0, cTrans, pTrans, nlTrans, parentIds[..i + 1], parentIds[..i]);
        i := i + 1;
      }
      assert parentIds[..i] == parentIds;
      r := Pass;
    }

    /**
     * `create(id, parent_ids)`: registers `id` citing every listed parent, or
     * changes nothing. `create(id, parent_id)` is this with a one-element list.
     */
    method Create(id: Id, parentIds: seq<Id>, faults: set<nat>) returns (r: Outcome)
      requires Valid()
      modifies this
      ensures Valid()
      ensures r == CreateOutcome(old(children), id, parentIds) || r == Fail(ComparisonFailed)
      ensures faults == {} ==> r == CreateOutcome(old(children), id, parentIds)
      ensures r == Pass ==> children == WithVertex(old(children), id, Elements(parentIds))
      ensures r == Pass ==> parents == old(parents)[id := Elements(parentIds)]
      ensures r != Pass ==> children == old(children) && parents == old(parents)
    {
      // publication_ids.find(id)
      if 0 in faults {
        return Fail(ComparisonFailed);
      }
      if id in children {
        return Fail(PublicationAlreadyCreated);
      }
      if |parentIds| == 0 {
        return Fail(PublicationNotFound);
      }
      var cTrans := new Transaction<(Id, Id)>();
      var pTrans := new Transaction<(Id, Id)>();
      var nlTrans := new Transaction<Id>();
      // publication_ids.insert
      if 1 in faults {
        return Fail(ComparisonFailed);
      }
      ghost var c0, p0 := children, parents;
      children := children[id := {}];
      parents := parents[id := {}];
      nlTrans.Add(id);
      assert nlTrans.Recorded() == {id};
      assert cTrans.Recorded() == {} && pTrans.Recorded() == {};
      LinkNothing(c0[id := {}]);
      LinkNothing(p0[id := {}]);
      r := AttachAll(id, parentIds, faults, 2, c0, p0, cTrans, pTrans, nlTrans);
      if r != Pass {
        return;
      }
      nlTrans.Commit();
      pTrans.Commit();
      cTrans.Commit();
      UnwindLinks(cTrans, pTrans);
      CreateLinks(c0, p0, id, parentIds);
      assert parentIds[0] in Elements(parentIds);
      WithVertexKeepsRooted(c0, p0, sourceId, id, Elements(parentIds));
    }

    /**
     * `add_citation(child_id, parent_id)`: `child_id` cites `parent_id`
     * afterwards, or nothing changes. Citing an already cited publication
     * changes nothing.
     */
    method AddCitation(childId: Id, parentId: Id, faults: set<nat>) returns (r: Outcome)
      requires Valid()
      modifies this
      ensures Valid()
      ensures r == CitationOutcome(old(children), childId, parentId) || r == Fail(ComparisonFailed)
      ensures faults == {} ==> r == CitationOutcome(old(children), childId, parentId)
      ensures r == Pass ==> children == WithEdge(old(children), parentId, childId)
      ensures r == Pass ==> parents == WithEdge(old(parents), childId, parentId)
      ensures r != Pass ==> children == old(children) && parents == old(parents)
    {
      // publication_ids.find(child_id), publication_ids.find(parent_id)
      if 0 in faults || 1 in faults {
        return Fail(ComparisonFailed);
      }
      if childId !in children || parentId !in children || childId == parentId {
        return Fail(PublicationNotFound);
      }
      var cTrans := new Transaction<(Id, Id)>();
      var pTrans := new Transaction<(Id, Id)>();
      ghost var c0, p0 := children, parents;
      // child->add_parent(parent)
      if 2 in faults {
        return Fail(ComparisonFailed);
      }
      assert childId in parents;
      if parentId !in parents[childId] {
        parents := parents[childId := parents[childId] + {parentId}];
        pTrans.Add((childId, parentId));
        assert pTrans.Recorded() == {(childId, parentId)};
      } else {
        assert pTrans.Recorded() == {};
        assert p0[childId] + {parentId} == p0[childId];
      }
      assert parents == p0[childId := p0[childId] + {parentId}];
      // parent->add_child(child)
      if 3 in faults {
        r := Fail(ComparisonFailed);
        ghost var rec := pTrans.Recorded();
        assert cTrans.Recorded() == {};
        UnlinkNothing(c0);
        UnlinkInsertion(p0, childId, parentId, rec);
        UnwindLinks(cTrans, pTrans);
        return;
      }
      if childId !in children[parentId] {
        children := children[parentId := children[parentId] + {childId}];
        cTrans.Add((parentId, childId));
      } else {
        assert c0[parentId] + {childId} == c0[parentId];
      }
      assert children == c0[parentId := c0[parentId] + {childId}];
      cTrans.Commit();
      pTrans.Commit();
      UnwindLinks(cTrans, pTrans);
      r := Pass;
      WithEdgePresent(c0, parentId, childId);
      WithEdgePresent(p0, childId, parentId);
      WithEdgeKeepsRooted(c0, p0, sourceId, parentId, childId);
    }

    /**
     * `remove(id)`: `id` is unregistered together with every publication
     * that is no longer reachable from the source once the citations of `id`
     * are severed; the surviving publications lose their links to evicted
     * ones. Nothing changes when the call fails.
     */
    method Remove(id: Id, faults: set<nat>) returns (r: Outcome)
      requires Valid()
      modifies this
      ensures Valid()
      ensures r == RemoveOutcome(old(children), sourceId, id) || r == Fail(ComparisonFailed)
      ensures faults == {} ==> r == RemoveOutcome(old(children), sourceId, id)
      ensures r == Pass ==> children == Prune(old(children), Surviving(old(children), sourceId, id))
      ensures r == Pass ==> parents == Prune(old(parents), Surviving(old(children), sourceId, id))
      ensures r == Pass ==> id !in children
      ensures r != Pass ==> children == old(children) && parents == old(parents)
    {
      // publication_ids.find(id)
      if 0 in faults {
        return Fail(ComparisonFailed);
      }
      if id !in children {
        return Fail(PublicationNotFound);
      }
      if id == sourceId {
        return Fail(TriedToRemoveRoot);
      }
      var cut := CutIn(children, id);
      forall k | k in cut
        ensures cut[k] <= cut.Keys
      {
        forall c | c in cut[k]
          ensures c in cut
        {
          assert c in parents;
        }
      }
      var swept := Sweep(cut, sourceId, faults, 1);
      if swept.Err? {
        return Fail(ComparisonFailed);
      }
      PruneKeepsRooted(children, parents, sourceId, id);
      RemovedNotSurviving(children, sourceId, id);
      children, parents := Prune(children, swept.value), Prune(parents, swept.value);
      r := Pass;
    }
  }
}
