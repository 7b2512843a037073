/**
 * The undo journal `Transaction<Container>` of citation_graph.h: a list of
 * entries that were inserted into a container, erased again when the
 * journal goes out of scope unless it was committed first.
 *
 * A journal over the registry records keys (`E` is the id type); a journal
 * over the parent or child sets of the nodes records entries `(k, v)`,
 * meaning "`v` was inserted into the set of node `k`".
 */
module Journal {

  /** The members recorded against the set of `k`. */
  function Targets<K(==), V(==)>(es: set<(K, V)>, k: K): (r: set<V>)
    ensures forall v | v in r :: (k, v) in es
    ensures forall e | e in es && e.0 == k :: e.1 in r
  {
    set e | e in es && e.0 == k :: e.1
  }

  /** The entries of a log, in no order. */
  function Elements<E>(log: seq<E>): set<E>
  {
    set e | e in log
  }

  lemma ElementsSnoc<E>(log: seq<E>, e: E)
    ensures Elements(log + [e]) == Elements(log) + {e}
  {
    assert forall x | x in log + [e] :: x in log || x == e;
  }

  lemma ElementsPrefix<E>(log: seq<E>, i: int)
    requires 0 <= i < |log|
    ensures Elements(log[..i + 1]) == Elements(log[..i]) + {log[i]}
  {
    assert log[..i + 1] == log[..i] + [log[i]];
    ElementsSnoc(log[..i], log[i]);
  }

  /** Every entry `(k, v)` of `es` inserted into the set of an existing key `k`. */
  function Link<K(==), V(==)>(m: map<K, set<V>>, es: set<(K, V)>): map<K, set<V>>
  {
    map k | k in m :: m[k] + Targets(es, k)
  }

  /** Every entry `(k, v)` of `es` erased from the set of an existing key `k`. */
  function Unlink<K(==), V(==)>(m: map<K, set<V>>, es: set<(K, V)>): map<K, set<V>>
  {
    map k | k in m :: m[k] - Targets(es, k)
  }

  class Transaction<E(==)> {
    var toBeRemoved: seq<E>
    var committed: bool

    function Recorded(): set<E>
      reads this
    {
      Elements(toBeRemoved)
    }

    constructor ()
      ensures toBeRemoved == [] && !committed
    {
      toBeRemoved := [];
      committed := false;
    }

    /** Records an entry that was just inserted. */
    method Add(e: E)
      modifies this
      ensures toBeRemoved == old(toBeRemoved) + [e] && committed == old(committed)
    {
      toBeRemoved := toBeRemoved + [e];
    }

    /** Keeps every recorded insertion. */
    method Commit()
      modifies this
      ensures committed && toBeRemoved == old(toBeRemoved)
    {
      committed := true;
    }

  }

  /*
   * The destructor of a journal comes in two forms, one per kind of
   * container: `CloseMap` erases keys of a map, `CloseLinks` erases entries
   * of the sets held in a map, which needs a journal whose entries are pairs.
   * Both take the journal as their first argument.
   */

  /**
   * Scope exit over a map container (the registry): unless committed,
   * every recorded key is erased, one after the other.
   */
  method CloseMap<E(==), X>(t: Transaction<E>, m: map<E, X>) returns (r: map<E, X>)
    ensures t.committed ==> r == m
    ensures !t.committed ==> r == m - t.Recorded()
  {
    r := m;
    if !t.committed {
      var log := t.toBeRemoved;
      for i := 0 to |log|
        invariant r == m - Elements(log[..i])
      {
        assert log[..i + 1] == log[..i] + [log[i]];
        ElementsSnoc(log[..i], log[i]);
        r := r - {log[i]};
      }
      assert log[..|log|] == log;
    }
  }

  /**
   * Scope exit over the sets of the nodes: unless committed, every recorded
   * entry `(k, v)` is erased from the set of `k`, one after the other.
   */
  method CloseLinks<K(==), V(==)>(t: Transaction<(K, V)>, m: map<K, set<V>>) returns (r: map<K, set<V>>)
    ensures t.committed ==> r == m
    ensures !t.committed ==> r == Unlink(m, t.Recorded())
  {
    r := m;
    if !t.committed {
      var log := t.toBeRemoved;
      assert Elements(log[..0]) == {};
      UnlinkNothing(m);
      for i := 0 to |log|
        invariant r == Unlink(m, Elements(log[..i]))
      {
        assert log[..i + 1] == log[..i] + [log[i]];
        ElementsSnoc(log[..i], log[i]);
        var (k, v) := log[i];
        UnlinkOneMore(m, Elements(log[..i]), k, v);
        if k in r {
          r := r[k := r[k] - {v}];
        }
      }
      assert log[..|log|] == log;
    }
  }

  lemma UnlinkNothing<K, V>(m: map<K, set<V>>)
    ensures Unlink(m, {}) == m
  {
    forall j | j in m
      ensures Unlink(m, {})[j] == m[j]
    {
      var none: set<(K, V)> := {};
      assert Targets(none, j) == {};
    }
  }

  lemma LinkNothing<K, V>(m: map<K, set<V>>)
    ensures Link(m, {}) == m
  {
    forall j | j in m
      ensures Link(m, {})[j] == m[j]
    {
      var none: set<(K, V)> := {};
      assert Targets(none, j) == {};
    }
  }

  lemma LinkOneMore<K, V>(m: map<K, set<V>>, es: set<(K, V)>, k: K, v: V)
    ensures Link(m, es + {(k, v)})
         == if k in m then Link(m, es)[k := Link(m, es)[k] + {v}] else Link(m, es)
  {
    var lhs := Link(m, es + {(k, v)});
    var rhs := if k in m then Link(m, es)[k := Link(m, es)[k] + {v}] else Link(m, es);
    forall j | j in m
      ensures lhs[j] == rhs[j]
    {
      assert Targets(es + {(k, v)}, j) == Targets(es, j) + (if j == k then {v} else {});
    }
    assert lhs.Keys == rhs.Keys;
  }

  lemma UnlinkOneMore<K, V>(m: map<K, set<V>>, es: set<(K, V)>, k: K, v: V)
    ensures Unlink(m, es + {(k, v)})
         == if k in m then Unlink(m, es)[k := Unlink(m, es)[k] - {v}] else Unlink(m, es)
  {
    var lhs := Unlink(m, es + {(k, v)});
    var rhs := if k in m then Unlink(m, es)[k := Unlink(m, es)[k] - {v}] else Unlink(m, es);
    forall j | j in m
      ensures lhs[j] == rhs[j]
    {
      assert Targets(es + {(k, v)}, j) == Targets(es, j) + (if j == k then {v} else {});
    }
    assert lhs.Keys == rhs.Keys;
  }

  /**
   * Closing a journal restores the container exactly when its insertions
   * were fresh: the map after `Unlink` is the one before `Link`.
   */
  lemma UnlinkLink<K, V>(m: map<K, set<V>>, es: set<(K, V)>)
    requires forall e | e in es && e.0 in m :: e.1 !in m[e.0]
    ensures Unlink(Link(m, es), es) == m
  {
    var r := Unlink(Link(m, es), es);
    forall k | k in m
      ensures r[k] == m[k]
    {
      assert m[k] !! Targets(es, k);
    }
  }

  /**
   * Abandoning the journals of a creation restores the container: the new
   * key is erased first, then every entry recorded against the sets.
   */
  lemma AbandonRestores<K, V>(m: map<K, set<V>>, key: K, es: set<(K, V)>)
    requires key !in m
    requires forall e | e in es :: e.0 == key || (e.0 in m && e.1 !in m[e.0])
    ensures Unlink(Link(m[key := {}], es) - {key}, es) == m
  {
    var grown := m[key := {}];
    UnlinkLink(grown, es);
    assert Link(grown, es) - {key} == Link(m, es);
    assert Unlink(Link(m, es), es) == Unlink(Link(grown, es), es) - {key};
  }
}
