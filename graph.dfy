/** A small mutable directed graph: a vertex set and, per vertex, the set of
    its outgoing neighbours (`targets`) and of its incoming neighbours
    (`cotargets`). The two adjacency maps are kept mirror images of each other. */
module DirectedGraph {

  /** Two adjacency maps describe the same edges: `w` is listed under `v` in
      `t` exactly when `v` is listed under `w` in `c`. */
  ghost predicate Mirrored<Id(!new)>(t: map<Id, set<Id>>, c: map<Id, set<Id>>)
  {
    forall v, w :: (v in t && w in t[v]) <==> (w in c && v in c[w])
  }

  ghost predicate Loopless<Id>(t: map<Id, set<Id>>)
  {
    forall v :: v in t ==> v !in t[v]
  }

  /** An adjacency map with the entry of `v` dropped and `v` deleted from every
      remaining neighbour set. */
  function Without<Id>(m: map<Id, set<Id>>, v: Id): (r: map<Id, set<Id>>)
    ensures r.Keys == m.Keys - {v}
    ensures forall u :: u in r ==> v !in r[u] && r[u] <= m[u]
  {
    map u | u in m && u != v :: m[u] - {v}
  }

  /** `m` with `v` deleted from the neighbour sets of the vertices in `s`. */
  function Purge<Id>(m: map<Id, set<Id>>, s: set<Id>, v: Id): (r: map<Id, set<Id>>)
    ensures r.Keys == m.Keys
  {
    map u | u in m :: if u in s then m[u] - {v} else m[u]
  }

  /** Purging one more vertex `w` is the map update the removal loops make. */
  lemma PurgeOneMore<Id>(m: map<Id, set<Id>>, s: set<Id>, v: Id, w: Id)
    requires w !in s
    ensures w in m ==> Purge(m, s, v)[w := Purge(m, s, v)[w] - {v}] == Purge(m, s + {w}, v)
    ensures w !in m ==> Purge(m, s, v) == Purge(m, s + {w}, v)
  {
  }

  /** Once `v` has been deleted from every neighbour set that holds it,
      dropping its own entry yields `Without(m, v)`. */
  lemma PurgedThenDropped<Id>(m: map<Id, set<Id>>, s: set<Id>, v: Id)
    requires forall u :: u in m && u !in s ==> v !in m[u]
    ensures Purge(m, s, v) - {v} == Without(m, v)
  {
    forall u | u in m && u !in s ensures m[u] - {v} == m[u] {
    }
  }

  /** Deleting a vertex from both adjacency maps keeps them mirror images and
      leaves no reference to the vertex anywhere. */
  lemma WithoutKeepsMirrored<Id(!new)>(t: map<Id, set<Id>>, c: map<Id, set<Id>>, v: Id)
    requires Mirrored(t, c) && Loopless(t)
    ensures Mirrored(Without(t, v), Without(c, v)) && Loopless(Without(t, v))
    ensures v !in Without(t, v) && v !in Without(c, v)
    ensures forall u :: u in Without(t, v) ==> v !in Without(t, v)[u]
    ensures forall u :: u in Without(c, v) ==> v !in Without(c, v)[u]
  {
  }

  /** The edges left by `Without(t, v)` are those of `t` that avoid `v`. */
  lemma WithoutEdges<Id>(t: map<Id, set<Id>>, v: Id)
    ensures forall a, b :: (a in Without(t, v) && b in Without(t, v)[a]) <==>
      (a in t && b in t[a] && a != v && b != v)
  {
  }

  class SimpleDirectedGraph<Id(==, !new)> {
    var vertices: set<Id>
    var targets: map<Id, set<Id>>
    var cotargets: map<Id, set<Id>>

    /** The outgoing neighbours of `v`; a vertex without an entry has none. */
    function Targets(v: Id): set<Id>
      reads this`targets
    {
      if v in targets then targets[v] else {}
    }

    /** The incoming neighbours of `w`; a vertex without an entry has none. */
    function Cotargets(w: Id): set<Id>
      reads this`cotargets
    {
      if w in cotargets then cotargets[w] else {}
    }

    predicate HasEdge(v: Id, w: Id)
      reads this`targets
    {
      w in Targets(v)
    }

    /** The object invariant: `w` is a target of `v` exactly when `v` is a
        cotarget of `w`, and no vertex points to itself. */
    ghost predicate Valid()
      reads this`targets, this`cotargets
    {
      Mirrored(targets, cotargets) && Loopless(targets)
    }

    ghost predicate IsEdgeless()
      reads this`targets
    {
      forall v, w :: !HasEdge(v, w)
    }

    constructor ()
      ensures Valid() && IsEdgeless()
      ensures vertices == {} && targets == map[] && cotargets == map[]
    {
      vertices := {};
      targets := map[];
      cotargets := map[];
    }

    /** Inserts one vertex; the adjacency maps are untouched, so adding a vertex
        that is already present changes nothing. */
    method Add(id: Id)
      requires Valid()
      modifies this
      ensures Valid()
      ensures vertices == old(vertices) + {id}
      ensures id in old(vertices) ==> vertices == old(vertices)
      ensures targets == old(targets) && cotargets == old(cotargets)
    {
      vertices := vertices + {id};
    }

    /** Inserts every vertex of `ids` (set union). */
    method AddAll(ids: set<Id>)
      requires Valid()
      modifies this
      ensures Valid()
      ensures vertices == old(vertices) + ids
      ensures targets == old(targets) && cotargets == old(cotargets)
    {
      vertices := vertices + ids;
    }

    /** Adds the edge `v -> w` to both maps. Self-loops are refused. Connecting
        an existing edge leaves the graph as it was. */
    method Connect(v: Id, w: Id)
      requires Valid()
      requires v != w
      modifies this
      ensures Valid()
      ensures vertices == old(vertices)
      ensures targets == old(targets)[v := old(Targets(v)) + {w}]
      ensures cotargets == old(cotargets)[w := old(Cotargets(w)) + {v}]
      ensures forall a, b :: HasEdge(a, b) <==> old(HasEdge(a, b)) || (a == v && b == w)
      ensures old(HasEdge(v, w)) ==> targets == old(targets) && cotargets == old(cotargets)
    {
      if old(HasEdge(v, w)) {
        assert Targets(v) + {w} == Targets(v) && Cotargets(w) + {v} == Cotargets(w);
      }
      if v !in targets {
        targets := targets[v := {w}];
      } else {
        targets := targets[v := targets[v] + {w}];
      }
      assert targets[v] == old(Targets(v)) + {w};
      if w !in cotargets {
        cotargets := cotargets[w := {v}];
      } else {
        cotargets := cotargets[w := cotargets[w] + {v}];
      }
      assert cotargets[w] == old(Cotargets(w)) + {v};
    }

    /** Removes the edge `v -> w` from both maps; removing an absent edge
        changes nothing. */
    method Disconnect(v: Id, w: Id)
      requires Valid()
      modifies this
      ensures Valid()
      ensures vertices == old(vertices)
      ensures targets == if v in old(targets) then old(targets)[v := old(targets)[v] - {w}] else old(targets)
      ensures cotargets == if w in old(cotargets) then old(cotargets)[w := old(cotargets)[w] - {v}] else old(cotargets)
      ensures forall a, b :: HasEdge(a, b) <==> old(HasEdge(a, b)) && !(a == v && b == w)
      ensures !old(HasEdge(v, w)) ==> targets == old(targets) && cotargets == old(cotargets)
    {
      if !HasEdge(v, w) {
        assert v in targets ==> targets[v] - {w} == targets[v];
        assert w in cotargets ==> cotargets[w] - {v} == cotargets[w];
      }
      if v in targets {
        targets := targets[v := targets[v] - {w}];
      }
      if w in cotargets {
        cotargets := cotargets[w := cotargets[w] - {v}];
      }
    }

    /** Deletes `v`: first `v` is taken out of the cotargets of each of its
        targets, then out of the targets of each of its cotargets, and finally
        `v` and both of its entries are dropped. */
    method Remove(v: Id)
      requires Valid()
      modifies this
      ensures Valid()
      ensures vertices == old(vertices) - {v}
      ensures targets == Without(old(targets), v)
      ensures cotargets == Without(old(cotargets), v)
      ensures forall a, b :: HasEdge(a, b) <==> old(HasEdge(a, b)) && a != v && b != v
    {
      ghost var outgoing := Targets(v);
      ghost var incoming := Cotargets(v);
      Unlink(v);
      assert Cotargets(v) == incoming by {
        assert v !in outgoing;
      }
      Unlist(v);
      PurgedThenDropped(old(targets), incoming, v);
      PurgedThenDropped(old(cotargets), outgoing, v);
      vertices := vertices - {v};
      targets := targets - {v};
      cotargets := cotargets - {v};
      assert targets == Without(old(targets), v) && cotargets == Without(old(cotargets), v);
      WithoutKeepsMirrored(old(targets), old(cotargets), v);
      WithoutEdges(old(targets), v);
    }

    /** The first loop of `Remove`: takes `v` out of the cotargets of each of
        its targets. */
    method Unlink(v: Id)
      modifies this
      ensures vertices == old(vertices) && targets == old(targets)
      ensures cotargets == Purge(old(cotargets), old(Targets(v)), v)
    {
      var ws := Targets(v);
      while ws != {}
        invariant ws <= old(Targets(v))
        invariant vertices == old(vertices) && targets == old(targets)
        invariant cotargets == Purge(old(cotargets), old(Targets(v)) - ws, v)
        decreases ws
      {
        var w :| w in ws;
        PurgeOneMore(old(cotargets), old(Targets(v)) - ws, v, w);
        assert old(Targets(v)) - ws + {w} == old(Targets(v)) - (ws - {w});
        ws := ws - {w};
        if w in cotargets {
          cotargets := cotargets[w := cotargets[w] - {v}];
        }
      }
    }

    /** The second loop of `Remove`: takes `v` out of the targets of each of
        its cotargets. */
    method Unlist(v: Id)
      modifies this
      ensures vertices == old(vertices) && cotargets == old(cotargets)
      ensures targets == Purge(old(targets), old(Cotargets(v)), v)
    {
      var us := Cotargets(v);
      while us != {}
        invariant us <= old(Cotargets(v))
        invariant vertices == old(vertices) && cotargets == old(cotargets)
        invariant targets == Purge(old(targets), old(Cotargets(v)) - us, v)
        decreases us
      {
        var u :| u in us;
        PurgeOneMore(old(targets), old(Cotargets(v)) - us, v, u);
        assert old(Cotargets(v)) - us + {u} == old(Cotargets(v)) - (us - {u});
        us := us - {u};
        if u in targets {
          targets := targets[u := targets[u] - {v}];
        }
      }
    }
  }
}
