/** The rank computation of `HFKCalculator`. One Alexander slice of
    generators is grouped by Maslov degree and swept from the highest degree
    down. At each degree `k` every generator `x` of degree `k` is connected to
    the generators of its differential `d(x)` of degree `k - 1`, and then
    acyclic pairs `x -> y` are cancelled one after another, rerouting the
    other edges modulo 2. The generators left over are counted per Maslov
    degree.

    The differential is an oracle `d` from a generator to the finite set of
    generators it hits with a nonzero coefficient; the Maslov and Alexander
    degrees are functions supplied by the caller. */
module HFKCalculator {
  import opened DirectedGraph
  import opened Grading
  import opened Aggregation

  /** No path of two edges: a vertex that has a target has no cotarget. */
  ghost predicate NoTwoStepPath<G(!new)>(graph: SimpleDirectedGraph<G>)
    reads graph`targets
  {
    forall a, b, c :: graph.HasEdge(a, b) ==> !graph.HasEdge(b, c)
  }

  /** The generators of `s` of degree `k` or more. */
  function AtOrAbove<G>(s: set<G>, deg: G -> int, k: int): set<G>
  {
    set g | g in s && deg(g) >= k
  }

  /** Connects every `x` of `domain` to each member of `d(x)` that lies in
      `codomain`, and to nothing else. */
  method ConnectLayers<G(==, !new)>(graph: SimpleDirectedGraph<G>, domain: set<G>, codomain: set<G>, d: G -> set<G>)
    requires graph.Valid()
    requires domain !! codomain
    modifies graph
    ensures graph.Valid()
    ensures graph.vertices == old(graph.vertices)
    ensures forall a, b :: graph.HasEdge(a, b) <==>
      old(graph.HasEdge(a, b)) || (a in domain && b in d(a) && b in codomain)
  {
    var xs := domain;
    while xs != {}
      invariant xs <= domain
      invariant graph.Valid()
      invariant graph.vertices == old(graph.vertices)
      invariant forall a, b :: graph.HasEdge(a, b) <==>
        old(graph.HasEdge(a, b)) || (a in domain - xs && b in d(a) && b in codomain)
      decreases xs
    {
      var x :| x in xs;
      xs := xs - {x};
      var ys := d(x);
      while ys != {}
        invariant ys <= d(x)
        invariant graph.Valid()
        invariant graph.vertices == old(graph.vertices)
        invariant forall a, b :: graph.HasEdge(a, b) <==>
          || old(graph.HasEdge(a, b))
          || (a in domain - xs - {x} && b in d(a) && b in codomain)
          || (a == x && b in d(x) - ys && b in codomain)
        decreases ys
      {
        var y :| y in ys;
        ys := ys - {y};
        if y in codomain {
          graph.Connect(x, y);
        }
      }
    }
  }

  /** Cancels the acyclic pair `x -> y`: for every other source `a` of `y` and
      every other target `b` of `x` the edge `a -> b` is toggled (Gaussian
      elimination over the field with two elements), then `x` and `y` are
      removed. */
  method Cancel<G(==, !new)>(graph: SimpleDirectedGraph<G>, x: G, y: G)
    requires graph.Valid() && NoTwoStepPath(graph)
    requires graph.HasEdge(x, y)
    modifies graph
    ensures graph.Valid()
    ensures graph.vertices == old(graph.vertices) - {x, y}
    ensures forall a, b :: graph.HasEdge(a, b) <==>
      && a != x && a != y && b != x && b != y
      && (old(graph.HasEdge(a, b)) != (old(graph.HasEdge(a, y)) && old(graph.HasEdge(x, b))))
  {
    ghost var preds0 := graph.Cotargets(y) - {x};
    ghost var succs0 := graph.Targets(x) - {y};
    var preds := graph.Cotargets(y) - {x};
    while preds != {}
      invariant preds <= preds0
      invariant graph.Valid()
      invariant graph.vertices == old(graph.vertices)
      invariant forall a, b :: graph.HasEdge(a, b) <==>
        (old(graph.HasEdge(a, b)) != (a in preds0 - preds && b in succs0))
      decreases preds
    {
      var a :| a in preds;
      preds := preds - {a};
      var succs := graph.Targets(x) - {y};
      assert succs == succs0 by {
        forall b ensures b in graph.Targets(x) <==> b in old(graph.Targets(x)) {
          assert graph.HasEdge(x, b) == old(graph.HasEdge(x, b));
        }
      }
      while succs != {}
        invariant succs <= succs0
        invariant graph.Valid()
        invariant graph.vertices == old(graph.vertices)
        invariant forall a', b :: graph.HasEdge(a', b) <==>
          (old(graph.HasEdge(a', b)) != ((a' in preds0 - preds - {a} && b in succs0) || (a' == a && b in succs0 - succs)))
        decreases succs
      {
        var b :| b in succs;
        succs := succs - {b};
        if b in graph.Targets(a) {
          graph.Disconnect(a, b);
        } else {
          assert old(graph.HasEdge(a, y)) && old(graph.HasEdge(x, b));
          graph.Connect(a, b);
        }
      }
    }
    graph.Remove(x);
    graph.Remove(y);
  }

  datatype Option<T> = None | Some(value: T)

  /** One visit of the reduction loop to `x`: if `x` has no target it is
      skipped and the graph is left exactly as it was; otherwise one of its
      targets, chosen arbitrarily, becomes the pivot and the pair is
      cancelled. */
  method Visit<G(==, !new)>(graph: SimpleDirectedGraph<G>, x: G) returns (pivot: Option<G>)
    requires graph.Valid() && NoTwoStepPath(graph)
    modifies graph
    ensures graph.Valid()
    ensures pivot.None? <==> old(graph.Targets(x)) == {}
    ensures pivot.None? ==>
      graph.vertices == old(graph.vertices) && graph.targets == old(graph.targets) && graph.cotargets == old(graph.cotargets)
    ensures pivot.Some? ==> pivot.value in old(graph.Targets(x))
    ensures pivot.Some? ==> graph.vertices == old(graph.vertices) - {x, pivot.value}
    ensures pivot.Some? ==> forall a, b :: graph.HasEdge(a, b) <==>
      && a != x && a != pivot.value && b != x && b != pivot.value
      && (old(graph.HasEdge(a, b)) != (old(graph.HasEdge(a, pivot.value)) && old(graph.HasEdge(x, b))))
  {
    if graph.Targets(x) == {} {
      return None;
    }
    var y :| y in graph.Targets(x);
    Cancel(graph, x, y);
    pivot := Some(y);
  }

  /** The reduction of one degree `k` (the inner loop over the domain): every
      `x` of the domain is visited once. Returns what is left of the codomain;
      the ghost result `cancelled` is the set of removed generators. Something
      is cancelled exactly when the layers were connected at all; a domain
      generator without targets and a codomain generator without sources at
      the start survive. */
  method ReduceLayer<G(==, !new)>(graph: SimpleDirectedGraph<G>, domain: set<G>, codomain: set<G>, ghost deg: G -> int, ghost k: int)
    returns (reduced: set<G>, ghost cancelled: set<G>)
    requires graph.Valid()
    requires forall x :: x in domain ==> deg(x) == k
    requires forall y :: y in codomain ==> deg(y) == k - 1
    requires domain + codomain <= graph.vertices
    requires forall a, b :: graph.HasEdge(a, b) ==> a in domain && b in codomain
    modifies graph
    ensures graph.Valid() && graph.IsEdgeless()
    ensures cancelled <= domain + codomain
    ensures graph.vertices == old(graph.vertices) - cancelled
    ensures reduced == codomain - cancelled
    ensures |cancelled * domain| == |cancelled * codomain|
    ensures Euler(cancelled, deg) == 0
    ensures cancelled == {} <==> old(graph.IsEdgeless())
    ensures forall x :: x in domain && old(graph.Targets(x)) == {} ==> x in graph.vertices
    ensures forall y :: y in codomain && (forall a :: !old(graph.HasEdge(a, y))) ==> y in graph.vertices
  {
    assert domain !! codomain by {
      forall x | x in domain ensures x !in codomain {
        assert deg(x) == k;
      }
    }
    ghost var vertices0 := graph.vertices;
    ghost var targets0 := graph.targets;
    ghost var silent := set x | x in domain && graph.Targets(x) == {};
    ghost var orphans := set y | y in codomain && forall a :: !graph.HasEdge(a, y);
    if graph.IsEdgeless() {
      forall x | x in domain ensures x in silent {
        forall b ensures b !in graph.Targets(x) {
          assert !graph.HasEdge(x, b);
        }
      }
    }
    assert Reducing(graph, domain, codomain, deg, vertices0, targets0, silent, orphans, domain, codomain, {});
    reduced, cancelled := ReduceAll(graph, domain, codomain, deg, k, vertices0, targets0, silent, orphans);
    if cancelled == {} {
      forall a, b ensures !old(graph.HasEdge(a, b)) {
        if a in domain {
          assert a in silent;
        }
      }
    }
  }

  /** The loop of `ReduceLayer`: visits every generator of the domain once,
      in any order. */
  method ReduceAll<G(==, !new)>(graph: SimpleDirectedGraph<G>, domain: set<G>, codomain: set<G>, ghost deg: G -> int, ghost k: int,
                                ghost vertices0: set<G>, ghost targets0: map<G, set<G>>, ghost silent: set<G>, ghost orphans: set<G>)
    returns (reduced: set<G>, ghost cancelled: set<G>)
    requires forall x :: x in domain ==> deg(x) == k
    requires forall y :: y in codomain ==> deg(y) == k - 1
    requires forall v :: v in domain && (v !in targets0 || targets0[v] == {}) ==> v in silent
    requires Reducing(graph, domain, codomain, deg, vertices0, targets0, silent, orphans, domain, codomain, {})
    modifies graph
    ensures Reducing(graph, domain, codomain, deg, vertices0, targets0, silent, orphans, {}, reduced, cancelled)
  {
    reduced := codomain;
    cancelled := {};
    var todo := domain;
    while todo != {}
      invariant Reducing(graph, domain, codomain, deg, vertices0, targets0, silent, orphans, todo, reduced, cancelled)
      decreases todo
    {
      ghost var some := Pick(todo);
      var x :| x in todo;
      reduced, cancelled := ReduceStep(graph, x, domain, codomain, deg, k, vertices0, targets0, silent, orphans, todo, reduced, cancelled);
      todo := todo - {x};
    }
  }

  /** The state of the reduction of one degree while `todo` is still to be
      visited: the bookkeeping of `Tally`, the vertices are those at the start
      less what was cancelled, every edge runs from a generator still to be
      visited that had targets at the start into what is left of the codomain
      and hits no generator that had no sources at the start, and as long as
      nothing is cancelled the edges are those at the start and every generator
      visited so far had no target. */
  ghost predicate Reducing<G(!new)>(graph: SimpleDirectedGraph<G>, domain: set<G>, codomain: set<G>, deg: G -> int, vertices0: set<G>, targets0: map<G, set<G>>, silent: set<G>, orphans: set<G>, todo: set<G>, reduced: set<G>, cancelled: set<G>)
    reads graph
  {
    && graph.Valid()
    && Tally(domain, codomain, deg, silent, orphans, todo, reduced, cancelled)
    && graph.vertices == vertices0 - cancelled
    && (forall a, b :: graph.HasEdge(a, b) ==> a in todo - silent && b in reduced - orphans)
    && (cancelled == {} ==> graph.targets == targets0 && domain - todo <= silent)
    && (silent == domain ==> cancelled == {})
  }

  /** One iteration of the reduction loop: `x` is visited. When it has no
      target at that moment it is skipped and stays; otherwise it is cancelled
      against a pivot `y` among its targets, and `y` leaves what is left of
      the codomain. */
  method ReduceStep<G(==, !new)>(graph: SimpleDirectedGraph<G>, x: G, domain: set<G>, codomain: set<G>, ghost deg: G -> int, ghost k: int,
                                 ghost vertices0: set<G>, ghost targets0: map<G, set<G>>, ghost silent: set<G>, ghost orphans: set<G>,
                                 ghost todo: set<G>, reduced: set<G>, ghost cancelled: set<G>)
    returns (reduced': set<G>, ghost cancelled': set<G>)
    requires forall x :: x in domain ==> deg(x) == k
    requires forall y :: y in codomain ==> deg(y) == k - 1
    requires forall v :: v in domain && (v !in targets0 || targets0[v] == {}) ==> v in silent
    requires x in todo && Reducing(graph, domain, codomain, deg, vertices0, targets0, silent, orphans, todo, reduced, cancelled)
    modifies graph
    ensures Reducing(graph, domain, codomain, deg, vertices0, targets0, silent, orphans, todo - {x}, reduced', cancelled')
    ensures old(graph.Targets(x)) == {} ==> cancelled' == cancelled && graph.vertices == old(graph.vertices)
    ensures old(graph.Targets(x)) != {} ==> exists y :: y in old(graph.Targets(x)) && cancelled' == cancelled + {x, y}
  {
    assert domain !! codomain by {
      forall v | v in domain ensures v !in codomain {
        assert deg(v) == k;
      }
    }
    ghost var succs := graph.Targets(x);
    assert succs <= reduced - orphans by {
      forall b | b in succs ensures b in reduced - orphans {
        assert graph.HasEdge(x, b);
      }
    }
    if succs != {} {
      var b :| b in succs;
      assert graph.HasEdge(x, b);
      assert x !in silent;
    }
    LayeredHasNoTwoStepPath(graph, domain, codomain);
    label before:
    var pivot := Visit(graph, x);
    if pivot.Some? {
      var y := pivot.value;
      assert y in succs && x !in silent;
      TallyPair(domain, codomain, deg, k, silent, orphans, todo, reduced, cancelled, vertices0, x, y);
      forall a, b | graph.HasEdge(a, b)
        ensures a in todo - {x} - silent && b in reduced - {y} - orphans
      {
        assert old@before(graph.HasEdge(a, b)) || (old@before(graph.HasEdge(a, y)) && old@before(graph.HasEdge(x, b)));
      }
      cancelled' := cancelled + {x, y};
      reduced' := reduced - {y};
      assert y in old(graph.Targets(x)) && cancelled' == cancelled + {x, y};
    } else {
      reduced', cancelled' := reduced, cancelled;
      assert succs == {};
    }
  }

  /** Edges that all run from `domain` into a disjoint `codomain` cannot be
      chained. */
  lemma LayeredHasNoTwoStepPath<G(!new)>(graph: SimpleDirectedGraph<G>, domain: set<G>, codomain: set<G>)
    requires domain !! codomain
    requires forall a, b :: graph.HasEdge(a, b) ==> a in domain && b in codomain
    ensures NoTwoStepPath(graph)
  {
    forall a, b, c | graph.HasEdge(a, b) ensures !graph.HasEdge(b, c) {
      assert b in codomain;
    }
  }

  /** The bookkeeping of the reduction of one degree, over sets only: what
      is cancelled comes from the two layers, pairs one domain generator with
      one codomain generator, has Euler characteristic zero, and contains
      neither the generators not yet visited nor those that had no edge at the
      start; `reduced` is the codomain less what was cancelled. */
  ghost predicate Tally<G>(domain: set<G>, codomain: set<G>, deg: G -> int, silent: set<G>, orphans: set<G>, todo: set<G>, reduced: set<G>, cancelled: set<G>)
  {
    && todo <= domain && silent <= domain && orphans <= codomain
    && cancelled <= domain + codomain && cancelled !! todo
    && silent !! cancelled && orphans !! cancelled
    && reduced == codomain - cancelled
    && |cancelled * domain| == |cancelled * codomain|
    && Euler(cancelled, deg) == 0
  }

  /** Cancelling the visited `x` of degree `k` against `y` of degree `k - 1`,
      neither of which was silent at the start, keeps the bookkeeping. */
  lemma TallyPair<G>(domain: set<G>, codomain: set<G>, deg: G -> int, k: int, silent: set<G>, orphans: set<G>, todo: set<G>, reduced: set<G>, cancelled: set<G>, vertices0: set<G>, x: G, y: G)
    requires forall x :: x in domain ==> deg(x) == k
    requires forall y :: y in codomain ==> deg(y) == k - 1
    requires Tally(domain, codomain, deg, silent, orphans, todo, reduced, cancelled)
    requires x in todo && x !in silent
    requires y in reduced && y !in orphans
    ensures Tally(domain, codomain, deg, silent, orphans, todo - {x}, reduced - {y}, cancelled + {x, y})
    ensures vertices0 - (cancelled + {x, y}) == (vertices0 - cancelled) - {x, y}
  {
    assert deg(x) == k && deg(y) == k - 1;
    assert x !in codomain && y !in domain;
    PairEuler(cancelled, x, y, deg);
    PairBalance(cancelled, x, y, domain, codomain);
    TallySets(domain, codomain, silent, orphans, todo, reduced, cancelled, vertices0, x, y);
  }

  /** The set part of `TallyPair`: moving `x` out of the unvisited domain
      generators and `y` out of the reduced codomain into the cancelled ones
      keeps the bookkeeping's inclusions and disjointness. */
  lemma TallySets<G>(domain: set<G>, codomain: set<G>, silent: set<G>, orphans: set<G>, todo: set<G>, reduced: set<G>, cancelled: set<G>, vertices0: set<G>, x: G, y: G)
    requires todo <= domain && silent <= domain && orphans <= codomain
    requires cancelled <= domain + codomain && cancelled !! todo
    requires silent !! cancelled && orphans !! cancelled
    requires reduced == codomain - cancelled
    requires x in todo && x !in silent && x !in codomain && y in reduced && y !in orphans && y !in domain
    ensures todo - {x} <= domain
    ensures cancelled + {x, y} <= domain + codomain && cancelled + {x, y} !! todo - {x}
    ensures silent !! cancelled + {x, y} && orphans !! cancelled + {x, y}
    ensures reduced - {y} == codomain - (cancelled + {x, y})
    ensures vertices0 - (cancelled + {x, y}) == (vertices0 - cancelled) - {x, y}
  {
  }

  /** Cancelling one more pair `x -> y`, with `x` one degree above `y`,
      keeps the cancelled set of Euler characteristic zero. */
  lemma PairEuler<G>(cancelled: set<G>, x: G, y: G, deg: G -> int)
    requires x !in cancelled && y !in cancelled && deg(x) == deg(y) + 1
    requires Euler(cancelled, deg) == 0
    ensures Euler(cancelled + {x, y}, deg) == 0
  {
    EulerOfAdjacentPair(x, y, deg);
    EulerAdditive(cancelled, {x, y}, deg);
  }

  /** Cancelling one more pair `x -> y` from `domain` into a disjoint
      `codomain` keeps as many cancelled generators on either side. */
  lemma PairBalance<G>(cancelled: set<G>, x: G, y: G, domain: set<G>, codomain: set<G>)
    requires x in domain - codomain && y in codomain - domain
    requires x !in cancelled && y !in cancelled
    requires |cancelled * domain| == |cancelled * codomain|
    ensures |(cancelled + {x, y}) * domain| == |(cancelled + {x, y}) * codomain|
  {
    assert (cancelled + {x, y}) * domain == cancelled * domain + {x};
    assert (cancelled + {x, y}) * codomain == cancelled * codomain + {y};
  }

  /** One step of the sweep, at degree `k`: the domain (degree `k`) is placed
      if this is the top degree, the codomain (degree `k - 1`) is placed, the
      two are connected along the differential and the domain is reduced. The
      pairs removed cancel in the Euler characteristic and the graph is left
      without edges. */
  method SweepDegree<G(==, !new)>(graph: SimpleDirectedGraph<G>, domain: set<G>, codomain: set<G>, d: G -> set<G>, top: bool, ghost deg: G -> int, ghost k: int)
    returns (reduced: set<G>, ghost removed: set<G>)
    requires graph.Valid() && graph.IsEdgeless()
    requires forall x :: x in domain ==> deg(x) == k
    requires forall y :: y in codomain ==> deg(y) == k - 1
    requires !top ==> domain <= graph.vertices
    modifies graph
    ensures graph.Valid() && graph.IsEdgeless()
    ensures removed <= domain + codomain
    ensures graph.vertices == old(graph.vertices) + domain + codomain - removed
    ensures reduced == codomain - removed
    ensures Euler(removed, deg) == 0
    ensures removed == {} <==> forall x :: x in domain ==> d(x) * codomain == {}
    ensures forall x :: x in domain && d(x) * codomain == {} ==> x !in removed
    ensures forall y :: y in codomain && (forall x :: x in domain ==> y !in d(x)) ==> y !in removed
  {
    assert domain !! codomain by {
      forall x | x in domain ensures x !in codomain {
        assert deg(x) == k;
      }
    }
    if top {
      graph.AddAll(domain);
    }
    graph.AddAll(codomain);
    assert graph.vertices == old(graph.vertices) + domain + codomain;
    ConnectLayers(graph, domain, codomain, d);
    LinkedLayers(graph, domain, codomain, d);
    reduced, removed := ReduceLayer(graph, domain, codomain, deg, k);
  }

  /** When the edges are exactly those of the differential from `domain` into
      `codomain`: the graph has no edge exactly when no domain generator hits
      the codomain, a domain generator that hits nothing there has no
      target, and a codomain generator hit by no domain generator has no
      source. */
  lemma LinkedLayers<G(!new)>(graph: SimpleDirectedGraph<G>, domain: set<G>, codomain: set<G>, d: G -> set<G>)
    requires forall a, b :: graph.HasEdge(a, b) <==> a in domain && b in d(a) && b in codomain
    ensures graph.IsEdgeless() <==> forall x :: x in domain ==> d(x) * codomain == {}
    ensures forall x :: x in domain && d(x) * codomain == {} ==> graph.Targets(x) == {}
    ensures forall y :: y in codomain && (forall x :: x in domain ==> y !in d(x)) ==>
      forall a :: !graph.HasEdge(a, y)
  {
    if graph.IsEdgeless() {
      forall x | x in domain ensures d(x) * codomain == {} {
        forall b | b in d(x) ensures b !in codomain {
          assert !graph.HasEdge(x, b);
        }
      }
    }
    if forall x :: x in domain ==> d(x) * codomain == {} {
      forall a, b ensures !graph.HasEdge(a, b) {
        if a in domain && b in d(a) {
          assert b !in d(a) * codomain;
        }
      }
    }
    forall x | x in domain && d(x) * codomain == {} ensures graph.Targets(x) == {} {
      forall b ensures b !in graph.Targets(x) {
        if b in d(x) {
          assert b !in d(x) * codomain;
        }
        assert !graph.HasEdge(x, b);
      }
    }
  }

  /** `graph(generators:differential:)`: builds and reduces the cancellation
      graph of one Alexander slice. The slice must be non-empty (its Maslov
      range is unwrapped). Maslov degrees are visited from the highest down to
      the lowest. The survivors have no edges, are generators of the slice,
      and have the slice's Euler characteristic. */
  method Reduce<G(==, !new)>(generators: set<G>, maslov: G -> int, d: G -> set<G>)
    returns (graph: SimpleDirectedGraph<G>)
    requires generators != {}
    ensures fresh(graph)
    ensures graph.Valid() && graph.IsEdgeless()
    ensures graph.vertices <= generators
    ensures Euler(graph.vertices, maslov) == Euler(generators, maslov)
    ensures forall g :: g in generators && Isolated(g, generators, maslov, d) ==> g in graph.vertices
    ensures graph.vertices == generators <==>
      forall g :: g in generators ==> d(g) * Layer(generators, maslov, maslov(g) - 1) == {}
  {
    graph := new SimpleDirectedGraph();
    var gens := GroupBy(generators, maslov);
    ghost var g0 := Pick(generators);
    assert maslov(g0) in gens.Keys;
    ExtremaExist(gens.Keys);
    var lo :| lo in gens.Keys && IsLeast(lo, gens.Keys);
    var hi :| hi in gens.Keys && IsGreatest(hi, gens.Keys);
    ghost var isolated := IsolatedSet(generators, maslov, d);
    SweepStart(generators, maslov, d, gens, lo, hi, graph.vertices, isolated);
    var reduced, k;
    ghost var cancelled;
    reduced, k, cancelled := Sweep(graph, gens, lo, hi, d, generators, maslov, isolated);
    SweepDone(generators, maslov, d, lo, hi, k, reduced, graph.vertices, cancelled, isolated);
  }

  /** `for k in mRange.reversed()`: sweeps the Maslov degrees from `hi` down
      to `lo`, one `SweepStep` per degree. */
  method Sweep<G(==, !new)>(graph: SimpleDirectedGraph<G>, gens: map<int, set<G>>, lo: int, hi: int, d: G -> set<G>,
                            ghost generators: set<G>, ghost maslov: G -> int, ghost isolated: set<G>)
    returns (groups: map<int, set<G>>, k: int, ghost cancelled: set<G>)
    requires graph.Valid() && graph.IsEdgeless()
    requires lo <= hi && forall g :: g in generators ==> maslov(g) <= hi
    requires forall g :: g in isolated ==> g in generators && Isolated(g, generators, maslov, d)
    requires Swept(generators, maslov, hi, hi, gens, graph.vertices, {}, isolated)
    requires Quiet(generators, maslov, d, hi, {})
    modifies graph
    ensures graph.Valid() && graph.IsEdgeless()
    ensures k == lo - 1
    ensures Swept(generators, maslov, hi, k, groups, graph.vertices, cancelled, isolated)
    ensures Quiet(generators, maslov, d, k, cancelled)
  {
    groups := gens;
    cancelled := {};
    k := hi;
    while k != lo - 1
      invariant lo - 1 <= k <= hi
      invariant graph.Valid() && graph.IsEdgeless()
      invariant Swept(generators, maslov, hi, k, groups, graph.vertices, cancelled, isolated)
      invariant Quiet(generators, maslov, d, k, cancelled)
      decreases k - lo + 1
    {
      groups, k, cancelled := SweepStep(graph, groups, k, d, generators, maslov, hi, cancelled, isolated);
    }
  }

  /** Before the sweep: every Maslov degree of the slice lies between the
      least and the greatest key of the grouping, and the sweep starts at the
      top degree with nothing placed and nothing cancelled. */
  lemma SweepStart<G>(generators: set<G>, maslov: G -> int, d: G -> set<G>, gens: map<int, set<G>>, lo: int, hi: int, vertices: set<G>, isolated: set<G>)
    requires forall k :: Lookup(gens, k) == Layer(generators, maslov, k)
    requires forall g :: g in generators ==> maslov(g) in gens
    requires lo in gens.Keys && IsLeast(lo, gens.Keys)
    requires hi in gens.Keys && IsGreatest(hi, gens.Keys)
    requires vertices == {}
    ensures forall g :: g in generators ==> lo <= maslov(g) <= hi
    ensures lo <= hi
    ensures Swept(generators, maslov, hi, hi, gens, vertices, {}, isolated)
    ensures Quiet(generators, maslov, d, hi, {})
  {
    assert forall g :: g in generators ==> lo <= maslov(g) <= hi;
    assert Lookup(gens, hi) == Layer(generators, maslov, hi);
  }

  /** After the sweep has passed the lowest degree: the survivors and the
      cancelled generators split the slice, so the survivors are generators
      of the slice with its Euler characteristic, and no isolated generator
      was cancelled. */
  lemma SweepDone<G>(generators: set<G>, maslov: G -> int, d: G -> set<G>, lo: int, hi: int, k: int, gens: map<int, set<G>>,
                     vertices: set<G>, cancelled: set<G>, isolated: set<G>)
    requires forall g :: g in generators ==> lo <= maslov(g) <= hi
    requires lo <= hi
    requires isolated == IsolatedSet(generators, maslov, d)
    requires k == lo - 1 && Swept(generators, maslov, hi, k, gens, vertices, cancelled, isolated)
    requires Quiet(generators, maslov, d, k, cancelled)
    ensures vertices <= generators
    ensures Euler(vertices, maslov) == Euler(generators, maslov)
    ensures forall g :: g in generators && Isolated(g, generators, maslov, d) ==> g in vertices
    ensures vertices == generators <==>
      forall g :: g in generators ==> d(g) * Layer(generators, maslov, maslov(g) - 1) == {}
  {
    assert AtOrAbove(generators, maslov, lo - 1) == generators;
    EulerAdditive(vertices, cancelled, maslov);
    if vertices == generators {
      assert cancelled == {};
    }
  }

  /** One pass of the loop of `graph(generators:differential:)` at Maslov
      degree `k`: the group of degree `k` and the one below are swept, and the
      reduced codomain replaces the group of degree `k - 1`. The state of the
      sweep moves from degree `k` to degree `k - 1`. */
  method SweepStep<G(==, !new)>(graph: SimpleDirectedGraph<G>, gens: map<int, set<G>>, k: int, d: G -> set<G>,
                                ghost generators: set<G>, ghost maslov: G -> int, hi: int, ghost cancelled: set<G>, ghost isolated: set<G>)
    returns (gens': map<int, set<G>>, next: int, ghost cancelled': set<G>)
    requires graph.Valid() && graph.IsEdgeless()
    requires forall g :: g in generators ==> maslov(g) <= hi
    requires forall g :: g in isolated ==> g in generators && Isolated(g, generators, maslov, d)
    requires k <= hi && Swept(generators, maslov, hi, k, gens, graph.vertices, cancelled, isolated)
    requires Quiet(generators, maslov, d, k, cancelled)
    modifies graph
    ensures graph.Valid() && graph.IsEdgeless()
    ensures next == k - 1
    ensures Swept(generators, maslov, hi, next, gens', graph.vertices, cancelled', isolated)
    ensures Quiet(generators, maslov, d, next, cancelled')
  {
    ghost var swept := graph.vertices;
    var domain := Lookup(gens, k);
    var codomain := Lookup(gens, k - 1);
    PlaceLayers(generators, maslov, hi, k, gens, swept, cancelled, isolated);
    var reduced;
    ghost var removed;
    reduced, removed := SweepDegree(graph, domain, codomain, d, k == hi, maslov, k);
    gens' := (gens - {k})[k - 1 := reduced];
    IsolatedKept(generators, maslov, d, k, domain, codomain, removed, isolated);
    QuietStep(generators, maslov, d, k, cancelled, domain, codomain, removed);
    NextSweep(generators, maslov, hi, k, gens, gens', swept, cancelled, isolated, removed, reduced, graph.vertices);
    cancelled' := cancelled + removed;
    next := k - 1;
  }

  /** Nothing has been cancelled exactly when no generator of degree above
      `k` hits a generator one degree below it. */
  ghost predicate Quiet<G>(generators: set<G>, maslov: G -> int, d: G -> set<G>, k: int, cancelled: set<G>)
  {
    cancelled == {} <==>
      forall g :: g in generators && maslov(g) > k ==> d(g) * Layer(generators, maslov, maslov(g) - 1) == {}
  }

  /** A step of the sweep at degree `k`, which removes something exactly when
      a domain generator hits the codomain, moves `Quiet` from `k` to `k - 1`:
      while nothing is cancelled the domain is the whole layer of `k`. */
  lemma QuietStep<G>(generators: set<G>, maslov: G -> int, d: G -> set<G>, k: int, cancelled: set<G>,
                     domain: set<G>, codomain: set<G>, removed: set<G>)
    requires Quiet(generators, maslov, d, k, cancelled)
    requires domain == Layer(generators, maslov, k) - cancelled
    requires codomain == Layer(generators, maslov, k - 1)
    requires removed == {} <==> forall x :: x in domain ==> d(x) * codomain == {}
    ensures Quiet(generators, maslov, d, k - 1, cancelled + removed)
  {
    if cancelled == {} {
      assert domain == Layer(generators, maslov, k);
      if removed == {} {
        forall g | g in generators && maslov(g) > k - 1
          ensures d(g) * Layer(generators, maslov, maslov(g) - 1) == {}
        {
          if maslov(g) == k {
            assert g in domain;
          }
        }
      } else {
        var x :| x in domain && d(x) * codomain != {};
        assert x in generators && maslov(x) > k - 1;
      }
    } else {
      var g :| g in generators && maslov(g) > k && d(g) * Layer(generators, maslov, maslov(g) - 1) != {};
      assert maslov(g) > k - 1;
    }
  }

  /** `g` is linked to no other generator of the slice by the differential:
      it hits nothing one degree below and nothing one degree above hits it. */
  ghost predicate Isolated<G>(g: G, generators: set<G>, maslov: G -> int, d: G -> set<G>)
  {
    && (forall h :: h in generators && maslov(h) == maslov(g) - 1 ==> h !in d(g))
    && (forall x :: x in generators && maslov(x) == maslov(g) + 1 ==> g !in d(x))
  }

  /** The generators of the slice that are isolated. */
  ghost function IsolatedSet<G>(generators: set<G>, maslov: G -> int, d: G -> set<G>): set<G>
  {
    set g | g in generators && Isolated(g, generators, maslov, d)
  }

  /** A step of the sweep at degree `k` removes no isolated generator. */
  lemma IsolatedKept<G>(generators: set<G>, maslov: G -> int, d: G -> set<G>, k: int, domain: set<G>, codomain: set<G>, removed: set<G>, isolated: set<G>)
    requires forall g :: g in isolated ==> g in generators && Isolated(g, generators, maslov, d)
    requires domain <= Layer(generators, maslov, k) && codomain == Layer(generators, maslov, k - 1)
    requires removed <= domain + codomain
    requires forall x :: x in domain && d(x) * codomain == {} ==> x !in removed
    requires forall y :: y in codomain && (forall x :: x in domain ==> y !in d(x)) ==> y !in removed
    ensures isolated !! removed
  {
    forall g | g in isolated ensures g !in removed {
      if g in domain {
        assert maslov(g) == k;
        forall h | h in codomain ensures h !in d(g) {
          assert h in generators && maslov(h) == maslov(g) - 1;
        }
        assert d(g) * codomain == {};
      } else if g in codomain {
        assert maslov(g) == k - 1;
        forall x | x in domain ensures g !in d(x) {
          assert x in generators && maslov(x) == maslov(g) + 1;
        }
      }
    }
  }

  /** Dropping the group of degree `k` and storing the reduced codomain under
      `k - 1` leaves the lower groups as they were. */
  lemma Regroup<G>(gens: map<int, set<G>>, generators: set<G>, maslov: G -> int, k: int, reduced: set<G>)
    requires forall j :: j < k ==> Lookup(gens, j) == Layer(generators, maslov, j)
    ensures forall j :: j < k - 1 ==> Lookup((gens - {k})[k - 1 := reduced], j) == Layer(generators, maslov, j)
    ensures Lookup((gens - {k})[k - 1 := reduced], k - 1) == reduced
  {
    forall j | j < k - 1
      ensures Lookup((gens - {k})[k - 1 := reduced], j) == Layer(generators, maslov, j)
    {
      assert Lookup((gens - {k})[k - 1 := reduced], j) == Lookup(gens, j);
    }
  }

  /** The state of the sweep when degree `k` is next: nothing has been placed
      yet when `k` is the top degree; afterwards the graph's vertices and the
      cancelled generators split the generators of degree `k` or more. */
  ghost predicate SweptAbove<G>(generators: set<G>, maslov: G -> int, hi: int, k: int, vertices: set<G>, cancelled: set<G>)
  {
    && vertices !! cancelled
    && (k == hi ==> vertices == {} && cancelled == {})
    && (k < hi ==> vertices + cancelled == AtOrAbove(generators, maslov, k))
  }

  /** The state of the sweep when degree `k` is next: the groups below `k`
      are still the layers of the slice, the group of `k` is its layer less
      what was cancelled, the placed and cancelled generators split the
      generators above as `SweptAbove` says, the cancelled ones have Euler
      characteristic zero and include no isolated generator. */
  ghost predicate Swept<G>(generators: set<G>, maslov: G -> int, hi: int, k: int, gens: map<int, set<G>>, vertices: set<G>, cancelled: set<G>, isolated: set<G>)
  {
    && (forall j :: j < k ==> Lookup(gens, j) == Layer(generators, maslov, j))
    && Lookup(gens, k) == Layer(generators, maslov, k) - cancelled
    && SweptAbove(generators, maslov, hi, k, vertices, cancelled)
    && Euler(cancelled, maslov) == 0
    && isolated !! cancelled
  }

  /** Before degree `k` is placed: the domain has degree `k`, the codomain
      degree `k - 1`, and below the top degree the domain is already in the
      graph. */
  lemma PlaceLayers<G>(generators: set<G>, maslov: G -> int, hi: int, k: int, gens: map<int, set<G>>, swept: set<G>, cancelled: set<G>, isolated: set<G>)
    requires k <= hi && Swept(generators, maslov, hi, k, gens, swept, cancelled, isolated)
    ensures forall x :: x in Lookup(gens, k) ==> maslov(x) == k
    ensures forall y :: y in Lookup(gens, k - 1) ==> maslov(y) == k - 1
    ensures k < hi ==> Lookup(gens, k) <= swept
  {
    assert Lookup(gens, k - 1) == Layer(generators, maslov, k - 1);
  }

  /** One step of the sweep at degree `k`, given what `SweepDegree` promises,
      moves the state of the sweep to degree `k - 1`. */
  lemma NextSweep<G>(generators: set<G>, maslov: G -> int, hi: int, k: int, gens: map<int, set<G>>, regrouped: map<int, set<G>>,
                     swept: set<G>, cancelled: set<G>, isolated: set<G>, removed: set<G>, reduced: set<G>, vertices: set<G>)
    requires forall g :: g in generators ==> maslov(g) <= hi
    requires k <= hi && Swept(generators, maslov, hi, k, gens, swept, cancelled, isolated)
    requires removed <= Lookup(gens, k) + Lookup(gens, k - 1)
    requires vertices == swept + Lookup(gens, k) + Lookup(gens, k - 1) - removed
    requires reduced == Lookup(gens, k - 1) - removed
    requires Euler(removed, maslov) == 0 && isolated !! removed
    requires regrouped == (gens - {k})[k - 1 := reduced]
    ensures Swept(generators, maslov, hi, k - 1, regrouped, vertices, cancelled + removed, isolated)
  {
    var domain, codomain := Lookup(gens, k), Lookup(gens, k - 1);
    assert codomain == Layer(generators, maslov, k - 1);
    AdvanceSweep(generators, maslov, hi, k, swept, cancelled, domain, codomain, removed);
    EulerAdditive(cancelled, removed, maslov);
    Regroup(gens, generators, maslov, k, reduced);
  }

  /** After degree `k` is reduced: the survivors and the cancelled generators
      split the generators of degree `k - 1` or more, and what is left of the
      codomain is the layer of degree `k - 1` less what was cancelled. */
  lemma AdvanceSweep<G>(generators: set<G>, maslov: G -> int, hi: int, k: int, swept: set<G>, cancelled: set<G>, domain: set<G>, codomain: set<G>, removed: set<G>)
    requires forall g :: g in generators ==> maslov(g) <= hi
    requires k <= hi && SweptAbove(generators, maslov, hi, k, swept, cancelled)
    requires domain == Layer(generators, maslov, k) - cancelled
    requires codomain == Layer(generators, maslov, k - 1)
    requires removed <= domain + codomain
    ensures cancelled !! removed
    ensures SweptAbove(generators, maslov, hi, k - 1, swept + domain + codomain - removed, cancelled + removed)
    ensures codomain - removed == Layer(generators, maslov, k - 1) - (cancelled + removed)
  {
    assert forall g :: g in swept + cancelled ==> maslov(g) >= k;
    assert cancelled !! codomain;
    if k == hi {
      assert AtOrAbove(generators, maslov, k - 1) == domain + codomain;
    } else {
      assert AtOrAbove(generators, maslov, k - 1) == AtOrAbove(generators, maslov, k) + codomain;
    }
  }

  /** `vertices.map { $0.MaslovDegree }`: the Maslov degrees of a set of
      generators, one per generator, in the set's (unspecified) iteration
      order. */
  method MaslovDegrees<G(==)>(vertices: set<G>, maslov: G -> int) returns (degs: seq<int>)
    ensures |degs| == |vertices|
    ensures forall k :: multiset(degs)[k] == |Layer(vertices, maslov, k)|
    ensures SignedSum(degs) == Euler(vertices, maslov)
  {
    degs := [];
    var rest := vertices;
    while rest != {}
      invariant rest <= vertices
      invariant ListsDegrees(degs, vertices - rest, maslov)
      decreases rest
    {
      var v :| v in rest;
      DegreesGrow(degs, vertices - rest, v, maslov);
      MoveToDone(vertices, rest, v);
      rest := rest - {v};
      degs := degs + [maslov(v)];
    }
    assert vertices - rest == vertices;
  }

  /** `degs` lists the degrees of the generators of `s`, one entry each. */
  ghost predicate ListsDegrees<G>(degs: seq<int>, s: set<G>, deg: G -> int)
  {
    && |degs| == |s|
    && (forall k :: multiset(degs)[k] == |Layer(s, deg, k)|)
    && SignedSum(degs) == Euler(s, deg)
  }

  /** Appending the degree of a new generator lists the degrees of the
      enlarged set. */
  lemma DegreesGrow<G>(degs: seq<int>, s: set<G>, v: G, deg: G -> int)
    requires v !in s && ListsDegrees(degs, s, deg)
    ensures ListsDegrees(degs + [deg(v)], s + {v}, deg)
  {
    EulerSingleton(v, deg);
    EulerAdditive(s, {v}, deg);
    SignedSumAppend(degs, deg(v));
    forall k ensures multiset(degs + [deg(v)])[k] == |Layer(s + {v}, deg, k)| {
      LayerGrows(s, v, deg, k);
    }
  }

  /** Adding a generator to a set adds it to the layer of its own degree and
      to no other layer. */
  lemma LayerGrows<G>(s: set<G>, v: G, deg: G -> int, k: int)
    requires v !in s
    ensures |Layer(s + {v}, deg, k)| == |Layer(s, deg, k)| + (if deg(v) == k then 1 else 0)
  {
    if deg(v) == k {
      assert Layer(s + {v}, deg, k) == Layer(s, deg, k) + {v};
    } else {
      assert Layer(s + {v}, deg, k) == Layer(s, deg, k);
    }
  }

  /** `run()`: groups the generators by Alexander degree, reduces every slice
      and emits one row `(k, i, n)` per Maslov degree `k` with `n > 0`
      survivors in slice `i`. Slices are processed one after another and their
      rows concatenated. The ghost result `survivors` holds the generators
      left by the reduction of each slice: they are generators of the slice,
      have its Euler characteristic and include every generator the
      differential does not link inside the slice. The rows report exactly
      the survivors: one row per slice and Maslov degree that has survivors,
      whose rank is their number. */
  method Run<G(==, !new)>(generators: set<G>, alexander: G -> int, maslov: G -> int, d: G -> set<G>)
    returns (h: seq<Rank>, ghost survivors: map<int, set<G>>)
    ensures forall i :: i in survivors <==> Layer(generators, alexander, i) != {}
    ensures forall i :: i in survivors ==>
      survivors[i] <= Layer(generators, alexander, i) &&
      Euler(survivors[i], maslov) == Euler(Layer(generators, alexander, i), maslov)
    ensures forall i, g ::
      i in survivors && g in Layer(generators, alexander, i) && Isolated(g, Layer(generators, alexander, i), maslov, d)
      ==> g in survivors[i]
    ensures forall i :: i in survivors ==>
      (survivors[i] == Layer(generators, alexander, i) <==>
       forall g :: g in Layer(generators, alexander, i) ==>
         d(g) * Layer(Layer(generators, alexander, i), maslov, maslov(g) - 1) == {})
    ensures forall r :: r in h ==>
      r.rank > 0 && r.alexander in survivors && r.rank == |Layer(survivors[r.alexander], maslov, r.maslov)|
    ensures forall i, k :: i in survivors && Layer(survivors[i], maslov, k) != {} ==>
      exists r :: r in h && r.alexander == i && r.maslov == k
    ensures forall a, b :: 0 <= a < b < |h| ==>
      h[a].maslov != h[b].maslov || h[a].alexander != h[b].alexander
    ensures forall i :: i in survivors ==> TotalAt(h, i) == |survivors[i]|
    ensures forall i :: TotalAt(h, i) <= |Layer(generators, alexander, i)|
    ensures forall i :: EulerAt(h, i) == Euler(Layer(generators, alexander, i), maslov)
  {
    var gens := GroupBy(generators, alexander);
    h, survivors := ReportAll(gens, maslov, d);
    RunDone(h, generators, alexander, gens, maslov, d, survivors);
  }

  /** The loop of `Run`: reports the slices one after the other, in any
      order. */
  method ReportAll<G(==, !new)>(gens: map<int, set<G>>, maslov: G -> int, d: G -> set<G>)
    returns (h: seq<Rank>, ghost survivors: map<int, set<G>>)
    requires forall k :: k in gens ==> gens[k] != {}
    ensures Reported(h, gens.Keys, gens, maslov, d, survivors)
  {
    var slices := gens.Keys;
    ghost var done: set<int> := {};
    h := [];
    survivors := map[];
    while slices != {}
      invariant slices <= gens.Keys && done == gens.Keys - slices
      invariant Reported(h, done, gens, maslov, d, survivors)
      decreases slices
    {
      ghost var some := Pick(slices);
      var i :| i in slices;
      var rows;
      ghost var s;
      rows, s := ReportSlice(gens[i], i, maslov, d);
      assert Lookup(gens, i) == gens[i];
      AppendSlice(h, rows, i, done, gens, maslov, d, survivors, s);
      MoveToDone(gens.Keys, slices, i);
      slices := slices - {i};
      done := done + {i};
      h := h + rows;
      survivors := survivors[i := s];
    }
    assert done == gens.Keys;
  }

  /** One pass of the loop of `Run`: reduces the slice of Alexander degree
      `i` and lists, for each Maslov degree of its survivors `s`, how many
      there are. */
  method ReportSlice<G(==, !new)>(slice: set<G>, i: int, maslov: G -> int, d: G -> set<G>)
    returns (rows: seq<Rank>, ghost s: set<G>)
    requires slice != {}
    ensures Survives(s, slice, maslov, d)
    ensures forall r :: r in rows ==> r.alexander == i && r.rank > 0
    ensures forall r :: r in rows ==> r.rank == |Layer(s, maslov, r.maslov)|
    ensures forall k :: Layer(s, maslov, k) != {} ==> exists r :: r in rows && r.maslov == k
    ensures forall a, b :: 0 <= a < b < |rows| ==> rows[a].maslov != rows[b].maslov
    ensures forall j :: j != i ==> TotalAt(rows, j) == 0 && EulerAt(rows, j) == 0
    ensures TotalAt(rows, i) == |s|
    ensures EulerAt(rows, i) == Euler(s, maslov)
  {
    var graph := Reduce(slice, maslov, d);
    var degs := MaslovDegrees(graph.vertices, maslov);
    rows := SliceRanks(degs, i);
    SliceRows(graph.vertices, degs, rows, maslov);
    s := graph.vertices;
  }

  /** What the reduction of `slice` may leave behind: generators of the
      slice with its Euler characteristic, among them every generator of the
      slice the differential does not link to another one; all of the slice
      exactly when the differential links no two of its generators. */
  ghost predicate Survives<G>(s: set<G>, slice: set<G>, maslov: G -> int, d: G -> set<G>)
  {
    && s <= slice
    && Euler(s, maslov) == Euler(slice, maslov)
    && (forall g :: g in slice && Isolated(g, slice, maslov, d) ==> g in s)
    && (s == slice <==> forall g :: g in slice ==> d(g) * Layer(slice, maslov, maslov(g) - 1) == {})
  }

  /** The rows built from the listed degrees of the survivors `s` count, for
      each Maslov degree, the survivors of that degree, and every degree that
      has survivors has a row. */
  lemma SliceRows<G>(s: set<G>, degs: seq<int>, rows: seq<Rank>, maslov: G -> int)
    requires forall k :: multiset(degs)[k] == |Layer(s, maslov, k)|
    requires forall r :: r in rows ==> r.rank == multiset(degs)[r.maslov]
    requires forall k :: k in degs <==> exists r :: r in rows && r.maslov == k
    ensures forall r :: r in rows ==> r.rank == |Layer(s, maslov, r.maslov)|
    ensures forall k :: Layer(s, maslov, k) != {} ==> exists r :: r in rows && r.maslov == k
  {
    forall k | Layer(s, maslov, k) != {} ensures exists r :: r in rows && r.maslov == k {
      assert multiset(degs)[k] > 0;
      assert k in multiset(degs);
      assert k in degs;
    }
  }

  /** After the last slice: the promises of the rows restated over the
      layers of the generators by Alexander degree. */
  lemma RunDone<G>(h: seq<Rank>, generators: set<G>, alexander: G -> int, gens: map<int, set<G>>, maslov: G -> int, d: G -> set<G>, survivors: map<int, set<G>>)
    requires forall k :: k in gens ==> gens[k] != {}
    requires forall k :: Lookup(gens, k) == Layer(generators, alexander, k)
    requires Reported(h, gens.Keys, gens, maslov, d, survivors)
    ensures forall i :: i in survivors <==> Layer(generators, alexander, i) != {}
    ensures forall i :: i in survivors ==>
      survivors[i] <= Layer(generators, alexander, i) &&
      Euler(survivors[i], maslov) == Euler(Layer(generators, alexander, i), maslov)
    ensures forall i, g ::
      i in survivors && g in Layer(generators, alexander, i) && Isolated(g, Layer(generators, alexander, i), maslov, d)
      ==> g in survivors[i]
    ensures forall i :: i in survivors ==>
      (survivors[i] == Layer(generators, alexander, i) <==>
       forall g :: g in Layer(generators, alexander, i) ==>
         d(g) * Layer(Layer(generators, alexander, i), maslov, maslov(g) - 1) == {})
    ensures forall i :: TotalAt(h, i) <= |Layer(generators, alexander, i)|
    ensures forall i :: EulerAt(h, i) == Euler(Layer(generators, alexander, i), maslov)
  {
    forall i ensures i in survivors <==> Layer(generators, alexander, i) != {} {
      assert Lookup(gens, i) == Layer(generators, alexander, i);
    }
    forall i | i in survivors ensures Survives(survivors[i], Layer(generators, alexander, i), maslov, d) {
      assert Lookup(gens, i) == Layer(generators, alexander, i);
    }
    forall i ensures TotalAt(h, i) <= |Layer(generators, alexander, i)|
      && EulerAt(h, i) == Euler(Layer(generators, alexander, i), maslov)
    {
      assert Lookup(gens, i) == Layer(generators, alexander, i);
      if i in survivors {
        SubsetCard(survivors[i], Layer(generators, alexander, i));
      } else {
        assert Evens({}, maslov) == {} && Odds({}, maslov) == {};
      }
    }
  }

  /** What the rows emitted so far promise: `survivors` holds, for every
      slice done, what its reduction left; the rows report the survivors of
      the slices done, as `Ranked` and `Covered` say, and no pair twice; the
      rows of a slice done add up to its survivors and to its Euler
      characteristic; other slices have no rows yet. */
  ghost predicate Reported<G>(h: seq<Rank>, done: set<int>, gens: map<int, set<G>>, maslov: G -> int, d: G -> set<G>, survivors: map<int, set<G>>)
  {
    && survivors.Keys == done
    && (forall i :: i in done ==> Survives(survivors[i], Lookup(gens, i), maslov, d))
    && Ranked(h, done, maslov, survivors)
    && Covered(h, done, maslov, survivors)
    && Distinct(h)
    && (forall i :: i in done ==>
          TotalAt(h, i) == |survivors[i]| && EulerAt(h, i) == Euler(Lookup(gens, i), maslov))
    && (forall i :: i !in done ==> TotalAt(h, i) == 0 && EulerAt(h, i) == 0)
  }

  /** Every row reports a positive count for a slice done: the number of the
      slice's survivors of the row's Maslov degree. */
  ghost predicate Ranked<G>(h: seq<Rank>, done: set<int>, maslov: G -> int, survivors: map<int, set<G>>)
  {
    forall r :: r in h ==>
      r.rank > 0 && r.alexander in done && r.alexander in survivors &&
      r.rank == |Layer(survivors[r.alexander], maslov, r.maslov)|
  }

  /** Every Maslov degree with survivors in a slice done has a row. */
  ghost predicate Covered<G>(h: seq<Rank>, done: set<int>, maslov: G -> int, survivors: map<int, set<G>>)
  {
    forall i, k :: i in done && i in survivors && Layer(survivors[i], maslov, k) != {} ==>
      exists r :: r in h && r.alexander == i && r.maslov == k
  }

  /** No (Maslov, Alexander) pair is reported twice. */
  ghost predicate Distinct(h: seq<Rank>)
  {
    forall a, b :: 0 <= a < b < |h| ==> h[a].maslov != h[b].maslov || h[a].alexander != h[b].alexander
  }

  /** Appending the rows of a new slice `i`, whose reduction left `s`, keeps
      the promises of the rows emitted so far. */
  lemma AppendSlice<G>(h: seq<Rank>, rows: seq<Rank>, i: int, done: set<int>, gens: map<int, set<G>>, maslov: G -> int, d: G -> set<G>,
                       survivors: map<int, set<G>>, s: set<G>)
    requires i !in done
    requires Reported(h, done, gens, maslov, d, survivors)
    requires Survives(s, Lookup(gens, i), maslov, d)
    requires forall r :: r in rows ==> r.alexander == i && r.rank > 0
    requires forall r :: r in rows ==> r.rank == |Layer(s, maslov, r.maslov)|
    requires forall k :: Layer(s, maslov, k) != {} ==> exists r :: r in rows && r.maslov == k
    requires forall a, b :: 0 <= a < b < |rows| ==> rows[a].maslov != rows[b].maslov
    requires forall j :: j != i ==> TotalAt(rows, j) == 0 && EulerAt(rows, j) == 0
    requires TotalAt(rows, i) == |s|
    requires EulerAt(rows, i) == Euler(s, maslov)
    ensures Reported(h + rows, done + {i}, gens, maslov, d, survivors[i := s])
  {
    AppendSurvives(i, done, gens, maslov, d, survivors, survivors[i := s], s);
    AppendSums(h, rows, i, done, gens, maslov, survivors, survivors[i := s], s);
    AppendRanks(h, rows, i, done, maslov, survivors, survivors[i := s], s);
    AppendCover(h, rows, i, done, maslov, survivors, survivors[i := s], s);
    AppendDistinct(h, rows, i, done, maslov, survivors);
  }

  /** Recording the survivors `s` of the new slice `i` keeps what was
      recorded for the slices done. */
  lemma AppendSurvives<G>(i: int, done: set<int>, gens: map<int, set<G>>, maslov: G -> int, d: G -> set<G>,
                          survivors: map<int, set<G>>, survivors': map<int, set<G>>, s: set<G>)
    requires survivors.Keys == done && survivors' == survivors[i := s]
    requires forall j :: j in done ==> Survives(survivors[j], Lookup(gens, j), maslov, d)
    requires Survives(s, Lookup(gens, i), maslov, d)
    ensures survivors'.Keys == done + {i}
    ensures forall j :: j in done + {i} ==> Survives(survivors'[j], Lookup(gens, j), maslov, d)
  {
    forall j | j in done + {i} ensures Survives(survivors'[j], Lookup(gens, j), maslov, d) {
      if j != i {
        assert survivors'[j] == survivors[j];
      }
    }
  }

  /** The rows of the new slice `i` add its survivors and its Euler
      characteristic to the sums at `i`, and nothing elsewhere. */
  lemma AppendSums<G>(h: seq<Rank>, rows: seq<Rank>, i: int, done: set<int>, gens: map<int, set<G>>, maslov: G -> int,
                      survivors: map<int, set<G>>, survivors': map<int, set<G>>, s: set<G>)
    requires i !in done && survivors.Keys == done && survivors' == survivors[i := s]
    requires forall j :: j in done ==>
      TotalAt(h, j) == |survivors[j]| && EulerAt(h, j) == Euler(Lookup(gens, j), maslov)
    requires forall j :: j !in done ==> TotalAt(h, j) == 0 && EulerAt(h, j) == 0
    requires forall j :: j != i ==> TotalAt(rows, j) == 0 && EulerAt(rows, j) == 0
    requires TotalAt(rows, i) == |s|
    requires EulerAt(rows, i) == Euler(Lookup(gens, i), maslov)
    ensures forall j :: j in done + {i} ==>
      TotalAt(h + rows, j) == |survivors'[j]| && EulerAt(h + rows, j) == Euler(Lookup(gens, j), maslov)
    ensures forall j :: j !in done + {i} ==> TotalAt(h + rows, j) == 0 && EulerAt(h + rows, j) == 0
  {
    forall j ensures TotalAt(h + rows, j) == TotalAt(h, j) + TotalAt(rows, j)
      && EulerAt(h + rows, j) == EulerAt(h, j) + EulerAt(rows, j)
    {
      SumsOfConcat(h, rows, j);
    }
  }

  /** The rows of the new slice `i` report its survivors `s`; the earlier
      rows keep reporting theirs. */
  lemma AppendRanks<G>(h: seq<Rank>, rows: seq<Rank>, i: int, done: set<int>, maslov: G -> int,
                       survivors: map<int, set<G>>, survivors': map<int, set<G>>, s: set<G>)
    requires i !in done && survivors.Keys == done && survivors' == survivors[i := s]
    requires Ranked(h, done, maslov, survivors)
    requires forall r :: r in rows ==> r.alexander == i && r.rank > 0
    requires forall r :: r in rows ==> r.rank == |Layer(s, maslov, r.maslov)|
    ensures Ranked(h + rows, done + {i}, maslov, survivors')
  {
    forall r | r in h + rows
      ensures r.rank > 0 && r.alexander in done + {i} && r.alexander in survivors'
      ensures r.rank == |Layer(survivors'[r.alexander], maslov, r.maslov)|
    {
      if r in h {
        assert r.alexander in done;
      }
    }
  }

  /** The rows of the new slice `i` cover the degrees of its survivors `s`;
      the earlier rows still cover theirs. */
  lemma AppendCover<G>(h: seq<Rank>, rows: seq<Rank>, i: int, done: set<int>, maslov: G -> int,
                       survivors: map<int, set<G>>, survivors': map<int, set<G>>, s: set<G>)
    requires i !in done && survivors.Keys == done && survivors' == survivors[i := s]
    requires Covered(h, done, maslov, survivors)
    requires forall r :: r in rows ==> r.alexander == i
    requires forall k :: Layer(s, maslov, k) != {} ==> exists r :: r in rows && r.maslov == k
    ensures Covered(h + rows, done + {i}, maslov, survivors')
  {
    forall j, k | j in done + {i} && j in survivors' && Layer(survivors'[j], maslov, k) != {}
      ensures exists r :: r in h + rows && r.alexander == j && r.maslov == k
    {
      if j == i {
        var r :| r in rows && r.maslov == k;
        assert r in h + rows;
      } else {
        var r :| r in h && r.alexander == j && r.maslov == k;
        assert r in h + rows;
      }
    }
  }

  /** Rows of a new slice, with distinct Maslov degrees, repeat no
      (Maslov, Alexander) pair of the rows so far. */
  lemma AppendDistinct<G>(h: seq<Rank>, rows: seq<Rank>, i: int, done: set<int>, maslov: G -> int, survivors: map<int, set<G>>)
    requires i !in done
    requires Ranked(h, done, maslov, survivors) && Distinct(h)
    requires forall r :: r in rows ==> r.alexander == i
    requires forall a, b :: 0 <= a < b < |rows| ==> rows[a].maslov != rows[b].maslov
    ensures Distinct(h + rows)
  {
    var hr := h + rows;
    forall a, b | 0 <= a < b < |hr|
      ensures hr[a].maslov != hr[b].maslov || hr[a].alexander != hr[b].alexander
    {
      if a < |h| && b >= |h| {
        assert hr[a] in h && hr[b] in rows;
      } else if a >= |h| {
        assert hr[a] == rows[a - |h|] && hr[b] == rows[b - |h|];
      }
    }
  }

  /** Taking `x` out of the slices still to do adds it to those done. */
  lemma MoveToDone<T>(all: set<T>, todo: set<T>, x: T)
    requires x in todo && todo <= all
    ensures all - (todo - {x}) == (all - todo) + {x}
  {
  }

  /** A subset is no larger than the set that contains it. */
  lemma {:induction false} SubsetCard<T>(a: set<T>, b: set<T>)
    requires a <= b
    ensures |a| <= |b|
    decreases b
  {
    if a != {} {
      var x := Pick(a);
      SubsetCard(a - {x}, b - {x});
    }
  }
}
