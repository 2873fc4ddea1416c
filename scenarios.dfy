/** Worked cancellations on small graphs of integers, following the picture
    of the rerouting step: cancelling `x -> y` toggles every edge `a -> b`
    with `a -> y` and `x -> b`. */
module Scenarios {
  import opened DirectedGraph
  import opened HFKCalculator
  import opened Grading

  /** Builds the graph on `{1, 2, 3, 4}` whose edges are exactly `edges`, all
      running from `{1, 2}` into `{3, 4}`. */
  method Build(edges: set<(int, int)>) returns (g: SimpleDirectedGraph<int>)
    requires forall e :: e in edges ==> e.0 in {1, 2} && e.1 in {3, 4}
    ensures fresh(g)
    ensures g.Valid() && NoTwoStepPath(g)
    ensures g.vertices == {1, 2, 3, 4}
    ensures forall a, b :: g.HasEdge(a, b) <==> (a, b) in edges
  {
    g := new SimpleDirectedGraph();
    g.AddAll({1, 2, 3, 4});
    var todo := edges;
    while todo != {}
      invariant g.Valid() && g.vertices == {1, 2, 3, 4}
      invariant todo <= edges
      invariant forall a, b :: g.HasEdge(a, b) <==> (a, b) in edges - todo
      decreases todo
    {
      var e :| e in todo;
      g.Connect(e.0, e.1);
      todo := todo - {e};
    }
    forall a, b | g.HasEdge(a, b) ensures a in {1, 2} && b in {3, 4} {
      assert (a, b) in edges;
    }
    LayeredHasNoTwoStepPath(g, {1, 2}, {3, 4});
  }

  /** Two sources share the target `3`: cancelling `1 -> 3` leaves `2` and `4`
      with no edge at all. */
  method SharedTarget() returns (survivors: set<int>, targetsOf2: set<int>)
    ensures survivors == {2, 4}
    ensures targetsOf2 == {}
  {
    var g := Build({(1, 3), (2, 3)});
    Cancel(g, 1, 3);
    survivors := g.vertices;
    targetsOf2 := g.Targets(2);
    forall b ensures b !in targetsOf2 {
      assert !g.HasEdge(2, b);
    }
  }

  /** The zig-zag `2 -> 3 <- 1 -> 4` is not closed by `2 -> 4`: cancelling
      `1 -> 3` creates the edge `2 -> 4`. */
  method OpenZigZag() returns (survivors: set<int>, targetsOf2: set<int>)
    ensures survivors == {2, 4}
    ensures targetsOf2 == {4}
  {
    var g := Build({(1, 3), (1, 4), (2, 3)});
    Cancel(g, 1, 3);
    survivors := g.vertices;
    targetsOf2 := g.Targets(2);
    forall b ensures b in targetsOf2 <==> b == 4 {
      assert g.HasEdge(2, b) <==> b == 4;
    }
  }

  /** The complete square: the edge `2 -> 4` is already there, so cancelling
      `1 -> 3` removes it (the coefficients add up modulo 2). */
  method ClosedSquare() returns (survivors: set<int>, targetsOf2: set<int>)
    ensures survivors == {2, 4}
    ensures targetsOf2 == {}
  {
    var g := Build({(1, 3), (1, 4), (2, 3), (2, 4)});
    Cancel(g, 1, 3);
    survivors := g.vertices;
    targetsOf2 := g.Targets(2);
    forall b ensures b !in targetsOf2 {
      assert !g.HasEdge(2, b);
    }
  }

  /** An edge whose ends are not linked to the cancelled pair survives
      untouched: cancelling `1 -> 3` keeps `2 -> 4`. */
  method Untouched() returns (survivors: set<int>, targetsOf2: set<int>)
    ensures survivors == {2, 4}
    ensures targetsOf2 == {4}
  {
    var g := Build({(1, 3), (2, 4)});
    Cancel(g, 1, 3);
    survivors := g.vertices;
    targetsOf2 := g.Targets(2);
    forall b ensures b in targetsOf2 <==> b == 4 {
      assert g.HasEdge(2, b) <==> b == 4;
    }
  }

  /** Degrees for the layered examples: `1` and `2` sit one degree above
      `3` and `4`. */
  function Level(v: int): int
  {
    if v <= 2 then 1 else 0
  }

  /** Two sources compete for the single target `3`: reducing the layer
      cancels `3` against exactly one of them, so exactly one of `1` and `2`
      survives, beside the untouched `4`. Which one depends on the order of
      the visits. */
  method CompetingSources() returns (survivors: set<int>, reduced: set<int>)
    ensures survivors == {1, 4} || survivors == {2, 4}
    ensures reduced == {}
  {
    var g := Build({(1, 3), (2, 3)});
    assert g.HasEdge(1, 3);
    forall a, b | g.HasEdge(a, b) ensures a in {1, 2} && b in {3} {
      assert (a, b) in {(1, 3), (2, 3)};
    }
    ghost var cancelled;
    reduced, cancelled := ReduceLayer(g, {1, 2}, {3}, Level, 1);
    survivors := g.vertices;
    Counted(cancelled);
    if 1 in cancelled {
      assert survivors == {2, 4};
    } else {
      assert survivors == {1, 4};
    }
  }

  /** How many of `1`, `2` and of `3` a set of integers holds. */
  lemma Counted(c: set<int>)
    ensures |c * {3}| == if 3 in c then 1 else 0
    ensures |c * {1, 2}| == (if 1 in c then 1 else 0) + (if 2 in c then 1 else 0)
  {
    if 3 in c {
      assert c * {3} == {3};
    } else {
      assert c * {3} == {};
    }
    if 1 in c && 2 in c {
      assert c * {1, 2} == {1, 2};
    } else if 1 in c {
      assert c * {1, 2} == {1};
    } else if 2 in c {
      assert c * {1, 2} == {2};
    } else {
      assert c * {1, 2} == {};
    }
  }

  /** When the differential is zero the reduction of a slice cancels
      nothing: every generator survives. */
  method NothingToCancel() returns (survivors: set<int>)
    ensures survivors == {1, 2, 3}
  {
    var graph := Reduce({1, 2, 3}, v => v, v => {});
    survivors := graph.vertices;
  }

  /** Degrees for the single arrow: `1` sits one degree above `2`. */
  function Height(v: int): int
  {
    2 - v
  }

  /** A slice of two generators, `1` in degree 1 hitting `2` in degree 0:
      the pair is cancelled and nothing survives. */
  method SingleArrow() returns (survivors: set<int>)
    ensures survivors == {}
  {
    var graph := Reduce({1, 2}, Height, v => if v == 1 then {2} else {});
    survivors := graph.vertices;
    assert 2 in Layer({1, 2}, Height, Height(1) - 1);
    EulerOfPair(survivors);
    EulerOfPair({1, 2});
    assert 1 !in survivors;
  }

  /** The Euler characteristic of a subset of `{1, 2}`, in the degrees of
      `Height`: `1` counts `-1` and `2` counts `+1`. */
  lemma EulerOfPair(s: set<int>)
    requires s <= {1, 2}
    ensures Euler(s, Height) == (if 1 in s then -1 else 0) + (if 2 in s then 1 else 0)
  {
    EulerSingleton(1, Height);
    EulerSingleton(2, Height);
    if 1 in s && 2 in s {
      assert s == {1} + {2};
      EulerAdditive({1}, {2}, Height);
    } else if 1 in s {
      assert s == {1};
    } else if 2 in s {
      assert s == {2};
    } else {
      assert s == {};
      assert Evens(s, Height) == {} && Odds(s, Height) == {};
    }
  }
}
