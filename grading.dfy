/** Generators carry integer degrees (Maslov and Alexander) read through
    functions supplied by the caller. This module groups a finite set of
    generators by one degree, finds the range of degrees present, and defines
    the Euler characteristic: the number of generators of even Maslov degree
    minus the number of odd degree. */
module Grading {

  /** The generators of `s` of degree `k`. */
  function Layer<G>(s: set<G>, deg: G -> int, k: int): set<G>
  {
    set g | g in s && deg(g) == k
  }

  /** `m[k] ?? []`: the group stored under `k`, or none. */
  function Lookup<G>(m: map<int, set<G>>, k: int): set<G>
  {
    if k in m then m[k] else {}
  }

  /** Groups `s` by degree: one non-empty group per degree that occurs, and
      looking up any degree gives exactly the generators of that degree. */
  function GroupBy<G>(s: set<G>, deg: G -> int): (r: map<int, set<G>>)
    ensures forall k :: k in r ==> r[k] != {}
    ensures forall k :: Lookup(r, k) == Layer(s, deg, k)
    ensures forall g :: g in s ==> deg(g) in r
  {
    var r := map k | k in (set g | g in s :: deg(g)) :: Layer(s, deg, k);
    assert forall k :: k in r ==> r[k] != {} by {
      forall k | k in r ensures r[k] != {} {
        var g :| g in s && deg(g) == k;
        assert g in r[k];
      }
    }
    r
  }

  predicate IsLeast(m: int, s: set<int>)
  {
    m in s && forall j :: j in s ==> m <= j
  }

  predicate IsGreatest(m: int, s: set<int>)
  {
    m in s && forall j :: j in s ==> j <= m
  }

  /** Some element of a non-empty set. */
  lemma Pick<T>(s: set<T>) returns (x: T)
    requires s != {}
    ensures x in s
  {
    x :| x in s;
  }

  /** A non-empty finite set of degrees has a least and a greatest element, so
      the range of degrees of a non-empty slice is defined. */
  lemma {:induction false} ExtremaExist(s: set<int>)
    requires s != {}
    ensures exists lo :: IsLeast(lo, s)
    ensures exists hi :: IsGreatest(hi, s)
    decreases s
  {
    var x := Pick(s);
    if s == {x} {
      assert IsLeast(x, s) && IsGreatest(x, s);
    } else {
      ExtremaExist(s - {x});
      var lo :| IsLeast(lo, s - {x});
      var hi :| IsGreatest(hi, s - {x});
      assert s == (s - {x}) + {x};
      assert IsLeast(if x < lo then x else lo, s);
      assert IsGreatest(if x > hi then x else hi, s);
    }
  }

  function Evens<G>(s: set<G>, deg: G -> int): set<G>
  {
    set g | g in s && deg(g) % 2 == 0
  }

  function Odds<G>(s: set<G>, deg: G -> int): set<G>
  {
    set g | g in s && deg(g) % 2 != 0
  }

  /** The sign a generator of degree `k` contributes: `(-1)^k`. */
  function Sign(k: int): int
  {
    if k % 2 == 0 then 1 else -1
  }

  /** The Euler characteristic of a set of generators, graded by `deg`. */
  function Euler<G>(s: set<G>, deg: G -> int): int
  {
    |Evens(s, deg)| - |Odds(s, deg)|
  }

  /** The Euler characteristic is additive over disjoint sets. */
  lemma EulerAdditive<G>(a: set<G>, b: set<G>, deg: G -> int)
    requires a !! b
    ensures Euler(a + b, deg) == Euler(a, deg) + Euler(b, deg)
  {
    assert Evens(a + b, deg) == Evens(a, deg) + Evens(b, deg);
    assert Odds(a + b, deg) == Odds(a, deg) + Odds(b, deg);
    assert Evens(a, deg) !! Evens(b, deg);
    assert Odds(a, deg) !! Odds(b, deg);
  }

  /** A single generator contributes its sign. */
  lemma EulerSingleton<G>(g: G, deg: G -> int)
    ensures Euler({g}, deg) == Sign(deg(g))
  {
    if deg(g) % 2 == 0 {
      assert Evens({g}, deg) == {g};
      assert Odds({g}, deg) == {};
    } else {
      assert Evens({g}, deg) == {};
      assert Odds({g}, deg) == {g};
    }
  }

  /** Two generators in adjacent degrees cancel in the Euler characteristic. */
  lemma EulerOfAdjacentPair<G>(x: G, y: G, deg: G -> int)
    requires deg(x) == deg(y) + 1
    ensures Euler({x, y}, deg) == 0
  {
    assert x != y;
    EulerSingleton(x, deg);
    EulerSingleton(y, deg);
    EulerAdditive({x}, {y}, deg);
    assert {x} + {y} == {x, y};
  }
}
