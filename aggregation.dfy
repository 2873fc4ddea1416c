/** The survivor counting of one Alexander slice: the Maslov degrees of the
    surviving generators are tallied into a multiplicity table, and each entry
    `(k, n)` becomes the output row `(k, i, n)` of slice `i`.
    The table is an association list kept in order of first occurrence. */
module Aggregation {
  import opened Grading

  /** One output row: `rank` generators of Maslov degree `maslov` survive in
      the slice of Alexander degree `alexander`. */
  datatype Rank = Rank(maslov: int, alexander: int, rank: nat)

  type Table = seq<(int, nat)>

  /** The degrees that have an entry in the table. */
  function Degrees(t: Table): set<int>
  {
    set p | p in t :: p.0
  }

  ghost predicate DistinctDegrees(t: Table)
  {
    forall a, b :: 0 <= a < b < |t| ==> t[a].0 != t[b].0
  }

  ghost predicate Positive(t: Table)
  {
    forall a :: 0 <= a < |t| ==> t[a].1 > 0
  }

  /** The count the table lists for degree `k` (the first entry for `k`), or 0. */
  function CountOf(t: Table, k: int): nat
  {
    if t == [] then 0 else if t[0].0 == k then t[0].1 else CountOf(t[1..], k)
  }

  /** The sum of all counts. */
  function Total(t: Table): nat
  {
    if t == [] then 0 else t[0].1 + Total(t[1..])
  }

  /** `n` taken with the sign `(-1)^k`. */
  function Signed(k: int, n: int): int
  {
    Sign(k) * n
  }

  /** The sum of all counts, each with the sign of its degree. */
  function SignedTotal(t: Table): int
  {
    if t == [] then 0 else Signed(t[0].0, t[0].1) + SignedTotal(t[1..])
  }

  /** The sum of the signs of a list of degrees. */
  function SignedSum(degs: seq<int>): int
  {
    if degs == [] then 0 else SignedSum(degs[..|degs| - 1]) + Sign(degs[|degs| - 1])
  }

  lemma SignedSumAppend(degs: seq<int>, k: int)
    ensures SignedSum(degs + [k]) == SignedSum(degs) + Sign(k)
  {
    assert (degs + [k])[..|degs|] == degs;
  }

  /** Records one more occurrence of `k`: the entry for `k` goes up by one, or
      a new entry `(k, 1)` is appended. */
  function Bump(t: Table, k: int): (r: Table)
    ensures Degrees(r) == Degrees(t) + {k}
    ensures forall j :: CountOf(r, j) == CountOf(t, j) + (if j == k then 1 else 0)
  {
    if t == [] then [(k, 1)]
    else if t[0].0 == k then [(k, t[0].1 + 1)] + t[1..]
    else
      var r := [t[0]] + Bump(t[1..], k);
      assert r[1..] == Bump(t[1..], k);
      assert Degrees(r) == {t[0].0} + Degrees(Bump(t[1..], k));
      assert Degrees(t) == {t[0].0} + Degrees(t[1..]) by {
        assert t == [t[0]] + t[1..];
      }
      r
  }

  /** Bumping adds one to the total and the sign of `k` to the signed total. */
  lemma {:induction false} BumpSums(t: Table, k: int)
    ensures Total(Bump(t, k)) == Total(t) + 1
    ensures SignedTotal(Bump(t, k)) == SignedTotal(t) + Sign(k)
  {
    if t != [] && t[0].0 != k {
      BumpSums(t[1..], k);
      assert Bump(t, k)[1..] == Bump(t[1..], k);
    }
  }

  /** Bumping keeps the counts of a table positive. */
  lemma {:induction false} BumpKeepsPositive(t: Table, k: int)
    requires Positive(t)
    ensures Positive(Bump(t, k))
  {
    if t != [] && t[0].0 != k {
      assert Positive(t[1..]) by {
        assert forall a :: 0 <= a < |t| - 1 ==> t[1..][a] == t[a + 1];
      }
      BumpKeepsPositive(t[1..], k);
      assert Bump(t, k)[1..] == Bump(t[1..], k);
    }
  }

  /** In a table with distinct degrees, the head's degree does not occur in
      the tail, whose degrees are distinct too. */
  lemma HeadNotInTail(t: Table)
    requires DistinctDegrees(t) && t != []
    ensures DistinctDegrees(t[1..]) && t[0].0 !in Degrees(t[1..])
  {
    var tail := t[1..];
    assert forall a :: 0 <= a < |tail| ==> tail[a] == t[a + 1];
    forall p | p in tail ensures p.0 != t[0].0 {
      var c :| 0 <= c < |tail| && tail[c] == p;
    }
  }

  /** Bumping keeps the degrees of a table distinct. */
  lemma {:induction false} BumpKeepsDistinct(t: Table, k: int)
    requires DistinctDegrees(t)
    ensures DistinctDegrees(Bump(t, k))
  {
    var r := Bump(t, k);
    if t == [] {
    } else if t[0].0 == k {
      assert forall a :: 0 < a < |r| ==> r[a] == t[a];
    } else {
      HeadNotInTail(t);
      BumpKeepsDistinct(t[1..], k);
      var rt := Bump(t[1..], k);
      assert r[0] == t[0] && r[1..] == rt;
      forall a, b | 0 <= a < b < |r| ensures r[a].0 != r[b].0 {
        assert r[b] == rt[b - 1] && rt[b - 1] in rt;
        assert r[b].0 in Degrees(rt);
        if a > 0 {
          assert r[a] == rt[a - 1];
        }
      }
    }
  }

  /** The multiplicity table of a list of degrees (`countMultiplicities`): one
      entry per distinct degree, holding how often it occurs. */
  function CountMultiplicities(degs: seq<int>): (t: Table)
    ensures Degrees(t) == set k | k in degs
    ensures DistinctDegrees(t) && Positive(t)
    ensures forall k :: CountOf(t, k) == multiset(degs)[k]
    ensures Total(t) == |degs|
    ensures SignedTotal(t) == SignedSum(degs)
  {
    if degs == [] then []
    else
      var init, last := degs[..|degs| - 1], degs[|degs| - 1];
      assert degs == init + [last];
      assert (set k | k in degs) == (set k | k in init) + {last};
      var t0 := CountMultiplicities(init);
      BumpSums(t0, last);
      BumpKeepsPositive(t0, last);
      BumpKeepsDistinct(t0, last);
      SignedSumAppend(init, last);
      Bump(t0, last)
  }

  /** Tags every table entry `(k, n)` with the slice's Alexander degree `i`. */
  function Tag(t: Table, i: int): (rows: seq<Rank>)
    ensures |rows| == |t|
    ensures forall a :: 0 <= a < |t| ==> rows[a] == Rank(t[a].0, i, t[a].1)
  {
    if t == [] then [] else [Rank(t[0].0, i, t[0].1)] + Tag(t[1..], i)
  }

  /** The number of surviving generators the rows report for slice `i`. */
  function TotalAt(h: seq<Rank>, i: int): nat
  {
    if h == [] then 0
    else (if h[0].alexander == i then h[0].rank else 0) + TotalAt(h[1..], i)
  }

  /** The Euler characteristic the rows report for slice `i`. */
  function EulerAt(h: seq<Rank>, i: int): int
  {
    if h == [] then 0
    else (if h[0].alexander == i then Signed(h[0].maslov, h[0].rank) else 0) + EulerAt(h[1..], i)
  }

  lemma {:induction false} SumsOfConcat(h1: seq<Rank>, h2: seq<Rank>, i: int)
    ensures TotalAt(h1 + h2, i) == TotalAt(h1, i) + TotalAt(h2, i)
    ensures EulerAt(h1 + h2, i) == EulerAt(h1, i) + EulerAt(h2, i)
  {
    if h1 == [] {
      assert h1 + h2 == h2;
    } else {
      assert (h1 + h2)[1..] == h1[1..] + h2;
      SumsOfConcat(h1[1..], h2, i);
    }
  }

  lemma {:induction false} SumsOfTag(t: Table, i: int, j: int)
    ensures TotalAt(Tag(t, i), j) == if j == i then Total(t) else 0
    ensures EulerAt(Tag(t, i), j) == if j == i then SignedTotal(t) else 0
  {
    if t != [] {
      assert Tag(t, i)[1..] == Tag(t[1..], i);
      SumsOfTag(t[1..], i, j);
    }
  }

  /** The rows of one Alexander slice `i` (`countMultiplicities` followed by
      `map { (k, n) in (k, i, n) }`): every Maslov degree present gets exactly
      one row, whose count is its positive multiplicity, and the counts add up
      to the number of degrees given. */
  function SliceRanks(degs: seq<int>, i: int): (rows: seq<Rank>)
    ensures forall r :: r in rows ==> r.alexander == i && r.rank > 0
    ensures forall r :: r in rows ==> r.rank == multiset(degs)[r.maslov]
    ensures forall k :: k in degs <==> exists r :: r in rows && r.maslov == k
    ensures forall a, b :: 0 <= a < b < |rows| ==> rows[a].maslov != rows[b].maslov
    ensures forall j :: TotalAt(rows, j) == if j == i then |degs| else 0
    ensures forall j :: EulerAt(rows, j) == if j == i then SignedSum(degs) else 0
  {
    var t := CountMultiplicities(degs);
    var rows := Tag(t, i);
    forall j ensures TotalAt(rows, j) == (if j == i then |degs| else 0)
      && EulerAt(rows, j) == (if j == i then SignedSum(degs) else 0)
    {
      SumsOfTag(t, i, j);
    }
    forall r | r in rows ensures r.rank == multiset(degs)[r.maslov] {
      var a :| 0 <= a < |rows| && rows[a] == r;
      CountOfDistinct(t, a);
    }
    forall k | k in degs ensures exists r :: r in rows && r.maslov == k {
      assert k in Degrees(t);
      var p :| p in t && p.0 == k;
      var a :| 0 <= a < |t| && t[a] == p;
      assert rows[a] in rows;
    }
    rows
  }

  /** In a table with distinct degrees, the count listed for the degree of
      entry `a` is that entry's own count. */
  lemma {:induction false} CountOfDistinct(t: Table, a: int)
    requires DistinctDegrees(t)
    requires 0 <= a < |t|
    ensures CountOf(t, t[a].0) == t[a].1
  {
    if a > 0 {
      assert t[0].0 != t[a].0;
      assert t[1..][a - 1] == t[a];
      CountOfDistinct(t[1..], a - 1);
    }
  }
}
