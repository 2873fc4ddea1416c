# Knot Floer homology rank calculator, modelled in Dafny

This project models the sample calculator of SwiftyMath-knots. The calculator
computes the ranks of knot Floer homology from the generators of a grid
complex. It does so by cancelling pairs of generators on a mod-2 cancellation
graph. Two source files make up the model:

- `SimpleDirectedGraph` is a directed graph with a vertex set and two adjacency
  maps, `targets` (outgoing neighbours) and `cotargets` (incoming neighbours).
  Its mutating methods are `add`, `remove`, `connect` and `disconnect`. It is
  modelled as the class `DirectedGraph.SimpleDirectedGraph`, whose invariant
  `Valid()` says that the two maps mirror each other and that there are no
  self-loops.
- `HFKCalculator` does the rest.
  - `graph(generators:differential:)` takes one Alexander slice. It groups the
    slice by Maslov degree and sweeps the degrees from the highest down.
  - At each degree `k` it connects every generator to the generators of
    degree `k - 1` in its differential.
  - It then cancels each generator `x` that still has a target `y`. Before the
    pair is removed, every edge `a -> b` with `a -> y` and `x -> b` is toggled.
    This is Gaussian elimination over the field with two elements.
  - `run()` groups the generators by Alexander degree and reduces each slice.
    It then counts the survivors per Maslov degree and emits rows
    `(maslov, alexander, count)`.

The differential is a parameter `d`: a function from a generator to the finite
set of generators it hits with a nonzero coefficient. The Maslov and
Alexander degrees are parameters too.

What is proved:

- The graph operations state their exact effect on the adjacency maps and
  edges, and each keeps `Valid()`.
- `Cancel` toggles exactly the edges the rerouting step names.
- After each degree the graph has no edges left. Something is cancelled at a
  degree exactly when the two layers are linked by the differential. At the
  step of degree `k`, a domain generator that hits nothing in the codomain is
  not removed at that step, and neither is a codomain generator that no domain
  generator hits. Either may still be cancelled at a neighbouring step.
- The survivors of a slice are generators of that slice, with the slice's
  Euler characteristic. The cancelled pairs lie in adjacent degrees, so they
  cancel in the Euler characteristic. A generator that the differential links
  to no generator of an adjacent degree survives. The whole slice survives
  exactly when the differential links no generator to one a degree below.
- `Run` also returns, as a ghost value, the survivors of each slice. Each row
  counts the survivors of its slice and Maslov degree. Every Maslov degree
  with survivors has a row, and no (Maslov, Alexander) pair is reported twice.
- For each Alexander degree, the rows add up to the number of survivors, at
  most the slice's size, and to the slice's Euler characteristic.

Files:

- `graph.dfy`: module `DirectedGraph`.
- `grading.dfy`: module `Grading`, covering grouping by degree, the range of
  degrees, and the Euler characteristic.
- `aggregation.dfy`: module `Aggregation`, covering `countMultiplicities` and
  the output rows.
- `calculator.dfy`: module `HFKCalculator`.
- `scenarios.dfy`: module `Scenarios`, worked cancellations and reductions
  on concrete graphs.

## Model

| member | source | states |
|---|---|---|
| DirectedGraph.SimpleDirectedGraph.constructor | Sources/Sample/SimpleDirectedGraph.swift:13-17 | a new graph has no vertices, empty adjacency maps and no edges, and is valid |
| DirectedGraph.SimpleDirectedGraph.Add | Sources/Sample/SimpleDirectedGraph.swift:19-21 | inserts one vertex and leaves both maps unchanged; adding a present vertex changes nothing |
| DirectedGraph.SimpleDirectedGraph.AddAll | Sources/Sample/SimpleDirectedGraph.swift:23-25 | the vertex set becomes its union with the given set; the maps are unchanged and the graph stays valid |
| DirectedGraph.SimpleDirectedGraph.Connect | Sources/Sample/SimpleDirectedGraph.swift:39-52 | refuses self-loops; creates the entry for `v` or `w` when it is missing, otherwise inserts into it; the edge set gains exactly `v -> w`; connecting an existing edge changes nothing; the maps stay mirror images |
| DirectedGraph.SimpleDirectedGraph.Disconnect | Sources/Sample/SimpleDirectedGraph.swift:54-57 | removes `w` from `targets[v]` and `v` from `cotargets[w]` only where those entries exist; the edge set loses exactly `v -> w`; removing an absent edge changes nothing |
| DirectedGraph.SimpleDirectedGraph.Remove | Sources/Sample/SimpleDirectedGraph.swift:27-37 | the two loops delete `v` from the cotargets of its targets and the targets of its cotargets, then `v` and its entries are dropped; the new maps are `Without(old, v)`; exactly the edges touching `v` disappear; validity is kept |
| DirectedGraph.SimpleDirectedGraph.Unlink | Sources/Sample/SimpleDirectedGraph.swift:28-30 | the first loop of `remove`: `v` leaves the cotargets of exactly its targets, and the vertices and targets are unchanged |
| DirectedGraph.SimpleDirectedGraph.Unlist | Sources/Sample/SimpleDirectedGraph.swift:31-33 | the second loop of `remove`: `v` leaves the targets of exactly its cotargets, and the vertices and cotargets are unchanged |
| DirectedGraph.PurgeOneMore | Sources/Sample/SimpleDirectedGraph.swift:28-33 | one iteration of a removal loop is one more vertex purged of `v` |
| DirectedGraph.PurgedThenDropped | Sources/Sample/SimpleDirectedGraph.swift:27-37 | once every neighbour set holding `v` has been purged, dropping `v`'s entry gives `Without(m, v)` |
| DirectedGraph.WithoutKeepsMirrored | Sources/Sample/SimpleDirectedGraph.swift:27-37 | deleting a vertex from two mirrored, loop-free maps keeps them mirrored and loop-free and leaves no reference to it |
| DirectedGraph.WithoutEdges | Sources/Sample/SimpleDirectedGraph.swift:27-37 | the edges left after deleting `v` are exactly the old edges that avoid `v` |
| Grading.GroupBy | Sources/Sample/HFKCalculator.swift:56 | grouping by degree gives one non-empty group per degree present, and looking up any degree (`?? []`) gives exactly the generators of that degree |
| Grading.ExtremaExist | Sources/Sample/HFKCalculator.swift:57 | a non-empty set of degrees has a least and a greatest element, so the Maslov range of a non-empty slice exists |
| Grading.EulerAdditive | Sources/Sample/HFKCalculator.swift:86-104 | the Euler characteristic adds over disjoint sets |
| Grading.EulerSingleton | Sources/Sample/HFKCalculator.swift:86-104 | one generator contributes `(-1)^deg` |
| Grading.EulerOfAdjacentPair | Sources/Sample/HFKCalculator.swift:101-102 | a cancelled pair, one degree apart, contributes zero to the Euler characteristic |
| Aggregation.Bump | Sources/Sample/HFKCalculator.swift:41 | recording one occurrence of `k` adds `k` to the degrees listed and raises the count of `k` by one, leaving every other count unchanged |
| Aggregation.BumpSums | Sources/Sample/HFKCalculator.swift:41 | recording one occurrence raises the total by one and the signed total by the sign of the degree |
| Aggregation.BumpKeepsPositive | Sources/Sample/HFKCalculator.swift:41 | recording an occurrence keeps all counts positive |
| Aggregation.BumpKeepsDistinct | Sources/Sample/HFKCalculator.swift:41 | recording an occurrence keeps one entry per degree |
| Aggregation.CountMultiplicities | Sources/Sample/HFKCalculator.swift:41 | the table lists exactly the degrees that occur, once each, with positive counts equal to their multiplicities; the counts sum to the number of degrees, and the signed counts to their signed sum |
| Aggregation.Tag | Sources/Sample/HFKCalculator.swift:42-44 | each entry `(k, n)` becomes the row `(k, i, n)`, in order |
| Aggregation.SumsOfTag | Sources/Sample/HFKCalculator.swift:42-44 | tagged rows report the table's total and signed total for slice `i` and nothing for other slices |
| Aggregation.SumsOfConcat | Sources/Sample/HFKCalculator.swift:35-45 | per-slice totals and Euler characteristics add over the concatenation of row lists |
| Aggregation.CountOfDistinct | Sources/Sample/HFKCalculator.swift:41 | in a table with one entry per degree, the count looked up for an entry's degree is that entry's count |
| Aggregation.SliceRanks | Sources/Sample/HFKCalculator.swift:37-44 | a slice's rows give each Maslov degree present exactly one row, whose count is the positive number of survivors of that degree; for slice `i` the rows total the number of survivors and have their Euler characteristic |
| HFKCalculator.ConnectLayers | Sources/Sample/HFKCalculator.swift:68-76 | afterwards the edges are the old ones plus exactly `x -> y` for `x` in the domain and `y` in both `d(x)` and the codomain; the vertices are unchanged |
| HFKCalculator.Cancel | Sources/Sample/HFKCalculator.swift:91-102 | when no path has two edges, cancelling `x -> y` removes `x` and `y`; among the remaining vertices, `a -> b` is an edge exactly when it was one XOR both `a -> y` and `x -> b` were |
| HFKCalculator.Visit | Sources/Sample/HFKCalculator.swift:86-102 | one visit of `x`: with no target (`guard ... else continue`) the graph is unchanged; otherwise the pivot is one of `x`'s targets, `x` and the pivot are removed, and the remaining edges are toggled as `Cancel` states |
| HFKCalculator.ReduceLayer | Sources/Sample/HFKCalculator.swift:86-104 | afterwards no edge is left; cancelled generators come from the two layers, are paired one-for-one between domain and codomain and have Euler characteristic zero; the vertices lose exactly what was cancelled and the returned codomain is the old one less it; something is cancelled exactly when the layers had an edge; a domain generator without targets and a codomain generator without sources at the start both survive |
| HFKCalculator.ReduceAll | Sources/Sample/HFKCalculator.swift:86-104 | the loop over the domain visits every generator once and ends in the state `Reducing` describes with nothing left to visit |
| HFKCalculator.ReduceStep | Sources/Sample/HFKCalculator.swift:86-104 | one iteration: a generator with no target at the moment of its visit is skipped, cancelling nothing and removing no vertex; otherwise it is cancelled together with one of its targets at that moment; either way the bookkeeping `Reducing` holds for the generators still to visit |
| HFKCalculator.TallyPair | Sources/Sample/HFKCalculator.swift:101-103 | cancelling a visited `x` of degree `k` against `y` of degree `k - 1` keeps the cancelled generators paired, of Euler characteristic zero, and out of the generators that had no edge |
| HFKCalculator.LayeredHasNoTwoStepPath | Sources/Sample/HFKCalculator.swift:68-76 | edges that all run from one layer into a disjoint layer cannot be chained |
| HFKCalculator.PairEuler | Sources/Sample/HFKCalculator.swift:101-102 | adding a cancelled pair keeps the Euler characteristic of the cancelled set at zero |
| HFKCalculator.PairBalance | Sources/Sample/HFKCalculator.swift:101-103 | each cancellation takes one generator from the domain and one from the codomain |
| HFKCalculator.SweepDegree | Sources/Sample/HFKCalculator.swift:60-104 | one step of the sweep: the domain is placed at the top degree and the codomain always; the graph ends without edges; the vertices become the old ones plus both layers, less the removed pairs, which have Euler characteristic zero; something is removed exactly when some domain generator hits the codomain; a domain generator that hits nothing there and a codomain generator hit by nothing survive |
| HFKCalculator.LinkedLayers | Sources/Sample/HFKCalculator.swift:68-76 | with the edges of the differential from domain to codomain, the graph has no edge exactly when no domain generator hits the codomain; a generator hitting nothing has no target, one hit by nothing has no source |
| HFKCalculator.Reduce | Sources/Sample/HFKCalculator.swift:50-111 | for a non-empty slice, the returned graph is valid, has no edges, keeps only generators of the slice, and has the slice's Euler characteristic; a generator the differential links to no generator of an adjacent degree survives; the whole slice survives exactly when the differential links no generator to one a degree below |
| HFKCalculator.Sweep | Sources/Sample/HFKCalculator.swift:59-108 | the loop over the Maslov range, from the top down: it keeps the sweep state `Swept` and leaves the graph without edges, stopping below the lowest degree |
| HFKCalculator.SweepStep | Sources/Sample/HFKCalculator.swift:60-107 | one pass at degree `k` moves the sweep state from `k` to `k - 1` and leaves the graph valid and without edges |
| HFKCalculator.SweepStart | Sources/Sample/HFKCalculator.swift:55-59 | every degree of the slice lies between the least and greatest key of the grouping, and the sweep starts at the top with nothing placed or cancelled |
| HFKCalculator.SweepDone | Sources/Sample/HFKCalculator.swift:108-110 | once the lowest degree has been passed, the survivors are generators of the slice with its Euler characteristic, every isolated generator is among them, and all survive exactly when none is linked to the degree below |
| HFKCalculator.NextSweep | Sources/Sample/HFKCalculator.swift:60-107 | what one step of the sweep promises moves its state from degree `k` to `k - 1` |
| HFKCalculator.IsolatedKept | Sources/Sample/HFKCalculator.swift:69-104 | a step of the sweep removes no generator that the differential links to no generator of an adjacent degree |
| HFKCalculator.QuietStep | Sources/Sample/HFKCalculator.swift:60-107 | nothing has been cancelled above degree `k - 1` exactly when no generator above it hits the degree below, given the same at `k` and a step that removes something exactly when the domain hits the codomain |
| HFKCalculator.Regroup | Sources/Sample/HFKCalculator.swift:106-107 | dropping the group of `k` and storing the reduced codomain under `k - 1` leaves the lower groups as they were |
| HFKCalculator.PlaceLayers | Sources/Sample/HFKCalculator.swift:60-66 | the domain has degree `k`, the codomain degree `k - 1`, and below the top degree the domain is already in the graph |
| HFKCalculator.AdvanceSweep | Sources/Sample/HFKCalculator.swift:59-108 | after degree `k`, survivors and cancelled generators split the generators of degree `k - 1` or more, and the stored codomain is the layer of `k - 1` less what was cancelled |
| HFKCalculator.MaslovDegrees | Sources/Sample/HFKCalculator.swift:37-40 | lists one Maslov degree per vertex: each degree occurs as often as there are vertices of that degree, and the signed sum is the Euler characteristic |
| HFKCalculator.DegreesGrow | Sources/Sample/HFKCalculator.swift:38-40 | appending one more vertex's degree keeps the list's counts and signed sum matching the enlarged set |
| HFKCalculator.LayerGrows | Sources/Sample/HFKCalculator.swift:38-40 | a new vertex joins the layer of its own degree and no other |
| HFKCalculator.Run | Sources/Sample/HFKCalculator.swift:27-48 | returns the rows and, as a ghost, the survivors of each non-empty Alexander slice: they are generators of the slice with its Euler characteristic, include its isolated generators, and are the whole slice exactly when the differential links none of its generators; each row has a positive count equal to the number of survivors of its slice and Maslov degree; every Maslov degree with survivors has a row; no (Maslov, Alexander) pair is reported twice; per Alexander degree the counts add up to the survivors, at most the slice's size, and to its Euler characteristic |
| HFKCalculator.ReportAll | Sources/Sample/HFKCalculator.swift:35-45 | processing every slice, in any order, produces rows and survivors that keep all the promises of `Reported` |
| HFKCalculator.ReportSlice | Sources/Sample/HFKCalculator.swift:36-44 | the rows of one slice: its survivors are what `Survives` allows; each row is tagged with the slice, has a positive count equal to the survivors of its Maslov degree, every such degree has exactly one row, and the counts add up to the survivors and to their Euler characteristic |
| HFKCalculator.SliceRows | Sources/Sample/HFKCalculator.swift:37-44 | rows built from the multiplicities of the survivors' degrees count the survivors of each degree and cover every degree present |
| HFKCalculator.RunDone | Sources/Sample/HFKCalculator.swift:35-45 | once every slice is reported, the promises of the rows restate over the Alexander layers of the generators |
| HFKCalculator.AppendSlice | Sources/Sample/HFKCalculator.swift:35-45 | concatenating the rows of a new slice, and recording its survivors, keeps every promise made about the rows so far |
| HFKCalculator.AppendSurvives | Sources/Sample/HFKCalculator.swift:35-45 | recording the survivors of a new slice keeps those recorded for the slices done |
| HFKCalculator.AppendSums | Sources/Sample/HFKCalculator.swift:35-45 | the rows of the new slice add its survivors and Euler characteristic to its sums and nothing to the other slices' |
| HFKCalculator.AppendRanks | Sources/Sample/HFKCalculator.swift:35-45 | after concatenation every row still counts the survivors of its slice and degree |
| HFKCalculator.AppendCover | Sources/Sample/HFKCalculator.swift:35-45 | after concatenation every degree with survivors in a slice done still has a row |
| HFKCalculator.AppendDistinct | Sources/Sample/HFKCalculator.swift:35-45 | rows of a new slice with distinct Maslov degrees repeat no pair of the earlier rows |
| HFKCalculator.SubsetCard | Sources/Sample/HFKCalculator.swift:36-37 | a slice's survivors are no more numerous than its generators |
| Scenarios.SharedTarget | Sources/Sample/HFKCalculator.swift:91-102 | with edges `1 -> 3` and `2 -> 3`, cancelling `1 -> 3` leaves `2` and `4` and no edge out of `2` |
| Scenarios.OpenZigZag | Sources/Sample/HFKCalculator.swift:91-102 | with edges `1 -> 3`, `1 -> 4` and `2 -> 3`, cancelling `1 -> 3` creates `2 -> 4` |
| Scenarios.ClosedSquare | Sources/Sample/HFKCalculator.swift:91-102 | with all four edges from `{1, 2}` to `{3, 4}`, cancelling `1 -> 3` deletes `2 -> 4` (mod-2 cancellation) |
| Scenarios.Untouched | Sources/Sample/HFKCalculator.swift:91-102 | an edge `2 -> 4` unrelated to the pair `1 -> 3` survives its cancellation |
| Scenarios.Build | Sources/Sample/SimpleDirectedGraph.swift:13-52 | adding the vertices `1` to `4` and connecting a set of edges from `{1, 2}` to `{3, 4}` gives exactly those edges, with no path of two edges |
| Scenarios.CompetingSources | Sources/Sample/HFKCalculator.swift:86-104 | with edges `1 -> 3` and `2 -> 3`, reducing the layer cancels `3` against exactly one of `1` and `2`; the other survives with `4`, and nothing is left of the codomain |
| Scenarios.NothingToCancel | Sources/Sample/HFKCalculator.swift:50-111 | with a zero differential, reducing the slice `{1, 2, 3}` cancels nothing |
| Scenarios.SingleArrow | Sources/Sample/HFKCalculator.swift:50-111 | a slice where `1`, one degree above `2`, hits `2`: the pair is cancelled and nothing survives |
| Scenarios.EulerOfPair | Sources/Sample/HFKCalculator.swift:86-104 | in the grading of the single arrow, a subset of `{1, 2}` has Euler characteristic `-1` for `1` plus `+1` for `2` |

## Left out

- Parallelism: `parallelFlatMap` processes slices concurrently. The model processes them one after another and concatenates their rows. The order of rows across slices is not specified.
- `print(H)` at the end of `run()` is output. `Run` returns the rows instead.
- The grid diagram, the generator set of the grid complex, and the differential `d[k]` of `GridComplex` (its `.tilde` type, coefficients and `wrap`) are not part of this model. The differential is the parameter `d`, and the degrees are the parameters `maslov` and `alexander`. The filter `AlexanderDegree >= 0` of the convenience initialiser belongs to the construction of the generator set and is not modelled.
- HFKCalculator.Reduce: requires a non-empty slice. The source force-unwraps `gens.keys.range!` and would trap on an empty slice, and `run()` only ever passes non-empty groups. An error value is not modelled because the source has no error path.
- HFKCalculator.Reduce: the sweep follows the code and runs `k` from the highest Maslov degree down to the lowest, inclusive. At the lowest degree the codomain is empty and nothing is cancelled.
- HFKCalculator.Reduce: does not state that the number of survivors per Maslov degree equals the rank of homology, nor that the result does not depend on which target is chosen as the pivot. Both are facts about chain complexes (`d` squares to zero, homotopy invariance) that are outside this model. The Euler characteristic is the invariant proved instead.
- HFKCalculator.Reduce: does not say which generator survives when several compete for one target. That depends on the order of the visits and on the pivot, which the model leaves arbitrary; `Scenarios.CompetingSources` shows that exactly one of two competitors survives.
- Pivot choice: `anyElement` is modelled as an arbitrary choice (`:|`). The order in which Swift iterates sets and dictionaries is modelled as arbitrary in the same way.
- CountMultiplicities: the table is kept in order of first occurrence. The order of the library's dictionary-backed `countMultiplicities` is unspecified, so only the table's contents are promised.
- DirectedGraph.SimpleDirectedGraph.Connect: `assert(v != w)` is checked only in debug builds. The model makes it a precondition.
- DirectedGraph.SimpleDirectedGraph: a Swift value type (`struct` with `mutating` methods) is modelled as a class. Each slice creates its own graph and never shares or copies it, so no copy-on-write behaviour is lost.
- DirectedGraph.SimpleDirectedGraph.AddAll: `add(_ seq:)` accepts any sequence. Callers only pass sets, and the union does not depend on order or duplicates, so the model takes a set.
- Integer widths: Swift's `Int` is 64-bit. Degrees and counts are unbounded integers here, because no overflow can occur at the sizes that fit in memory.
