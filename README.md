# Fusion classes of small directed graphs

This project is a Dafny model of `main.py`. That program does two things:

- It enumerates the directed simple graphs on `n` vertices up to isomorphism: no self-loops, and at most one direction per vertex pair.
- Starting from a handful of seed graphs, it explores the closure of each seed under two rewrites. These closures are its *fusion classes*.

The model has these parts:

- **Graph store** (`Digraph`, `GraphStore`). The Python `Graph` object becomes the class `GraphStore.Graph`. Its fields are the successor sets `nodes`, the predecessor sets `backNodes` and the counter `edgeCount`.
  - Its only mutator is `AddEdge`, a three-state toggle of a vertex pair: i→j becomes j→i, j→i disappears, and an absent pair becomes i→j.
  - `Valid()` is the store invariant: the two set arrays mirror each other, there are no self-loops and no two-way pairs, and the counter is the number of edges.
  - The pure value `Digraph.Adj` (a sequence of successor sets) and the function `Digraph.Toggle` are the specification the methods are proved against.
- **Isomorphism** (`Permutations`, `Isomorphism`).
  - `ApplyPermutation` rebuilds a graph under a vertex bijection.
  - `AreIsomorphic` rejects on different vertex or edge counts, and otherwise searches every permutation.
  - `Permutations.AllPermutations` replaces `itertools.permutations` and is proved to list every bijection.
- **Enumerator** (`Pairs`, `Enumerator`). `Gen` runs over every tuple of `itertools.product([0, 1, 2], repeat=n(n-1)/2)` and builds each graph with toggles. It keeps the graph when its hash is unseen, or when no graph in that hash's bucket is isomorphic to it.
- **Rewrites** (`Rewrite`). `Transform1(g, u, v)` toggles (p, v) for each predecessor p of u, then (v, s) for each successor s of u. `Transform2(g, w)` toggles every pair at w twice. Both work on a deep copy.
- **Closure explorer** (`Closure`). `GetAllInclassGraphs` is the FIFO worklist that applies both rewrites and deduplicates by hash only.
- **Driver** (`Fusion`). It covers the seeds, the per-seed classes and the summed class size of `main`.
- **Completeness** (`Symmetry`). Both rewrites commute with vertex relabelling. Take a hash that is an isomorphism invariant and that separates non-isomorphic simple graphs on the seed's vertex count n. Then every graph reachable from a seed is isomorphic to a listed one.
  - No 128-bit hash separates the graphs of every size. For large n even one size has more classes than there are digests, so the assumption is stated for one n.
  - For small n the assumption can hold. On two vertices the edge count is such a hash.

The Weisfeiler–Lehman hash of networkx is foreign code. The model takes it as a parameter `hash: Adj -> Digest`, where a digest is a 128-bit number, and assumes nothing about it unless a lemma says so in its `requires`.

## Model

| member | source | states |
|---|---|---|
| GraphStore.Graph.constructor | main.py:12-15 | A new graph on `nodeCount` vertices has no edges and a zero count, and satisfies the store invariant |
| GraphStore.Graph.Copy | main.py:110 | The deep copy has the same successor sets, predecessor sets and count, and is a separate object |
| GraphStore.Graph.AddEdge | main.py:17-31 | The successor sets become the toggle of the pair {i, j}, and the invariant is kept. No other vertex's sets change. i = j changes nothing. The count is unchanged when i→j was present, one less when j→i was present, and one more when the pair was absent |
| GraphStore.StoreToggle | main.py:17-31 | Each of the three branches, applied to both set arrays, yields the toggle of the successor sets. It keeps the arrays mirrored and the graph simple, and changes the edge count by 0, -1 or +1 |
| Digraph.Toggle | main.py:17-31 | add_edge on values. When i = j nothing changes. Otherwise only the pair {i, j} changes: i→j becomes j→i, j→i disappears, and an absent pair becomes i→j |
| Digraph.Empty | main.py:13-15 | The graph with no edges is simple and has edge count 0 |
| Digraph.ToggleCases | main.py:17-31 | On a simple graph the edge set changes in one of three ways: i→j is replaced by j→i, j→i is removed, or i→j is added. The edge count changes by 0, -1 or +1 accordingly |
| Digraph.ToggleKeepsSimple | main.py:17-31 | A toggle never creates a self-loop or a two-way pair |
| Digraph.ToggleThrice | main.py:17-31 | Three toggles of the same pair restore the graph |
| Permutations.Permute | main.py:45-51 | The relabelled graph has pr[x]→pr[y] exactly when the original has x→y, and it has the same vertex count |
| Permutations.PermuteUnique | main.py:45-51 | Any graph with exactly the relabelled edges is the relabelled graph |
| Permutations.PermuteEdgeCount | main.py:45-51 | Relabelling by a bijection keeps the edge count |
| Permutations.PermuteSimple | main.py:45-51 | Relabelling keeps a graph simple |
| Permutations.PermuteInverse | main.py:45-51 | Relabelling by pr and then by its inverse gives back the graph |
| Permutations.PermuteIdentity | main.py:45-51 | The identity relabelling changes nothing |
| Permutations.AllPermutations | main.py:54-55 | Every listed sequence is a bijection on 0..n-1 |
| Permutations.AllPermutationsComplete | main.py:54-55 | Every bijection on 0..n-1 is listed |
| Permutations.IsomorphicReflexive | main.py:58-66 | Every graph is isomorphic to itself |
| Permutations.IsomorphicSymmetric | main.py:58-66 | Isomorphism is symmetric |
| Permutations.IsomorphicToImage | main.py:58-66 | A graph is isomorphic to each of its relabellings |
| Permutations.IsomorphicEdgeCount | main.py:58-66 | Isomorphic graphs have the same edge count, so the early count test rejects no isomorphic pair |
| Isomorphism.PlaceSuccessors | main.py:49-50 | After the inner loop over the successors of `node`, the new graph holds the image of every edge leaving the vertices up to `node`, and no other edge |
| Isomorphism.ApplyPermutation | main.py:45-51 | The fresh result has edge pr[u]→pr[v] exactly when g has u→v, and it has g's edge count. g is not modified |
| Isomorphism.NoneIsomorphic | main.py:63-66 | When no listed permutation maps g1 onto g2, no bijection does |
| Isomorphism.AreIsomorphic | main.py:58-66 | The result is true exactly when the vertex counts and edge counts agree and some bijection maps g1's successor sets onto g2's. Equivalently, exactly when the graphs are isomorphic |
| Pairs.PairList | main.py:76 | The list has n(n-1)/2 entries, each a pair i < j of vertices, with no pair twice |
| Pairs.PairListComplete | main.py:76 | Every pair i < j of vertices is listed |
| Pairs.Duos | main.py:143 | The list holds exactly the ordered pairs of distinct vertices |
| Enumerator.Product3 | main.py:75 | There are 3^m tuples |
| Enumerator.Product3Sound | main.py:75 | Every tuple has length m and entries in {0, 1, 2} |
| Enumerator.Product3Complete | main.py:75 | Every tuple of length m over {0, 1, 2} is listed |
| Enumerator.EncodesUnique | main.py:80-85 | A simple graph is determined by the states its tuple gives to the vertex pairs |
| Enumerator.EveryGraphEncoded | main.py:75-85 | Every simple graph on n vertices is the graph of some enumerated tuple |
| Enumerator.BuildGraph | main.py:80-85 | The built graph has, for each pair edges[k] = (i, j), no edge, i→j or j→i as combo[k] is 0, 1 or 2. Its edge count is the number of non-zero entries |
| Enumerator.AnyIsomorphic | main.py:92-95 | The for-else scan finds a match exactly when some graph of the bucket is isomorphic to the new graph |
| Enumerator.Admit | main.py:86-105 | A graph is dropped exactly when three things hold: the list is not empty, its hash is a key, and a kept graph with that hash is isomorphic to it. A dropped graph changes nothing. Otherwise the graph is appended to the list and to the bucket of its hash, a new bucket when the hash is unseen; the other buckets are unchanged. Same-hash kept graphs stay pairwise non-isomorphic |
| Enumerator.Sift1 | main.py:80-105 | One loop iteration builds the graph of one tuple and offers it. The kept graphs stay indexed by hash and same-hash ones stay non-isomorphic. The graph of that tuple is now isomorphic to a kept graph |
| Enumerator.Sift | main.py:79-105 | After the loop, same-hash kept graphs are non-isomorphic, and the graph of every tried tuple is isomorphic to a kept graph |
| Enumerator.CoveredAll | main.py:73-106 | Once all tuples are tried, every simple graph on n vertices is isomorphic to a kept graph |
| Enumerator.Gen | main.py:73-106 | Every kept graph is well formed on n vertices. No two kept graphs with the same hash are isomorphic. Every simple graph on n vertices is isomorphic to a kept graph |
| Enumerator.KeptPairwiseNonIsomorphic | main.py:86-105 | If the hash is an isomorphism invariant, no two kept graphs are isomorphic at all |
| Rewrite.Transform1Pairs | main.py:109-115 | Pairs without v keep their state, and so does {u, v}. Each pair {p, v} with p→u is toggled exactly once, and so is each pair {v, s} with u→s. The other pairs at v keep their state, and the result is simple |
| Rewrite.Transform1Order | main.py:111-114 | Toggling the predecessors and then the successors in any order gives the same graph |
| Rewrite.Transform1 | main.py:109-115 | The fresh copy is well formed and equals the graph described by Transform1Pairs. g is not modified |
| Rewrite.ReversePreds | main.py:120-124 | After the double toggles over the snapshot of w's predecessors, every p→w is reversed, nothing else changes, and the edge count is kept |
| Rewrite.ReverseSuccs | main.py:121-127 | After the double toggles over the snapshot of w's successors, every w→s is reversed as well, and the edge count is kept |
| Rewrite.Transform2 | main.py:118-128 | The fresh copy is the graph with every edge at w reversed, and it has g's edge count. g is not modified |
| Rewrite.Transform2Reverses | main.py:118-128 | Every edge at w is reversed, every edge not at w is kept, and the result is simple |
| Rewrite.Transform2Twice | main.py:118-128 | Applying transform2 twice at the same vertex gives back the graph |
| Fusion.Matching | main.py:135-137 | The seed built for an even m ≤ n has exactly the edges 2i→2i+1 for i < m/2, and m/2 as its count |
| Fusion.CreateSourceGraphs | main.py:131-139 | There are ⌊n/2⌋+1 seeds. Seed k has exactly the edges 2i→2i+1 for i < k, so seed 0 is the empty graph |
| Closure.Start | main.py:144-146 | The initial queue and list are [seed] and the table maps the seed's hash to [seed]. This state meets the loop invariant, with no graph yet expanded |
| Closure.ReachesSimple | main.py:150-172 | Every graph reachable from a simple seed by the two rewrites is simple |
| Closure.KeyedAdd | main.py:153-156 | Recording a graph with an unseen hash keeps every bucket a singleton holding its graph, and keeps the hashes of the listed graphs pairwise distinct |
| Closure.Offer | main.py:152-156 | A candidate with an unseen hash is appended to the list, the queue and a new singleton bucket. A candidate with a seen hash changes nothing. Afterwards its hash is a key |
| Closure.Redirect1 | main.py:151-156 | One transform1 neighbour is offered, and afterwards its hash is a key |
| Closure.RedirectAll | main.py:150-156 | After the loop over all ordered pairs of distinct vertices, the hash of every transform1 neighbour is a key |
| Closure.Reverse1 | main.py:167-172 | One transform2 neighbour is offered, and afterwards its hash is a key |
| Closure.ReverseAll | main.py:166-172 | After the loop over all vertices, the hash of every transform2 neighbour is a key |
| Closure.Expand | main.py:150-172 | The hash of every one-step rewrite of the popped graph is a key |
| Closure.Step | main.py:147-172 | One round pops the queue head and expands it. Each round adds a key or shortens the queue, which bounds the loop |
| Closure.Explore | main.py:147-172 | When the queue is empty, the hash of every one-step rewrite of every listed graph is a key |
| Closure.GetAllInclassGraphs | main.py:142-181 | The list starts with the seed and holds well-formed graphs on n vertices, each reachable from the seed. Their hashes are pairwise distinct. There are as many keys as graphs, and each bucket is the singleton of its graph. The hash of every rewrite of a listed graph is a key |
| Fusion.ClassOf | main.py:190 | main's call on one seed gives a class that starts with that seed. Its members are reachable from the seed and carry distinct hashes. Every rewrite of a member has the hash of a member |
| Fusion.ClassesOf | main.py:187-193 | There is one class per seed. Each class starts with its seed and is closed under the rewrites up to the hash. The running total is the sum of the class sizes |
| Fusion.FusionClasses | main.py:184-195 | main returns ⌊n/2⌋+1 classes. Class k starts with seed k and is closed under the rewrites up to the hash, with distinct hashes. The reported total is the sum of the class sizes |
| Symmetry.Transform1Image | main.py:109-115 | transform1 commutes with relabelling: rewriting the relabelled graph at (pr[u], pr[v]) gives the relabelled rewrite |
| Symmetry.Transform2Image | main.py:118-128 | transform2 commutes with relabelling in the same way |
| Symmetry.StepOnCopy | main.py:150-172 | A rewrite of an isomorphic copy is isomorphic to some rewrite of the graph itself |
| Symmetry.ClassComplete | main.py:142-181 | Take a hash that is an isomorphism invariant and separates non-isomorphic simple graphs on n vertices. Then a hash table closed under the rewrites lists a graph isomorphic to each graph reachable from the seed |
| Symmetry.InclassComplete | main.py:142-181 | Under those two hash assumptions for the seed's vertex count, every graph reachable from the seed is isomorphic to some graph in the closure's output |
| Symmetry.CountHashTwoVertices | main.py:41-42 | On two vertices the edge count is an isomorphism-invariant hash that separates the simple graphs. So the hash assumptions of InclassComplete can be met |

## Left out

- `Graph.hash`, `to_nx_graph` and `have_same_h` (main.py:33-42, 69-70) call networkx's Weisfeiler–Lehman hash. The hash is a parameter of the model. Isomorphism invariance and separation are stated only in the `requires` of the lemmas that need them.
- Iteration order of Python sets and dicts is not modelled. The loops over successor and predecessor sets pick an arbitrary remaining element (`:|`), and `Rewrite.Transform1Order` shows that the order does not matter.
- The order of `itertools.permutations` is not modelled. `Permutations.AllPermutations` lists every bijection in an order of its own, and `AreIsomorphic` returns a boolean whatever the order. The order of `itertools.product` is modelled: `Enumerator.Product3` lists the tuples in its lexicographic order, which decides the graph `gen` keeps first in each class.
- `Enumerator.Gen` proves that the kept graphs are well formed and describe the classes. It does not state that they are fresh or pairwise distinct objects.
- `Fusion.FusionClasses`: the count of gen's kept graphs is returned as a number, but nothing beyond its value is stated. The program only prints it beside the summed class sizes and does not compare the two.
- `Closure.GetAllInclassGraphs` does not prove that the list holds one graph per isomorphism class. The program deduplicates by hash only. The list is complete only under the hash assumptions of `Symmetry.InclassComplete`, which are stated for the seed's vertex count n and can hold only for small n. It has no duplicate classes only when the hash is an invariant.
- The exact-isomorphism fallback inside the closure is commented out in the program (main.py:157-164, 173-180) and is not modelled.
- Termination of the closure loop rests on the digest space being finite (2^128 values). Each round either adds a key or shortens the queue.
- `print` calls, the `tqdm` progress bar, the commented-out pickle dump and the `__main__` entry (main.py:191, 194, 198-201) are output only.
- testing.py (pickle loading, a fixed hash lookup and matplotlib drawing) is not part of this model.
- Seeds: for n = 6 the code builds four seeds, the empty graph and the matchings of sizes 1, 2 and 3, because the range ends at n + 1 for even n. The model gives ⌊n/2⌋ + 1 seeds.
