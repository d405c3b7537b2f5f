# Kruskal's minimum spanning tree with union-find, in Dafny

This project models `Kruskal.cpp`, a small C++ program that does four things:

1. It reads an undirected weighted graph (`n` vertices, `m` lines `a b c`) into adjacency lists (`leituraGrafo`).
2. It extracts each undirected edge once, from its smaller endpoint (`main`).
3. It sorts the edges by weight (`compararArestas`, `std::sort`).
4. It scans them with a disjoint-set structure (`DisjointSet`: `encontrar` with path compression, `unir` linking root under root). An edge is accepted when its endpoints lie in different sets (`kruskalAGM`).

The model keeps the program's form:

- `DisjointSet` is a class over an `array<int>` parent table. `Encontrar` is recursive and writes `pai[i]` on the way back. `Unir` writes `pai[raizX]`.
- The reading, extraction and selection loops are methods with loops that append to sequences.
- The sort works in place on an `array<Aresta>`.

Each imperative member is specified against a function on values:

- Module `Forest` holds the parent-forest theory: `Root`, `Path`, `Compress`, `Classes`, `Merge`.
- Module `Graph` defines edges, walks, connectivity and acyclicity.
- Module `GreedyScan` defines the reference scan `Greedy`. It accepts an edge exactly when the edges accepted before it do not already connect its endpoints. Its lemmas count the accepted edges: V minus the number of connected components.
- Module `Minimality` proves that scanning edges in weight order gives a spanning forest of least total weight.
- Module `Kruskal` holds the selection loop and `kruskalAGM`, proved equal to `Greedy` over the sorted edges.
- Module `Extraction` defines the adjacency lists (`Adjacencia`) and the edges they emit (`Emitidas`, `Canonicas`).
- Module `Programa` composes the three stages as `main` does, without the input and output.

A connected component is counted by its least vertex (`Graph.Reps`): the vertices that no walk joins to a smaller vertex. A spanning forest of a graph (`Graph.SpanningForest`) is a sequence of its edges built without cycles that connects exactly the pairs the graph connects.

Termination of `encontrar` relies on the parent pointers forming a forest. The model proves it with a ghost rank that strictly grows along every parent pointer. The rank exists only in the proof: the program keeps no rank, and the model's stores to `pai` are exactly the program's.

## Model

| member | source | states |
|---|---|---|
| UnionFind.DisjointSet.constructor | Kruskal.cpp:20-25 | every vertex starts as its own parent and its own root; there are n roots |
| Forest.Root | Kruskal.cpp:28-33 | following parent pointers from `i` ends at a vertex that is its own parent; the walk terminates because rank grows strictly along it |
| Forest.Path | Kruskal.cpp:28-33 | every vertex `encontrar(i)` visits is in range and has the same root as `i` |
| UnionFind.DisjointSet.Encontrar | Kruskal.cpp:28-33 | returns the root reached from `i`, which is its own parent, and sets `pai[i]` to it. The new table is the old one with every vertex on the path re-pointed at the root. The partition into sets and the set of roots do not change |
| Forest.CompressKeepsClasses | Kruskal.cpp:32 | path compression leaves `i` pointing at its root. Every vertex keeps its root, so classes and roots are unchanged |
| Forest.RedirectPreservesRoots | Kruskal.cpp:32 | re-pointing any vertices straight at their roots keeps the table a forest and changes no vertex's root |
| Forest.CompressIsIdempotent | Kruskal.cpp:28-33 | a second compression from the same vertex changes nothing |
| UnionFind.EncontrarTwice | Kruskal.cpp:28-33 | two finds of the same vertex with no union between them return the same root, and the table is as after one find |
| UnionFind.DisjointSet.Unir | Kruskal.cpp:36-42 | afterwards x and y have the same root. If the roots were already equal, the partition and the roots are unchanged. Otherwise the class of x's root is merged into y's root, every other class is unchanged, and x's root stops being a root |
| Forest.LinkRoots | Kruskal.cpp:39-41 | linking one root under another keeps the table a forest. Exactly the first root's class moves to the second root, and the number of roots drops by one |
| Forest.IdentityRoots | Kruskal.cpp:20-25 | the initial table has exactly n roots |
| Graph.CompararArestas | Kruskal.cpp:51-53 | a sorts before b exactly when it is strictly lighter |
| Graph.CompararArestasIsStrictWeakOrder | Kruskal.cpp:51-53 | the comparator is irreflexive and transitive, and incomparability is transitive: the order `std::sort` requires |
| Sorting.Ordenar | Kruskal.cpp:62 | after the sort the array is a permutation of its old contents, and no edge is lighter than an edge before it |
| Sorting.Inserir | Kruskal.cpp:62 | one insertion step extends the sorted prefix by one element without changing the multiset of edges; the elements after it stay where they are |
| Graph.ConnectedPermutation | Kruskal.cpp:62 | reordering the edges, as sorting does, does not change which vertices they connect |
| Graph.BuiltAcyclicHasNoCycle | Kruskal.cpp:75-80 | when every edge was appended while its endpoints were unconnected, no edge of any prefix lies on a cycle: removing it disconnects its endpoints |
| GreedyScan.GreedyWithin | Kruskal.cpp:77 | every accepted edge is an input edge |
| GreedyScan.GreedyBuiltAcyclic | Kruskal.cpp:75-80 | the accepted edges are acyclic at every prefix |
| GreedyScan.GreedySpans | Kruskal.cpp:68-81 | the endpoints of every scanned edge are connected by the accepted edges |
| GreedyScan.GreedySameComponents | Kruskal.cpp:68-81 | the accepted edges connect two vertices exactly when the input edges do |
| GreedyScan.GreedySorted | Kruskal.cpp:62-81 | scanning edges in weight order accepts them in weight order |
| GreedyScan.AcceptKeepsPartition | Kruskal.cpp:72-79 | suppose the set labels agree exactly when the accepted edges connect two vertices. Accepting an edge between two different sets and merging the sets keeps that correspondence |
| GreedyScan.RootsCountComponents | Kruskal.cpp:72-79 | when the set labels are the roots and follow connectivity, there are exactly as many roots as connected components |
| GreedyScan.GreedyState | Kruskal.cpp:64-81 | after any scan there is a union-find forest whose roots label exactly the components of the accepted edges, with accepted edges plus roots equal to V |
| GreedyScan.GreedyCount | Kruskal.cpp:64-81 | the scan accepts exactly V minus the number of connected components of the input edges |
| GreedyScan.ScanCount | Kruskal.cpp:64-81 | no edge is accepted without vertices. At most V-1 edges are accepted, and exactly V-1 when the input connects all vertices |
| Graph.AcyclicSnoc | Kruskal.cpp:76-78 | appending an edge whose endpoints are still unconnected keeps the accepted edges acyclic |
| Graph.SameConnectivitySameReps | Kruskal.cpp:62 | edge sequences that connect the same pairs have the same components |
| Minimality.LevesOfGreedy | Kruskal.cpp:62-81 | on sorted edges, the accepted edges of weight at most w are exactly what the scan of the input edges of weight at most w accepts |
| Minimality.LevesAcyclic | Kruskal.cpp:76-78 | dropping the edges heavier than w keeps an acyclic edge sequence acyclic |
| Minimality.RepsMono | Kruskal.cpp:76 | fewer edges leave at least as many components |
| Minimality.GreedyOfAcyclic | Kruskal.cpp:68-81 | the scan accepts every edge of an acyclic sequence |
| Minimality.AcyclicCount | Kruskal.cpp:68-81 | an acyclic edge sequence has V minus its number of components edges |
| Minimality.Threshold | Kruskal.cpp:62-81 | at every weight w, an acyclic choice of input edges has no more edges of weight at most w than the scan of the sorted input accepts |
| Minimality.LighterSum | Kruskal.cpp:78 | a sorted edge sequence as long as another, with at least as many edges at or below every weight, has no larger total weight |
| Minimality.KruskalIsMinimum | Kruskal.cpp:62-81 | scanning the sorted edges gives a total weight no larger than that of any spanning forest of the input graph |
| Kruskal.Considerar | Kruskal.cpp:69-80 | one iteration appends the edge exactly when the accepted edges do not connect its endpoints, which is exactly when `encontrar` gives different roots. The cost stays the sum of the accepted weights, the labels keep following connectivity, and accepted edges plus roots stay constant |
| Kruskal.Aceitar | Kruskal.cpp:76-79 | when the two roots differ: the edge is appended, the cost stays the sum of the accepted weights, the labels keep following connectivity, and `unir` removes exactly one root |
| Kruskal.Selecionar | Kruskal.cpp:64-81 | the loop accepts exactly the `Greedy` choice over the array in order. The cost is the sum of the accepted weights. At most V-1 edges are accepted, none when V is 0, and exactly V-1 when the input is connected. In general, V minus the number of components are accepted |
| Kruskal.KruskalAgm | Kruskal.cpp:56-81 | the array ends sorted and is a permutation of the input. `resultado` is the greedy scan of the sorted array, is acyclic at every prefix (no edge of any prefix lies on a cycle) and is in weight order. The cost is the sum of its weights. Its edges are input edges, and it connects exactly what the input connects. It has V minus the number of components edges: at most V-1, and exactly V-1 when the input graph is connected. Its cost is no larger than the weight of any spanning forest of the input |
| Extraction.IncidentesMembership | Kruskal.cpp:97-98 | a neighbour (v, w) is in u's list exactly when some line joins u and v with weight w |
| Extraction.LeituraGrafo | Kruskal.cpp:92-99 | each list grows by exactly the entries the lines give it, in line order: (b, c) to a's list, then (a, c) to b's |
| Extraction.DeVerticeOriented | Kruskal.cpp:133-139 | every edge emitted from u's list starts at u and ends at a larger vertex |
| Extraction.EmitidasOriented | Kruskal.cpp:130-140 | every emitted edge starts at a scanned vertex and satisfies `origem < destino`, so no self-loop is emitted |
| Extraction.ExtrairArestas | Kruskal.cpp:130-140 | the loops emit the edges `Emitidas` defines, all with `origem < destino` |
| Extraction.DeVerticeAppend | Kruskal.cpp:133-139 | scanning a concatenated list emits the edges of each part in turn |
| Extraction.EmitidasOfLine | Kruskal.cpp:97-98 | the entries one line adds produce its canonical edge exactly once, or nothing for a self-loop |
| Extraction.EmitidasSplit | Kruskal.cpp:130-140 | extraction counts add up over lists concatenated vertex by vertex |
| Extraction.ExtractionCounts | Kruskal.cpp:130-140 | every edge occurs as often among the emitted edges as among the canonical forms of the lines |
| Extraction.ExtractionEmitsEachEdgeOnce | Kruskal.cpp:130-140 | after reading the lines into empty lists, extraction emits each line with `a != b` exactly once, as `(min(a, b), max(a, b), c)`. Self-loops are never emitted, and nothing else is |
| Extraction.OcorrenciasIsMultiplicity | Kruskal.cpp:130-140 | counting occurrences agrees with the multiset of a sequence |
| Extraction.CanonicasInRange | Kruskal.cpp:136-137 | canonical edges of in-range lines stay in range and are oriented |
| Programa.CriarGrafo | Kruskal.cpp:122-124 | n empty lists, then each list holds exactly the entries the lines give it, in line order |
| Programa.LerArestas | Kruskal.cpp:122-140 | the edge vector built from the lines is, as a multiset, the canonical edges of the lines; every edge is in range and oriented |
| Programa.ExecutarAgm | Kruskal.cpp:118-145 | the whole run returns weight-ordered edges, no edge of any prefix lying on a cycle, whose cost is the sum of their weights. Every edge is the canonical form of an input line. They connect exactly what the input connects. They number n minus the number of components: at most n-1, and exactly n-1 when the input graph is connected. The cost is no larger than the weight of any spanning forest of the input graph: the result is a minimum spanning forest |

## Left out

- Input and output: `std::cin` in `main` and `leituraGrafo`, `escritaGrafo`, and the printing in `kruskalAGM`. The lines read are a parameter (`seq<Entrada>`), and `kruskalAGM` returns `resultado` and `custo_total` instead of printing them.
- Floating point: weights are `int`, so sums and comparisons are exact. The rounding of the `double` accumulation and the two-decimal output are not modelled.
- `new int[n]` and `delete[]`: the parent table is a Dafny array owned by the object.
- The tie order of `std::sort`: any sorted permutation is allowed. The model sorts by insertion and proves only sortedness and permutation.
- Vertex indices outside `[0, n)`: the program never checks them. The model requires them to be in range, and does not model what the program does with them.
- Parent tables that are not forests: the program only ever builds forests. The class invariant excludes the others, on which `encontrar` would recurse forever.
- Encontrar: the recursion of `encontrar` is as deep as the parent chain, which can reach V-1 (edges sorted as (0,1), (1,2), ... link each root under the next vertex and no find compresses the chain before it is complete). For large V the C++ recursion can overflow the stack; the model's recursion has no depth limit.
- Integer widths: `int` vertex indices and `custo_total` are unbounded in the model.
