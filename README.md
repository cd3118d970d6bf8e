# persistent-phylogeny, modelled in Dafny

This project models the core of *persistent-phylogeny*, a set of tools that
decide whether a binary species-by-character matrix admits a persistent
perfect phylogeny, and that build the realization sequence of characters
when it does. The model covers the following parts, one Dafny module per
source unit:

- **The red-black graph.** This is the bipartite graph of species and
  characters. Black edges mean "species has character". Red edges mean
  "character is active and the species lacks it". Covered: its queries, its
  in-place updates, and its reader from a matrix file (`src/rbgraph.hpp`,
  `src/rbgraph.cpp`). Modules `RBGraphCore`, `RBGraphs` (class `RBGraph`), `RBGraphOps`, `RBGraphQueries`,
  `RBGraphReduce` and `RBGraphReader`.
- **The realization of characters.** Covered: realizing a positive or
  negative character, realizing a species, realizing a list of characters,
  and the universal / red-universal / red-Σ tests they rest on
  (`src/functions.hpp`, `src/functions.cpp`). Modules `Realization` and
  `DegreeSort`.
- **The LexBFS library.** Covered: the edge and clique types, the graph with
  Lex-BFS and the chordality test of Habib, McConnell, Paul and Viennot, and
  the sparse 0/1 matrix with its consecutive-ones test
  (`src/LexBFS-master/src`). Modules `LexEdge`, `LexClique`, `LexGraph`,
  `LexCliqueClasses`, `LexRefinement` and `LexSparseMatrix`.
- **The polynomial solver.** This is the stand-alone program
  `tests/matrices_for_testing/si/20/polinomiale15.cpp`. Covered: its matrix
  helpers, its preprocessing, its connected components of the matrix, its
  conflict graph, and its red-black graph over arrays. Modules `PolyMatrix`,
  `PolyPreprocess`, `PolyComponents`, `PolyConflict` and `PolyGrb`.
- **The bundle splitter.** `scripts/matrix_parser.py` cuts a file of stacked
  matrices into one file per matrix. Modules `MatrixParser` and `Decimal`.

Shared sequence lemmas live in `Seqs`.

Code that works in place is modelled in place:

- The LexBFS `Graph`, the `SparseMatrix`, the `RBGraph` and the
  polynomial solver's `ConflictGraph` and grb arrays are classes or arrays
  whose methods carry `modifies` clauses.
- Their loops are `while` loops with invariants.
- Each such method is proved against a value-level specification function,
  for example `RBGraphCore.Graph` values and the functions over them. The
  properties the source promises are lemmas about those functions.

Where code and documentation disagree, the model follows the code. The
places where the code evidently does not do what was intended are listed
under "## Findings". In each such case the model keeps both the as-written
behaviour and the intended one.

## Model

| member | source | states |
|---|---|---|
| Decimal.NatToString | scripts/matrix_parser.py:33 | the decimal rendering of `str(i+1)` is non-empty and made only of digits |
| Decimal.ParseNatToString | scripts/matrix_parser.py:33 | parsing the rendering of n gives n back (round trip) |
| Decimal.NatToStringInjective | scripts/matrix_parser.py:33 | different numbers have different renderings |
| MatrixParser.DigitValue | scripts/matrix_parser.py:15-16 | `int(ch)` converts exactly the characters '0'..'9', and the value gives the digit back |
| MatrixParser.ParseHeader | scripts/matrix_parser.py:13-16 | the header parses iff it has 3+ characters and digits at 0 and 2; length is digit 0 plus one and width is digit 2; an empty line raises IndexError, a non-digit first character raises ValueError, a digit-first line of 1 or 2 characters raises IndexError, and a non-digit third character raises ValueError |
| MatrixParser.PassesIsLoopBound | scripts/matrix_parser.py:31-32 | under true division, pass i of `while i < nMatrix` runs iff i·L < B−1 (B body lines) |
| MatrixParser.LoopGuard | scripts/matrix_parser.py:32 | the same test at the pass whose first body line is i·L |
| MatrixParser.RunOffEnd | scripts/matrix_parser.py:32-36 | a pass that reaches past the body is the last pass, and every earlier pass wrote its file |
| MatrixParser.NoRunOff | scripts/matrix_parser.py:32-41 | a loop that ends without reading past the body raises nothing and writes one file per pass |
| MatrixParser.BlockFile | scripts/matrix_parser.py:33 | the file of pass i is named `out_n_<i+1>` |
| MatrixParser.WrittenBlocksAt | scripts/matrix_parser.py:33-38 | the k-th file written is the header followed by body lines k·L .. k·L+L−1 |
| MatrixParser.WrittenBlocksPayload | scripts/matrix_parser.py:30-41 | the files' contents after their headers, concatenated in order, are exactly the first |written|·L body lines |
| MatrixParser.ReadBlock | scripts/matrix_parser.py:34-36 | the inner loop raises iff the body ends before offset+L, and otherwise builds the header plus those L lines |
| MatrixParser.Split | scripts/matrix_parser.py:11-41 | an empty file raises IndexError; a bad header raises its error and writes nothing; otherwise the files written are the blocks in order, their number is the loop count, and IndexError is raised iff the last pass runs off the body |
| MatrixParser.OutNameInjective | scripts/matrix_parser.py:33 | different passes write files with different names |
| MatrixParser.CleanRunIff | scripts/matrix_parser.py:31-36 | the script ends without an exception iff B < 2 or B mod L is 0 or 1 |
| MatrixParser.CleanRunCount | scripts/matrix_parser.py:31-41 | with blocks of 2+ lines, a clean run writes ⌊B/L⌋ files |
| MatrixParser.FailedRunCount | scripts/matrix_parser.py:31-36 | a run that raises has written ⌊B/L⌋ files, and B mod L ≥ 2 |
| MatrixParser.PayloadIsWholeBlocks | scripts/matrix_parser.py:30-41 | with blocks of 2+ lines, the files carry exactly the first L·⌊B/L⌋ body lines in order, whether or not the run raises |
| MatrixParser.SingleLineBlocksDropLast | scripts/matrix_parser.py:15-31 | with header digit 0 (one-line blocks), every body line but the last gets a file and nothing is raised |
| DegreeSort.Firsts | src/functions.cpp:199-200 | reading the vertices back keeps the length and takes each pair's vertex, in order |
| DegreeSort.Pairs | src/functions.cpp:188-189 | one pair per listed vertex, in order, holding its degree |
| DegreeSort.KeepDegreeOfPairs | src/functions.cpp:188-200 | reading back the pairs built from a list gives the list, and each pair's degree is its vertex's |
| DegreeSort.StableSortOrders | src/functions.cpp:191-195 | `list::sort` with `a.second > b.second` orders the pairs by non-increasing degree |
| DegreeSort.StableSortPermutes | src/functions.cpp:195 | the sort is a permutation of the pairs, and so of their vertices |
| DegreeSort.StableSortKeepsTies | src/functions.cpp:195 | the sort is stable: the pairs of each degree keep their relative order |
| DegreeSort.SortedVertices | src/functions.cpp:184-201 | the resulting vertex list is a permutation of the input, has non-increasing degree, and keeps equal-degree vertices in their old order |
| DegreeSort.SortByDegree | src/functions.cpp:184-201 | sort_by_degree leaves a permutation of the list, by non-increasing degree, stable among ties |
| LexEdge.DefaultEdge | src/LexBFS-master/src/Edge.h:14-16 | the default edge joins 0 and 0 |
| LexEdge.OtherEnd | src/LexBFS-master/src/Edge.h:17-19 | `otherEnd(a)` is v when a is u, and u for every other argument |
| LexEdge.OtherEndInvolution | src/LexBFS-master/src/Edge.h:17-19 | taking the other end twice from an endpoint gives it back |
| LexClique.AsUnsigned | src/LexBFS-master/src/Clique.cpp:37 | int → unsigned conversion is reduction modulo 2^32 |
| LexClique.AsSigned | src/LexBFS-master/src/Clique.cpp:44 | unsigned → int conversion is two's complement, within the 32-bit signed range |
| LexClique.SignedRoundTrip | src/LexBFS-master/src/Clique.cpp:44 | converting an unsigned value to int and back gives it back |
| LexClique.EmptyClique | src/LexBFS-master/src/Clique.cpp:10-16 | the default clique has no vertices, id −1 and number −1 |
| LexClique.NewClique | src/LexBFS-master/src/Clique.cpp:18-27 | the vector constructor copies the vertices exactly, with id and number −1 |
| LexClique.ContainsXasOneEntry | src/LexBFS-master/src/Clique.cpp:51-58 | the linear search answers true iff x is a vertex of the clique |
| LexClique.MatchesNumbered | src/LexBFS-master/src/Clique.cpp:36-42 | the inner search answers true iff some numbered entry equals v after unsigned conversion |
| LexClique.ContainsUnnumberedOneEntry | src/LexBFS-master/src/Clique.cpp:32-49 | answers true iff some vertex is unmatched; on success x is the first such vertex as a signed value; otherwise x is unchanged |
| LexClique.ReportedBecomesNumbered | src/LexBFS-master/src/Clique.cpp:32-49 | once the reported vertex is appended to the numbered list it matches, and every earlier match still does |
| LexGraph.FrontShrinks | src/LexBFS-master/src/Graph.cpp:103-147 | taking the front vertex and refining the remaining classes leaves exactly one vertex fewer, so the visit loop ends |
| LexGraph.LexOrderPermutes | src/LexBFS-master/src/Graph.cpp:82-151 | the Lex-BFS visiting order of a partition without empty classes lists every vertex of it exactly once |
| LexGraph.RefinePreserves | src/LexBFS-master/src/Graph.cpp:116-147 | refining the partition by x's neighbours keeps exactly the same vertices and leaves no empty class |
| LexGraph.LeftmostIsMinimum | src/LexBFS-master/src/Graph.cpp:36-43 | the parent scan yields the root iff there is no candidate, and otherwise the candidate numbered first |
| LexGraph.ParentIsFirstRightNeighbour | src/LexBFS-master/src/Graph.cpp:34-46 | under a numbering, parent(x) is the root iff RN(x) is empty, and otherwise the member of RN(x) numbered first |
| LexGraph.EdgelessIsChordal | src/LexBFS-master/src/Graph.cpp:48-78 | a graph without edges passes the containment test under every numbering |
| LexGraph.TablesTest | src/LexBFS-master/src/Graph.cpp:48-72 | with the RN and parent tables built, Algorithm 3's test holds iff every vertex passes the containment check |
| LexGraph.AllCovered | src/LexBFS-master/src/Graph.cpp:50-72 | the outer check answers true iff every vertex passes, stopping at the first failure |
| LexGraph.Covered | src/LexBFS-master/src/Graph.cpp:51-71 | for vertex x: true iff every member of RN(x) other than parent(x) is in RN(parent(x)) |
| LexGraph.NumberingOfVisitOrder | src/LexBFS-master/src/Graph.cpp:100-114 | numbering the k-th visited vertex n−1−k, with every vertex visited once, is a permutation numbering with pi[n] = n |
| LexGraph.Graph.constructor | src/LexBFS-master/src/Graph.cpp:11-23 | n empty incidence lists, m default edges and an all-false n×n matrix |
| LexGraph.Graph.GetIthNeighbour | src/LexBFS-master/src/Graph.h:53-56 | the i-th neighbour of u is the end opposite u of its i-th incident edge |
| LexGraph.Graph.NeighbourIsAdjacent | src/LexBFS-master/src/Graph.h:37-56 | every listed neighbour is marked adjacent in the matrix |
| LexGraph.Graph.InsertEdge | src/LexBFS-master/src/Graph.h:37-44 | appends edge (u, v), adds its index at both ends (each degree grows by one), sets A[u][v] and A[v][u], and changes nothing else |
| LexGraph.Graph.LexBFS | src/LexBFS-master/src/Graph.cpp:82-151 | pi numbers the vertices by a permutation of 0..n−1 with pi[n] = n, and the k-th vertex of the Lex-BFS visiting order LexOrder (front of the first class, then refinement by its neighbours) is numbered n−1−k; vertex 0 is numbered n−1 |
| LexGraph.Graph.VisitAll | src/LexBFS-master/src/Graph.cpp:103-147 | the main loop numbers the k-th vertex of the Lex-BFS order of the partition n−1−k and visits every vertex once |
| LexGraph.Graph.Visit | src/LexBFS-master/src/Graph.cpp:103-147 | one turn takes the front x of the first class, numbers it i, and leaves the refinement of the remaining classes by x's neighbours, holding exactly one vertex fewer |
| LexGraph.Graph.SplitClass | src/LexBFS-master/src/Graph.cpp:121-130 | the class's members adjacent to x move to Y in order, and the rest stay in order |
| LexGraph.Graph.RefineBy | src/LexBFS-master/src/Graph.cpp:116-147 | the in-place loop over the classes computes the refinement by x's neighbours |
| LexGraph.Graph.RefineClassAt | src/LexBFS-master/src/Graph.cpp:117-146 | one step puts Y before Xb, drops an emptied Xb, and moves on past the new classes |
| LexGraph.Graph.RightNeighbourLists | src/LexBFS-master/src/Graph.cpp:34-46 | builds RN(x) and parent(x) for every x, with RN(n) empty |
| LexGraph.Graph.ScanNeighbours | src/LexBFS-master/src/Graph.cpp:36-45 | the scan of x's incidence list gives RN(x) in list order and parent(x) |
| LexGraph.Graph.IsChordal | src/LexBFS-master/src/Graph.cpp:27-79 | the numbering used is the one Lex-BFS gives the visiting order LexOrder, and the answer is true iff it passes Algorithm 3's test: RN(x) minus parent(x) lies in RN(parent(x)) for every x |
| LexCliqueClasses.DoesClassContainClique | src/LexBFS-master/src/SparseMatrix.cpp:372-379 | answers true iff some clique of the class carries the identifier; with ids equal to indices, iff the index is in the class |
| LexCliqueClasses.PartitionSize | src/LexBFS-master/src/SparseMatrix.cpp:170 | a partition of k cliques into non-empty classes has at most k classes |
| LexCliqueClasses.NonSingletonExists | src/LexBFS-master/src/SparseMatrix.cpp:170-179 | while L has fewer classes than cliques, some class has two or more members |
| LexCliqueClasses.NonEmptyFlatten | src/LexBFS-master/src/SparseMatrix.cpp:197-202 | dropping empty classes changes neither the members nor their order |
| LexCliqueClasses.RemoveEmptyClasses | src/LexBFS-master/src/SparseMatrix.cpp:197-202 | the erase-in-place scan leaves exactly the non-empty classes, in order |
| LexCliqueClasses.FindNonSingleton | src/LexBFS-master/src/SparseMatrix.cpp:173-179 | gives −1 iff every class is a singleton or empty, and otherwise the first class with two or more members |
| LexCliqueClasses.GreatestNumbered | src/LexBFS-master/src/SparseMatrix.cpp:182-187 | the position of the clique with the greatest number, the first one on ties |
| LexCliqueClasses.SplitOffGreatest | src/LexBFS-master/src/SparseMatrix.cpp:170-202 | the greatest-numbered clique of the first non-singleton class moves into its own class right after it; the result is still a partition, with one more class |
| LexRefinement.Holders | src/LexBFS-master/src/SparseMatrix.cpp:222-224 | C lists, in index order, exactly the cliques that contain x |
| LexRefinement.MarkClasses | src/LexBFS-master/src/SparseMatrix.cpp:215-233 | C is the set of cliques holding x, and a class is marked iff it holds one of them |
| LexRefinement.MarkClassesOf | src/LexBFS-master/src/SparseMatrix.cpp:227-231 | marks exactly the classes that hold the given clique, and keeps earlier marks |
| LexRefinement.CountChanges | src/LexBFS-master/src/SparseMatrix.cpp:235-243 | counts the flag changes, and the count is below 3 iff the marked classes are consecutive |
| LexRefinement.ChangesConsecutive | src/LexBFS-master/src/SparseMatrix.cpp:236-247 | fewer than three changes iff no unmarked class lies between two marked ones |
| LexRefinement.FindBounds | src/LexBFS-master/src/SparseMatrix.cpp:248-265 | La is the first marked class and Lb ends its run; under consecutiveness the marked classes are exactly La..Lb |
| LexRefinement.AllInside | src/LexBFS-master/src/SparseMatrix.cpp:272-280 | answers true iff every clique of every class strictly between La and Lb is in C |
| LexRefinement.Extract | src/LexBFS-master/src/SparseMatrix.cpp:283-296 | the back-to-front scan leaves the members outside C in order, and collects those in C in reverse order |
| LexRefinement.SplitAround | src/LexBFS-master/src/SparseMatrix.cpp:282-306 | La and Lb are split around C as the source does (Lb's part inserted first), and empty classes are dropped |
| LexRefinement.SplitMembers | src/LexBFS-master/src/SparseMatrix.cpp:283-296 | a split class keeps exactly its members |
| LexRefinement.RefinedKeeps | src/LexBFS-master/src/SparseMatrix.cpp:282-306 | the split keeps a partition of the k cliques and never loses a class |
| LexRefinement.PivotStep | src/LexBFS-master/src/SparseMatrix.cpp:213-306 | for pivot x: the test passes iff the marked classes are consecutive and every inner class lies in C; on a pass, the new list is still a partition |
| LexRefinement.InsideMeansAccepted | src/LexBFS-master/src/SparseMatrix.cpp:247-280 | under consecutive marks, the inner-class check decides the pivot test |
| LexRefinement.ProcessPivots | src/LexBFS-master/src/SparseMatrix.cpp:205-308 | the pivot loop keeps a partition that never shrinks; a failure comes with a vertex whose pivot test fails |
| LexRefinement.PushShared | src/LexBFS-master/src/SparseMatrix.cpp:324-328 | pushes, in order, the vertices of clique i that its parent also holds |
| LexRefinement.CutPivotsMember | src/LexBFS-master/src/SparseMatrix.cpp:318-328 | a vertex is pushed iff the two ends of a crossing tree edge share it |
| LexRefinement.CutEdge | src/LexBFS-master/src/SparseMatrix.cpp:313-330 | an edge with exactly one end in C is cut and its shared vertices pushed; any other edge is left alone |
| LexRefinement.CutTreeEdges | src/LexBFS-master/src/SparseMatrix.cpp:311-331 | every crossing tree edge is cut, its shared vertices are pushed in order, and either an edge went or nothing changed |
| LexRefinement.TreeEdgesCut | src/LexBFS-master/src/SparseMatrix.cpp:329 | cutting a tree edge leaves fewer edges, which bounds the refinement loop |
| LexRefinement.AllSingletons | src/LexBFS-master/src/SparseMatrix.cpp:170 | a partition into as many classes as cliques has singleton classes only |
| LexRefinement.RefineClasses | src/LexBFS-master/src/SparseMatrix.cpp:152-333 | phase two ends; on success L splits the cliques into singleton classes, and on failure some vertex's pivot test fails on the final L |
| LexSparseMatrix.MaxSuccessorIsMaximum | src/LexBFS-master/src/SparseMatrix.cpp:14-18 | the derived vertex count bounds every clique's last vertex plus one (unsigned), and is one of them or 0 |
| LexSparseMatrix.AscendingBelowSuccessor | src/LexBFS-master/src/SparseMatrix.cpp:10-18 | for cliques listed in ascending order, every vertex lies below the derived count |
| LexSparseMatrix.ColumnRowsContents | src/LexBFS-master/src/SparseMatrix.cpp:26-32 | column i lists exactly the rows whose cell is set, strictly increasing |
| LexSparseMatrix.ColumnOf | src/LexBFS-master/src/SparseMatrix.cpp:27-31 | the inner loop builds column i's row list |
| LexSparseMatrix.RollbackAfterAppend | src/LexBFS-master/src/SparseMatrix.cpp:346-358 | removing the identity rows after appending them restores every clique and the vertex count, unsigned wrap-around included |
| LexSparseMatrix.IsLabelGreaterThan | src/LexBFS-master/src/SparseMatrix.cpp:360-370 | answers the source's label comparison (true unless a common position holds a smaller entry); equal labels and the empty label compare as greater |
| LexSparseMatrix.CandidateExists | src/LexBFS-master/src/SparseMatrix.cpp:86-96 | the search finds a column iff some column is unnumbered |
| LexSparseMatrix.PickCandidate | src/LexBFS-master/src/SparseMatrix.cpp:86-96 | the scan returns the column the search specifies |
| LexSparseMatrix.CandidateFound | src/LexBFS-master/src/SparseMatrix.cpp:84-98 | before column j is numbered, the search finds an unnumbered column |
| LexSparseMatrix.LabelHolders | src/LexBFS-master/src/SparseMatrix.cpp:112-120 | every unnumbered column holding x gets label entry i and last = x; every other column is unchanged |
| LexSparseMatrix.NumberVertex | src/LexBFS-master/src/SparseMatrix.cpp:109-121 | x is recorded as numbered, Y(x) = j, its columns are labelled, and i counts down |
| LexSparseMatrix.NumberVertices | src/LexBFS-master/src/SparseMatrix.cpp:107-122 | afterwards every vertex of the picked column is numbered, and only labels changed |
| LexSparseMatrix.NumberNextClique | src/LexBFS-master/src/SparseMatrix.cpp:84-122 | one round numbers one more column, records its tree parent, and keeps phase one's invariant |
| LexSparseMatrix.NumberedByAlphaDistinct | src/LexBFS-master/src/SparseMatrix.cpp:98-100 | with alpha as the inverse numbering, no two columns share a number |
| LexSparseMatrix.ResetCliques | src/LexBFS-master/src/SparseMatrix.cpp:56-60 | every clique gets its index as id, an empty label and number −1 |
| LexSparseMatrix.NumberColumns | src/LexBFS-master/src/SparseMatrix.cpp:56-123 | phase one numbers every column 1..k exactly once, in the order alpha, without changing any column's rows |
| LexSparseMatrix.AppendedBelow | src/LexBFS-master/src/SparseMatrix.cpp:346-351 | after appending, clique i ends with row nv+i, and every row lies below nv+k |
| LexSparseMatrix.RollbackRestores | src/LexBFS-master/src/SparseMatrix.cpp:342-358 | rolling back the renumbered appended matrix restores every clique's rows |
| LexSparseMatrix.SparseMatrix.FromCliques | src/LexBFS-master/src/SparseMatrix.cpp:11-20 | copies the cliques and sets the vertex count to the largest last vertex plus one |
| LexSparseMatrix.SparseMatrix.FromMatrix | src/LexBFS-master/src/SparseMatrix.cpp:22-33 | clique i lists, in ascending order, the rows j with cell (j, i) set |
| LexSparseMatrix.SparseMatrix.AppendIdentityMatrix | src/LexBFS-master/src/SparseMatrix.cpp:346-351 | every clique gains row numofVertices+i, and the count grows by k (unsigned) |
| LexSparseMatrix.SparseMatrix.RollbackOriginalMatrix | src/LexBFS-master/src/SparseMatrix.cpp:353-358 | every clique loses its last row, and the count shrinks by k (unsigned) |
| LexSparseMatrix.SparseMatrix.NumberCliques | src/LexBFS-master/src/SparseMatrix.cpp:56-123 | phase one on the matrix: ids are indices, the numbers are a bijection onto 1..k given by alpha, and the rows are unchanged |
| LexSparseMatrix.SparseMatrix.HasConsecutiveOnesProperty | src/LexBFS-master/src/SparseMatrix.cpp:48-344 | the matrix's rows are restored on every path; a yes comes with a refinement of the appended matrix into singleton classes, and a no with a vertex whose pivot test fails |
| RBGraphCore.OfType | src/rbgraph.cpp:406-421 | keeps exactly the listed vertices of the given type, in order |
| RBGraphCore.Adjacent | src/rbgraph.cpp:651-668 | keeps exactly the listed vertices joined to v, in order |
| RBGraphCore.SpeciesIn | src/rbgraph.cpp:932-956 | keeps exactly the listed species that lie in the given set, in order |
| RBGraphCore.CountersCoverVertices | src/rbgraph.hpp:75-81 | in a valid graph, num_species + num_characters is the number of vertices |
| RBGraphCore.SingletonHasNoEdges | src/rbgraph.hpp:166-178 | out-degree 0 iff no edge leaves v |
| RBGraphCore.ReachClosed | src/rbgraph.cpp:555-573 | the component search keeps its seed, stays in the graph, and ends with no edge leaving the set |
| RBGraphCore.ComponentClosed | src/rbgraph.cpp:555-573 | v's component holds v, lies in the graph, and is closed under edges |
| RBGraphCore.ComponentIsConnectivity | src/rbgraph.cpp:555-573 | w is in v's component iff a path joins v to w (the relation connected_components computes) |
| RBGraphCore.DegreeCountsComponent | src/rbgraph.cpp:454-473 | in a bipartite graph, a character's degree is the number of species of its component iff it is adjacent to each of them |
| RBGraphCore.ClearLeavesStaleCounters | src/rbgraph.cpp:10-13 | clear as written empties a non-empty graph but leaves the counters stale |
| RBGraphCore.ClearEmpties | src/rbgraph.cpp:10-13 | the corrected clear leaves the empty graph, whose counters agree with it |
| RBGraphCore.AddVertexAdds | src/rbgraph.cpp:50-68 | throws iff the name exists; otherwise the name becomes a new last vertex of its type, its counter grows by one, and the graph stays valid |
| RBGraphCore.RemoveVertexRemoves | src/rbgraph.cpp:28-42 | throws iff v is missing; otherwise v and exactly its edges go, its type's counter drops by one, and the graph stays valid |
| RBGraphCore.UniformSubgraph | src/rbgraph.hpp:52-56 | a subgraph with the same types and colours keeps every character's edges of one colour |
| RBGraphCore.RemoveVertexKeepsUniform | src/rbgraph.cpp:28-42 | removing a vertex keeps every character's edges of one colour |
| RBGraphCore.AddEdgeAdds | src/rbgraph.cpp:70-81 | throws iff an end is missing or the edge exists; otherwise exactly the edge (both ways) is added with its colour, and all other edges keep theirs |
| RBGraphCore.RemoveEdgeRemoves | src/rbgraph.cpp:15-22 | throws iff an end is missing or the edge is absent; otherwise exactly that edge goes |
| RBGraphCore.GetEdge | src/rbgraph.cpp:87-96 | succeeds iff the edge exists, and gives its colour, which is the same both ways |
| RBGraphCore.GetVertex | src/rbgraph.cpp:101-106 | succeeds iff the name is in the map, and gives the vertex of that name |
| RBGraphs.RBGraph.constructor | src/rbgraph.hpp:75-81 | a new graph is empty, with zero counters |
| RBGraphs.RBGraph.Copy | src/rbgraph.cpp:150-170 | the copy has the same vertices in order, the same names, types, edges and counters |
| RBGraphs.RBGraph.Clear | src/rbgraph.cpp:10-13 | the object becomes clear's as-written value |
| RBGraphs.RBGraph.AddVertex | src/rbgraph.cpp:50-68 | the object and the outcome are those of add_vertex's specification, including the throw |
| RBGraphs.RBGraph.AddSpecies | src/rbgraph.hpp:287-289 | add_vertex with type species |
| RBGraphs.RBGraph.AddCharacter | src/rbgraph.hpp:299-301 | add_vertex with type character |
| RBGraphs.RBGraph.RemoveVertex | src/rbgraph.cpp:28-42 | the object and the outcome are those of remove_vertex's specification |
| RBGraphs.RBGraph.AddEdge | src/rbgraph.cpp:70-81 | the object and the outcome are those of add_edge's specification |
| RBGraphs.RBGraph.AddBlackEdge | src/rbgraph.hpp:353-356 | add_edge without a colour adds a black edge |
| RBGraphs.RBGraph.RemoveEdge | src/rbgraph.cpp:15-22 | the object and the outcome are those of remove_edge's specification |
| RBGraphs.RBGraph.ClearVertex | src/rbgraph.cpp:35 | every edge at v goes and v stays |
| RBGraphs.RBGraph.RemoveVertexIf | src/rbgraph.hpp:436-442 | the object becomes remove_vertex_if's value: v is cleared and removed exactly when the predicate holds |
| RBGraphs.RBGraph.RemoveSingletons | src/rbgraph.cpp:445-452 | the in-place loop over the vertices leaves remove_singletons' value |
| RBGraphs.RBGraph.ChangeCharType | src/rbgraph.cpp:891-917 | the in-place update leaves change_char_type's value |
| RBGraphs.SingletonsLaterStay | src/rbgraph.cpp:445-452 | the vertices the loop has not reached yet are still in the graph, so the saved next iterator stays valid |
| RBGraphs.CollectNonAdjacentSpecies | src/rbgraph.cpp:892-907 | collects, in vertex order, the species that no edge joins to v |
| RBGraphOps.AttachRed | src/rbgraph.cpp:911-916 | adds exactly a red edge, stored both ways, between v and each listed vertex, and keeps every other edge and colour |
| RBGraphOps.SpeciesAwayFrom | src/rbgraph.cpp:899-907 | keeps exactly the listed species that are not joined to v |
| RBGraphOps.ChangeCharTypeSwaps | src/rbgraph.cpp:891-917 | v's new edges go to exactly the species it was not joined to, all red; every other edge is unchanged; vertices, types and counters are unchanged; the graph stays valid |
| RBGraphOps.ChangeCharTypeKeepsUniform | src/rbgraph.cpp:891-917 | changing a character's type keeps every character's edges of one colour |
| RBGraphOps.ChangedCharacterIsActive | src/rbgraph.cpp:891-917 | after the change, v is active iff it is a character or has no edge left |
| RBGraphOps.ChangeCharTypeTwice | src/rbgraph.cpp:891-917 | in a bipartite graph, changing a character twice gives it back its neighbours |
| RBGraphOps.ClearVertexThenRemove | src/rbgraph.hpp:436-442 | clear_vertex keeps the graph valid and leaves v without edges, and removing v afterwards is the same as removing it directly |
| RBGraphOps.Contains | src/rbgraph.hpp:780-782 | the linear search answers true iff v is in the list |
| RBGraphOps.IfSingletonHolds | src/rbgraph.hpp:166-178 | if_singleton holds iff v has no incident edge |
| RBGraphOps.IfNotMaximalHolds | src/rbgraph.hpp:183-207 | if_not_maximal is false without a list, and otherwise holds iff v is not on the list |
| RBGraphOps.RemoveVertexIfRemoves | src/rbgraph.hpp:436-442 | when the predicate holds, v and its edges go and the graph stays valid; otherwise nothing changes |
| RBGraphOps.DropSingletonsDrops | src/rbgraph.cpp:445-452 | after visiting vs, exactly the visited vertices with no edge are gone; the edges and the other types are unchanged |
| RBGraphOps.RemoveSingletonsKeepsUniform | src/rbgraph.cpp:445-452 | remove_singletons keeps every character's edges of one colour |
| RBGraphOps.RemoveSingletonsKeepsEdged | src/rbgraph.cpp:445-452 | exactly the vertices with an edge remain, each now of positive degree, and the edges are unchanged |
| RBGraphQueries.NeighboursAreEdges | src/rbgraph.cpp:651-668 | the out-edge list of v names exactly the vertices an edge joins to v |
| RBGraphQueries.IsActive | src/rbgraph.cpp:406-421 | the walk over v's edges answers the activity predicate: a character with all edges red, or a species with all edges black |
| RBGraphQueries.IsInactive | src/rbgraph.hpp:645-647 | is_inactive is the negation of is_active |
| RBGraphQueries.IsolatedIsActive | src/rbgraph.cpp:406-421 | a vertex without edges is active |
| RBGraphQueries.IsPendingSpecies | src/rbgraph.cpp:428-443 | true iff s is a species with exactly one incident edge, and that edge is black |
| RBGraphQueries.OnlyNeighbour | src/rbgraph.cpp:428-443 | a vertex has one entry in its out-edge list iff exactly one vertex is joined to it |
| RBGraphQueries.UniversalWith | src/rbgraph.cpp:475-503 | true iff v is a character, all its edges have the colour, and its degree equals the number of species of its component |
| RBGraphQueries.CountSpeciesIn | src/rbgraph.cpp:480-488 | counts the species that lie in the component |
| RBGraphQueries.CountEdgesOfColour | src/rbgraph.cpp:490-497 | reports whether every edge at v has the colour, and if so how many there are |
| RBGraphQueries.IsRedUniversal | src/rbgraph.cpp:454-473 | answers the red-universal predicate |
| RBGraphQueries.IsUniversal | src/rbgraph.cpp:505-524 | answers the universal predicate |
| RBGraphQueries.RedUniversalMeans | src/rbgraph.cpp:454-473 | in a bipartite graph, red-universal iff a character whose edges are red and whose neighbours are exactly the species connected to it |
| RBGraphQueries.UniversalMeans | src/rbgraph.cpp:505-524 | the same with black edges |
| RBGraphQueries.ComponentMeans | src/rbgraph.cpp:555-573 | the species of v's component are exactly the species a path joins to v |
| RBGraphQueries.LookupAdjacentSpecies | src/rbgraph.cpp:670-681 | through the adjacent-species map, a character's list is exactly its neighbours, and any other vertex has none |
| RBGraphQueries.IncludesSpecies | src/rbgraph.cpp:696-707 | true iff every species of c2 is a species of c1 |
| RBGraphQueries.OverlapSpecies | src/rbgraph.cpp:709-719 | true iff neither includes the other and they share a species |
| RBGraphQueries.OverlapSymmetric | src/rbgraph.cpp:709-719 | overlap does not depend on the order of its two characters |
| RBGraphQueries.InactiveAmong | src/rbgraph.cpp:721-733 | keeps exactly the listed characters that are inactive |
| RBGraphQueries.InactiveAmongSnoc | src/rbgraph.cpp:721-733 | one more vertex adds itself at the end iff it is an inactive character |
| RBGraphQueries.InactiveChars | src/rbgraph.cpp:721-733 | get_inactive_chars gives the inactive characters in vertex order |
| RBGraphQueries.MaximalAmong | src/rbgraph.cpp:735-765 | keeps exactly the listed characters that no other one includes |
| RBGraphQueries.ComputeMaximalCharacters | src/rbgraph.cpp:735-765 | maximal_characters gives, in order, the inactive characters that no other inactive character includes |
| RBGraphQueries.MaximalAmongSnoc | src/rbgraph.cpp:735-765 | one more character adds itself at the end iff it is maximal |
| RBGraphQueries.IsMaximalIn | src/rbgraph.cpp:750-759 | the inner loop answers true iff no other character of the list includes v |
| RBGraphQueries.MaximalCharactersMeans | src/rbgraph.cpp:735-765 | c is maximal iff it is an inactive character and every other inactive character misses one of c's species |
| RBGraphQueries.IncludesMeans | src/rbgraph.cpp:696-707 | for two characters, includes says u is joined to every species joined to c |
| RBGraphQueries.EqualCharactersNotMaximal | src/rbgraph.cpp:735-765 | two inactive characters with the same species both fail to be maximal |
| RBGraphQueries.SigmaPathSymmetric | src/rbgraph.cpp:839-889 | a red sigma-path does not depend on the order of its ends |
| RBGraphQueries.HasRedSigmapath | src/rbgraph.cpp:839-889 | true iff some species is red to both ends, some species is red to c0 and not adjacent to c1, and some species is red to c1 and not adjacent to c0 |
| RBGraphQueries.SigmaJunction | src/rbgraph.cpp:841-868 | the first loop finds a species red to both ends iff one exists, and records whether a species is red to c0 and not adjacent to c1 |
| RBGraphQueries.SigmaGraphMeans | src/rbgraph.cpp:808-837 | the pairs examined in list order find a sigma-path iff two distinct active vertices are joined by one |
| RBGraphQueries.HasRedSigmagraph | src/rbgraph.cpp:808-837 | answers the sigma-graph predicate over every ordered pair of active vertices |
| RBGraphQueries.CountActivesToTwo | src/rbgraph.cpp:809-820 | true iff two positions of the vertex list hold active vertices |
| RBGraphQueries.SigmaPairFrom | src/rbgraph.cpp:823-834 | true iff vertex i is active and joined by a red sigma-path to a later active vertex |
| RBGraphQueries.ExistsEdge | src/rbgraph.cpp:108-120 | true iff the edge (u, w) is in the graph |
| RBGraphQueries.IsEmptyMeans | src/rbgraph.hpp:516 | in a valid graph, no vertices iff both counters are zero, and then no names or edges are left |
| RBGraphReduce.ReduceStepKeepsOthers | src/rbgraph.cpp:789-801 | one visit removes at most the visited vertex and keeps the types of the others |
| RBGraphReduce.ReduceFromKeepsOthers | src/rbgraph.cpp:789-801 | the loop never removes a vertex it has not visited |
| RBGraphReduce.ReduceFromValid | src/rbgraph.cpp:789-801 | the loop keeps a valid graph valid |
| RBGraphReduce.ReduceFromRemoves | src/rbgraph.cpp:789-801 | in a bipartite graph, after visiting vs exactly the visited characters that are neither maximal nor spared as active are gone, with exactly their edges |
| RBGraphReduce.SameActivity | src/rbgraph.cpp:796 | a character still present has the same activity as in the original graph, so testing it on the shrinking copy agrees with testing it on g |
| RBGraphReduce.MaximalReducibleMeans | src/rbgraph.cpp:767-806 | the result is valid, its vertices are exactly the kept vertices (species, maximal characters, spared active ones) with an edge to a kept vertex, and its edges are exactly g's edges between kept vertices |
| RBGraphReduce.ReducedThenSingletons | src/rbgraph.cpp:803 | removing the singletons after the loop leaves that shape |
| RBGraphReduce.MaximalReducibleGraph | src/rbgraph.cpp:767-806 | the in-place loop over a fresh copy returns maximal_reducible_graph's value |
| RBGraphReduce.ReduceLaterStay | src/rbgraph.cpp:789-790 | the vertices after the visited one are still in the graph, so the saved next iterator stays valid |
| RBGraphReader.LeadingSpaces | src/rbgraph.cpp:307 | the length of the white-space prefix that extraction skips |
| RBGraphReader.LeadingDigits | src/rbgraph.cpp:307 | the length of the digit run one extraction reads |
| RBGraphReader.HeaderOf | src/rbgraph.cpp:302-331 | a parsed header has positive counts and lists only characters below the character count |
| RBGraphReader.RenderRead | src/rbgraph.cpp:307-322 | reading back numbers written with single blanks gives the same numbers |
| RBGraphReader.HeaderRoundTrip | src/rbgraph.cpp:302-331 | a header with positive counts and in-range listed characters, once written, is read back as itself |
| RBGraphReader.NameInjective | src/rbgraph.cpp:335-342 | two names with the same prefix are equal only for equal numbers |
| RBGraphReader.SpeciesNotCharacter | src/rbgraph.cpp:335-342 | no species name is a character name |
| RBGraphReader.AddNamesFresh | src/rbgraph.cpp:334-345 | adding fresh names never throws; exactly those names are added with their type and nothing else changes |
| RBGraphReader.AddNamesValid | src/rbgraph.cpp:334-345 | adding names keeps the graph valid |
| RBGraphReader.HeaderRunFresh | src/rbgraph.cpp:334-345 | into an empty graph the species and characters are added without a throw, and the graph has exactly them and no edge |
| RBGraphReader.CellStep | src/rbgraph.cpp:353-381 | one cell throws iff it is neither 0 nor 1 or is a 1 past the last row; otherwise it joins species k / numC and character k % numC exactly when it is a 1 |
| RBGraphReader.CellsFromSticky | src/rbgraph.cpp:353-381 | after a throw no later cell is read |
| RBGraphReader.CellsFresh | src/rbgraph.cpp:349-383 | reading the cells succeeds iff none is bad, and then the black edges are exactly the 1 cells; otherwise the error is that of the first bad cell |
| RBGraphReader.ChangeListedKeeps | src/rbgraph.cpp:399-400 | changing the listed characters keeps validity, the vertices and the counters |
| RBGraphReader.ChangeListedUniform | src/rbgraph.cpp:399-400 | changing the listed characters keeps every character's edges of one colour |
| RBGraphReader.ReadUniform | src/rbgraph.cpp:284-401 | a graph read without a throw has every character's edges of one colour |
| RBGraphReader.ReadMeans | src/rbgraph.cpp:284-401 | an empty file throws; a bad first line throws its error; otherwise the read succeeds iff no cell is bad and there are numS x numC cells, and then the graph is the matrix with the listed characters changed |
| RBGraphReader.ParseHeader | src/rbgraph.cpp:302-331 | the number-by-number loop over the first line gives the header function's result |
| RBGraphReader.AddNumbered | src/rbgraph.cpp:334-345 | the loop adding numbered vertices leaves the graph and the error of the names function |
| RBGraphReader.AddHeaderVertices | src/rbgraph.cpp:333-345 | the species then the characters are added as the header asks |
| RBGraphReader.ReadCells | src/rbgraph.cpp:298-384 | the loop over the lines after the first reads every cell in order and, without a throw, counts them all |
| RBGraphReader.ReadLine | src/rbgraph.cpp:353-382 | one line's non-blank characters are read as consecutive cells |
| RBGraphReader.ReadCell | src/rbgraph.cpp:354-381 | one cell updates the graph and the error as the cell function says |
| RBGraphReader.ChangeListedTypes | src/rbgraph.cpp:399-400 | the loop leaves the listed characters changed in order |
| RBGraphReader.ReadGraph | src/rbgraph.cpp:284-401 | read_graph leaves the graph and the error the read function gives, keeping what was done before a throw |
| Realization.Same | src/functions.hpp:74-76 | two signed characters compare equal iff they are the same value |
| Realization.Show | src/functions.hpp:47-64 | the printed form is the name followed by one sign character |
| Realization.ShowRoundTrip | src/functions.hpp:47-64 | the printed form reads back as the same signed character |
| Realization.ShowInjective | src/functions.hpp:47-64 | distinct signed characters print differently |
| Realization.ToggleFlips | src/functions.cpp:52-67 | the c+ loop flips the edge between c and each visited species, makes the new edges red, and leaves every other pair and colour alone |
| Realization.ToggleValid | src/functions.cpp:52-67 | the c+ loop keeps the graph valid |
| Realization.ToggleBipartite | src/functions.cpp:52-67 | the c+ loop keeps the graph bipartite |
| Realization.GainMeans | src/functions.cpp:43-67 | after c+ and before the singletons go, c is joined by red edges exactly to the species of its component it was not joined to, and no other pair changes |
| Realization.NeighboursInComponent | src/functions.cpp:52-67 | a character's neighbours are species of its component, so the loop visits all of them |
| Realization.LoseMeans | src/functions.cpp:95-96 | realizing c- removes c and exactly the edges at it, and keeps the graph valid |
| Realization.AllJoinedIffRedUniversal | src/functions.cpp:80-93 | for a character of a bipartite graph, active and joined to its whole component iff red-universal |
| Realization.LoseFeasibleIffRedUniversal | src/functions.cpp:73-103 | c- succeeds for a character iff it is red-universal |
| Realization.ToggleComponent | src/functions.cpp:52-67 | the in-place loop of remove_edge / add_edge calls leaves the toggled edges |
| Realization.RemoveEdgeValue | src/functions.cpp:63 | remove_edge on an existing edge drops both of its directions |
| Realization.AddEdgeValue | src/functions.cpp:66 | add_edge between unjoined vertices sets both directions to the colour |
| Realization.JoinedToComponent | src/functions.cpp:82-93 | the c- loop answers true iff c is joined to every species of its component |
| Realization.RealizeCharacter | src/functions.cpp:15-121 | realize_character leaves the graph and returns the answer of its specification: a throw for a missing name, (\[c+\], true) for an inactive c, (\[c-\], true) for an active c joined to its whole component, and (\[\], false) with the graph unchanged otherwise |
| Realization.RealizeCharKeeps | src/functions.cpp:15-121 | a realization keeps the graph valid, adds no names, keeps the types, and keeps a bipartite graph bipartite when the name is a character |
| Realization.GainKeeps | src/functions.cpp:43-67 | the same for the graph c+ leaves |
| Realization.LoseKeeps | src/functions.cpp:73-103 | the same for the graph c- leaves |
| Realization.RealizeKeepsUniform | src/functions.cpp:15-121 | a realization keeps every character's edges of one colour |
| Realization.GainJoinedRemoves | src/functions.cpp:43-67 | an inactive character joined to its whole component is realized as c+ and leaves the graph |
| Realization.ToggleKeepsAway | src/functions.cpp:52-67 | the c+ loop leaves alone every pair whose first end is neither c nor a visited species |
| Realization.GainUniform | src/functions.cpp:43-67 | the graph c+ builds keeps every character's edges of one colour |
| Realization.SingletonsKeep | src/functions.cpp:118 | remove_singletons keeps validity, the types and bipartiteness, and adds no name |
| Realization.BipartiteKept | src/functions.cpp:118 | keeping the types and some of the edges keeps a graph bipartite |
| Realization.Realize | src/functions.cpp:141-164 | the in-place loop over the list leaves realize's graph and answer |
| Realization.ListSkipStep | src/functions.cpp:149-151 | a signed character already output is skipped |
| Realization.ListRealizeStep | src/functions.cpp:153-160 | a new signed character is realized, and the run stops at a throw or an infeasible one |
| Realization.UnseenMeans | src/functions.cpp:148-161 | the new signed characters of the list, each once, are exactly those not yet output |
| Realization.ListRealizationAnswer | src/functions.cpp:141-164 | realize throws, or answers (\[\], false), or answers true with each new signed character of the list, in order and once |
| Realization.RealizeOutputsEachOnce | src/functions.cpp:141-164 | a successful realize outputs each signed character of the list exactly once |
| Realization.RealizeSingle | src/functions.cpp:141-164 | realizing a one-element list is realizing its element |
| Realization.ListRealizationAppend | src/functions.cpp:141-164 | realizing a + b is realizing a, then b on the graph a left when a succeeded |
| Realization.RealizeIsOneByOne | src/functions.cpp:141-164 | a successful realize of a list without repeats leaves the graph of realizing its elements one by one |
| Realization.RealizeSpecies | src/functions.cpp:123-139 | realize_species leaves the graph and returns the answer of its specification |
| Realization.InactiveAdjacentGains | src/functions.cpp:132-136 | the loop builds c+ for each inactive neighbour of v, in order |
| Realization.InactiveGainsMeans | src/functions.cpp:132-136 | the list holds exactly the gains of the inactive characters among the neighbours, once each when they have no repeats |
| Realization.SpeciesGains | src/functions.cpp:123-139 | for a species of a bipartite graph, the list is exactly c+ of each inactive character adjacent to it, once each |
| Realization.UniversalRealized | src/functions.cpp:332-363 | a red-universal character realized as c-, or a universal one as c+, succeeds and leaves the graph, which stays valid and bipartite |
| Realization.GainRemovesUniversal | src/functions.cpp:346-358 | c+ of a universal character leaves it without edges, so the sweep removes it |
| Realization.FirstUnsettled | src/functions.cpp:330-363 | the first vertex in list order that is red-universal (to lose) or else universal (to gain), and nothing exactly when every vertex is neither |
| Realization.NextUniversal | src/functions.cpp:330-363 | one scan returns the first red-universal or universal vertex in list order with its state, or shows every vertex is neither |
| Realization.RealizeRedUnivAndUnivChars | src/functions.cpp:323-370 | the output and the new graph are exactly UnivFix of the old graph (each round realizes the first unsettled vertex and restarts the scan); the loop ends with no red-universal or universal vertex left, keeps the graph valid and bipartite, outputs only characters it removed, and answers true iff it output anything |
| Realization.UnivFixStep | src/functions.cpp:332-366 | one round realizes the first unsettled vertex and appends its signed character to the output, leaving a valid bipartite graph |
| Realization.UnivFixSettles | src/functions.cpp:323-370 | the graph UnivFix leaves is valid and bipartite on a subset of the names, has no red-universal or universal vertex, and lacks every character realized on the way |
| Realization.DegreeTwo | src/functions.cpp:504-505 | a degree of two or more means two distinct neighbours |
| Realization.Is2SolvableMeans | src/functions.cpp:498-509 | is_2_solvable holds iff there are two sources and each has two distinct neighbours |
| PolyMatrix.Column | tests/matrices_for_testing/si/20/polinomiale15.cpp:1365-1377 | column c has one entry per row, the row's c-th |
| PolyMatrix.ThreePatterns | tests/matrices_for_testing/si/20/polinomiale15.cpp:4190-4218 | the one-pass flag loop answers true iff each of the three patterns appears in some row |
| PolyMatrix.ShowsSnoc | tests/matrices_for_testing/si/20/polinomiale15.cpp:4190-4218 | one more row shows a pattern iff the earlier rows did or the new row does |
| PolyMatrix.SottomatriceProibita | tests/matrices_for_testing/si/20/polinomiale15.cpp:4190-4218 | 1 iff the two columns hold (0,1), (1,0) and (1,1) in some rows, else 0 |
| PolyMatrix.Overlap | tests/matrices_for_testing/si/20/polinomiale15.cpp:3946-3957 | 1 iff the two characters overlap, else 0 |
| PolyMatrix.NonOverlap | tests/matrices_for_testing/si/20/polinomiale15.cpp:3935-3944 | 1 iff the character overlaps no other character, else 0 |
| PolyMatrix.OverlappingSymmetric | tests/matrices_for_testing/si/20/polinomiale15.cpp:3946-3957 | overlap does not depend on the order of the two characters |
| PolyMatrix.OverlappingDistinct | tests/matrices_for_testing/si/20/polinomiale15.cpp:3946-3957 | a character never overlaps itself |
| PolyMatrix.ShowsSwap | tests/matrices_for_testing/si/20/polinomiale15.cpp:4190-4218 | a pattern (x, y) in columns (c1, c2) is the pattern (y, x) in columns (c2, c1) |
| PolyMatrix.RedSigmaSymmetric | tests/matrices_for_testing/si/20/polinomiale15.cpp:4303-4326 | a red sigma does not depend on the order of the two columns |
| PolyMatrix.SigmaRossi | tests/matrices_for_testing/si/20/polinomiale15.cpp:4303-4326 | 1 iff two distinct columns hold (0,2), (2,0) and (2,2), although the scan tries only half of the ordered pairs |
| PolyMatrix.IncludedRows | tests/matrices_for_testing/si/20/polinomiale15.cpp:2034-2040 | 1 iff no position of the first cols entries has 1 in s1 and 0 in s2 |
| PolyMatrix.SIncluded | tests/matrices_for_testing/si/20/polinomiale15.cpp:1569-1582 | 1 iff species s1 is included in species s2 |
| PolyMatrix.InclusioneCaratteri | tests/matrices_for_testing/si/20/polinomiale15.cpp:1365-1377 | 1 iff column c1 is included in column c2 |
| PolyMatrix.Uguali | tests/matrices_for_testing/si/20/polinomiale15.cpp:1356-1362 | 1 iff the two columns are equal |
| PolyMatrix.EqualRows | tests/matrices_for_testing/si/20/polinomiale15.cpp:2220-2226 | 1 iff the first cols entries of the two rows agree |
| PolyMatrix.SpecieUguali | tests/matrices_for_testing/si/20/polinomiale15.cpp:2212-2218 | 1 iff the two species are equal rows |
| PolyMatrix.SpecieDiversa | tests/matrices_for_testing/si/20/polinomiale15.cpp:2201-2210 | 1 iff species s differs from every earlier species |
| PolyMatrix.EqualIffMutuallyIncluded | tests/matrices_for_testing/si/20/polinomiale15.cpp:2212-2218 | on 0/1 rows, equal iff each is included in the other |
| PolyMatrix.IncludedTransitive | tests/matrices_for_testing/si/20/polinomiale15.cpp:2034-2040 | inclusion chains through a 0/1 middle row |
| PolyMatrix.IncludedNotTransitiveWithRed | tests/matrices_for_testing/si/20/polinomiale15.cpp:2034-2040 | through a row holding a red entry, inclusion does not chain |
| PolyMatrix.ContaUni | tests/matrices_for_testing/si/20/polinomiale15.cpp:1585-1592 | the number of 1 entries among the first cols entries of the row |
| PolyMatrix.Attivo | tests/matrices_for_testing/si/20/polinomiale15.cpp:3861-3867 | 1 iff the column holds a red (2) entry |
| PolyMatrix.InDeg | tests/matrices_for_testing/si/20/polinomiale15.cpp:1617-1624 | the number of 1 entries in the Hasse diagram's column |
| PolyMatrix.OutDeg | tests/matrices_for_testing/si/20/polinomiale15.cpp:1627-1634 | the number of 1 entries in the Hasse diagram's row |
| PolyMatrix.DegreeSums | tests/matrices_for_testing/si/20/polinomiale15.cpp:1617-1634 | the in-degrees and the out-degrees of the Hasse diagram have the same sum |
| PolyMatrix.TrovaMassimo | tests/matrices_for_testing/si/20/polinomiale15.cpp:4328-4345 | the index of the first largest of the first 1000 entries |
| PolyMatrix.DeterminaIndice | tests/matrices_for_testing/si/20/polinomiale15.cpp:4136-4144 | the index of the first -1 entry |
| PolyMatrix.Pad | tests/matrices_for_testing/si/20/polinomiale15.cpp:2044-2057 | n end markers |
| PolyMatrix.Reordered | tests/matrices_for_testing/si/20/polinomiale15.cpp:2044-2057 | the reordered path has the length of the stored one |
| PolyMatrix.RiordinaPercorso | tests/matrices_for_testing/si/20/polinomiale15.cpp:2044-2057 | the first righe entries of ordinato become the stored path's nodes backwards, then end markers; the rest of the array is unchanged |
| PolyMatrix.CountNodes | tests/matrices_for_testing/si/20/polinomiale15.cpp:2050-2053 | the number of entries other than -1 |
| PolyMatrix.ReorderedPath | tests/matrices_for_testing/si/20/polinomiale15.cpp:2044-2057 | on a path stored as nodes then markers, the nodes are reversed and the markers kept |
| PolyMatrix.ReorderedTwice | tests/matrices_for_testing/si/20/polinomiale15.cpp:2044-2057 | reordering a stored path twice gives it back |
| PolyPreprocess.Activatable | tests/matrices_for_testing/si/20/polinomiale15.cpp:887-896 | after the counting loop a species holding a 1 is marked 1, and every other keeps its initial mark |
| PolyPreprocess.Zeros | tests/matrices_for_testing/si/20/polinomiale15.cpp:887-888 | the intended initial marks: 0 for every species |
| PolyPreprocess.AsWrittenInit | tests/matrices_for_testing/si/20/polinomiale15.cpp:887-888 | the initial marks as written: 0 below righe_indotta, stale above |
| PolyPreprocess.PreProcessing | tests/matrices_for_testing/si/20/polinomiale15.cpp:879-937 | the corrected procedure keeps, in order, the first occurrence of each row that holds a 1, and counts them |
| PolyPreprocess.PreProcessingAsWritten | tests/matrices_for_testing/si/20/polinomiale15.cpp:879-937 | the procedure as written keeps the first occurrences whose mark is 1, where a species without a 1 keeps a stale mark |
| PolyPreprocess.KeepRows | tests/matrices_for_testing/si/20/polinomiale15.cpp:890-936 | marking, first occurrences and copying keep, in order, the first-occurrence rows marked activatable |
| PolyPreprocess.MarkActivatable | tests/matrices_for_testing/si/20/polinomiale15.cpp:890-896 | the counting loop sets the marks of the species holding a 1 and leaves the others |
| PolyPreprocess.MarkFirstOccurrences | tests/matrices_for_testing/si/20/polinomiale15.cpp:901-913 | copia is 0 exactly at first occurrences, and nr counts the rows to keep |
| PolyPreprocess.OnesMeanOne | tests/matrices_for_testing/si/20/polinomiale15.cpp:893-895 | a positive count of 1 entries means the row holds a 1 |
| PolyPreprocess.KeptMembers | tests/matrices_for_testing/si/20/polinomiale15.cpp:879-937 | a row is in the corrected reduced matrix iff some species has it and it holds a 1 |
| PolyPreprocess.KeptDistinct | tests/matrices_for_testing/si/20/polinomiale15.cpp:901-913 | no row occurs twice in the reduced matrix |
| PolyPreprocess.KeptFromPrefix | tests/matrices_for_testing/si/20/polinomiale15.cpp:928-936 | every kept row is a row of the input |
| PolyPreprocess.StaleRowKept | tests/matrices_for_testing/si/20/polinomiale15.cpp:888 | a single all-zero species with a stale 1 mark survives as written but is dropped by the corrected procedure |
| PolyComponents.ConnectedSelf | tests/matrices_for_testing/si/20/polinomiale15.cpp:1178-1196 | every vertex is connected to itself |
| PolyComponents.ConnectedStep | tests/matrices_for_testing/si/20/polinomiale15.cpp:1181-1189 | a walk extends by one adjacent vertex |
| PolyComponents.IsolatedAlone | tests/matrices_for_testing/si/20/polinomiale15.cpp:1130-1151 | an all-zero row or column has no neighbour |
| PolyComponents.InitialLabelled | tests/matrices_for_testing/si/20/polinomiale15.cpp:1130-1151 | after the singleton loops the flags and labels describe no component yet, with the singletons labelled -2 |
| PolyComponents.NextComponent | tests/matrices_for_testing/si/20/polinomiale15.cpp:1170-1213 | labelling the closed set grown from the first unchecked vertex with the next id adds one complete component led by that vertex |
| PolyComponents.NextAdjacent | tests/matrices_for_testing/si/20/polinomiale15.cpp:1198-1210 | after the new labels, adjacent checked vertices carry equal labels |
| PolyComponents.LeadersNext | tests/matrices_for_testing/si/20/polinomiale15.cpp:1170-1213 | ids go to component leaders in increasing order, and every vertex labelled k is connected to leader k and comes no earlier |
| PolyComponents.LeaderLabels | tests/matrices_for_testing/si/20/polinomiale15.cpp:1198-1210 | earlier leaders keep their ids and the new one gets the next |
| PolyComponents.LeaderOrder | tests/matrices_for_testing/si/20/polinomiale15.cpp:1172 | a new leader comes after the previous ones |
| PolyComponents.LeaderReaches | tests/matrices_for_testing/si/20/polinomiale15.cpp:1198-1210 | every labelled vertex comes no earlier than its leader and is connected to it |
| PolyComponents.LeadersFew | tests/matrices_for_testing/si/20/polinomiale15.cpp:1170 | there are at most as many components as vertices |
| PolyComponents.LastLeaderBound | tests/matrices_for_testing/si/20/polinomiale15.cpp:1170 | the k-th leader is at least k |
| PolyComponents.UncheckedDrops | tests/matrices_for_testing/si/20/polinomiale15.cpp:1170-1213 | each round checks a new vertex, so the outer loop ends |
| PolyComponents.UncheckedMono | tests/matrices_for_testing/si/20/polinomiale15.cpp:1178-1196 | checking more vertices never raises the unchecked count |
| PolyComponents.NoneUnchecked | tests/matrices_for_testing/si/20/polinomiale15.cpp:1170 | with every vertex checked nothing is left unchecked |
| PolyComponents.RigaSingoletto | tests/matrices_for_testing/si/20/polinomiale15.cpp:1245-1251 | true iff the row is all zero |
| PolyComponents.ColonnaSingoletto | tests/matrices_for_testing/si/20/polinomiale15.cpp:1237-1243 | true iff the column is all zero |
| PolyComponents.FirstUnchecked | tests/matrices_for_testing/si/20/polinomiale15.cpp:1172 | the first unchecked vertex, or the sentinel slot when every vertex is checked |
| PolyComponents.Visit | tests/matrices_for_testing/si/20/polinomiale15.cpp:1179-1189 | current becomes checked and exactly its neighbours become reached as well |
| PolyComponents.NextReached | tests/matrices_for_testing/si/20/polinomiale15.cpp:1191-1193 | the first reached and unchecked vertex, or the sentinel |
| PolyComponents.GrowStep | tests/matrices_for_testing/si/20/polinomiale15.cpp:1178-1196 | checking one reached vertex keeps the growing set's invariant |
| PolyComponents.GrowDone | tests/matrices_for_testing/si/20/polinomiale15.cpp:1196 | when nothing reached is unchecked, the checked set is closed under adjacency |
| PolyComponents.ExpandComponent | tests/matrices_for_testing/si/20/polinomiale15.cpp:1176-1196 | the do-while loop checks exactly the vertices connected to s, and the checked set stays closed |
| PolyComponents.LabelComponent | tests/matrices_for_testing/si/20/polinomiale15.cpp:1198-1210 | checked vertices still labelled -1 get the id; the recorded source is below n iff some vertex is unchecked |
| PolyComponents.CalcolaComponenti | tests/matrices_for_testing/si/20/polinomiale15.cpp:1102-1227 | all-zero rows and columns get -2; the others get ids 0 .. k-1 in order of their leaders; adjacent vertices share an id; each id's vertices are connected to its leader; the result is k-1, or -2 when every row and column is zero |
| PolyComponents.LabelRounds | tests/matrices_for_testing/si/20/polinomiale15.cpp:1170-1213 | the outer loop ends with every vertex checked, and reports whether everything was a singleton |
| PolyComponents.NothingUncheckedMeansIsolated | tests/matrices_for_testing/si/20/polinomiale15.cpp:1168-1175 | when the first scan finds nothing unchecked, every row and column is zero |
| PolyComponents.MarkSingletons | tests/matrices_for_testing/si/20/polinomiale15.cpp:1125-1151 | the singleton loops set the flags exactly at the all-zero rows and columns and the sentinels |
| PolyComponents.Round | tests/matrices_for_testing/si/20/polinomiale15.cpp:1170-1213 | one round labels the next component, or changes nothing when every vertex is checked |
| PolyComponents.RoundDone | tests/matrices_for_testing/si/20/polinomiale15.cpp:1170-1213 | the state after a round keeps the labelling invariant |
| PolyComponents.RoundNext | tests/matrices_for_testing/si/20/polinomiale15.cpp:1170-1213 | a round that found a vertex adds its component |
| PolyComponents.RoundNone | tests/matrices_for_testing/si/20/polinomiale15.cpp:1170-1213 | a round that found the sentinel leaves the flags as they were |
| PolyComponents.NothingLeft | tests/matrices_for_testing/si/20/polinomiale15.cpp:1198-1210 | labelling with every vertex checked changes nothing |
| PolyComponents.Finish | tests/matrices_for_testing/si/20/polinomiale15.cpp:1102-1227 | the final labels, split into rows and columns, have the properties CalcolaComponenti promises |
| PolyComponents.ConnectedSymmetric | tests/matrices_for_testing/si/20/polinomiale15.cpp:1181-1189 | connectivity is symmetric, as adjacency is |
| PolyComponents.ConnectedTransitive | tests/matrices_for_testing/si/20/polinomiale15.cpp:1178-1196 | connectivity is transitive |
| PolyComponents.WalkSameLabel | tests/matrices_for_testing/si/20/polinomiale15.cpp:1102-1227 | labels that agree across every edge agree along every walk |
| PolyComponents.LabelsAreComponents | tests/matrices_for_testing/si/20/polinomiale15.cpp:1102-1227 | two vertices of non-trivial components share a label iff they are connected |
| PolyComponents.ScanAsWritten | tests/matrices_for_testing/si/20/polinomiale15.cpp:1172 | the scan as written stops at the first false flag, and only reaches the end of the flags when every slot is true |
| PolyComponents.InitialChecked | tests/matrices_for_testing/si/20/polinomiale15.cpp:1125-1151 | after the singleton loops a vertex is checked iff it is isolated, and the sentinel is set |
| PolyComponents.ScanOverruns | tests/matrices_for_testing/si/20/polinomiale15.cpp:1172 | on the all-zero 1x1 matrix the scan as written reads past the sentinel slot |
| PolyConflict.WitnessSwap | tests/matrices_for_testing/si/20/polinomiale15.cpp:286-292 | within one component, a row showing (x, y) in columns (i, j) shows (y, x) in columns (j, i) |
| PolyConflict.ConflictSymmetric | tests/matrices_for_testing/si/20/polinomiale15.cpp:265-300 | the conflict relation is symmetric |
| PolyConflict.NoSelfConflict | tests/matrices_for_testing/si/20/polinomiale15.cpp:265-300 | no character is in conflict with itself |
| PolyConflict.ConflictSameComponent | tests/matrices_for_testing/si/20/polinomiale15.cpp:276 | characters in conflict share a component and have a compared species |
| PolyConflict.WitnessSnoc | tests/matrices_for_testing/si/20/polinomiale15.cpp:278-295 | one more row shows a pattern iff the earlier rows did or the new compared row does |
| PolyConflict.FlagStep | tests/matrices_for_testing/si/20/polinomiale15.cpp:286-292 | a flag after row n is set iff it was set or row n is compared and shows its pattern |
| PolyConflict.SpecieNonRealizzata | tests/matrices_for_testing/si/20/polinomiale15.cpp:302-308 | true iff the row has a nonzero entry |
| PolyConflict.CarattereConnesso | tests/matrices_for_testing/si/20/polinomiale15.cpp:311-317 | true iff the column has a nonzero entry among the rows |
| PolyConflict.RedConflict | tests/matrices_for_testing/si/20/polinomiale15.cpp:265-300 | true iff the two characters share a component and its unrealized species show the black sigma (00, 01, 10, 11) or the red sigma (02, 20, 22) |
| PolyConflict.CompareRow | tests/matrices_for_testing/si/20/polinomiale15.cpp:286-292 | each of the seven flags is raised iff it was raised or the row is compared and shows its pattern |
| PolyConflict.RowCountMono | tests/matrices_for_testing/si/20/polinomiale15.cpp:181-191 | the conflicts found in a row grow along the row |
| PolyConflict.BeforeMono | tests/matrices_for_testing/si/20/polinomiale15.cpp:179-193 | the conflicts found grow from row to row |
| PolyConflict.ArcNumbersOrdered | tests/matrices_for_testing/si/20/polinomiale15.cpp:179-193 | an edge found earlier gets a smaller number, and the numbers lie in 1 .. the final edge count |
| PolyConflict.ArcNumberBound | tests/matrices_for_testing/si/20/polinomiale15.cpp:188 | every edge number lies in 1 .. the final edge count |
| PolyConflict.RowCountIsolated | tests/matrices_for_testing/si/20/polinomiale15.cpp:180 | a character with an all-zero column finds no conflict |
| PolyConflict.Link | tests/matrices_for_testing/si/20/polinomiale15.cpp:257-258 | linking keeps one list per vertex |
| PolyConflict.LinkNeighbours | tests/matrices_for_testing/si/20/polinomiale15.cpp:257-258 | linking i and j adds exactly j to i's list and i to j's |
| PolyConflict.DecreasingCons | tests/matrices_for_testing/si/20/polinomiale15.cpp:257 | a larger vertex at the head keeps a list decreasing |
| PolyConflict.DecreasingDistinct | tests/matrices_for_testing/si/20/polinomiale15.cpp:257 | a decreasing list repeats no vertex |
| PolyConflict.Forward | tests/matrices_for_testing/si/20/polinomiale15.cpp:224-231 | a list gives at most one arc per entry |
| PolyConflict.ForwardMember | tests/matrices_for_testing/si/20/polinomiale15.cpp:225 | the arcs of one list are exactly the pairs (a, w), a < w, with w on the list |
| PolyConflict.ForwardCons | tests/matrices_for_testing/si/20/polinomiale15.cpp:225 | a new head adds one arc iff it is larger than the list's vertex |
| PolyConflict.ForwardPrefix | tests/matrices_for_testing/si/20/polinomiale15.cpp:224-231 | the walk of a list emits its arcs in list order |
| PolyConflict.ArcsUpdate | tests/matrices_for_testing/si/20/polinomiale15.cpp:221-232 | replacing one list changes the arc count by that list's difference |
| PolyConflict.ArcsMono | tests/matrices_for_testing/si/20/polinomiale15.cpp:221-232 | the arcs of fewer lists are no more |
| PolyConflict.LinkArcs | tests/matrices_for_testing/si/20/polinomiale15.cpp:186-188 | linking i < j adds one arc |
| PolyConflict.InConcat | tests/matrices_for_testing/si/20/polinomiale15.cpp:221-232 | membership in a concatenation is membership in one part |
| PolyConflict.ArcsMember | tests/matrices_for_testing/si/20/polinomiale15.cpp:221-232 | the listed arcs are exactly the pairs (a, b), a < b, with b on a's list |
| PolyConflict.BuiltBounded | tests/matrices_for_testing/si/20/polinomiale15.cpp:257-258 | the lists hold characters only |
| PolyConflict.ArcsOfEmpty | tests/matrices_for_testing/si/20/polinomiale15.cpp:173-176 | empty lists give no arcs |
| PolyConflict.ScanStart | tests/matrices_for_testing/si/20/polinomiale15.cpp:164-176 | before the scan there are no numbers, no edges and empty lists |
| PolyConflict.RowBegin | tests/matrices_for_testing/si/20/polinomiale15.cpp:181 | row i of the scan starts at column i + 1 |
| PolyConflict.RowEnd | tests/matrices_for_testing/si/20/polinomiale15.cpp:179-193 | the end of one row is the start of the next |
| PolyConflict.RowSkip | tests/matrices_for_testing/si/20/polinomiale15.cpp:180 | the scan skips a character with an all-zero column |
| PolyConflict.ScanPass | tests/matrices_for_testing/si/20/polinomiale15.cpp:182-184 | a pair in no conflict leaves the state unchanged |
| PolyConflict.ScanConflict | tests/matrices_for_testing/si/20/polinomiale15.cpp:184-188 | a conflict gets the next number in both cells and enters both lists |
| PolyConflict.ScanDone | tests/matrices_for_testing/si/20/polinomiale15.cpp:179-193 | after the scan each cell holds its edge number, edges counts every conflict, and each list holds, in decreasing order, exactly the characters in conflict with its vertex |
| PolyConflict.ReachesSelf | tests/matrices_for_testing/si/20/polinomiale15.cpp:427-479 | every vertex reaches itself |
| PolyConflict.ReachesStep | tests/matrices_for_testing/si/20/polinomiale15.cpp:465-473 | a walk extends along a list |
| PolyConflict.PathStays | tests/matrices_for_testing/si/20/polinomiale15.cpp:427-479 | a walk starting in a set closed under the lists stays in it |
| PolyConflict.WholeComponentFillsBuffer | tests/matrices_for_testing/si/20/polinomiale15.cpp:432-476 | when every vertex is reachable, the component fills the whole buffer, so the -1 terminator is written one past its end |
| PolyConflict.SingleVertexOverruns | tests/matrices_for_testing/si/20/polinomiale15.cpp:432-476 | one character without conflicts has component [0], which fills the one-slot buffer |
| PolyConflict.SentinelEmpty | tests/matrices_for_testing/si/20/polinomiale15.cpp:445-456 | the visit stops exactly when the stack is empty |
| PolyConflict.ApartPop | tests/matrices_for_testing/si/20/polinomiale15.cpp:458-462 | taking the top vertex off the stack keeps every vertex in at most one place |
| PolyConflict.ApartPush | tests/matrices_for_testing/si/20/polinomiale15.cpp:466-469 | pushing a new vertex keeps every vertex in at most one place |
| PolyConflict.AllReachSnoc | tests/matrices_for_testing/si/20/polinomiale15.cpp:466-469 | a pushed neighbour is reachable from the root |
| PolyConflict.AllReachPrefix | tests/matrices_for_testing/si/20/polinomiale15.cpp:458-462 | a prefix of reachable vertices is reachable |
| PolyConflict.MarksPop | tests/matrices_for_testing/si/20/polinomiale15.cpp:458-462 | taking the top off the stack keeps the VISITED marks exact |
| PolyConflict.MarksPush | tests/matrices_for_testing/si/20/polinomiale15.cpp:466-469 | a pushed vertex is marked VISITED |
| PolyConflict.AllVisitedNext | tests/matrices_for_testing/si/20/polinomiale15.cpp:465-473 | the walk of a list leaves every vertex seen VISITED |
| PolyConflict.DfsStart | tests/matrices_for_testing/si/20/polinomiale15.cpp:445-450 | the visit starts with the root on the stack, VISITED |
| PolyConflict.DfsBound | tests/matrices_for_testing/si/20/polinomiale15.cpp:428-432 | the stack and the output together hold at most one slot per vertex |
| PolyConflict.DfsPop | tests/matrices_for_testing/si/20/polinomiale15.cpp:458-462 | taking the top off the stack keeps the visit invariant |
| PolyConflict.ExploredPop | tests/matrices_for_testing/si/20/polinomiale15.cpp:458-462 | taking a vertex off the stack keeps the explored lists explored |
| PolyConflict.DfsPush | tests/matrices_for_testing/si/20/polinomiale15.cpp:466-469 | pushing an unvisited neighbour keeps the visit invariant |
| PolyConflict.ExploredMark | tests/matrices_for_testing/si/20/polinomiale15.cpp:469 | marking a vertex keeps the explored lists explored |
| PolyConflict.ExploredLast | tests/matrices_for_testing/si/20/polinomiale15.cpp:465-473 | once its list is all VISITED, the last taken vertex is explored |
| PolyConflict.DfsDone | tests/matrices_for_testing/si/20/polinomiale15.cpp:452-456 | with the stack empty, the output is exactly the component of the root, once each, and VISITED means reachable |
| PolyConflict.ListRow | tests/matrices_for_testing/si/20/polinomiale15.cpp:222-231 | the walk of one list writes its arcs to the next rows |
| PolyConflict.GuardAsWritten | tests/matrices_for_testing/si/20/polinomiale15.cpp:246-254 | the range check as written refuses only i or j below 0 or above the vertex count |
| PolyConflict.GuardAdmitsVertex | tests/matrices_for_testing/si/20/polinomiale15.cpp:246-254 | the written check lets (vertex, 0) through, which the intended check refuses, and that is the only kind of pair it wrongly admits |
| PolyConflict.ConflictGraph.constructor | tests/matrices_for_testing/si/20/polinomiale15.cpp:151-240 | every cell holds its edge number, edges counts the conflicts, each list holds exactly the conflicting characters in decreasing order, every status is NOTVISITED, mapping is the identity and archi_gabry lists the arcs |
| PolyConflict.ConflictGraph.ClearMatrix | tests/matrices_for_testing/si/20/polinomiale15.cpp:164-168 | every cell becomes 0 |
| PolyConflict.ConflictGraph.BuildConflicts | tests/matrices_for_testing/si/20/polinomiale15.cpp:179-193 | the scan over all pairs builds the numbered edges and the lists |
| PolyConflict.ConflictGraph.ScanRow | tests/matrices_for_testing/si/20/polinomiale15.cpp:181-191 | one row of the scan keeps the scan state |
| PolyConflict.ConflictGraph.AddEdge | tests/matrices_for_testing/si/20/polinomiale15.cpp:186-188 | a conflict is linked and numbered |
| PolyConflict.ConflictGraph.Number | tests/matrices_for_testing/si/20/polinomiale15.cpp:188 | both cells of the edge get the number and no other cell changes |
| PolyConflict.ConflictGraph.InsertEdge | tests/matrices_for_testing/si/20/polinomiale15.cpp:243-261 | with both characters in range, each goes to the head of the other's list; otherwise the program exits and nothing changes |
| PolyConflict.ConflictGraph.ResetStatus | tests/matrices_for_testing/si/20/polinomiale15.cpp:481-488 | every status becomes NOTVISITED |
| PolyConflict.ConflictGraph.Identity | tests/matrices_for_testing/si/20/polinomiale15.cpp:207-210 | every character maps to itself |
| PolyConflict.ConflictGraph.ListArcs | tests/matrices_for_testing/si/20/polinomiale15.cpp:212-232 | archi_gabry holds the arcs, each once from its smaller end, in list order |
| PolyConflict.ConflictGraph.ComputeConnectedComponent | tests/matrices_for_testing/si/20/polinomiale15.cpp:427-479 | for a character in range, the output lists the characters reachable from it, it first, each once, followed by -1 when there is room; VISITED means reachable; out of range, the program exits |
| PolyConflict.ConflictGraph.VisitTop | tests/matrices_for_testing/si/20/polinomiale15.cpp:454-473 | one round of the visit keeps its invariant and makes progress |
| PolyConflict.ConflictGraph.PushNeighbours | tests/matrices_for_testing/si/20/polinomiale15.cpp:465-473 | pushing the unvisited vertices of the list keeps the visit invariant and explores the taken vertex |
| PolyGrb.Graph | tests/matrices_for_testing/si/20/polinomiale15.cpp:1873 | a cell is an edge iff Grb holds a black (1) or red (2) edge there |
| PolyGrb.Push | tests/matrices_for_testing/si/20/polinomiale15.cpp:1874-1875 | marking an unmarked vertex and opening its visit keeps the search invariant and leaves fewer unmarked vertices |
| PolyGrb.Pop | tests/matrices_for_testing/si/20/polinomiale15.cpp:1869-1898 | closing a visit whose neighbours are all marked keeps the search invariant |
| PolyGrb.Through | tests/matrices_for_testing/si/20/polinomiale15.cpp:1876 | a completed search from a neighbour extends the search from the vertex |
| PolyGrb.ReachedThrough | tests/matrices_for_testing/si/20/polinomiale15.cpp:1869-1898 | a vertex reached from a neighbour of s is reached from s |
| PolyGrb.ValutaColonna | tests/matrices_for_testing/si/20/polinomiale15.cpp:1869-1881 | every new mark is connected to the character, the search invariant is kept, and every species joined to it ends up marked |
| PolyGrb.ReachSpecies | tests/matrices_for_testing/si/20/polinomiale15.cpp:1873-1877 | marking species i and searching on from it marks i and keeps the search invariant |
| PolyGrb.ValutaRiga | tests/matrices_for_testing/si/20/polinomiale15.cpp:1883-1898 | every new mark is connected to the species, the search invariant is kept, and every character joined to it ends up marked |
| PolyGrb.ReachCharacter | tests/matrices_for_testing/si/20/polinomiale15.cpp:1888-1892 | marking character j and searching on from it marks j and keeps the search invariant |
| PolyGrb.WalkMarked | tests/matrices_for_testing/si/20/polinomiale15.cpp:1869-1898 | once the search from s is over, every walk from s ends on a marked vertex or on s |
| PolyGrb.SearchFindsComponent | tests/matrices_for_testing/si/20/polinomiale15.cpp:1869-1898 | a search over blank marks marks with 1 exactly the vertices other than s connected to s |
| PolyGrb.ComponenteCarattere | tests/matrices_for_testing/si/20/polinomiale15.cpp:1834-1839 | afterwards tspecie holds 1 exactly for the species connected to the character and 0 elsewhere |
| PolyGrb.Realized | tests/matrices_for_testing/si/20/polinomiale15.cpp:1951-1973 | only unrealized species with an empty row become realized, and afterwards every species with an empty row is realized |
| PolyGrb.AggiornaSpecieRealizzate | tests/matrices_for_testing/si/20/polinomiale15.cpp:1951-1973 | the flags become Realized of the old flags and Grb |
| PolyGrb.EvolvesTransitive | tests/matrices_for_testing/si/20/polinomiale15.cpp:1900-1949 | two updates of the active characters in a row are one update |
| PolyGrb.ActiveShrinks | tests/matrices_for_testing/si/20/polinomiale15.cpp:1933 | switching off an active character leaves strictly fewer active characters |
| PolyGrb.AggiornaCaratteriAttivi | tests/matrices_for_testing/si/20/polinomiale15.cpp:1900-1949 | Grb and the flags end exactly as the scan Scan from column 0 leaves them (a character is switched off only when no species of its component lacks a red edge to it, and each switch-off restarts the update before the scan goes on); characters are only switched off and lose all their edges, nothing else in Grb changes, every active character afterwards still has a species of its component without a red edge to it, and after any change every species with an empty row is realized |
| PolyGrb.ScanSettles | tests/matrices_for_testing/si/20/polinomiale15.cpp:1900-1949 | the scan only switches off characters as Evolves allows; without a change every active character from the start column on is still needed, and after a change every active character is still needed and every empty row is realized |
| PolyGrb.ScanStable | tests/matrices_for_testing/si/20/polinomiale15.cpp:1910-1928 | on a Grb where every active character is still needed the scan changes nothing, so a second update after the first is a no-op |
| PolyGrb.ScanSwitchesOff | tests/matrices_for_testing/si/20/polinomiale15.cpp:1929-1943 | at an active character that is no longer needed the scan empties its column, updates the realized species, runs a fresh update from column 0 and continues at the next column with fewer active characters |
| PolyGrb.Necessario | tests/matrices_for_testing/si/20/polinomiale15.cpp:1914-1925 | the count is 0 iff every species of the character's component has a red edge to it |
| PolyGrb.Esamina | tests/matrices_for_testing/si/20/polinomiale15.cpp:1912-1943 | one turn of the scan on character i takes Grb and the flags from the state the scan has at column i to the one it has at column i + 1 |
| PolyGrb.Disattiva | tests/matrices_for_testing/si/20/polinomiale15.cpp:1930-1943 | switching off character i leaves exactly what the scan from column 0 leaves on Grb with column i emptied, i inactive and the realized species updated; the result is stable and all empty rows are realized |
| PolyGrb.Unreddened | tests/matrices_for_testing/si/20/polinomiale15.cpp:1923-1925 | the count is 0 iff no species of the component lacks a red edge to the character |
| PolyGrb.SvuotaColonna | tests/matrices_for_testing/si/20/polinomiale15.cpp:1936 | column i becomes all zero and nothing else changes |
| PolyGrb.Painted | tests/matrices_for_testing/si/20/polinomiale15.cpp:1841-1861 | column i loses its black edges and gets a red edge exactly for the unrealized species of i's component with no edge to i; other columns are unchanged |
| PolyGrb.UniversalColumn | tests/matrices_for_testing/si/20/polinomiale15.cpp:1820-1867 | after making i universal column i has no black edge; if i stays active its red edges are the old ones plus the newly reddened species, and if it was switched off it has no edge |
| PolyGrb.RendiUniversale | tests/matrices_for_testing/si/20/polinomiale15.cpp:1820-1867 | i becomes universal; Grb and the flags are exactly what the update scan leaves on the painted matrix with i active, the active characters are stable, and the extended matrix gets 1 in columns 2i and 2i+1 exactly for the reddened species when flag is 1 |
| PolyGrb.ColoraColonna | tests/matrices_for_testing/si/20/polinomiale15.cpp:1841-1861 | the painting loop leaves Grb equal to Painted and marks the extended matrix for the reddened species |
| PolyGrb.ColoraSpecie | tests/matrices_for_testing/si/20/polinomiale15.cpp:1843-1859 | one step paints exactly entry (j, i) and marks columns 2i, 2i+1 of row j when j is reddened and flag is 1 |
| Decimal.ParseNat | scripts/matrix_parser.py:33 | a string of k digits parses to a number below 10^k (the inverse of the rendering) |
| LexGraph.NumberVertex | src/LexBFS-master/src/Graph.cpp:113-114 | x gets number i = n − 1 − (vertices already visited), nothing else changes, and the visit order stays numbered |
| LexGraph.ReplaceClass | src/LexBFS-master/src/Graph.cpp:132-146 | the class is replaced by Y then the remainder, each only when non-empty, and the cursor moves past them |

## Left out

- LexGraph.Graph.LexBFS: requires n > 0. With n = 0 the source takes the front of an empty list (src/LexBFS-master/src/Graph.cpp:104-105), which is undefined behaviour, so there is nothing to model.
- LexGraph.Graph.IsChordal: requires n > 0 for the same reason, since it calls Lex_BFS first.
- PolyMatrix.DeterminaIndice: requires a -1 among the first n entries. Without one, the source runs off the end of a non-void function (undefined behaviour). Its bound is the global colonneO, which the model passes as n.
- RBGraphReader.ReadGraph: fewer than two numbers on the first line gives the error HeaderIncomplete. The source never raises it: it goes on with num_s and num_c uninitialised (src/rbgraph.cpp:303-325).
- RBGraphReader.ReadGraph: header numbers are read as runs of decimal digits. A leading '-' is not modelled; reading into size_t accepts it and wraps the value. A value above SIZE_MAX is not modelled either; reading saturates it and stops the header loop.
- LexSparseMatrix.NumberVertices: requires the vertex and clique counts to stay within half of 2^32. Its int and unsigned values then agree, so no signed/unsigned conversion wraps. Larger matrices are not modelled.
- LexSparseMatrix.SparseMatrix.NumberCliques: requires the vertex and clique counts to stay within half of 2^32. Its int and unsigned values then agree, so no signed/unsigned conversion wraps. Larger matrices are not modelled.
- LexSparseMatrix.SparseMatrix.HasConsecutiveOnesProperty: requires the vertex and clique counts to stay within half of 2^32. Its int and unsigned values then agree, so no signed/unsigned conversion wraps. Larger matrices are not modelled.
- LexSparseMatrix.SparseMatrix.FromMatrix: requires the vertex and clique counts to stay within half of 2^32. Its int and unsigned values then agree, so no signed/unsigned conversion wraps. Larger matrices are not modelled.
- LexSparseMatrix.SparseMatrix.HasConsecutiveOnesProperty: what is proved is termination, that the matrix is left unchanged, that the first phase numbers the cliques distinctly, and the structure of the refinement (a failure means a rejected pivot; success means all classes are singletons). That the answer is true exactly when the matrix has the consecutive-ones property is not proved.
- LexSparseMatrix: treeParentArray stores clique numbers (1..k-1) but the source indexes cliques with them. The model does the same.
- MatrixParser.DigitValue: int() of one character is modelled for the ASCII digits '0'..'9' only. Python also accepts other Unicode decimal digits.
- Realization.RealizeSpecies: get_adj_vertices (src/functions.cpp:132) is declared but has no definition. The model takes the neighbours of v in vertex order.
- Realization.Is2SolvableMeans: is_2_solvable calls the same undefined get_adj_vertices (src/functions.cpp:504-505). The model takes it to be the neighbours again.
- PolyGrb.AggiornaSpecieRealizzate: the write to the global specieRealizzate (tests/matrices_for_testing/si/20/polinomiale15.cpp:1967) is not modelled. Only the array passed in is updated.
- PolyConflict.ConflictGraph.ComputeConnectedComponent: -1 is written after the component only when there is room in the buffer. The source writes it unconditionally (tests/matrices_for_testing/si/20/polinomiale15.cpp:476), one past the end when the component is every vertex (see Findings).
- PolyPreprocess.PreProcessingAsWritten requires righe_indotta to be at most the number of rows, and takes the stale contents of attivabile as a parameter. At the one call in the program, righe_indotta is 0 and the loop bound rO equals righe.
- Realization.Realize: the test at tests/rbgraph_tests.cpp:1051-1077 realizes a whole sequence and ends with an empty graph. That end-to-end run is not proved. GainJoinedRemoves and the single-step lemmas cover each step it takes.
- RBGraphCore: vertices are names, so the name-to-vertex map is the name set itself. build_vertex_map (src/rbgraph.cpp:140-148), Boost descriptors, adjacency_list storage and property maps are not modelled. Connected components are a reachability relation.
- RBGraphCore.RemoveVertex follows the intended behaviour and decrements the counter of the removed vertex's type. The source reads the type after removing the vertex (src/rbgraph.cpp:36-41), which is undefined behaviour.
- Printing and logging are not modelled: the RBGraph pretty-printer, printMatrix, every console write and every logging branch. File opening in read_graph and in the splitter is also left out; both read in-memory lines. The splitter's directory creation and file writes are left out too; its output is a list of (name, contents) pairs.
- These functions are declared but never defined, so they are not part of this model: get_neighbors, includes_species, includes_characters, overlaps_character, get_active_species, get_adj_inactive_characters, get_pending_species, is_degenerate, remove_duplicate_species, ppr_general. Neither are the heuristics that depend on them: get_all_minimal_p_active_species, get_quasi_active_species, ppp_maximal_reducible_graphs, get_extension, get_sources, closure.
- The connected_components subgraph builder (src/rbgraph.cpp:555-600) is Boost plumbing and is not modelled.
- The old solver's driver is not modelled: main, riduciMatrice, the path enumeration, trovaPercorsi, costruisciPercorsoParziale, trovaStar, specieContenuta and contaInclusioni. It is global-state search ending in exit() and file appends.
- Memory management is not modelled: delete versus delete[], leaks, variable-length arrays.
- exit(-1) in insert_edge and compute_connected_component becomes a false ok result that leaves the state unchanged.

## Findings

| source | as written | input that shows it | evidently intended | confidence | as-written member | corrected member |
|---|---|---|---|---|---|---|
| src/rbgraph.cpp:10-13 | clear() empties the Boost graph and the name map, but the species and character counters keep their old values | a graph with one species, then clear: num_species stays 1 with no vertex | the counters go back to 0 with the vertices | not executed | RBGraphCore.ClearLeavesStaleCounters | RBGraphCore.ClearEmpties |
| tests/matrices_for_testing/si/20/polinomiale15.cpp:887-888 | attivabile is zeroed only below righe_indotta; the other slots keep whatever the stack held | the 1x1 matrix [[0]] with righe_indotta 0 and a stale 1 in attivabile[0]: the all-zero species is kept | every slot of attivabile starts at 0, so only rows with a 1 are kept | not executed | PolyPreprocess.StaleRowKept | PolyPreprocess.PreProcessing |
| tests/matrices_for_testing/si/20/polinomiale15.cpp:1125-1172 | the scan for the first unchecked vertex stops only at an unchecked slot, so it cannot stop at the sentinel, which is marked checked | the 1x1 matrix [[0]]: both vertices are checked by the singleton loops and the scan reads past the sentinel | the scan stops at the sentinel | not executed | PolyComponents.ScanOverruns | PolyComponents.FirstUnchecked |
| tests/matrices_for_testing/si/20/polinomiale15.cpp:246-251 | insert_edge refuses i > vertex but lets i == vertex through (likewise for j) | insert_edge(vertex, 0): the list adj[vertex] lies one past the end of the table | refuse i >= vertex and j >= vertex | not executed | PolyConflict.GuardAdmitsVertex | PolyConflict.ConflictGraph.InsertEdge |
| tests/matrices_for_testing/si/20/polinomiale15.cpp:432-476 | the component buffer has vertex slots, and the -1 terminator is written after the last vertex found | one character with no conflict: the component [0] fills the one slot and -1 is written at index 1 | a buffer of vertex + 1 slots, or no terminator when full | not executed | PolyConflict.SingleVertexOverruns | PolyConflict.ConflictGraph.ComputeConnectedComponent |
