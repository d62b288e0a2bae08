# CFPQ matrix solver, modelled in Dafny

This project models the core of CFPQ_Solver. CFPQ_Solver answers
all-pairs context-free path queries: given a context-free grammar and a
directed graph with labelled edges, it finds every pair of nodes `(u, v)`
joined by a path whose label word the start variable derives. It does
this with Boolean matrix operations.

The core has three pieces, and each is one Dafny module here.

- **`Grammars`** models `flpq_solver/grammars/wcnf.py`:
  - `_is_in_wcnf`, the check for the restricted production shapes `A -> B C`, `A -> a` and `A -> epsilon`;
  - `WCNF.__init__`, which builds the grammar's epsilon, unary and binary production lists and its variable and terminal lists. Each list is made with a membership-checked append loop and then sorted by text.
- **`Graphs`** models `flpq_solver/graphs/graph_boolean_decomposition.py`:
  - the class `GraphBooleanDecomposition`, a map from edge label to an `n` x `n` Boolean matrix, with `__getitem__`, `__setitem__`, `__contains__`, `matrices_size` and `add_edge`;
  - `gbd_from_nx_graph`, which numbers the nodes in first-seen order and adds every edge.
- **`MatrixAlgorithm`** models `flpq_solver/algorithms/matrix_algorithm.py`: the class `MatrixReachabilityAlgorithm`, which proceeds in these steps:
  1. it gives every variable an all-false matrix;
  2. it writes the identity into the matrix of every epsilon head;
  3. it ors the label matrix of `a` into `A` for every `A -> a`;
  4. it repeats `T[A] |= T[B] * T[C]` over the binary productions until a pass changes no recorded entry count;
  5. it reads the start variable's matrix back as node pairs, computing it only on the first call.

Four supporting modules complete the model:

- `Wrappers`: `Option`, `Result`, and the Python exceptions the core raises (`KeyError`, `IndexError`);
- `Lists`: first-seen deduplication (the `if x not in l: l.append(x)` idiom), list index lookup, and a stable sort by a text key;
- `BoolMatrices`: a Boolean matrix as the set of its true coordinates, with the identity and the Boolean product (the `any_pair` semiring);
- `Closure`: what the solver computes, stated without its loops.
  - The seed is the table after the epsilon and unary phases.
  - The binary phase's result is the least table above the seed that every binary production leaves unchanged. It is unique.
  - That table's entries are exactly the end points of the paths on which some derivation tree of the grammar produces the variable.

`Scenarios` replays two of the repository's tests (`tests/test_all_pairs_reachability.py`) for the grammar `S -> S S | a`, over whole families of graphs:

- every graph without an `a` edge has the empty answer;
- every directed cycle of `a` edges, of any length, has every node pair as its answer.

The solver's classes are Dafny classes with the fields the Python code updates.

- Every loop of the core is a Dafny loop with its invariants, with two exceptions. The scan of `_is_in_wcnf` is the recursive function `Grammars.IsInWcnf`, because its early returns make it a pure predicate. The in-place `list.sort` calls are the recursive stable insertion sort `Lists.SortByKey`.
- Each method is proved against a specification function of its inputs and old state.
- The properties are proved about those functions.

The outside libraries enter as parameters or as simple definitions:
- pyformlang's `to_normal_form()` is the parameter `normalised`. The solver requires only that it has the restricted shape.
- pyformlang's `str`, the sort key of productions, is the parameter `text`. Variables and terminals sort by their own name.
- pyformlang's `to_text()` of a symbol, which gives the matrix keys and the label a terminal is matched against, is `Grammars.Text`: the symbol's bare name (see "Left out").
- A graphblas matrix is a set of `(row, column)` pairs. An `n` x `n` matrix is one whose pairs all lie in `[0, n)`.
- A networkx graph is its node sequence and its edge sequence, each in its iteration order. The nodes are distinct and every edge's end points are nodes.

## Model

| member | source | states |
|---|---|---|
| Grammars.IsInWcnf | flpq_solver/grammars/wcnf.py:129-148 | true exactly when every production has at most two body symbols, two variables when it has two and a terminal when it has one; the early `return False` scan is the function body |
| Grammars.WithBodyLengthMembers | flpq_solver/grammars/wcnf.py:66-67 | the productions kept by the body-length test are exactly those of the list whose body has that many symbols |
| Grammars.CollectEpsilon | flpq_solver/grammars/wcnf.py:65-70 | the first loop yields the first-seen deduplication of the original grammar's empty-body productions |
| Grammars.PartitionByShape | flpq_solver/grammars/wcnf.py:72-78 | the second loop yields the deduplicated one-symbol and two-symbol productions of the normal form, in first-seen order; bodies of other lengths land in neither list |
| Grammars.CollectVocabulary | flpq_solver/grammars/wcnf.py:84-95 | the third loop records, in the order visited, each head and body variable once in `variables` and each body terminal once in `terminals` |
| Grammars.CollectMembers | flpq_solver/grammars/wcnf.py:87-95 | a name is recorded as a variable (terminal) exactly when it was already recorded or occurs as a variable (terminal) among the visited symbols |
| Grammars.CollectDistinct | flpq_solver/grammars/wcnf.py:88-95 | the membership-guarded appends never record a name twice |
| Grammars.OccurrencesMembers | flpq_solver/grammars/wcnf.py:87-91 | the visited symbols are exactly the heads and body symbols of the productions |
| Grammars.BuildWcnf | flpq_solver/grammars/wcnf.py:50-101 | `WCNF.__init__`: the start symbol copied, the three loops run on the original grammar (epsilon) and on the normal form, which is the input itself when it already has the restricted shape, and the five lists sorted |
| Grammars.WcnfProductions | flpq_solver/grammars/wcnf.py:57-101 | the start variable is the input's; each production list holds exactly the distinct productions with its body length, taken from the original grammar (epsilon) or the normal form; for an input already in shape the unary list comes from the input itself; each list is free of repeats, sorted by the key, and a permutation of its unsorted contents |
| Grammars.WcnfProductionMembers | flpq_solver/grammars/wcnf.py:57-78 | the membership half of `WcnfProductions`: start variable and the three lists' members |
| Grammars.ListContents | flpq_solver/grammars/wcnf.py:72-78 | a deduplicated, sorted list holds exactly the productions with its body length, without repeats and sorted, as a permutation of the deduplicated list |
| Grammars.WcnfVocabulary | flpq_solver/grammars/wcnf.py:84-98 | `variables` holds exactly the heads and body variables of the three lists and `terminals` exactly their body terminals; neither has repeats and both are sorted by name |
| Grammars.SortedVocabulary | flpq_solver/grammars/wcnf.py:97-98 | sorting a repeat-free name list keeps its members, keeps it repeat-free and makes it sorted |
| Grammars.WcnfWellFormed | flpq_solver/grammars/wcnf.py:72-95 | when the normal form has the restricted shape, every production's head and every binary body symbol is a listed variable, unary bodies have one symbol and binary bodies are two variables |
| Lists.Dedup | flpq_solver/grammars/wcnf.py:65-70 | the `if x not in l: l.append(x)` loop: its result holds exactly the input's elements, without repeats, and is no longer than the input |
| Lists.DedupMembers | flpq_solver/grammars/wcnf.py:72-78 | deduplication keeps exactly the input's members |
| Lists.DedupOfDistinct | flpq_solver/graphs/graph_boolean_decomposition.py:83-87 | deduplicating a repeat-free list changes nothing |
| Lists.IndexOf | flpq_solver/graphs/graph_boolean_decomposition.py:83-87 | the index a first-seen numbering gives a member: its first position |
| Lists.IndexOfDistinct | flpq_solver/graphs/graph_boolean_decomposition.py:83-87 | in a repeat-free list, the element at position `i` has index `i` |
| Lists.SortByKeyPermutes | flpq_solver/grammars/wcnf.py:97-101 | `list.sort(key=...)` only reorders: same multiset of elements |
| Lists.SortByKeySorted | flpq_solver/grammars/wcnf.py:97-101 | after the sort the keys are in non-decreasing code-point order |
| Lists.LexLeTotal | flpq_solver/grammars/wcnf.py:97-101 | Python's string order is total, so any two keys compare |
| Lists.PermutationKeepsDistinct | flpq_solver/grammars/wcnf.py:97-101 | reordering a repeat-free list keeps it repeat-free |
| BoolMatrices.Identity | flpq_solver/algorithms/matrix_algorithm.py:73-81 | `from_coo(range(n), range(n), True)`: entry `(i, j)` is true exactly when `i == j < n` |
| BoolMatrices.MulMembers | flpq_solver/algorithms/matrix_algorithm.py:112-114 | the `any_pair` product has entry `(i, k)` exactly when some `j` has `(i, j)` in the left and `(j, k)` in the right factor |
| BoolMatrices.MulMonotone | flpq_solver/algorithms/matrix_algorithm.py:112-114 | larger factors give a larger product |
| BoolMatrices.MulWithin | flpq_solver/algorithms/matrix_algorithm.py:112-114 | the product of `n` x `n` matrices is `n` x `n` |
| BoolMatrices.WithinCard | flpq_solver/algorithms/matrix_algorithm.py:116 | an `n` x `n` matrix has at most `n * n` true entries (`nvals`) |
| BoolMatrices.SubsetCard | flpq_solver/algorithms/matrix_algorithm.py:116-117 | a matrix that only grew and kept its entry count did not change |
| Graphs.GraphBooleanDecomposition.constructor | flpq_solver/graphs/graph_boolean_decomposition.py:19-25 | no labels, dimension `n` |
| Graphs.GraphBooleanDecomposition.Get | flpq_solver/graphs/graph_boolean_decomposition.py:27-30 | the label's matrix when it has one, `KeyError(label)` otherwise; it reads and never adds a label |
| Graphs.GraphBooleanDecomposition.SetItem | flpq_solver/graphs/graph_boolean_decomposition.py:32-33 | the label now maps to the given matrix; every other label and the size are as before |
| Graphs.GraphBooleanDecomposition.Contains | flpq_solver/graphs/graph_boolean_decomposition.py:35-36 | true exactly when `Get` succeeds; reads only |
| Graphs.GraphBooleanDecomposition.AddEdge | flpq_solver/graphs/graph_boolean_decomposition.py:43-63 | the resize runs exactly when `min(u, v) > size` and some label exists, and sets the size to `max(u, v)`; the size never shrinks; the call passes exactly when `(u, v)` lies inside the final size, and then the label maps to its old matrix (all-false when new) plus `(u, v)` and nothing else changes; otherwise `IndexError`, with an all-false matrix for a new label when no resize ran; repeating a passing call changes nothing; the dimension invariant is kept |
| Graphs.EdgeMatricesContents | flpq_solver/graphs/graph_boolean_decomposition.py:89-94 | after all edges are inserted, a label has a matrix exactly when some edge carries it, and entry `(i, j)` is true exactly when an edge with that label runs from the node at index `i` to the node at index `j` |
| Graphs.EdgeMatricesStep | flpq_solver/graphs/graph_boolean_decomposition.py:89-94 | inserting one more edge adds its index pair to its label's matrix |
| Graphs.EdgeMatricesWithin | flpq_solver/graphs/graph_boolean_decomposition.py:77 | every label matrix of a graph with `n` nodes is `n` x `n` |
| Graphs.IndexNodes | flpq_solver/graphs/graph_boolean_decomposition.py:79-87 | `nodes_list` is the first-seen deduplication of the node iteration; `nodes_dict` has exactly the nodes as keys and is inverse to `nodes_list` |
| Graphs.AddEdges | flpq_solver/graphs/graph_boolean_decomposition.py:89-94 | every `add_edge` call passes; the labels end with exactly the matrices of the edge sequence; the size stays the node count |
| Graphs.GbdFromGraph | flpq_solver/graphs/graph_boolean_decomposition.py:66-96 | a fresh decomposition of dimension `number_of_nodes()` holding exactly the edges' index pairs; `nodes_list` is the node order, without repeats, and position `i` holds the node numbered `i` (an empty graph gives size 0 and no labels) |
| Closure.EmptyTable | flpq_solver/algorithms/matrix_algorithm.py:55-59 | one all-false matrix for each variable's text key and no other key |
| Closure.ApplyEpsilonContents | flpq_solver/algorithms/matrix_algorithm.py:82-83 | after the epsilon phase, an epsilon head's matrix is the identity, by overwrite; every other key keeps its matrix |
| Closure.ApplyUnaryContents | flpq_solver/algorithms/matrix_algorithm.py:89-94 | after the unary phase, `A`'s matrix is its old matrix plus the label matrix of every `A -> a` whose label is present; an absent label contributes nothing and no key is added |
| Closure.BaseByPhases | flpq_solver/algorithms/matrix_algorithm.py:55-65 | initialisation, the epsilon phase and then the unary phase produce exactly the declarative seed |
| Closure.BaseWithin | flpq_solver/algorithms/matrix_algorithm.py:73-94 | every seed matrix is `n` x `n` |
| Closure.SolvedUnique | flpq_solver/algorithms/matrix_algorithm.py:103-118 | the closure is unique, and the same for every order of the binary productions |
| Closure.EmptySeedEmptySolution | flpq_solver/algorithms/matrix_algorithm.py:103-118 | an all-false seed closes to all-false matrices |
| Closure.BaseLeast | flpq_solver/algorithms/matrix_algorithm.py:101-103 | before the loop the table lies below every closed table above the seed |
| Closure.LeastStep | flpq_solver/algorithms/matrix_algorithm.py:112-114 | or-ing `T[B] * T[C]` into `T[A]` keeps the table below every closed table above the seed |
| Closure.ClosedUpToAll | flpq_solver/algorithms/matrix_algorithm.py:103-118 | a pass in which no production changed the table leaves a table closed under all of them |
| Closure.SlackStep | flpq_solver/algorithms/matrix_algorithm.py:116-118 | growing one matrix and recording its count never raises the termination measure, and lowers it when the matrix grew or its count was recorded for the first time |
| Closure.StepKeepsInvariant | flpq_solver/algorithms/matrix_algorithm.py:112-118 | one step keeps the keys, keeps every matrix `n` x `n`, only adds entries, stays below the least closure and keeps every recorded count equal to its matrix's entry count |
| Closure.StepGrows | flpq_solver/algorithms/matrix_algorithm.py:112-114 | the accumulating update `T[A] := T[A] or T[B] * T[C]` never turns an entry false |
| Closure.StepUnchanged | flpq_solver/algorithms/matrix_algorithm.py:116-117 | when the new count equals the recorded one, the step changed nothing and the production is already satisfied |
| Closure.StepSlack | flpq_solver/algorithms/matrix_algorithm.py:116-118 | a step never raises the measure, and lowers it whenever it flips `changed` |
| Closure.BinaryRuleKeys | flpq_solver/algorithms/matrix_algorithm.py:106-110 | the three text keys of a binary production all have matrices |
| Closure.DerivedInSolution | flpq_solver/algorithms/matrix_algorithm.py:50-68 | every derivation tree of `A` along a path from `i` to `j` puts `(i, j)` into `A`'s solved matrix |
| Closure.DerivableClosed | flpq_solver/algorithms/matrix_algorithm.py:112-114 | the table of derivable path end points is closed under every binary production |
| Closure.DerivableAboveBase | flpq_solver/algorithms/matrix_algorithm.py:73-94 | every seed entry has a one-step derivation |
| Closure.SolutionDerived | flpq_solver/algorithms/matrix_algorithm.py:50-68 | every entry of a solved matrix has a derivation tree |
| Closure.SolutionIsDerivable | flpq_solver/algorithms/matrix_algorithm.py:50-68 | entry `(i, j)` of `A`'s solved matrix is true exactly when `A` derives the label word of some path from node `i` to node `j` |
| MatrixAlgorithm.StartPairs | flpq_solver/algorithms/matrix_algorithm.py:45-48 | for a table whose indices are node positions, the answer fails, with `KeyError(start)`, exactly when the start variable has no matrix |
| MatrixAlgorithm.ProjectMembers | flpq_solver/algorithms/matrix_algorithm.py:45-48 | `to_coo` then the index-to-node map: a node pair is in the answer exactly when some true entry has those nodes at its indices |
| MatrixAlgorithm.ProjectOfDerivable | flpq_solver/algorithms/matrix_algorithm.py:45-48 | projecting a matrix of derivable end points gives the node pairs joined by a derivable path |
| MatrixAlgorithm.AnswerIsDerivable | flpq_solver/algorithms/matrix_algorithm.py:33-68 | a node pair is in the answer exactly when the start variable derives the label word of some path between the two nodes |
| MatrixAlgorithm.MatrixReachabilityAlgorithm.constructor | flpq_solver/algorithms/matrix_algorithm.py:26-31 | the grammar is built into its WCNF, the graph into its decomposition and node order, and nothing is solved yet |
| MatrixAlgorithm.MatrixReachabilityAlgorithm.SolveAllPairs | flpq_solver/algorithms/matrix_algorithm.py:33-48 | solves when not yet solved, then returns the projection of the start variable's matrix, or `KeyError` exactly when the start variable is not among the variables; a later call does not solve again and keeps the table |
| MatrixAlgorithm.MatrixReachabilityAlgorithm.SolveAllPairsInner | flpq_solver/algorithms/matrix_algorithm.py:50-68 | a fresh table, of the graph's dimension, that is the least one above the seed closed under all binary productions |
| MatrixAlgorithm.MatrixReachabilityAlgorithm.ProcessEpsilonProductions | flpq_solver/algorithms/matrix_algorithm.py:70-83 | the table becomes its old self with the identity written for every epsilon head, in list order; its dimension is kept |
| MatrixAlgorithm.MatrixReachabilityAlgorithm.ProcessUnaryProductions | flpq_solver/algorithms/matrix_algorithm.py:85-94 | the table becomes its old self with each present label matrix or-ed into its unary head, in list order; its dimension is kept |
| MatrixAlgorithm.MatrixReachabilityAlgorithm.ProcessBinaryProductions | flpq_solver/algorithms/matrix_algorithm.py:96-118 | the loop terminates, and the table it leaves is the least one above the table it started from that every binary production leaves unchanged |
| MatrixAlgorithm.MatrixReachabilityAlgorithm.BinaryPass | flpq_solver/algorithms/matrix_algorithm.py:104-118 | one pass only adds entries (the old table lies below the new one), keeps the invariant, never raises the measure, lowers it when it reports a change, and when it reports none it changed nothing and the table is closed |
| Scenarios.SGrammarShape | tests/test_all_pairs_reachability.py:26 | `S -> S S`, `S -> a` already has the restricted shape |
| Scenarios.SGrammarWcnf | tests/test_all_pairs_reachability.py:26 | its WCNF has start `S`, no epsilon-productions, `S -> a` as its only unary production and `S -> S S` as its only binary one |
| Scenarios.SeedWithoutA | tests/test_all_pairs_reachability.py:21-26 | without an `a` label the seed is all-false |
| Scenarios.NoAEdgeNoAnswer | tests/test_all_pairs_reachability.py:17-31 | without an `a` label the answer is the empty set |
| Scenarios.NoReachableScenario | tests/test_all_pairs_reachability.py:17-31 | on any graph without `a` edges the query answers the empty set, and a second call answers the same |
| Scenarios.CycleGraphValid | tests/test_all_pairs_reachability.py:89-93 | the cycle is a well-formed graph |
| Scenarios.CycleEdgeMatrix | tests/test_all_pairs_reachability.py:89-93 | the cycle's decomposition holds every cycle edge under `a` |
| Scenarios.CycleForward | tests/test_all_pairs_reachability.py:84-102 | a matrix holding the cycle's edges and closed under squaring holds every forward pair `i < j` |
| Scenarios.CycleAllPairs | tests/test_all_pairs_reachability.py:84-102 | such a matrix holds every pair of cycle nodes |
| Scenarios.CycleSeed | tests/test_all_pairs_reachability.py:84-102 | `S`'s seed holds the cycle's edges |
| Scenarios.ProjectIdentity | tests/test_all_pairs_reachability.py:100-102 | with node `i` at index `i`, the projection of an `n` x `n` matrix is the matrix itself |
| Scenarios.CycleAnswer | tests/test_all_pairs_reachability.py:84-102 | on the `a`-cycle the answer is every pair of nodes |
| Scenarios.FullGraphScenario | tests/test_all_pairs_reachability.py:84-102 | on the directed `a`-cycle of any length `n > 0` the query answers all `n * n` node pairs |

## Left out

- Grammars.Text: pyformlang's `to_text()` is taken to be a symbol's bare name. pyformlang's source is not part of this model. If `to_text()` decorates some names, for instance terminals that begin with an upper-case letter, the model behaves differently at one point. A unary production `A -> a` whose terminal text differs from the edge label would match that label here, where `terminal in graph` at `flpq_solver/algorithms/matrix_algorithm.py:90-91` would miss it. The variable keys are unaffected as long as `to_text()` is one-to-one, since every key is read and written through the same call.
- `WCNF.contains` and `WCNF.from_text` (`flpq_solver/grammars/wcnf.py:103-126`): they only hand over to pyformlang's parser and membership test, whose source is not part of this model.
- pyformlang's `to_normal_form()` and `str` enter as the parameters `normalised` and `text`. The model does not check that the normal form generates the same language.
- graphblas storage, `dup`, `resize` and the `<<`/accumulator syntax are not modelled. Matrices are values, so a `dup()` copy and the original are the same value. `resize` to a larger dimension keeps every entry, which the set model does trivially.
- networkx node and edge iteration order is not modelled. The graph is given as its two sequences in whatever order networkx uses.
- `AllPairsReachabilityAlgorithm` and the `__init__.py` re-exports carry no logic.
- `_t` does not exist in Python before the first solve. The Dafny constructor allocates an empty placeholder decomposition, which the first solve replaces.
- `Graphs.GraphBooleanDecomposition.MatricesSize` is a plain field read. It has no contract and no row.
- Graphs.GraphBooleanDecomposition.AddEdge: takes `u, v` as naturals. A negative Python index would wrap around in graphblas, and that is not modelled, because `gbd_from_nx_graph` only passes indices `0 .. n-1`.
- There are no scenarios for `test_worst_case` and `test_worst_case_with_graph_vertices_numbering` (`tests/test_all_pairs_reachability.py:34-81`). Their grammar `S -> a S b | a b` is not in the restricted shape, so their answers depend on what pyformlang's `to_normal_form()` returns.
- Scenarios.NoReachableScenario and Scenarios.FullGraphScenario: these generalise the concrete test graphs rather than restate them. One covers every graph without an `a` edge; the other, every `a`-cycle numbered `0 .. n-1`, where the test uses `n == 4`.
