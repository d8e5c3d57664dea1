# Graph builder and star test of graph_conjectures, in Dafny

This project models the `Graph` class of `graph.py`. The class turns the
state of a reinforcement-learning environment into an undirected graph,
which is loop-free whenever it was decoded from a packed vector or a
well-formed matrix. It also answers a few structural questions about that graph. Three
state shapes are accepted:

- a ready-made graph, adopted as it is;
- a one-dimensional "LinEnv" vector of length 2E. Its first E entries are
  0/1 flags, one per node pair (i, j) with i < j, in lexicographic order.
  The second half holds timestep data and is discarded. The node count n is
  recovered from E = n(n-1)/2;
- a "LocEnv" mapping. It holds an `adjacency_matrix` and a `current_node`;
  only the matrix is used.

The model is functional. A `Graph` is a node count and a set of edges. Each
edge {i, j} is stored once, as `(min, max)`, and the nodes are 0 .. n-1.
The decoders build loop-free graphs (`Valid`). A ready-made graph may carry
self-loops, stored as `(v, v)` (`WellFormed`). As in networkx, a self-loop
adds 2 to the degree of its node.

Modules:

- `Wrappers` (wrappers.dfy): `Option` and `Result`.
- `Graphs` (graphs.dfy): the graph value, its validity invariant, degrees,
  and the error kinds.
- `Pairs` (pairs.dfy): arithmetic of the lexicographic pair order.
  - `RowStart`, `PairIndex` and its inverse `PairAt` are defined here.
  - So is the node-count recovery. `NodeCountFromEdges` searches for the
    n >= 1 with n(n-1)/2 = E. `SqrtNodeCount` is the builder's own formula
    n = (1 + sqrt(1 + 8E)) / 2 with an exact integer square root. The two
    are proved to give the same answer.
- `LinEnv` (linenv.dfy): the packed-vector decoder.
  - `Decode` is the functional definition. `ProcessLinEnvState` is the
    nested loop with its counter and the square-root formula, and it is
    proved equal to `Decode`.
  - `Encode` is the inverse, used for the round-trip lemmas.
- `LocEnv` (locenv.dfy): graph from adjacency matrix, and back.
- `GraphBuilder` (builder.dfy): the constructor's dispatch over the state
  shapes, with the cached `numberOfNodes`.
- `Star` (star.dfy): the degree-count star test, and its characterisation
  on loop-free graphs as "a lone node, or a centre joined to every other
  node of three or more". On graphs with self-loops the test no longer
  matches the star shape.

Error kinds (`Graphs.BuildError`):

- `InvalidInputKind` is the constructor's `TypeError`.
- `InvalidEdgeEncoding` is the first `assert` of the decoder: a flag that is
  not 0 or 1.
- `InconsistentEdgeCount` is the second `assert`: E is not triangular.
- `MalformedMatrix` is the model's refusal of a matrix that is not a LocEnv
  adjacency matrix (see "Left out").

Three behaviours at the edges, as the code has them:

- Only the first half of a packed vector is checked for 0/1. A 2 in the
  timestep half is ignored, not refused (`GraphBuilder.NonFlagValue`).
- A loop-free graph with one node passes the star test; a graph with none
  fails it.
- On graphs with self-loops the star test does not say "star". A lone node
  with a loop has degrees [2] and fails it (`Star.LoopedLoneNodeNotStar`).
  An edge {0, 1} plus a loop on 0 has degrees [3, 1] and passes it,
  although node 0 does not have degree n-1 (`Star.LoopedEdgePassesTest`).
  This is not limited to two nodes: a loop on 0 and an edge {1, 2} give
  the degrees [2, 1, 1] and pass as well (`Star.LoopedTriplePassesTest`).

## Model

| member | source | states |
|---|---|---|
| Pairs.PairIndex | graph.py:43-48 | the counter value at pair (i, j) lies in the block of row i, after every earlier row's pairs and before row i+1's, and below n(n-1)/2 |
| Pairs.FloorSqrt | graph.py:31 | the square root taken in exact arithmetic: the largest r with r*r <= m |
| Pairs.PairIndexClosedForm | graph.py:43-48 | when the loop reaches pair (i, j), its flag counter equals i*n - i(i+1)/2 + (j-i-1) |
| Pairs.RowStartAll | graph.py:43-48 | the n rows of the loop together consume exactly n(n-1)/2 flags, so the counter ends at E |
| Pairs.PairAt | graph.py:43-48 | every flag position below n(n-1)/2 belongs to a pair i < j < n whose counter value it is |
| Pairs.PairIndexBijection | graph.py:43-48 | every pair's counter value is a position below n(n-1)/2 that maps back to the same pair, so each flag is read for exactly one pair |
| Pairs.PairIndexOrder | graph.py:44-48 | lexicographic order of pairs coincides with the order of their counter values: flags are consumed in order |
| Pairs.TriangularClosedForm | graph.py:31-32 | the pair count of n nodes is n(n-1)/2, the relation the node-count formula inverts |
| Pairs.NodeCountFromEdges | graph.py:31-34 | a node count is found exactly when E is triangular, and it is an n >= 1 with n(n-1)/2 = E |
| Pairs.SqrtNodeCount | graph.py:31-34 | the integrality test of (1 + sqrt(1 + 8E)) / 2, taken with an exact square root, accepts exactly the triangular E and yields the same n as the integer search |
| Pairs.TriangularRootUnique | graph.py:31-34 | an edge count determines its node count: two n >= 1 with equal n(n-1)/2 are equal |
| LinEnv.EdgeFlags | graph.py:25-27 | the meaningful half is the prefix of the state of length len//2 |
| LinEnv.ZeroOne | graph.py:28 | the membership test "every element is in [0, 1]" holds exactly when every flag position holds 0 or 1 |
| LinEnv.Decode | graph.py:21-49 | success exactly when the first len/2 entries are 0/1 and len/2 is triangular; the 0/1 error takes precedence; on success the graph is valid with n >= 1, n(n-1)/2 = len/2, and edge (i, j) present exactly when the flag at its lexicographic position is 1 |
| LinEnv.ProcessLinEnvState | graph.py:21-49 | the nested loop with its running flag counter computes the same result as `Decode`, errors included |
| LinEnv.ProcessRow | graph.py:45-48 | one pass of the inner loop moves the counter from the start of row i to the start of row i+1 and adds exactly the pairs of row i whose flag is 1 |
| LinEnv.Encode | graph.py:22 | the flags of a graph in lexicographic pair order: n(n-1)/2 entries, all 0/1, the one at each pair's position being 1 exactly for edges |
| LinEnv.RoundTrip | graph.py:43-48 | encoding a valid graph with n >= 1 nodes, appending any timestep half and decoding gives back that graph |
| LinEnv.DecodeThenEncode | graph.py:43-48 | a decoded graph re-encodes to exactly the flags it was decoded from |
| LinEnv.TimestepIgnored | graph.py:25-27 | states with the same half-length that agree on their first half decode identically |
| LinEnv.ZeroStateIsEmptyGraph | graph.py:31-48 | an all-zero state of length n(n-1) decodes to n isolated nodes |
| LinEnv.ShortStateIsOneNode | graph.py:25-40 | a state of length 0 or 1 decodes to one node and no edges |
| LinEnv.NoNodeGraphComesBackWithOne | graph.py:31-40 | the graph with no nodes encodes to no flags, which decode to one node: the packed form cannot carry n = 0 |
| LinEnv.FourFlagsRejected | graph.py:31-34 | a state whose half-length is 4 is always refused, with the edge-count error when its flags are 0/1 |
| LocEnv.FromAdjacencyMatrix | graph.py:51-56 | a well-formed adjacency matrix gives a valid graph with one node per row and edge {i, j} exactly when cell (i, j), i != j, is 1 (in either order, by symmetry); other matrices are refused |
| LocEnv.AdjacencyMatrix | graph.py:51-56 | the matrix of a valid graph is a well-formed adjacency matrix whose cell (i, j) is 1 exactly for edges |
| LocEnv.MatrixRoundTrip | graph.py:51-56 | building from the adjacency matrix of a valid graph gives that graph back |
| LocEnv.MatrixDecodeThenEncode | graph.py:51-56 | a well-formed matrix is the adjacency matrix of the graph built from it |
| GraphBuilder.Build | graph.py:6-16 | a ready graph is adopted unchanged, a 1-D array is decoded as LinEnv, a mapping with both keys is read as LocEnv, and the type error arises exactly when none applies; a malformed matrix fails with the matrix error; on success the cached node count equals the graph's node count, every result is well formed, and decoded graphs are loop-free |
| GraphBuilder.TwoDimensionalArrayRefused | graph.py:9-14 | a two-dimensional array is refused with the type error whatever its contents |
| GraphBuilder.MappingWithoutCurrentNodeRefused | graph.py:11-14 | a mapping without `current_node` is refused with the type error |
| GraphBuilder.NonFlagValue | graph.py:25-28 | a 2 in the first half of a 1-D state is refused with the encoding error; a 2 in the second half changes nothing |
| GraphBuilder.EncodingsAgree | graph.py:6-16 | the LinEnv and LocEnv encodings of the same valid graph with n >= 1 build the same graph object, namely that graph |
| Graphs.Degree | graph.py:69 | a node's degree is 0 exactly when no edge touches it, and a self-loop gives its node degree at least 2, its two ends both counted |
| Graphs.DegreeSequence | graph.py:69 | one entry per node, in node order, each entry being that node's degree |
| Graphs.Handshake | graph.py:69 | the degrees of any well-formed graph add up to twice its number of edges, self-loops included |
| Star.IsStar | graph.py:67-71 | passing the test needs at least one node, and some node whose degree is the node count less one |
| Star.StarCharacterisation | graph.py:67-71 | on valid graphs the degree-count test holds exactly for a lone node and for n >= 3 nodes whose edges are the spokes from one centre to all other nodes |
| Star.StarShapeIsStar | graph.py:67-71 | the star on n >= 3 nodes passes the test |
| Star.IsStarHasStarShape | graph.py:67-71 | a valid graph on n >= 3 nodes passing the test has a centre whose spokes are exactly its edges |
| Star.CentreAndLeaves | graph.py:69-70 | passing the test on n >= 3 nodes leaves one node of degree n-1 and all others of degree 1 |
| Star.StarDegrees | graph.py:69-70 | in a star the centre has degree n-1 and every other node degree 1 |
| Star.OneNodeIsStar | graph.py:69-70 | a valid one-node graph passes the test |
| Star.TwoNodesNeverStar | graph.py:69-70 | no valid two-node graph passes the test |
| Star.EmptyGraphNotStar | graph.py:69-70 | the graph with no nodes fails the test |
| Star.SingleEdgeNotStar | graph.py:69-70 | a single edge on two nodes fails the test |
| Star.SelfLoopCountsTwice | graph.py:69-70 | a self-loop adds 2 to its node's degree: two nodes with a loop on node 0 have degrees [2, 0] and fail the test |
| Star.LoopedLoneNodeNotStar | graph.py:69-70 | a lone node with a loop has degrees [2] and fails the test |
| Star.LoopedEdgePassesTest | graph.py:67-71 | an edge {0, 1} plus a loop on 0 has degrees [3, 1] and passes the test, though it is not a star |
| Star.LoopedTriplePassesTest | graph.py:67-71 | a loop on 0 and an edge {1, 2} give degrees [2, 1, 1] and pass the test, though no node is a centre |
| Star.Count | graph.py:70 | the count of x in a list is the number of positions holding x |
| Star.CentreWithLeavesIsStar | graph.py:67-71 | a centre with k >= 2 leaves passes the test |
| Star.LeafEdgeBreaksStar | graph.py:67-71 | adding an edge between two leaves of such a star makes the test fail |

## Left out

- `wagner1` (graph.py:58-62): floating-point square root, eigenvalues of the
  adjacency matrix and a maximum matching, all computed by numpy and networkx.
- `is_connected` (graph.py:64-65): a direct call to networkx with no logic of
  its own.
- `draw` (graph.py:73-87): matplotlib rendering with a spring layout.
- The diagnostic `print` calls (graph.py:26, 33): output only.
- optuna_objective.py: hyperparameter sampling and PPO training through
  external libraries. It has no graph logic.
- Pairs.SqrtNodeCount: the square root is exact. The floating-point
  rounding of `np.sqrt` for very large edge counts is not modelled.
- LocEnv.FromAdjacencyMatrix: only square, symmetric 0/1 matrices with zero
  diagonal are accepted. Any other matrix is refused with `MalformedMatrix`.
  The networkx constructor rejects only non-square matrices. It would turn
  other values into weighted edges, a non-zero diagonal into self-loops, and
  an asymmetric matrix into the union of both directions.
- GraphBuilder.Build: a ready-made graph is modelled as a simple undirected
  graph, with each edge once, self-loops allowed, and nodes 0 .. n-1.
  networkx allows arbitrary hashable node labels. `nx.DiGraph` and
  `nx.MultiGraph` also pass the `isinstance` test at graph.py:7, but they
  count degrees differently (in plus out edges, parallel edges). They are
  not modelled. The source keeps the caller's graph object itself, not a
  copy, and caches its node count once at construction. The model's built
  object is a value, so a cached count that goes stale after the caller
  adds or removes nodes of that shared graph is not modelled.
- LinEnv.Decode: both decoder errors are Python `assert` statements
  (graph.py:28, 34) and are modelled as always raised. Under `python -O` the
  asserts are removed and the code builds a graph anyway:
  - a 2 among the flags is read as "no edge";
  - a non-triangular E is decoded with n = int((1 + sqrt(1 + 8E)) / 2),
    reading only n(n-1)/2 of the flags.

  That optimised behaviour is not modelled.
- Because the state variants are disjoint, the order of the three dispatch
  tests cannot be observed in the model. In Python no value is both a graph
  and an array or mapping either.
- Array entries are integers. numpy floats or booleans equal to 0 or 1 pass
  the 0/1 test in the same way.
