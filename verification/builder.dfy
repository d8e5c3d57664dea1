/**
 * Construction of a graph object from an environment state, dispatching on
 * the shape of the state: a ready graph, a one-dimensional packed vector,
 * or a mapping that holds an adjacency matrix and a current node.
 */
module GraphBuilder {
  import opened Wrappers
  import opened Graphs
  import opened Pairs
  import LinEnv
  import LocEnv

  /**
   * The shapes a state can arrive in. An array is stored flat with its
   * shape. Nothing ties the extents in `shape` to the length of `data`
   * (a real array holds their product of entries): the builder looks only
   * at how many extents there are and at the flat data, so arrays whose
   * extents disagree with their data are representable but never treated
   * differently from a consistent one with the same data.
   */
  datatype State =
    | NxGraph(graph: UndirectedGraph)
    | NdArray(shape: seq<nat>, data: seq<int>)
    | Dict(keys: set<string>, adjacencyMatrix: seq<seq<int>>)
    | Unsupported

  /** A built graph with its node count cached at construction. */
  datatype GraphObject = GraphObject(graph: Graph, numberOfNodes: nat)

  const RequiredKeys: set<string> := {"adjacency_matrix", "current_node"}

  predicate IsLinEnvState(state: State) {
    state.NdArray? && |state.shape| == 1
  }

  predicate IsLocEnvState(state: State) {
    state.Dict? && RequiredKeys <= state.keys
  }

  /**
   * Build a graph object. A ready graph is adopted unchanged, a
   * one-dimensional array is decoded as a packed state, a mapping with both
   * required keys is read as an adjacency matrix; anything else is refused.
   */
  function Build(state: State): (r: Result<GraphObject, BuildError>)
    ensures r.Success? ==> r.value.numberOfNodes == r.value.graph.nodeCount
    ensures r == Failure(InvalidInputKind) <==>
      !(state.NxGraph? || IsLinEnvState(state) || IsLocEnvState(state))
    ensures state.NxGraph? ==> r == Success(GraphObject(state.graph, state.graph.nodeCount))
    ensures IsLinEnvState(state) ==>
      && (r.Success? <==> LinEnv.Decode(state.data).Success?)
      && (r.Success? ==> r.value.graph == LinEnv.Decode(state.data).value)
      && (r.Failure? ==> r.error == LinEnv.Decode(state.data).error)
    ensures IsLocEnvState(state) ==>
      && (r.Success? <==> LocEnv.IsAdjacencyMatrix(state.adjacencyMatrix))
      && (r.Success? ==> r.value.graph == LocEnv.FromAdjacencyMatrix(state.adjacencyMatrix).value)
      && (r.Failure? ==> r.error == MalformedMatrix)
    ensures r.Success? ==> r.value.graph.WellFormed()
    ensures r.Success? && !state.NxGraph? ==> r.value.graph.Valid()
  {
    var g :-
      if state.NxGraph? then Success(state.graph)
      else if IsLinEnvState(state) then LinEnv.Decode(state.data)
      else if IsLocEnvState(state) then LocEnv.FromAdjacencyMatrix(state.adjacencyMatrix)
      else Failure(InvalidInputKind);
    Success(GraphObject(g, g.nodeCount))
  }

  /** A two-dimensional array is not a packed state and is refused, whatever it holds. */
  lemma TwoDimensionalArrayRefused(rows: nat, cols: nat, data: seq<int>)
    ensures Build(NdArray([rows, cols], data)) == Failure(InvalidInputKind)
  {
  }

  /** A mapping lacking the current-node key is refused even when its matrix is well formed. */
  lemma MappingWithoutCurrentNodeRefused(keys: set<string>, m: seq<seq<int>>)
    requires "current_node" !in keys
    ensures Build(Dict(keys, m)) == Failure(InvalidInputKind)
  {
  }

  /** A 2 among the flags of a vector is refused, but the same 2 in the timestep half is not looked at. */
  lemma NonFlagValue(data: seq<int>, k: nat)
    requires k < |data| && data[k] == 2
    ensures k < |data| / 2 ==> Build(NdArray([|data|], data)) == Failure(InvalidEdgeEncoding)
    ensures k >= |data| / 2 ==>
      Build(NdArray([|data|], data)) == Build(NdArray([|data|], data[k := 0]))
  {
  }

  /** Both environment encodings of a graph with at least one node build the same graph object. */
  lemma EncodingsAgree(g: Graph, timestep: seq<int>, keys: set<string>)
    requires g.Valid() && g.nodeCount >= 1
    requires |timestep| == Triangular(g.nodeCount)
    requires RequiredKeys <= keys
    ensures var packed := LinEnv.Encode(g) + timestep;
      Build(NdArray([|packed|], packed)) == Build(Dict(keys, LocEnv.AdjacencyMatrix(g)))
    ensures Build(Dict(keys, LocEnv.AdjacencyMatrix(g))) == Success(GraphObject(g, g.nodeCount))
  {
    LinEnv.RoundTrip(g, timestep);
    LocEnv.MatrixRoundTrip(g);
  }
}
