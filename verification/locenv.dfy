/**
 * The "LocEnv" state carries the graph as an adjacency matrix: a square
 * symmetric 0/1 matrix with zero diagonal, row i describing node i.
 */
module LocEnv {
  import opened Wrappers
  import opened Graphs

  predicate IsSquare(m: seq<seq<int>>) {
    forall i | 0 <= i < |m| :: |m[i]| == |m|
  }

  /** A square, symmetric 0/1 matrix with zero diagonal. */
  predicate IsAdjacencyMatrix(m: seq<seq<int>>) {
    && IsSquare(m)
    && (forall i, j | 0 <= i < |m| && 0 <= j < |m| ::
          && (m[i][j] == 0 || m[i][j] == 1)
          && m[i][j] == m[j][i])
    && (forall i | 0 <= i < |m| :: m[i][i] == 0)
  }

  /**
   * The graph of an adjacency matrix: one node per row, and edge {i, j}
   * for every off-diagonal cell holding 1.
   */
  function FromAdjacencyMatrix(m: seq<seq<int>>): (r: Result<Graph, BuildError>)
    ensures r.Success? <==> IsAdjacencyMatrix(m)
    ensures r.Failure? ==> r.error == MalformedMatrix
    ensures r.Success? ==>
      && r.value.Valid()
      && r.value.nodeCount == |m|
      && forall i: nat, j: nat | i < |m| && j < |m| && i != j ::
           Edge(i, j) in r.value.edges <==> m[i][j] == 1
  {
    if IsAdjacencyMatrix(m) then
      Success(Graph(|m|, set i: nat, j: nat | i < j < |m| && m[i][j] == 1 :: (i, j)))
    else
      Failure(MalformedMatrix)
  }

  /** The adjacency matrix of g: cell (i, j) is 1 exactly when {i, j} is an edge. */
  function AdjacencyMatrix(g: Graph): (m: seq<seq<int>>)
    requires g.Valid()
    ensures IsAdjacencyMatrix(m)
    ensures |m| == g.nodeCount
    ensures forall i: nat, j: nat | i < |m| && j < |m| :: m[i][j] == (if Edge(i, j) in g.edges then 1 else 0)
  {
    seq(g.nodeCount, i requires 0 <= i < g.nodeCount =>
      seq(g.nodeCount, j requires 0 <= j < g.nodeCount =>
        if Edge(i, j) in g.edges then 1 else 0))
  }

  /** A graph survives the trip through its adjacency matrix unchanged. */
  lemma MatrixRoundTrip(g: Graph)
    requires g.Valid()
    ensures FromAdjacencyMatrix(AdjacencyMatrix(g)) == Success(g)
  {
    var m := AdjacencyMatrix(g);
    var h := FromAdjacencyMatrix(m).value;
    forall e | e in g.edges
      ensures e in h.edges
    {
      assert Edge(e.0, e.1) == e;
      assert m[e.0][e.1] == 1;
    }
    forall e | e in h.edges
      ensures e in g.edges
    {
      assert Edge(e.0, e.1) == e;
      assert m[e.0][e.1] == 1;
    }
    assert h.edges == g.edges;
  }

  /** And a well-formed matrix is exactly the adjacency matrix of the graph it builds. */
  lemma MatrixDecodeThenEncode(m: seq<seq<int>>)
    requires IsAdjacencyMatrix(m)
    ensures AdjacencyMatrix(FromAdjacencyMatrix(m).value) == m
  {
    var g := FromAdjacencyMatrix(m).value;
    var m' := AdjacencyMatrix(g);
    forall i | 0 <= i < |m|
      ensures m'[i] == m[i]
    {
      forall j | 0 <= j < |m|
        ensures m'[i][j] == m[i][j]
      {
        if i == j {
          assert Edge(i, j) !in g.edges;
        } else {
          assert Edge(i, j) in g.edges <==> m[i][j] == 1;
        }
      }
    }
  }
}
