/**
 * The graph value every input form is normalised into: nodes are the
 * indices 0 .. nodeCount-1, and an undirected edge {i, j} is stored once,
 * as the ordered pair (min, max).
 */
module Graphs {

  datatype Graph = Graph(nodeCount: nat, edges: set<(nat, nat)>) {
    /** Every endpoint a node, each edge stored as (smaller, larger); a self-loop on v is (v, v). */
    predicate WellFormed() {
      forall e | e in edges :: e.0 <= e.1 < nodeCount
    }

    /** Well formed and without self-loops: the graphs the decoders build. */
    predicate Valid() {
      forall e | e in edges :: e.0 < e.1 < nodeCount
    }
  }

  /** An undirected graph as a graph library holds it: each edge once, self-loops allowed. */
  type UndirectedGraph = g: Graph | g.WellFormed() witness Graph(0, {})

  /** The errors construction can end in, one per failure point of the builder. */
  datatype BuildError =
    | InvalidInputKind       // the state is none of the accepted shapes
    | InvalidEdgeEncoding    // a meaningful entry of a packed vector is not 0 or 1
    | InconsistentEdgeCount  // the packed edge count is not a triangular number
    | MalformedMatrix        // the adjacency matrix is not a square symmetric 0/1 matrix with zero diagonal

  /** The stored form of the undirected edge {u, v}. */
  function Edge(u: nat, v: nat): (e: (nat, nat))
    ensures {e.0, e.1} == {u, v}
    ensures e.0 <= e.1
  {
    if u <= v then (u, v) else (v, u)
  }

  /** The edges of g that touch node v. */
  function Incident(g: Graph, v: nat): set<(nat, nat)> {
    set e | e in g.edges && (e.0 == v || e.1 == v)
  }

  /** The number of edge ends at v: a self-loop contributes both of its ends. */
  function Degree(g: Graph, v: nat): (d: nat)
    ensures d == 0 <==> Incident(g, v) == {}
    ensures (v, v) in g.edges ==> d >= 2
  {
    if (v, v) in g.edges then
      assert (v, v) in Incident(g, v);
      |Incident(g, v)| + 1
    else
      |Incident(g, v)|
  }

  /** Per-node degrees in node order, as a degree view lists them. */
  function DegreeSequence(g: Graph): (ds: seq<nat>)
    ensures |ds| == g.nodeCount
    ensures forall v | 0 <= v < |ds| :: ds[v] == Degree(g, v)
  {
    seq(g.nodeCount, v requires 0 <= v < g.nodeCount => Degree(g, v))
  }

  function Sum(s: seq<nat>): nat {
    if s == [] then 0 else Sum(s[..|s| - 1]) + s[|s| - 1]
  }

  /** How many of the two ends of e are v. */
  function EndsAt(e: (nat, nat), v: nat): nat {
    (if e.0 == v then 1 else 0) + (if e.1 == v then 1 else 0)
  }

  /** How many of the two ends of e lie below k. */
  function EndsBelow(e: (nat, nat), k: nat): nat {
    (if e.0 < k then 1 else 0) + (if e.1 < k then 1 else 0)
  }

  /** Removing edge e lowers the degree of v by the number of ends of e at v. */
  lemma DegreeWithout(g: Graph, e: (nat, nat), v: nat)
    requires e in g.edges
    ensures Degree(g, v) == Degree(Graph(g.nodeCount, g.edges - {e}), v) + EndsAt(e, v)
  {
    var g' := Graph(g.nodeCount, g.edges - {e});
    if e.0 == v || e.1 == v {
      assert Incident(g, v) == Incident(g', v) + {e};
      assert e !in Incident(g', v);
    } else {
      assert Incident(g, v) == Incident(g', v);
    }
  }

  lemma {:induction false} DegreePrefixWithout(g: Graph, e: (nat, nat), k: nat)
    requires e in g.edges && k <= g.nodeCount
    ensures Sum(DegreeSequence(g)[..k])
         == Sum(DegreeSequence(Graph(g.nodeCount, g.edges - {e}))[..k]) + EndsBelow(e, k)
  {
    var g' := Graph(g.nodeCount, g.edges - {e});
    if k > 0 {
      DegreePrefixWithout(g, e, k - 1);
      DegreeWithout(g, e, k - 1);
      assert DegreeSequence(g)[..k][..k - 1] == DegreeSequence(g)[..k - 1];
      assert DegreeSequence(g')[..k][..k - 1] == DegreeSequence(g')[..k - 1];
    }
  }

  /** The degrees of a graph add up to twice its number of edges; a self-loop supplies both of its ends. */
  lemma {:induction false} Handshake(g: Graph)
    requires g.WellFormed()
    ensures Sum(DegreeSequence(g)) == 2 * |g.edges|
    decreases |g.edges|
  {
    var ds := DegreeSequence(g);
    if g.edges == {} {
      ZeroDegrees(g, g.nodeCount);
      assert ds[..g.nodeCount] == ds;
    } else {
      var e :| e in g.edges;
      var g' := Graph(g.nodeCount, g.edges - {e});
      Handshake(g');
      DegreePrefixWithout(g, e, g.nodeCount);
      assert ds[..g.nodeCount] == ds;
      assert DegreeSequence(g')[..g.nodeCount] == DegreeSequence(g');
    }
  }

  lemma {:induction false} ZeroDegrees(g: Graph, k: nat)
    requires g.edges == {} && k <= g.nodeCount
    ensures Sum(DegreeSequence(g)[..k]) == 0
  {
    if k > 0 {
      ZeroDegrees(g, k - 1);
      assert DegreeSequence(g)[..k][..k - 1] == DegreeSequence(g)[..k - 1];
    }
  }
}
