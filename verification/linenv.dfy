/**
 * The packed "LinEnv" state: a flat vector of length 2E whose first E
 * entries are 0/1 flags, one per pair (i, j), i < j < n, in lexicographic
 * order, with E = n(n-1)/2; the second half carries timestep data.
 */
module LinEnv {
  import opened Wrappers
  import opened Graphs
  import opened Pairs

  /** The meaningful half of a packed state: its first len/2 entries. */
  function EdgeFlags(state: seq<int>): (flags: seq<int>)
    ensures |flags| == |state| / 2
    ensures flags <= state
  {
    state[..|state| / 2]
  }

  /** Every flag is 0 or 1: no value outside {0, 1} occurs among them. */
  function ZeroOne(flags: seq<int>): (b: bool)
    ensures b <==> forall k | 0 <= k < |flags| :: flags[k] == 0 || flags[k] == 1
  {
    IndexedMembers(flags);
    forall x | x in flags :: x == 0 || x == 1
  }

  lemma IndexedMembers(flags: seq<int>)
    ensures (forall k | 0 <= k < |flags| :: flags[k] == 0 || flags[k] == 1) <==>
      forall x | x in flags :: x == 0 || x == 1
  {
    if forall k | 0 <= k < |flags| :: flags[k] == 0 || flags[k] == 1 {
      forall x | x in flags
        ensures x == 0 || x == 1
      {
        var k :| 0 <= k < |flags| && flags[k] == x;
      }
    }
    if forall x | x in flags :: x == 0 || x == 1 {
      forall k | 0 <= k < |flags|
        ensures flags[k] == 0 || flags[k] == 1
      {
        assert flags[k] in flags;
      }
    }
  }

  /** Flag k is present and set. */
  predicate FlagSet(flags: seq<int>, k: nat) {
    k < |flags| && flags[k] == 1
  }

  /** The edges over n nodes whose flag, read in lexicographic pair order, is set. */
  function LexEdges(n: nat, flags: seq<int>): set<(nat, nat)> {
    set i: nat, j: nat | i < j < n && FlagSet(flags, PairIndex(n, i, j)) :: (i, j)
  }

  /**
   * Decoding a packed state. The 0/1 check on the meaningful half comes
   * first, then the node count is recovered; each failure has its own error.
   */
  function Decode(state: seq<int>): (r: Result<Graph, BuildError>)
    ensures r.Success? <==> ZeroOne(EdgeFlags(state)) && IsTriangular(|state| / 2)
    ensures !ZeroOne(EdgeFlags(state)) ==> r == Failure(InvalidEdgeEncoding)
    ensures ZeroOne(EdgeFlags(state)) && !IsTriangular(|state| / 2) ==> r == Failure(InconsistentEdgeCount)
    ensures r.Success? ==>
      && r.value.Valid()
      && r.value.nodeCount >= 1
      && Triangular(r.value.nodeCount) == |state| / 2
      && forall i: nat, j: nat | i < j < r.value.nodeCount ::
           (i, j) in r.value.edges <==> state[PairIndex(r.value.nodeCount, i, j)] == 1
  {
    var flags := EdgeFlags(state);
    if !ZeroOne(flags) then
      Failure(InvalidEdgeEncoding)
    else
      match NodeCountFromEdges(|flags|)
      case None => Failure(InconsistentEdgeCount)
      case Some(n) => Success(Graph(n, LexEdges(n, flags)))
  }

  /** The pairs before (i, j) in lexicographic order whose flag is set: what the loop has added so far. */
  ghost predicate AddedBefore(edges: set<(nat, nat)>, n: nat, flags: seq<int>, i: nat, j: nat) {
    forall a: nat, b: nat :: (a, b) in edges <==>
      (a < b < n && (a < i || (a == i && b < j)) && FlagSet(flags, PairIndex(n, a, b)))
  }

  /**
   * The decoder's nested loop: one counter walks the flags while (i, j)
   * walks the pairs, and edge (i, j) is added when its flag is 1.
   */
  method ProcessLinEnvState(state: seq<int>) returns (r: Result<Graph, BuildError>)
    ensures r == Decode(state)
  {
    var numberOfEdges := |state| / 2;
    var flags := state[..numberOfEdges];
    if !ZeroOne(flags) {
      return Failure(InvalidEdgeEncoding);
    }
    var root := SqrtNodeCount(numberOfEdges);
    if root.None? {
      return Failure(InconsistentEdgeCount);
    }
    var n := root.value;
    var edges: set<(nat, nat)> := {};
    var edgeIndex := 0;
    var i := 0;
    while i < n
      invariant i <= n
      invariant edgeIndex == RowStart(n, i)
      invariant AddedBefore(edges, n, flags, i, 0)
    {
      edges, edgeIndex := ProcessRow(n, flags, i, edges, edgeIndex);
      i := i + 1;
    }
    // every flag has been read exactly once
    assert edgeIndex == numberOfEdges by {
      RowStartAll(n);
    }
    forall e | e in edges
      ensures e in LexEdges(n, flags)
    {
      assert (e.0, e.1) in edges;
    }
    forall e | e in LexEdges(n, flags)
      ensures e in edges
    {
      assert (e.0, e.1) in edges;
    }
    assert edges == LexEdges(n, flags);
    return Success(Graph(n, edges));
  }

  /** The inner loop of the decoder: row i, pairs (i, i+1) .. (i, n-1). */
  method ProcessRow(n: nat, flags: seq<int>, i: nat, edges0: set<(nat, nat)>, index0: nat)
    returns (edges: set<(nat, nat)>, edgeIndex: nat)
    requires i < n && |flags| == Triangular(n)
    requires index0 == RowStart(n, i)
    requires AddedBefore(edges0, n, flags, i, 0)
    ensures edgeIndex == RowStart(n, i + 1)
    ensures AddedBefore(edges, n, flags, i + 1, 0)
  {
    edges, edgeIndex := edges0, index0;
    var j := i + 1;
    while j < n
      invariant i + 1 <= j <= n
      invariant edgeIndex == RowStart(n, i) + (j - i - 1)
      invariant AddedBefore(edges, n, flags, i, j)
    {
      assert edgeIndex == PairIndex(n, i, j);
      if flags[edgeIndex] == 1 {
        edges := edges + {(i, j)};
      }
      edgeIndex := edgeIndex + 1;
      j := j + 1;
    }
  }

  /** The flags of g's edges in lexicographic pair order: the inverse of decoding. */
  function Encode(g: Graph): (flags: seq<int>)
    ensures |flags| == Triangular(g.nodeCount)
    ensures ZeroOne(flags)
    ensures forall i: nat, j: nat | i < j < g.nodeCount ::
      flags[PairIndex(g.nodeCount, i, j)] == (if (i, j) in g.edges then 1 else 0)
  {
    PairIndexBijectionAll(g.nodeCount);
    seq(Triangular(g.nodeCount),
        k requires 0 <= k < Triangular(g.nodeCount) =>
          if PairAt(g.nodeCount, k) in g.edges then 1 else 0)
  }

  /** Encoding a graph of n >= 1 nodes, appending any timestep half, and decoding gives the graph back. */
  lemma RoundTrip(g: Graph, timestep: seq<int>)
    requires g.Valid() && g.nodeCount >= 1
    requires |timestep| == Triangular(g.nodeCount)
    ensures Decode(Encode(g) + timestep) == Success(g)
  {
    var n := g.nodeCount;
    var state := Encode(g) + timestep;
    assert EdgeFlags(state) == Encode(g);
    assert IsTriangular(|state| / 2);
    var h := Decode(state).value;
    TriangularRootUnique(h.nodeCount, n);
    assert h.edges == g.edges;
  }

  /** Conversely, a decoded graph re-encodes to exactly the flags it came from. */
  lemma DecodeThenEncode(state: seq<int>)
    requires Decode(state).Success?
    ensures Encode(Decode(state).value) == EdgeFlags(state)
  {
  }

  /** Only the first len/2 entries matter: states agreeing there decode alike. */
  lemma TimestepIgnored(s1: seq<int>, s2: seq<int>)
    requires |s1| / 2 == |s2| / 2
    requires s1[..|s1| / 2] == s2[..|s2| / 2]
    ensures Decode(s1) == Decode(s2)
  {
  }

  /** An all-zero state of length n(n-1) decodes to n isolated nodes. */
  lemma ZeroStateIsEmptyGraph(n: nat)
    requires n >= 1
    ensures Decode(seq(2 * Triangular(n), _ => 0)) == Success(Graph(n, {}))
  {
    var state := seq(2 * Triangular(n), _ => 0);
    assert IsTriangular(|state| / 2);
    var h := Decode(state).value;
    TriangularRootUnique(h.nodeCount, n);
    assert h.edges == {};
  }

  /** A state of length 0 or 1 has no flags and decodes to a single node. */
  lemma ShortStateIsOneNode(state: seq<int>)
    requires |state| <= 1
    ensures Decode(state) == Success(Graph(1, {}))
  {
    assert Triangular(1) == 0;
    assert IsTriangular(|state| / 2);
    var h := Decode(state).value;
    TriangularRootUnique(h.nodeCount, 1);
    assert h.edges == {};
  }

  /** The graph with no nodes cannot be carried: its encoding decodes to one node. */
  lemma NoNodeGraphComesBackWithOne()
    ensures Encode(Graph(0, {})) == []
    ensures Decode(Encode(Graph(0, {}))) == Success(Graph(1, {}))
  {
    ShortStateIsOneNode(Encode(Graph(0, {})));
  }

  /** Four flags fit no node count (3 nodes take 3, 4 take 6), so such a state is refused. */
  lemma FourFlagsRejected(state: seq<int>)
    requires |state| / 2 == 4
    ensures Decode(state).Failure?
    ensures ZeroOne(EdgeFlags(state)) ==> Decode(state) == Failure(InconsistentEdgeCount)
  {
  }
}
