/**
 * The star test: a graph is a star when its degree sequence has n-1 entries
 * equal to 1 and exactly one entry equal to n-1, the counts taken as a
 * list's count method takes them.
 */
module Star {
  import opened Graphs

  /** How many entries of s equal x. */
  function Count(s: seq<nat>, x: int): (c: nat)
    ensures c == |Positions(s, x)|
    ensures c <= |s|
  {
    if s == [] then 0
    else
      var s' := s[..|s| - 1];
      if s[|s| - 1] == x then
        assert Positions(s, x) == Positions(s', x) + {|s| - 1};
        Count(s', x) + 1
      else
        assert Positions(s, x) == Positions(s', x);
        Count(s', x)
  }

  /**
   * The degree-count test on the degree sequence of g. Passing it needs at
   * least one node, and a node whose degree is the node count less one.
   */
  function IsStar(g: Graph): (b: bool)
    ensures b ==> g.nodeCount >= 1
    ensures b ==> exists c: nat :: c < g.nodeCount && Degree(g, c) == g.nodeCount - 1
  {
    var ds := DegreeSequence(g);
    if Count(ds, 1) == |ds| - 1 && Count(ds, |ds| - 1) == 1 then
      CentreExists(g);
      true
    else
      false
  }

  lemma CentreExists(g: Graph)
    requires g.nodeCount >= 1 && Count(DegreeSequence(g), g.nodeCount - 1) == 1
    ensures exists c: nat :: c < g.nodeCount && Degree(g, c) == g.nodeCount - 1
  {
    CountDegrees(g, g.nodeCount - 1);
    var c :| c in NodesOfDegree(g, g.nodeCount - 1);
  }

  /** The edges joining centre c to every other node below n. */
  function StarEdges(n: nat, c: nat): set<(nat, nat)> {
    set v: nat | v < n && v != c :: Edge(c, v)
  }

  function Positions(s: seq<nat>, x: int): set<int> {
    set v | 0 <= v < |s| && s[v] == x
  }

  function NodesOfDegree(g: Graph, d: int): set<int> {
    set v | 0 <= v < g.nodeCount && Degree(g, v) == d
  }

  /** The node indices 0 .. n-1. */
  function Range(n: nat): (r: set<int>)
    ensures forall v :: v in r <==> 0 <= v < n
  {
    if n == 0 then {} else Range(n - 1) + {n - 1}
  }

  lemma CountDegrees(g: Graph, d: int)
    ensures Count(DegreeSequence(g), d) == |NodesOfDegree(g, d)|
  {
    assert Positions(DegreeSequence(g), d) == NodesOfDegree(g, d);
  }

  lemma {:induction false} RangeSize(n: nat)
    ensures |Range(n)| == n
  {
    if n > 0 {
      RangeSize(n - 1);
    }
  }

  lemma SubsetOfSameSize<T>(a: set<T>, b: set<T>)
    requires a <= b && |a| == |b|
    ensures a == b
  {
    assert |b - a| == |b| - |a|;
  }

  lemma SingletonMembers<T>(s: set<T>, x: T, y: T)
    requires |s| == 1 && x in s && y in s
    ensures x == y
  {
    assert |s - {x}| == 0;
    assert y !in s - {x};
  }

  /** Adding node m (not the centre) adds one new spoke. */
  lemma StarEdgesGrow(m: nat, c: nat)
    requires m != c
    ensures StarEdges(m + 1, c) == StarEdges(m, c) + {Edge(c, m)}
    ensures Edge(c, m) !in StarEdges(m, c)
  {
  }

  lemma {:induction false} StarEdgesSize(n: nat, c: nat)
    ensures |StarEdges(n, c)| == if c < n then n - 1 else n
  {
    if n > 0 {
      StarEdgesSize(n - 1, c);
      if n - 1 == c {
        assert StarEdges(n, c) == StarEdges(n - 1, c);
      } else {
        StarEdgesGrow(n - 1, c);
      }
    }
  }

  lemma StarEdgesTouchCentre(n: nat, c: nat, e: (nat, nat))
    requires e in StarEdges(n, c)
    ensures e.0 == c || e.1 == c
    ensures e.0 < e.1 < n || c >= n
  {
  }

  /** In the star on n nodes with centre c, the centre has degree n-1 and every other node degree 1. */
  lemma StarDegrees(n: nat, c: nat)
    requires c < n
    ensures Degree(Graph(n, StarEdges(n, c)), c) == n - 1
    ensures forall v: nat | v < n && v != c :: Degree(Graph(n, StarEdges(n, c)), v) == 1
  {
    var g := Graph(n, StarEdges(n, c));
    assert Incident(g, c) == StarEdges(n, c);
    StarEdgesSize(n, c);
    forall v: nat | v < n && v != c
      ensures Degree(g, v) == 1
    {
      forall e | e in Incident(g, v)
        ensures e == Edge(c, v)
      {
        var w: nat :| w < n && w != c && e == Edge(c, w);
      }
      assert Incident(g, v) == {Edge(c, v)};
    }
  }

  /** The star on n >= 3 nodes passes the degree-count test. */
  lemma StarShapeIsStar(n: nat, c: nat)
    requires 3 <= n && c < n
    ensures IsStar(Graph(n, StarEdges(n, c)))
  {
    var g := Graph(n, StarEdges(n, c));
    StarDegrees(n, c);
    assert NodesOfDegree(g, n - 1) == {c};
    assert NodesOfDegree(g, 1) == Range(n) - {c};
    RangeSize(n);
    CountDegrees(g, 1);
    CountDegrees(g, n - 1);
  }

  /** Passing the test on n >= 3 nodes leaves one node of degree n-1 and all others of degree 1. */
  lemma CentreAndLeaves(g: Graph) returns (c: nat)
    requires g.nodeCount >= 3 && IsStar(g)
    ensures c < g.nodeCount && Degree(g, c) == g.nodeCount - 1
    ensures forall v: nat | v < g.nodeCount && v != c :: Degree(g, v) == 1
  {
    var n := g.nodeCount;
    var leaves := NodesOfDegree(g, 1);
    var centres := NodesOfDegree(g, n - 1);
    CountDegrees(g, 1);
    CountDegrees(g, n - 1);
    RangeSize(n);
    var c0 :| c0 in centres;
    c := c0;
    // disjoint, n members together: every node is a leaf or the centre
    assert leaves * centres == {};
    assert |leaves + centres| == n;
    SubsetOfSameSize(leaves + centres, Range(n));
    forall v: nat | v < n && v != c
      ensures Degree(g, v) == 1
    {
      assert v in leaves + centres;
      if v in centres {
        SingletonMembers(centres, v, c);
      }
    }
  }

  /** A node of degree n-1 in a valid graph is joined to every other node. */
  lemma FullDegreeHasAllSpokes(g: Graph, c: nat)
    requires g.Valid() && c < g.nodeCount && Degree(g, c) == g.nodeCount - 1
    ensures StarEdges(g.nodeCount, c) <= g.edges
  {
    var n := g.nodeCount;
    forall e | e in Incident(g, c)
      ensures e in StarEdges(n, c)
    {
      if e.0 == c {
        assert e == Edge(c, e.1);
      } else {
        assert e == Edge(c, e.0);
      }
    }
    StarEdgesSize(n, c);
    SubsetOfSameSize(Incident(g, c), StarEdges(n, c));
  }

  /** With every spoke present and every other node of degree 1, no edge avoids the centre. */
  lemma LeavesHaveOnlySpokes(g: Graph, c: nat)
    requires g.Valid() && c < g.nodeCount
    requires StarEdges(g.nodeCount, c) <= g.edges
    requires forall v: nat | v < g.nodeCount && v != c :: Degree(g, v) == 1
    ensures g.edges <= StarEdges(g.nodeCount, c)
  {
    var n := g.nodeCount;
    forall e | e in g.edges
      ensures e in StarEdges(n, c)
    {
      var a := e.0;
      if a == c {
        assert e == Edge(c, e.1);
      } else if e.1 == c {
        assert e == Edge(c, a);
      } else {
        assert Degree(g, a) == 1;
        assert Edge(c, a) in Incident(g, a);
        assert e in Incident(g, a);
        SingletonMembers(Incident(g, a), e, Edge(c, a));
      }
    }
  }

  /** A graph passing the degree-count test on n >= 3 nodes is the star around some centre. */
  lemma IsStarHasStarShape(g: Graph) returns (c: nat)
    requires g.Valid() && g.nodeCount >= 3 && IsStar(g)
    ensures c < g.nodeCount && g.edges == StarEdges(g.nodeCount, c)
  {
    c := CentreAndLeaves(g);
    FullDegreeHasAllSpokes(g, c);
    LeavesHaveOnlySpokes(g, c);
  }

  /** Two nodes never pass the test: both have the same degree, so degree 1 occurs 0 or 2 times. */
  lemma TwoNodesNeverStar(g: Graph)
    requires g.Valid() && g.nodeCount == 2
    ensures !IsStar(g)
  {
    assert Incident(g, 0) == g.edges;
    assert Incident(g, 1) == g.edges;
    CountDegrees(g, 1);
    if Degree(g, 0) == 1 {
      assert NodesOfDegree(g, 1) == {0, 1};
    } else {
      assert NodesOfDegree(g, 1) == {};
    }
  }

  /** A lone node passes the test: degree 0 = n-1 once, degree 1 = n-1 zero times. */
  lemma OneNodeIsStar(g: Graph)
    requires g.Valid() && g.nodeCount == 1
    ensures IsStar(g)
  {
  }

  /**
   * Among valid graphs the degree-count test holds exactly for the lone
   * node and for the stars on three or more nodes.
   */
  lemma StarCharacterisation(g: Graph)
    requires g.Valid()
    ensures IsStar(g) <==>
      g.nodeCount == 1 ||
      (g.nodeCount >= 3 && exists c: nat :: c < g.nodeCount && g.edges == StarEdges(g.nodeCount, c))
  {
    var n := g.nodeCount;
    if n == 1 {
      OneNodeIsStar(g);
    } else if n == 2 {
      TwoNodesNeverStar(g);
    } else if n >= 3 {
      if IsStar(g) {
        var c := IsStarHasStarShape(g);
      }
      if c: nat :| c < n && g.edges == StarEdges(n, c) {
        StarShapeIsStar(n, c);
      }
    }
  }

  /** The graph with no nodes is not a star: degree 1 would have to occur -1 times. */
  lemma EmptyGraphNotStar()
    ensures !IsStar(Graph(0, {}))
  {
  }

  /** A single edge on two nodes is not a star. */
  lemma SingleEdgeNotStar()
    ensures !IsStar(Graph(2, {(0, 1)}))
  {
    TwoNodesNeverStar(Graph(2, {(0, 1)}));
  }

  /**
   * A self-loop counts twice: two nodes with a loop on node 0 have degrees
   * [2, 0], so degree 1 never occurs and the test fails.
   */
  lemma SelfLoopCountsTwice()
    ensures DegreeSequence(Graph(2, {(0, 0)})) == [2, 0]
    ensures !IsStar(Graph(2, {(0, 0)}))
  {
    var g := Graph(2, {(0, 0)});
    assert Incident(g, 0) == {(0, 0)};
    assert Incident(g, 1) == {};
    assert DegreeSequence(g) == [2, 0];
    assert [2, 0][..1] == [2];
    assert [2][..0] == [];
  }

  /**
   * A looped lone node fails the test: its degree sequence is [2], so no
   * degree equals n-1 = 0. Only a loop-free lone node passes.
   */
  lemma LoopedLoneNodeNotStar()
    ensures DegreeSequence(Graph(1, {(0, 0)})) == [2]
    ensures !IsStar(Graph(1, {(0, 0)}))
  {
    var g := Graph(1, {(0, 0)});
    assert Incident(g, 0) == {(0, 0)};
    assert DegreeSequence(g) == [2];
    assert [2][..0] == [];
  }

  /**
   * With loops the test accepts graphs that are not stars: an edge {0, 1}
   * plus a loop on 0 gives the degrees [3, 1]. With n = 2 both tallies ask
   * for one entry equal to 1, which node 1 supplies, although node 0 has
   * degree 3 and not n-1.
   */
  lemma LoopedEdgePassesTest()
    ensures DegreeSequence(Graph(2, {(0, 0), (0, 1)})) == [3, 1]
    ensures IsStar(Graph(2, {(0, 0), (0, 1)}))
  {
    var g := Graph(2, {(0, 0), (0, 1)});
    assert Incident(g, 0) == {(0, 0), (0, 1)};
    assert Incident(g, 1) == {(0, 1)};
    assert DegreeSequence(g) == [3, 1];
    assert [3, 1][..1] == [3];
    assert [3][..0] == [];
  }

  /**
   * The same looseness on three nodes: a loop on 0 and an edge {1, 2} give
   * the degrees [2, 1, 1], which have n-1 = 2 entries equal to 1 and one
   * equal to n-1, although no node is joined to both others.
   */
  lemma LoopedTriplePassesTest()
    ensures DegreeSequence(Graph(3, {(0, 0), (1, 2)})) == [2, 1, 1]
    ensures IsStar(Graph(3, {(0, 0), (1, 2)}))
  {
    var g := Graph(3, {(0, 0), (1, 2)});
    assert Incident(g, 0) == {(0, 0)};
    assert Incident(g, 1) == {(1, 2)};
    assert Incident(g, 2) == {(1, 2)};
    assert DegreeSequence(g) == [2, 1, 1];
    assert [2, 1, 1][..2] == [2, 1];
    assert [2, 1][..1] == [2];
    assert [2][..0] == [];
  }

  /** A centre with k >= 2 leaves is a star. */
  lemma CentreWithLeavesIsStar(k: nat, c: nat)
    requires k >= 2 && c <= k
    ensures IsStar(Graph(k + 1, StarEdges(k + 1, c)))
  {
    var n := k + 1;
    StarShapeIsStar(n, c);
  }

  lemma StarPlusEdgeValid(n: nat, c: nat, a: nat, b: nat)
    requires c < n && a < n && b < n && a != b
    ensures Graph(n, StarEdges(n, c) + {Edge(a, b)}).Valid()
  {
  }

  /** Joining two leaves of such a star destroys the property. */
  lemma LeafEdgeBreaksStar(k: nat, c: nat, a: nat, b: nat)
    requires k >= 2 && c <= k && a <= k && b <= k
    requires a != b && a != c && b != c
    ensures !IsStar(Graph(k + 1, StarEdges(k + 1, c) + {Edge(a, b)}))
  {
    var n := k + 1;
    var g := Graph(n, StarEdges(n, c) + {Edge(a, b)});
    StarPlusEdgeValid(n, c, a, b);
    StarPlusEdgeNoCentre(n, c, a, b);
    NoCentreNotStar(g);
  }

  /** A valid graph on n >= 3 nodes whose edges are no centre's spokes fails the test. */
  lemma NoCentreNotStar(g: Graph)
    requires g.Valid() && g.nodeCount >= 3
    requires forall c: nat | c < g.nodeCount :: g.edges != StarEdges(g.nodeCount, c)
    ensures !IsStar(g)
  {
    StarCharacterisation(g);
  }

  /** A star with one more edge between two leaves has no centre whose spokes are all its edges. */
  lemma StarPlusEdgeNoCentre(n: nat, c: nat, a: nat, b: nat)
    requires c < n && a < n && b < n
    requires a != b && a != c && b != c
    ensures forall c': nat | c' < n :: StarEdges(n, c) + {Edge(a, b)} != StarEdges(n, c')
  {
    forall c': nat | c' < n
      ensures StarEdges(n, c) + {Edge(a, b)} != StarEdges(n, c')
    {
      if StarEdges(n, c) + {Edge(a, b)} == StarEdges(n, c') {
        if c' == c {
          StarEdgesTouchCentre(n, c, Edge(a, b));
        } else {
          var x := if a != c' then a else b;
          assert Edge(c, x) in StarEdges(n, c);
          StarEdgesTouchCentre(n, c', Edge(c, x));
        }
      }
    }
  }
}
