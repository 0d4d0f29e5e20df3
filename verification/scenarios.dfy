/** The queries the engine's test suite makes, stated over the model: membership in the EVEN
    and PRIME node sets, edges of the initGraph relation and of its square. */
module Scenarios {
  import opened Encoding
  import opened Boolean
  import opened Builders
  import opened Queries
  import opened Graph
  import opened Squaring

  /** The even nodes, as a membership list over the domain. */
  function EvenList(): (list: seq<bool>)
    ensures |list| == Domain
  {
    seq(Domain, i requires 0 <= i < Domain => i % 2 == 0)
  }

  /** The PRIME node set of the test suite; it leaves out 2. */
  function Primes(): set<nat>
  {
    {3, 5, 7, 11, 13, 17, 19, 23, 29, 31}
  }

  /** The PRIME nodes, as a membership list over the domain. */
  function PrimeList(): (list: seq<bool>)
    ensures |list| == Domain
  {
    seq(Domain, i requires 0 <= i < Domain => i in Primes())
  }

  /** EVEN over xx: node 14 is found, node 13 is not. */
  lemma EvenQueries()
    ensures CreateBDDString(EvenList(), X).Success?
    ensures FindNode(CreateBDDString(EvenList(), X).value, 14, X)
    ensures !FindNode(CreateBDDString(EvenList(), X).value, 13, X)
  {
    assert EvenList()[0];
    FindNodeAfterCreateBDDString(EvenList(), X, 14);
    FindNodeAfterCreateBDDString(EvenList(), X, 13);
  }

  lemma PrimeListEntries()
    ensures PrimeList()[3] && PrimeList()[7] && !PrimeList()[2]
  {
    assert 3 in Primes() && 7 in Primes();
  }

  /** PRIME over yy: node 7 is found, node 2 is not. */
  lemma PrimeQueries()
    ensures CreateBDDString(PrimeList(), Y).Success?
    ensures FindNode(CreateBDDString(PrimeList(), Y).value, 7, Y)
    ensures !FindNode(CreateBDDString(PrimeList(), Y).value, 2, Y)
  {
    PrimeListEntries();
    FindNodeAfterCreateBDDString(PrimeList(), Y, 7);
    FindNodeAfterCreateBDDString(PrimeList(), Y, 2);
  }

  /** A matrix covering the domain has all its edges inside the domain. */
  lemma EdgeSetInDomain(g: seq<seq<bool>>)
    requires CoversDomain(g)
    ensures InDomain(EdgeSet(g))
  {
  }

  /** An entry of initGraph's matrix, by the rule and the loop bounds. */
  lemma GraphGEntry(i: nat, j: nat)
    requires i < Domain && j < Domain
    ensures GraphG()[i][j] <==> i < Domain - 1 && j < Domain - 1 && EdgeRule(i, j)
  {
  }

  /** initGraph's matrix covers the domain and has an edge, so graphToBDD succeeds on it. */
  lemma GraphGConverts()
    ensures CoversDomain(GraphG()) && GraphToBDD(GraphG()).Success?
  {
    GraphGEntry(0, 3);
  }

  /** findEdge on graphToBDD(initGraph()) answers initGraph's rule within its loop bounds. */
  lemma GraphGFindEdge(a: nat, b: nat)
    requires a < Domain && b < Domain
    ensures GraphToBDD(GraphG()).Success?
    ensures FindEdge(GraphToBDD(GraphG()).value, a, b) <==>
      a < Domain - 1 && b < Domain - 1 && EdgeRule(a, b)
  {
    GraphGConverts();
    GraphGEntry(a, b);
    FindEdgeAfterGraphToBDD(GraphG(), a, b);
  }

  /** graphToBDD(initGraph()): edge 27 -> 3 is found. */
  lemma GraphFindsEdge27To3()
    ensures GraphToBDD(GraphG()).Success? && FindEdge(GraphToBDD(GraphG()).value, 27, 3)
  {
    GraphGFindEdge(27, 3);
  }

  /** graphToBDD(initGraph()): edge 16 -> 20 is not found. */
  lemma GraphMissesEdge16To20()
    ensures GraphToBDD(GraphG()).Success? && !FindEdge(GraphToBDD(GraphG()).value, 16, 20)
  {
    GraphGFindEdge(16, 20);
  }

  /** In initGraph's matrix, node 27 has exactly the successors 30 and 3. */
  lemma SuccessorsOf27(m: nat)
    requires m < Domain
    ensures GraphG()[27][m] <==> m == 30 || m == 3
  {
    GraphGEntry(27, m);
  }

  lemma EdgeSetMember(g: seq<seq<bool>>, i: nat, j: nat)
    requires CoversDomain(g)
    ensures (i, j) in EdgeSet(g) <==> i < Domain && j < Domain && g[i][j]
  {
  }

  /** Two steps through the edges of `g`. */
  predicate TwoSteps(g: seq<seq<bool>>, a: nat, b: nat)
    requires CoversDomain(g) && a < Domain && b < Domain
  {
    exists m: nat :: m < Domain && g[a][m] && g[m][b]
  }

  lemma BddRR2OfEdgeSet(g: seq<seq<bool>>, a: nat, b: nat)
    requires CoversDomain(g) && a < Domain && b < Domain
    ensures FindEdge(BddRR2(RelationFn(EdgeSet(g))), a, b) <==> TwoSteps(g, a, b)
  {
    var edges := EdgeSet(g);
    EdgeSetInDomain(g);
    BddRR2FindEdge(edges, a, b);
    if exists m :: m < Domain && (a, m) in edges && (m, b) in edges {
      var m :| m < Domain && (a, m) in edges && (m, b) in edges;
      EdgeSetMember(g, a, m);
      EdgeSetMember(g, m, b);
    }
    if TwoSteps(g, a, b) {
      var m: nat :| m < Domain && g[a][m] && g[m][b];
      EdgeSetMember(g, a, m);
      EdgeSetMember(g, m, b);
    }
  }

  /** bddRR2 on graphToBDD's result relates a and b iff the matrix has a two-step path. */
  lemma BddRR2AfterGraphToBDD(g: seq<seq<bool>>, a: nat, b: nat)
    requires a < Domain && b < Domain && GraphToBDD(g).Success?
    ensures CoversDomain(g)
    ensures FindEdge(BddRR2(GraphToBDD(g).value), a, b) <==> TwoSteps(g, a, b)
  {
    BddRR2OfEdgeSet(g, a, b);
  }

  /** bddRR2(graphToBDD(initGraph())) relates a and b iff initGraph has a two-step path. */
  lemma SquaredGraphFindEdge(a: nat, b: nat)
    requires a < Domain && b < Domain
    ensures GraphToBDD(GraphG()).Success?
    ensures FindEdge(BddRR2(GraphToBDD(GraphG()).value), a, b) <==>
      TwoSteps(GraphG(), a, b)
  {
    GraphGConverts();
    BddRR2AfterGraphToBDD(GraphG(), a, b);
  }

  /** bddRR2(graphToBDD(initGraph())): 27 reaches 6 in two steps, through 30. */
  lemma SquaredGraphFinds27To6()
    ensures GraphToBDD(GraphG()).Success? && FindEdge(BddRR2(GraphToBDD(GraphG()).value), 27, 6)
  {
    SquaredGraphFindEdge(27, 6);
    GraphGEntry(27, 30);
    GraphGEntry(30, 6);
  }

  /** In initGraph's matrix no two-step path leads from 27 to 9. */
  lemma NoTwoStepsFrom27To9()
    ensures !TwoSteps(GraphG(), 27, 9)
  {
    forall m: nat | m < Domain && GraphG()[27][m]
      ensures !GraphG()[m][9]
    {
      SuccessorsOf27(m);
      GraphGEntry(m, 9);
    }
  }

  /** bddRR2(graphToBDD(initGraph())): 27 does not reach 9 in two steps. */
  lemma SquaredGraphMisses27To9()
    ensures GraphToBDD(GraphG()).Success? && !FindEdge(BddRR2(GraphToBDD(GraphG()).value), 27, 9)
  {
    SquaredGraphFindEdge(27, 9);
    NoTwoStepsFrom27To9();
  }
}
