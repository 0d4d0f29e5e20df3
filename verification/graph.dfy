/** initGraph: the 32 x 32 adjacency matrix the tests query. */
module Graph {
  import opened Encoding

  /** The edge rule initGraph tests: j is three or eight steps after i, modulo Domain. */
  predicate EdgeRule(i: nat, j: nat)
  {
    (i + 3) % Domain == j % Domain || (i + 8) % Domain == j % Domain
  }

  /** The matrix initGraph returns. Its loops run i and j over [0, Domain - 1) only, so
      the last node gets no edge in either direction. */
  function GraphG(): seq<seq<bool>>
  {
    seq(Domain, i requires 0 <= i < Domain =>
      seq(Domain, j requires 0 <= j < Domain => i < Domain - 1 && j < Domain - 1 && EdgeRule(i, j)))
  }

  /** initGraph(): an all-false matrix whose entries are then set by two nested loops. */
  method InitGraph() returns (g: seq<seq<bool>>)
    ensures g == GraphG()
  {
    g := seq(Domain, _ => seq(Domain, _ => false));
    var i := 0;
    while i < Domain - 1
      invariant 0 <= i <= Domain - 1
      invariant |g| == Domain && forall r :: 0 <= r < Domain ==> |g[r]| == Domain
      invariant forall r, c :: 0 <= r < Domain && 0 <= c < Domain ==>
        (g[r][c] <==> r < i && c < Domain - 1 && EdgeRule(r, c))
    {
      var j := 0;
      while j < Domain - 1
        invariant 0 <= j <= Domain - 1
        invariant |g| == Domain && forall r :: 0 <= r < Domain ==> |g[r]| == Domain
        invariant forall r, c :: 0 <= r < Domain && 0 <= c < Domain ==>
          (g[r][c] <==> (r < i && c < Domain - 1 && EdgeRule(r, c)) || (r == i && c < j && EdgeRule(r, c)))
      {
        if EdgeRule(i, j) {
          g := g[i := g[i][j := true]];
        }
        j := j + 1;
      }
      i := i + 1;
    }
    forall r | 0 <= r < Domain
      ensures g[r] == GraphG()[r]
    {
    }
  }

  /** Against the rule over the whole domain, the loop bounds drop exactly the four edges
      that touch the last node: 31 -> 2, 31 -> 7, 28 -> 31 and 23 -> 31. */
  lemma GraphGDropsLastNode()
    ensures forall i, j :: 0 <= i < Domain && 0 <= j < Domain ==>
      (GraphG()[i][j] <==> EdgeRule(i, j) && (i, j) !in {(31, 2), (31, 7), (28, 31), (23, 31)})
    ensures forall k :: 0 <= k < Domain ==> !GraphG()[Domain - 1][k] && !GraphG()[k][Domain - 1]
  {
    forall i, j | 0 <= i < Domain && 0 <= j < Domain
      ensures GraphG()[i][j] <==> EdgeRule(i, j) && (i, j) !in {(31, 2), (31, 7), (28, 31), (23, 31)}
    {
      if i == Domain - 1 || j == Domain - 1 {
        assert EdgeRule(i, j) <==> (i, j) in {(31, 2), (31, 7), (28, 31), (23, 31)};
      }
    }
  }
}
