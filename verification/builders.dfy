/** createBDDString and graphToBDD: predicates built as disjunctions of node encodings. */
module Builders {
  import opened Encoding
  import opened Boolean
  import opened Results

  /** `[i for i in range(len(list)) if list[i]]`. */
  function TrueIndices(list: seq<bool>): (r: seq<nat>)
    ensures forall k :: 0 <= k < |r| ==> r[k] < |list| && list[r[k]]
    ensures forall i :: 0 <= i < |list| && list[i] ==> i in r
  {
    if |list| == 0 then []
    else
      var init := TrueIndices(list[..|list| - 1]);
      if list[|list| - 1] then init + [|list| - 1] else init
  }

  /** `d = es[0]; for e in es[1:]: d |= e`. */
  function Disjoin(es: seq<Expr>): (e: Expr)
    requires |es| > 0
    ensures forall p :: p in Sat(e) <==> exists k :: 0 <= k < |es| && p in Sat(es[k])
    decreases |es|
  {
    if |es| == 1 then es[0] else Or(Disjoin(es[..|es| - 1]), es[|es| - 1])
  }

  /** The disjuncts createBDDString collects, one per true entry. */
  function NodeExprs(list: seq<bool>, ns: Namespace): seq<Expr>
  {
    var idx := TrueIndices(list);
    seq(|idx|, k requires 0 <= k < |idx| => Conj(CreateExpr(idx[k], ns)))
  }

  lemma NodeExprsSatAt(list: seq<bool>, ns: Namespace, p: Point)
    requires |NodeExprs(list, ns)| > 0
    ensures p in Sat(Disjoin(NodeExprs(list, ns))) <==>
      WellFormed(p) && exists i :: 0 <= i < |list| && list[i] && Get(p, ns) == Encode(i)
  {
    var idx := TrueIndices(list);
    var es := NodeExprs(list, ns);
    if p in Sat(Disjoin(es)) {
      var k :| 0 <= k < |es| && p in Sat(es[k]);
      CreateExprSat(idx[k], ns);
      assert list[idx[k]] && Get(p, ns) == Encode(idx[k]);
    }
    if WellFormed(p) && exists i :: 0 <= i < |list| && list[i] && Get(p, ns) == Encode(i) {
      var i :| 0 <= i < |list| && list[i] && Get(p, ns) == Encode(i);
      var k :| 0 <= k < |idx| && idx[k] == i;
      CreateExprSat(i, ns);
      assert p in Sat(es[k]);
    }
  }

  lemma NodeExprsSat(list: seq<bool>, ns: Namespace)
    requires |NodeExprs(list, ns)| > 0
    ensures forall p :: p in Sat(Disjoin(NodeExprs(list, ns))) <==>
      WellFormed(p) && exists i :: 0 <= i < |list| && list[i] && Get(p, ns) == Encode(i)
  {
    forall p
      ensures p in Sat(Disjoin(NodeExprs(list, ns))) <==>
        WellFormed(p) && exists i :: 0 <= i < |list| && list[i] && Get(p, ns) == Encode(i)
    {
      NodeExprsSatAt(list, ns, p);
    }
  }

  /** createBDDString(list, ns): the function true exactly where the variables of `ns` hold
      the encoding of some index whose entry is true; IndexError when no entry is true. */
  ghost function CreateBDDString(list: seq<bool>, ns: Namespace): (r: Result<BoolFn>)
    ensures r.Failure? <==> forall i :: 0 <= i < |list| ==> !list[i]
    ensures r.Failure? ==> r.error == EmptyDisjunction
    ensures r.Success? ==> forall p :: p in r.value <==>
      WellFormed(p) && exists i :: 0 <= i < |list| && list[i] && Get(p, ns) == Encode(i)
  {
    var es := NodeExprs(list, ns);
    if |es| == 0 then
      assert forall i :: 0 <= i < |list| ==> !list[i] by {
        forall i | 0 <= i < |list| ensures !list[i] {
          assert i !in TrueIndices(list);
        }
      }
      Failure(EmptyDisjunction)
    else
      NodeExprsSat(list, ns);
      Success(Sat(Disjoin(es)))
  }

  /** Every index graphToBDD reads, `graphG[i][j]` for i, j < Domain, exists. */
  predicate CoversDomain(g: seq<seq<bool>>)
  {
    |g| >= Domain && forall i :: 0 <= i < Domain ==> |g[i]| >= Domain
  }

  /** The edges of `g` within the domain. */
  function EdgeSet(g: seq<seq<bool>>): set<(nat, nat)>
    requires CoversDomain(g)
  {
    set i: nat, j: nat | i < Domain && j < Domain && g[i][j] :: (i, j)
  }

  /** The pairs `(i, j) for i in range(rows) for j in range(32) if graphG[i][j]`, row by row. */
  function EdgePairs(g: seq<seq<bool>>, rows: nat): (r: seq<(nat, nat)>)
    requires CoversDomain(g) && rows <= Domain
    ensures forall e :: e in r <==> e.0 < rows && e.1 < Domain && g[e.0][e.1]
  {
    if rows == 0 then []
    else
      var i: nat := rows - 1;
      assert |g[i]| >= Domain;
      var cols := TrueIndices(g[i][..Domain]);
      var row: seq<(nat, nat)> := seq(|cols|, k requires 0 <= k < |cols| => (i, cols[k]));
      assert forall e: (nat, nat) :: e in row <==> e.0 == i && e.1 < Domain && g[i][e.1] by {
        forall e: (nat, nat) ensures e in row <==> e.0 == i && e.1 < Domain && g[i][e.1] {
          if e.0 == i && e.1 < Domain && g[i][e.1] {
            assert g[i][..Domain][e.1];
            var k :| 0 <= k < |cols| && cols[k] == e.1;
            assert row[k] == e;
          }
        }
      }
      EdgePairs(g, i) + row
  }

  /** The disjuncts graphToBDD collects: `createExpr(i, 'x') & createExpr(j, 'y')` per edge. */
  function EdgeExprs(g: seq<seq<bool>>): seq<Expr>
    requires CoversDomain(g)
  {
    var pairs := EdgePairs(g, Domain);
    seq(|pairs|, k requires 0 <= k < |pairs| =>
      And(Conj(CreateExpr(pairs[k].0, X)), Conj(CreateExpr(pairs[k].1, Y))))
  }

  /** One disjunct of graphToBDD holds exactly at the joint encoding of its edge. */
  lemma EdgeExprSat(i: nat, j: nat, p: Point)
    ensures p in Sat(And(Conj(CreateExpr(i, X)), Conj(CreateExpr(j, Y)))) <==>
      WellFormed(p) && p.x == Encode(i) && p.y == Encode(j)
  {
    CreateExprSat(i, X);
    CreateExprSat(j, Y);
  }

  lemma EdgeExprsSat(g: seq<seq<bool>>)
    requires CoversDomain(g) && |EdgeExprs(g)| > 0
    ensures Sat(Disjoin(EdgeExprs(g))) == RelationFn(EdgeSet(g))
  {
    var pairs := EdgePairs(g, Domain);
    var es := EdgeExprs(g);
    var edges := EdgeSet(g);
    forall p
      ensures p in Sat(Disjoin(es)) <==> p in RelationFn(edges)
    {
      if p in Sat(Disjoin(es)) {
        var k :| 0 <= k < |es| && p in Sat(es[k]);
        var e := pairs[k];
        EdgeExprSat(e.0, e.1, p);
        assert e in pairs;
        EncodeRoundTrip(e.0);
        EncodeRoundTrip(e.1);
        assert e in edges;
      }
      if p in RelationFn(edges) {
        DecodeRoundTrip(p.x);
        DecodeRoundTrip(p.y);
        var e := (Decode(p.x), Decode(p.y));
        assert e in pairs;
        var k :| 0 <= k < |pairs| && pairs[k] == e;
        EdgeExprSat(e.0, e.1, p);
        assert p in Sat(es[k]);
      }
    }
  }

  /** graphToBDD(g): the relation holding exactly the edges of `g`; IndexError when `g` is
      smaller than Domain x Domain or has no edge. */
  ghost function GraphToBDD(g: seq<seq<bool>>): (r: Result<BoolFn>)
    ensures !CoversDomain(g) ==> r == Failure(MatrixTooSmall)
    ensures CoversDomain(g) ==>
      (r.Failure? <==> forall i, j :: 0 <= i < Domain && 0 <= j < Domain ==> !g[i][j])
    ensures CoversDomain(g) && r.Failure? ==> r.error == EmptyDisjunction
    ensures r.Success? ==> CoversDomain(g) && r.value == RelationFn(EdgeSet(g))
  {
    if !CoversDomain(g) then Failure(MatrixTooSmall)
    else
      var es := EdgeExprs(g);
      if |es| == 0 then
        assert forall i, j :: 0 <= i < Domain && 0 <= j < Domain ==> !g[i][j] by {
          forall i, j | 0 <= i < Domain && 0 <= j < Domain ensures !g[i][j] {
            assert (i, j) !in EdgePairs(g, Domain);
          }
        }
        Failure(EmptyDisjunction)
      else
        EdgeExprsSat(g);
        Success(Sat(Disjoin(es)))
  }
}
