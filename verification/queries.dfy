/** findNode and findEdge: cofactor at an encoded point, then test for the constant 1. */
module Queries {
  import opened Encoding
  import opened Boolean
  import opened Builders

  /** findNode(f, n, ns): `f` restricted to the encoding of `n` over `ns` is the constant 1. */
  ghost predicate FindNode(f: BoolFn, n: nat, ns: Namespace)
  {
    IsOne(Restrict(f, map[ns := Encode(n)]))
  }

  /** findEdge(f, a, b): `f` restricted to `a` over xx and `b` over yy is the constant 1. */
  ghost predicate FindEdge(f: BoolFn, a: nat, b: nat)
  {
    IsOne(Restrict(f, map[X := Encode(a), Y := Encode(b)]))
  }

  /** Some well-formed point exists, so a constant-1 cofactor is not vacuous. */
  function SomePoint(): (p: Point)
    ensures WellFormed(p)
  {
    Point(Encode(0), Encode(0), Encode(0))
  }

  /** On a node set, findNode answers membership for every node of the domain. */
  lemma FindNodeInNodeSet(ns: Namespace, s: set<nat>, n: nat)
    requires n < Domain
    ensures FindNode(NodeSetFn(ns, s), n, ns) <==> n in s
  {
    EncodeRoundTrip(n);
    var q := Override(SomePoint(), map[ns := Encode(n)]);
    assert Get(q, ns) == Encode(n);
    if n in s {
      forall p | WellFormed(p)
        ensures p in Restrict(NodeSetFn(ns, s), map[ns := Encode(n)])
      {
        assert Get(Override(p, map[ns := Encode(n)]), ns) == Encode(n);
      }
    } else {
      assert SomePoint() !in Restrict(NodeSetFn(ns, s), map[ns := Encode(n)]);
    }
  }

  /** On a relation, findEdge answers membership for every pair of the domain. */
  lemma FindEdgeInRelation(rel: set<(nat, nat)>, a: nat, b: nat)
    requires a < Domain && b < Domain
    ensures FindEdge(RelationFn(rel), a, b) <==> (a, b) in rel
  {
    EncodeRoundTrip(a);
    EncodeRoundTrip(b);
    var m := map[X := Encode(a), Y := Encode(b)];
    forall p | WellFormed(p)
      ensures p in Restrict(RelationFn(rel), m) <==> (a, b) in rel
    {
      var q := Override(p, m);
      assert q.x == Encode(a) && q.y == Encode(b);
    }
    assert SomePoint() in Restrict(RelationFn(rel), m) <==> (a, b) in rel;
  }

  /** The nodes whose entry in `list` is true. */
  function Members(list: seq<bool>): set<nat>
  {
    set i: nat | i < |list| && list[i]
  }

  /** A membership list of at most Domain entries yields exactly the node set it lists. */
  lemma CreateBDDStringIsNodeSet(list: seq<bool>, ns: Namespace)
    requires |list| <= Domain && CreateBDDString(list, ns).Success?
    ensures CreateBDDString(list, ns).value == NodeSetFn(ns, Members(list))
  {
    var f := CreateBDDString(list, ns).value;
    forall p
      ensures p in f <==> p in NodeSetFn(ns, Members(list))
    {
      if WellFormed(p) {
        DecodeRoundTrip(Get(p, ns));
        if p in f {
          var i :| 0 <= i < |list| && list[i] && Get(p, ns) == Encode(i);
          EncodeRoundTrip(i);
        }
        if p in NodeSetFn(ns, Members(list)) {
          var i := Decode(Get(p, ns));
          assert list[i] && Get(p, ns) == Encode(i);
        }
      }
    }
  }

  /** findNode on createBDDString's result: node n is found iff its entry is true. */
  lemma FindNodeAfterCreateBDDString(list: seq<bool>, ns: Namespace, n: nat)
    requires |list| <= Domain && n < Domain && CreateBDDString(list, ns).Success?
    ensures FindNode(CreateBDDString(list, ns).value, n, ns) <==> n < |list| && list[n]
  {
    CreateBDDStringIsNodeSet(list, ns);
    FindNodeInNodeSet(ns, Members(list), n);
  }

  /** findEdge on graphToBDD's result: (a, b) is found iff the matrix holds the edge. */
  lemma FindEdgeAfterGraphToBDD(g: seq<seq<bool>>, a: nat, b: nat)
    requires a < Domain && b < Domain && GraphToBDD(g).Success?
    ensures FindEdge(GraphToBDD(g).value, a, b) <==> g[a][b]
  {
    FindEdgeInRelation(EdgeSet(g), a, b);
  }

  /** The 33-entry list whose only true entry is the last one, index 32. */
  function LastOfLongList(): (list: seq<bool>)
    ensures |list| == Domain + 1 && list[Domain] && !list[16]
  {
    seq(Domain + 1, i requires 0 <= i < Domain + 1 => i == Domain)
  }

  lemma LongListHolds(p: Point)
    requires WellFormed(p) && p.x == Encode(Domain)
    ensures CreateBDDString(LastOfLongList(), X).Success?
    ensures p in CreateBDDString(LastOfLongList(), X).value
  {
    assert Get(p, X) == Encode(Domain);
  }

  /** With more than Domain entries, index 32 is encoded like index 16, so node 16 is found
      although its own entry is false. */
  lemma CreateBDDStringAliasesLongList()
    ensures CreateBDDString(LastOfLongList(), X).Success? && !LastOfLongList()[16]
    ensures FindNode(CreateBDDString(LastOfLongList(), X).value, 16, X)
  {
    EncodeAliasesAboveDomain(Domain);
    LongListHolds(SomePoint().(x := Encode(Domain)));
    var f := CreateBDDString(LastOfLongList(), X).value;
    var fix := map[X := Encode(16)];
    forall p | WellFormed(p)
      ensures p in Restrict(f, fix)
    {
      var q := Override(p, fix);
      assert q == p.(x := Encode(Domain));
      LongListHolds(q);
    }
  }
}
