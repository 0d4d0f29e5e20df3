/** bddRR2 and bddRR2star: relational squaring through the temporary namespace zz, and
    squaring repeated until two consecutive results are equivalent. */
module Squaring {
  import opened Encoding
  import opened Boolean
  import opened Results
  import opened Queries
  import opened Fixpoint

  /** bddRR2(r): `r.compose(xx -> zz) & r.compose(yy -> zz)`, then zz smoothed away. */
  ghost function BddRR2(r: BoolFn): BoolFn
  {
    Smoothing(Compose(r, X, Z) * Compose(r, Y, Z), Z)
  }

  /** The composition of a relation with itself. */
  function Square(rel: set<(nat, nat)>): (sq: set<(nat, nat)>)
    ensures forall a, b :: (a, b) in sq <==> exists m :: (a, m) in rel && (m, b) in rel
  {
    set e1, e2 | e1 in rel && e2 in rel && e1.1 == e2.0 :: (e1.0, e2.1)
  }

  /** Every pair of `rel` lies in the domain. */
  predicate InDomain(rel: set<(nat, nat)>)
  {
    forall e :: e in rel ==> e.0 < Domain && e.1 < Domain
  }

  /** A point satisfies bddRR2(r) iff some w makes (w, y) and (x, w) satisfy r. */
  lemma BddRR2Member(r: BoolFn, p: Point)
    requires WellFormed(p)
    ensures p in BddRR2(r) <==>
      exists w: Bits :: |w| == Width && Point(w, p.y, w) in r && Point(p.x, w, w) in r
  {
    var both := Compose(r, X, Z) * Compose(r, Y, Z);
    if p in BddRR2(r) {
      var w: Bits :| |w| == Width && Assign(p, Z, w) in both;
      var q := Assign(p, Z, w);
      assert Assign(q, X, Get(q, Z)) == Point(w, p.y, w);
      assert Assign(q, Y, Get(q, Z)) == Point(p.x, w, w);
    }
    if exists w: Bits :: |w| == Width && Point(w, p.y, w) in r && Point(p.x, w, w) in r {
      var w: Bits :| |w| == Width && Point(w, p.y, w) in r && Point(p.x, w, w) in r;
      var q := Assign(p, Z, w);
      assert Assign(q, X, Get(q, Z)) == Point(w, p.y, w);
      assert Assign(q, Y, Get(q, Z)) == Point(p.x, w, w);
      assert q in both;
    }
  }

  lemma BddRR2OfRelationSound(rel: set<(nat, nat)>, p: Point)
    requires WellFormed(p) && p in BddRR2(RelationFn(rel))
    ensures (Decode(p.x), Decode(p.y)) in Square(rel)
  {
    var r := RelationFn(rel);
    BddRR2Member(r, p);
    var w: Bits :| |w| == Width && Point(w, p.y, w) in r && Point(p.x, w, w) in r;
    assert (Decode(p.x), Decode(w)) in rel;
    assert (Decode(w), Decode(p.y)) in rel;
  }

  lemma BddRR2OfRelationComplete(rel: set<(nat, nat)>, p: Point)
    requires InDomain(rel) && WellFormed(p) && (Decode(p.x), Decode(p.y)) in Square(rel)
    ensures p in BddRR2(RelationFn(rel))
  {
    var r := RelationFn(rel);
    var a, b := Decode(p.x), Decode(p.y);
    var m :| (a, m) in rel && (m, b) in rel;
    assert m < Domain;
    EncodeRoundTrip(m);
    var w := Encode(m);
    assert Decode(w) == m;
    assert Point(w, p.y, w) in r;
    assert Point(p.x, w, w) in r;
    BddRR2Member(r, p);
  }

  /** On a relation, bddRR2 computes exactly the composition of the relation with itself. */
  lemma BddRR2OfRelation(rel: set<(nat, nat)>)
    requires InDomain(rel)
    ensures BddRR2(RelationFn(rel)) == RelationFn(Square(rel))
  {
    forall p
      ensures p in BddRR2(RelationFn(rel)) <==> p in RelationFn(Square(rel))
    {
      if WellFormed(p) && p in BddRR2(RelationFn(rel)) {
        BddRR2OfRelationSound(rel, p);
      }
      if p in RelationFn(Square(rel)) {
        BddRR2OfRelationComplete(rel, p);
      }
    }
  }

  /** bddRR2 relates (a, b) iff some node m has (a, m) and (m, b) in the relation. */
  lemma BddRR2FindEdge(rel: set<(nat, nat)>, a: nat, b: nat)
    requires InDomain(rel) && a < Domain && b < Domain
    ensures FindEdge(BddRR2(RelationFn(rel)), a, b) <==>
      exists m :: m < Domain && (a, m) in rel && (m, b) in rel
  {
    BddRR2OfRelation(rel);
    FindEdgeInRelation(Square(rel), a, b);
  }

  /** An edge findEdge sees in `r` holds in `r` whatever the zz variables are. */
  lemma FindEdgeHolds(r: BoolFn, a: nat, b: nat, z: Bits)
    requires FindEdge(r, a, b) && |z| == Width
    ensures Point(Encode(a), Encode(b), z) in r
  {
    var p := Point(Encode(a), Encode(b), z);
    var fix := map[X := Encode(a), Y := Encode(b)];
    assert WellFormed(p);
    assert p in Restrict(r, fix);
    assert Override(p, fix) == p;
  }

  lemma BddRR2ComposesAt(r: BoolFn, a: nat, m: nat, b: nat)
    requires FindEdge(r, a, m) && FindEdge(r, m, b)
    ensures forall z: Bits :: |z| == Width ==> Point(Encode(a), Encode(b), z) in BddRR2(r)
  {
    var w := Encode(m);
    FindEdgeHolds(r, m, b, w);
    FindEdgeHolds(r, a, m, w);
    forall z: Bits | |z| == Width
      ensures Point(Encode(a), Encode(b), z) in BddRR2(r)
    {
      BddRR2Member(r, Point(Encode(a), Encode(b), z));
    }
  }

  /** findEdge sees an edge that holds whatever the zz variables are. */
  lemma FindEdgeFromPoints(f: BoolFn, a: nat, b: nat)
    requires forall z: Bits :: |z| == Width ==> Point(Encode(a), Encode(b), z) in f
    ensures FindEdge(f, a, b)
  {
    var fix := map[X := Encode(a), Y := Encode(b)];
    forall p | WellFormed(p)
      ensures p in Restrict(f, fix)
    {
      assert Override(p, fix) == Point(Encode(a), Encode(b), p.z);
    }
  }

  /** Whatever `r` is, the two-step pairs findEdge sees in `r` are in bddRR2(r). */
  lemma BddRR2Composes(r: BoolFn, a: nat, m: nat, b: nat)
    requires FindEdge(r, a, m) && FindEdge(r, m, b)
    ensures FindEdge(BddRR2(r), a, b)
  {
    BddRR2ComposesAt(r, a, m, b);
    FindEdgeFromPoints(BddRR2(r), a, b);
  }

  /** bddRR2 is monotone: a larger relation squares to a larger relation. */
  lemma BddRR2Monotone(r: BoolFn, s: BoolFn)
    requires r <= s
    ensures BddRR2(r) <= BddRR2(s)
  {
    forall p | p in BddRR2(r)
      ensures p in BddRR2(s)
    {
      var w: Bits :| |w| == Width && Assign(p, Z, w) in Compose(r, X, Z) * Compose(r, Y, Z);
      assert Assign(p, Z, w) in Compose(s, X, Z) * Compose(s, Y, Z);
    }
  }

  /** The temporary namespace is quantified away: the result mentions only xx and yy. */
  lemma BddRR2IgnoresTemporary(r: BoolFn)
    ensures Independent(BddRR2(r), Z)
  {
    forall p, b | WellFormed(p) && |b| == Width
      ensures p in BddRR2(r) <==> Assign(p, Z, b) in BddRR2(r)
    {
      forall w: Bits
        ensures Assign(Assign(p, Z, b), Z, w) == Assign(p, Z, w)
      {
      }
    }
  }

  /** bddRR2star(rr2), with at most `fuel` squarings: a relation of the sequence rr2,
      bddRR2(rr2), bddRR2(bddRR2(rr2)), ... that bddRR2 leaves unchanged. */
  ghost function BddRR2Star(rr2: BoolFn, fuel: nat): (r: Option<BoolFn>)
    ensures r.Some? ==> BddRR2(r.value) == r.value
    ensures r.Some? ==> exists k :: 0 < k <= fuel && r.value == Iterate(BddRR2, rr2, k)
  {
    Star(BddRR2, rr2, fuel)
  }

  /** The relation bddRR2star returns is transitive as findEdge sees it. */
  lemma BddRR2StarTransitive(rr2: BoolFn, fuel: nat, a: nat, m: nat, b: nat)
    requires BddRR2Star(rr2, fuel).Some?
    requires FindEdge(BddRR2Star(rr2, fuel).value, a, m) && FindEdge(BddRR2Star(rr2, fuel).value, m, b)
    ensures FindEdge(BddRR2Star(rr2, fuel).value, a, b)
  {
    BddRR2Composes(BddRR2Star(rr2, fuel).value, a, m, b);
  }

  /** A relation over the domain is determined by its function. */
  lemma RelationFnInjective(r1: set<(nat, nat)>, r2: set<(nat, nat)>)
    requires InDomain(r1) && InDomain(r2) && RelationFn(r1) == RelationFn(r2)
    ensures r1 == r2
  {
    forall e: (nat, nat) | e in r1 || e in r2
      ensures e in r1 && e in r2
    {
      EncodeRoundTrip(e.0);
      EncodeRoundTrip(e.1);
      var p := Point(Encode(e.0), Encode(e.1), Encode(0));
      assert p in RelationFn(r1) <==> p in RelationFn(r2);
    }
  }

  lemma SquareInDomain(rel: set<(nat, nat)>)
    requires InDomain(rel)
    ensures InDomain(Square(rel))
  {
    forall e | e in Square(rel)
      ensures e.0 < Domain && e.1 < Domain
    {
      var m :| (e.0, m) in rel && (m, e.1) in rel;
    }
  }

  /** The relation squared k times: the pairs joined by a path of exactly 2^k edges. */
  function Power(rel: set<(nat, nat)>, k: nat): set<(nat, nat)>
    decreases k
  {
    if k == 0 then rel else Power(Square(rel), k - 1)
  }

  /** On a relation, the k-th element of bddRR2star's sequence is the relation squared
      k times. */
  lemma {:induction false} IterateOfRelation(rel: set<(nat, nat)>, k: nat)
    requires InDomain(rel)
    ensures Iterate(BddRR2, RelationFn(rel), k) == RelationFn(Power(rel, k))
    decreases k
  {
    if k > 0 {
      BddRR2OfRelation(rel);
      SquareInDomain(rel);
      IterateOfRelation(Square(rel), k - 1);
    }
  }

  /** Started on a relation, bddRR2star returns the relation squared some k times, and
      squaring that relation once more leaves it unchanged. */
  lemma BddRR2StarOfRelation(rel: set<(nat, nat)>, fuel: nat)
    requires InDomain(rel) && BddRR2Star(RelationFn(rel), fuel).Some?
    ensures exists k :: (0 < k <= fuel &&
                          BddRR2Star(RelationFn(rel), fuel).value == RelationFn(Power(rel, k)) &&
                          Square(Power(rel, k)) == Power(rel, k))
  {
    var f := BddRR2Star(RelationFn(rel), fuel).value;
    var k :| 0 < k <= fuel && f == Iterate(BddRR2, RelationFn(rel), k);
    IterateOfRelation(rel, k);
    var pk := Power(rel, k);
    PowerInDomain(rel, k);
    BddRR2OfRelation(pk);
    SquareInDomain(pk);
    RelationFnInjective(Square(pk), pk);
  }

  lemma {:induction false} PowerInDomain(rel: set<(nat, nat)>, k: nat)
    requires InDomain(rel)
    ensures InDomain(Power(rel, k))
    decreases k
  {
    if k > 0 {
      SquareInDomain(rel);
      PowerInDomain(Square(rel), k - 1);
    }
  }

  /** The successor of a node on the three-cycle 0 -> 1 -> 2 -> 0. */
  function Next(a: nat): nat
  {
    if a == 2 then 0 else a + 1
  }

  /** `b` is one (`steps == 1`) or two (otherwise) nodes ahead of `a` on the three-cycle. */
  predicate Ahead(steps: nat, a: nat, b: nat)
  {
    a < 3 && b == (if steps == 1 then Next(a) else Next(Next(a)))
  }

  /** The three-cycle (`steps == 1`) and its square (`steps == 2`) as relations. */
  function Rotation(steps: nat): set<(nat, nat)>
  {
    set a: nat, b: nat | a < 3 && b < 3 && Ahead(steps, a, b) :: (a, b)
  }

  lemma RotationMember(steps: nat, a: nat, b: nat)
    ensures (a, b) in Rotation(steps) <==> Ahead(steps, a, b)
  {
  }

  lemma RotationSquareSound(s: nat, t: nat, a: nat, b: nat)
    requires (s == 1 && t == 2) || (s == 2 && t == 1)
    requires (a, b) in Square(Rotation(s))
    ensures (a, b) in Rotation(t)
  {
    var m :| (a, m) in Rotation(s) && (m, b) in Rotation(s);
    RotationMember(s, a, m);
    RotationMember(s, m, b);
    RotationMember(t, a, b);
  }

  lemma RotationSquareComplete(s: nat, t: nat, a: nat, b: nat)
    requires (s == 1 && t == 2) || (s == 2 && t == 1)
    requires (a, b) in Rotation(t)
    ensures (a, b) in Square(Rotation(s))
  {
    RotationMember(t, a, b);
    var m := if s == 1 then Next(a) else Next(Next(a));
    RotationMember(s, a, m);
    RotationMember(s, m, b);
  }

  /** Squaring the three-cycle gives its square, and squaring that gives the cycle back. */
  lemma RotationSquares(s: nat, t: nat)
    requires (s == 1 && t == 2) || (s == 2 && t == 1)
    ensures Square(Rotation(s)) == Rotation(t)
  {
    forall e: (nat, nat) | e in Square(Rotation(s))
      ensures e in Rotation(t)
    {
      RotationSquareSound(s, t, e.0, e.1);
    }
    forall e: (nat, nat) | e in Rotation(t)
      ensures e in Square(Rotation(s))
    {
      RotationSquareComplete(s, t, e.0, e.1);
    }
  }

  lemma RotationInDomain(steps: nat)
    ensures InDomain(Rotation(steps))
  {
  }

  /** bddRR2 turns the three-cycle into its square and its square back into the cycle. */
  lemma CycleSquaresTo(s: nat, t: nat)
    requires (s == 1 && t == 2) || (s == 2 && t == 1)
    ensures BddRR2(RelationFn(Rotation(s))) == RelationFn(Rotation(t))
  {
    RotationSquares(s, t);
    RotationInDomain(s);
    BddRR2OfRelation(Rotation(s));
  }

  /** The three-cycle and its square are different functions: only the cycle has 0 -> 1. */
  lemma CycleDiffersFromSquare()
    ensures RelationFn(Rotation(1)) != RelationFn(Rotation(2))
  {
    RotationMember(1, 0, 1);
    RotationMember(2, 0, 1);
    FindEdgeInRelation(Rotation(1), 0, 1);
    FindEdgeInRelation(Rotation(2), 0, 1);
  }

  /** Squaring a three-cycle alternates between two different relations, so bddRR2star
      never stops on it, whatever the number of rounds allowed. */
  lemma BddRR2StarCycleDiverges(fuel: nat)
    ensures BddRR2Star(RelationFn(Rotation(1)), fuel).None?
    ensures BddRR2Star(RelationFn(Rotation(2)), fuel).None?
  {
    CycleSquaresTo(1, 2);
    CycleSquaresTo(2, 1);
    CycleDiffersFromSquare();
    StarAlternates(BddRR2, RelationFn(Rotation(1)), RelationFn(Rotation(2)), fuel);
  }
}
