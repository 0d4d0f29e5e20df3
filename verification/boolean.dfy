/** The meaning of the Boolean-function operations the engine uses (expr, expr2bdd, restrict,
    compose, smoothing, is_one). A function is kept as the set of well-formed total
    assignments that satisfy it, so two functions are equivalent exactly when they are equal. */
module Boolean {
  import opened Encoding

  /** A total assignment to the fifteen variables xx0..xx4, yy0..yy4 and zz0..zz4. */
  datatype Point = Point(x: Bits, y: Bits, z: Bits)

  predicate WellFormed(p: Point)
  {
    |p.x| == Width && |p.y| == Width && |p.z| == Width
  }

  /** The values `p` gives to the variables of `ns`. */
  function Get(p: Point, ns: Namespace): Bits
  {
    match ns
    case X => p.x
    case Y => p.y
    case Z => p.z
  }

  /** `p` with the variables of `ns` set to `b`. */
  function Assign(p: Point, ns: Namespace, b: Bits): Point
  {
    match ns
    case X => p.(x := b)
    case Y => p.(y := b)
    case Z => p.(z := b)
  }

  /** A Boolean function over the fifteen variables: the well-formed points satisfying it. */
  type BoolFn = f: iset<Point> | forall p :: p in f ==> WellFormed(p) witness iset{}

  /** A pyeda expression as the engine builds it: a conjunction of literals (createExpr),
      a disjunction (`|`) or a conjunction (`&`) of two expressions. */
  datatype Expr = Conj(lits: seq<Literal>) | Or(left: Expr, right: Expr) | And(left: Expr, right: Expr)

  predicate Holds(p: Point, l: Literal)
  {
    l.bit < |Get(p, l.ns)| && Get(p, l.ns)[l.bit] == l.positive
  }

  /** `expr2bdd(e)`: the function an expression denotes. */
  ghost function Sat(e: Expr): BoolFn
  {
    match e
    case Conj(lits) => iset p | WellFormed(p) && forall l :: l in lits ==> Holds(p, l)
    case Or(l, r) => Sat(l) + Sat(r)
    case And(l, r) => Sat(l) * Sat(r)
  }

  /** `is_one()`: every assignment satisfies `f`. */
  ghost predicate IsOne(f: BoolFn)
  {
    forall p {:trigger p in f} :: WellFormed(p) ==> p in f
  }

  /** `p` with the namespaces in the domain of `m` fixed to the values `m` gives. */
  function Override(p: Point, m: map<Namespace, Bits>): Point
  {
    Point(if X in m then m[X] else p.x,
          if Y in m then m[Y] else p.y,
          if Z in m then m[Z] else p.z)
  }

  /** `f.restrict(m)`: the cofactor of `f` at the partial assignment `m`. */
  ghost function Restrict(f: BoolFn, m: map<Namespace, Bits>): BoolFn
  {
    iset p | WellFormed(p) && Override(p, m) in f
  }

  /** `f.compose({from_i: to_i})`: every variable of `from` replaced by its counterpart in `to`. */
  ghost function Compose(f: BoolFn, from: Namespace, to: Namespace): BoolFn
  {
    iset p | WellFormed(p) && Assign(p, from, Get(p, to)) in f
  }

  /** `f.smoothing(ns)`: the variables of `ns` existentially quantified away. */
  ghost function Smoothing(f: BoolFn, ns: Namespace): BoolFn
  {
    iset p | WellFormed(p) && exists b: Bits :: |b| == Width && Assign(p, ns, b) in f
  }

  /** The node set `s` as a function over namespace `ns`. */
  ghost function NodeSetFn(ns: Namespace, s: set<nat>): BoolFn
  {
    iset p | WellFormed(p) && Decode(Get(p, ns)) in s
  }

  /** The relation `rel` as a function over source (xx) and target (yy). */
  ghost function RelationFn(rel: set<(nat, nat)>): BoolFn
  {
    iset p | WellFormed(p) && (Decode(p.x), Decode(p.y)) in rel
  }

  /** `f` does not depend on the variables of `ns`. */
  ghost predicate Independent(f: BoolFn, ns: Namespace)
  {
    forall p, b :: WellFormed(p) && |b| == Width ==> (p in f <==> Assign(p, ns, b) in f)
  }

  /** The conjunction createExpr(n, ns) is satisfied exactly by the points that give the
      variables of `ns` the encoding of `n`, whatever the other variables are. */
  lemma CreateExprSat(n: nat, ns: Namespace)
    ensures forall p :: p in Sat(Conj(CreateExpr(n, ns))) <==> WellFormed(p) && Get(p, ns) == Encode(n)
  {
    var lits := CreateExpr(n, ns);
    forall p | WellFormed(p)
      ensures p in Sat(Conj(lits)) <==> Get(p, ns) == Encode(n)
    {
      if p in Sat(Conj(lits)) {
        forall i | 0 <= i < Width
          ensures Get(p, ns)[i] == Encode(n)[i]
        {
          assert lits[i] in lits && Holds(p, lits[i]);
        }
      }
      if Get(p, ns) == Encode(n) {
        forall l | l in lits
          ensures Holds(p, l)
        {
          var i :| 0 <= i < |lits| && lits[i] == l;
        }
      }
    }
  }

  /** `f.equivalent(g)`: both functions hold at the same assignments. On functions this is
      equality. */
  lemma EqualIffEquivalent(f: BoolFn, g: BoolFn)
    ensures f == g <==> forall p :: WellFormed(p) ==> (p in f <==> p in g)
  {
  }
}
