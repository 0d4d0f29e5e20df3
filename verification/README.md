# Symbolic reachability over a 32-node graph

This project models the relation engine of `CPTS350PROJECT.py`. The engine stores sets of
nodes and sets of edges of a 32-node directed graph as Boolean functions, not as explicit
collections. Each node is written as five Boolean variables, most-significant bit first:
`xx0..xx4` for a source node, `yy0..yy4` for a target node and `zz0..zz4` for a temporary
node. Edges are built from an adjacency matrix. The engine squares the edge relation
(two-step reachability), and repeats the squaring until two consecutive results are
equivalent. Point queries (`findNode`, `findEdge`) cofactor a function at one encoded node
or edge and test whether the result is the constant 1.

The Boolean-function library the code calls (pyeda: `expr`, `expr2bdd`, `restrict`,
`compose`, `smoothing`, `is_one`, `equivalent`) is modelled by its meaning, not by its data
structure. A `Point` is a total assignment to the fifteen variables. A Boolean function
(`BoolFn`) is the infinite set of points that satisfy it; its type admits only well-formed
points (five values per namespace). Two functions are therefore equivalent exactly when
they are equal, and `equivalent` in `bddRR2star` is modelled by equality.

Modules, in dependency order:

- `Encoding`: `format(n, 'b').rjust(5, '0')` is written out as `BinaryDigits`, `RJust` and
  `NodeBinary`. It also holds `Encode`, `Decode` and the literals of `createExpr`.
- `Boolean`: points, expressions (`Expr`), `Sat` (the role of `expr2bdd`), and `Restrict`,
  `Compose`, `Smoothing` and `IsOne`. It also holds the views of a node set (`NodeSetFn`)
  and of an explicit relation (`RelationFn`) as functions.
- `Results` (results.dfy): the outcomes of the operations that raise.
- `Builders`: `createBDDString` and `graphToBDD`.
- `Graph`: `initGraph`. This is a method with the source's nested loops, proved equal to a
  closed form.
- `Queries`: `findNode` and `findEdge`.
- `Fixpoint`: the loop of `bddRR2star` over an arbitrary step function.
- `Squaring`: `bddRR2` and `bddRR2star`.
- `Scenarios`: the queries the source's test suite makes, proved over the model.

Behaviour of the code that the model keeps:

- Node indices of 32 or more are encoded without complaint. `rjust` does not truncate, and
  only the first five characters are read. So for 32 <= n < 64, node n gets the same
  assignment as n / 2 (`Encoding.EncodeAliasesAboveDomain`).
- A membership list with no true entry, or a matrix with no edge, makes the builder read
  element 0 of an empty list of disjuncts. That raises `IndexError`, modelled as
  `Failure(EmptyDisjunction)`.
- The three namespaces are distinct constructors, so they never share a variable.
- `bddRR2star` loops until two consecutive results are equal, with no bound. The model
  takes a number of rounds: `None` means the loop has not stopped within them.
- `initGraph` runs both loops over `range(0, 31)`. So no edge leaves or enters node 31. The
  model keeps this bound and states the four edges it drops.

## Model

| member | source | states |
|---|---|---|
| Encoding.NodeBinaryInDomain | CPTS350PROJECT.py:23 | below 32, `format(n,'b').rjust(5,'0')` is exactly five characters: '0' padding followed by n's binary digits |
| Encoding.EncodeRoundTrip | CPTS350PROJECT.py:22-31 | for n < 32, reading the five variable values that createExpr fixes, most-significant first, gives back n |
| Encoding.EncodeInjective | CPTS350PROJECT.py:22-31 | two nodes below 32 get the same variable assignment iff they are the same node |
| Encoding.DecodeRoundTrip | CPTS350PROJECT.py:22-31 | every assignment of five variables is the encoding of exactly one node below 32 |
| Encoding.EncodeAliasesAboveDomain | CPTS350PROJECT.py:23 | for 32 <= n < 64, the first five characters of the padded binary of n and of n / 2 agree, so two distinct nodes share one assignment |
| Boolean.CreateExprSat | CPTS350PROJECT.py:22-31 | the conjunction createExpr(n, var) is satisfied by exactly the points whose `var` variables hold n's encoding, whatever the other variables are |
| Boolean.EqualIffEquivalent | CPTS350PROJECT.py:82 | two functions are equal iff every assignment satisfies both or neither, so equality is the `equivalent` test of the loop |
| Builders.TrueIndices | CPTS350PROJECT.py:35 | the comprehension `[i for i in range(len(list)) if list[i]]` yields only indices whose entry is true, and every such index |
| Builders.Disjoin | CPTS350PROJECT.py:36-38 | folding a non-empty list with `|=` gives an expression satisfied exactly where one of the list's expressions is |
| Builders.NodeExprsSat | CPTS350PROJECT.py:35-39 | the disjunction of createBDDString's disjuncts holds exactly where `var` encodes some index with a true entry |
| Builders.CreateBDDString | CPTS350PROJECT.py:34-39 | fails with IndexError iff no entry is true; otherwise its function holds exactly at the points where `var` encodes an index with a true entry |
| Builders.EdgePairs | CPTS350PROJECT.py:62 | the nested comprehension over i, j < 32 yields exactly the pairs whose matrix entry is true |
| Builders.EdgeExprSat | CPTS350PROJECT.py:62 | `createExpr(i,'x') & createExpr(j,'y')` holds exactly where xx encodes i and yy encodes j |
| Builders.EdgeExprsSat | CPTS350PROJECT.py:62-66 | the disjunction over all edges is the relation function of the matrix's edge set |
| Builders.GraphToBDD | CPTS350PROJECT.py:61-66 | IndexError (`MatrixTooSmall`) when the matrix is smaller than 32 x 32; otherwise IndexError (`EmptyDisjunction`) iff it has no edge; on success, the relation holding exactly the matrix's edges |
| Graph.InitGraph | CPTS350PROJECT.py:11-19 | the nested loops produce the 32 x 32 matrix whose entry (i, j) holds iff i < 31, j < 31 and j is 3 or 8 steps after i modulo 32 |
| Graph.GraphGDropsLastNode | CPTS350PROJECT.py:14-17 | against the rule over the whole domain, exactly the edges 31->2, 31->7, 28->31 and 23->31 are missing, and row 31 and column 31 are all false |
| Queries.FindNodeInNodeSet | CPTS350PROJECT.py:42-47 | on a node set, findNode(n) for n < 32 is true iff n is in the set |
| Queries.FindEdgeInRelation | CPTS350PROJECT.py:50-58 | on a relation, findEdge(a, b) for a, b < 32 is true iff (a, b) is in the relation |
| Queries.CreateBDDStringIsNodeSet | CPTS350PROJECT.py:34-39 | a successful createBDDString on at most 32 entries is the node set of the indices whose entry is true |
| Queries.FindNodeAfterCreateBDDString | CPTS350PROJECT.py:42-47 | findNode on createBDDString's result is true for n < 32 iff n is a listed index with a true entry |
| Queries.FindEdgeAfterGraphToBDD | CPTS350PROJECT.py:50-66 | findEdge on graphToBDD's result is true iff the matrix entry is true |
| Queries.CreateBDDStringAliasesLongList | CPTS350PROJECT.py:34-47 | with 33 entries, only entry 32 true, findNode(16) is true although entry 16 is false |
| Squaring.BddRR2Member | CPTS350PROJECT.py:69-75 | a point satisfies bddRR2(r) iff some zz value w makes (xx, w) and (w, yy) satisfy r |
| Squaring.BddRR2OfRelation | CPTS350PROJECT.py:69-75 | on a relation over the domain, bddRR2 gives exactly the composition of the relation with itself |
| Squaring.BddRR2FindEdge | CPTS350PROJECT.py:69-75 | findEdge(bddRR2(rel), a, b) iff some node m has a->m and m->b in rel |
| Squaring.BddRR2Composes | CPTS350PROJECT.py:69-75 | for any function r, two edges a->m and m->b that findEdge sees in r give a->b in bddRR2(r) |
| Squaring.BddRR2Monotone | CPTS350PROJECT.py:69-75 | a larger function squares to a larger function |
| Squaring.BddRR2IgnoresTemporary | CPTS350PROJECT.py:70-75 | the result of bddRR2 does not depend on the zz variables |
| Squaring.BddRR2Star | CPTS350PROJECT.py:78-84 | a returned relation is left unchanged by bddRR2 and is one of bddRR2(rr2), bddRR2(bddRR2(rr2)), ..., reached within the rounds allowed |
| Squaring.BddRR2StarTransitive | CPTS350PROJECT.py:78-84 | the relation bddRR2star returns is transitive as findEdge sees it |
| Squaring.IterateOfRelation | CPTS350PROJECT.py:78-84 | started on a relation over the domain, the k-th relation of bddRR2star's sequence is the relation squared k times |
| Squaring.BddRR2StarOfRelation | CPTS350PROJECT.py:78-84 | started on a relation, bddRR2star returns the relation squared some k times, within the rounds allowed, and one more squaring leaves that relation unchanged |
| Squaring.CycleSquaresTo | CPTS350PROJECT.py:69-75 | bddRR2 turns the three-cycle 0->1->2->0 into its square and the square back into the cycle |
| Squaring.BddRR2StarCycleDiverges | CPTS350PROJECT.py:78-84 | on the three-cycle the loop never stops, however many rounds it is allowed |
| Fixpoint.Star | CPTS350PROJECT.py:78-84 | the loop's result is fixed by the step and is an element of the iteration sequence within the rounds allowed |
| Fixpoint.StarConverges | CPTS350PROJECT.py:78-84 | the loop stops within `fuel` rounds iff two consecutive elements of the sequence are equal within its first `fuel` steps |
| Fixpoint.StarIsFirstRepeat | CPTS350PROJECT.py:78-84 | the loop returns the element at the first repeat of the sequence |
| Fixpoint.StarFuel | CPTS350PROJECT.py:78-84 | allowing more rounds does not change a result that was reached |
| Fixpoint.StarAlternates | CPTS350PROJECT.py:78-84 | when the step swaps two different values, the loop never stops on either |
| Scenarios.EvenQueries | CPTS350PROJECT.py:87-101 | createBDDString of the EVEN list succeeds, findNode(14) is true and findNode(13) is false |
| Scenarios.PrimeQueries | CPTS350PROJECT.py:103-116 | createBDDString of the PRIME list over yy succeeds, findNode(7) is true and findNode(2) is false |
| Scenarios.GraphGFindEdge | CPTS350PROJECT.py:118-131 | on graphToBDD(initGraph()), findEdge(a, b) follows initGraph's rule within its loop bounds |
| Scenarios.GraphFindsEdge27To3 | CPTS350PROJECT.py:118-127 | findEdge(graphToBDD(initGraph()), 27, 3) is true |
| Scenarios.GraphMissesEdge16To20 | CPTS350PROJECT.py:129-131 | findEdge(graphToBDD(initGraph()), 16, 20) is false |
| Scenarios.BddRR2AfterGraphToBDD | CPTS350PROJECT.py:61-75 | bddRR2 of graphToBDD's result relates a and b iff the matrix has a two-step path from a to b |
| Scenarios.NoTwoStepsFrom27To9 | CPTS350PROJECT.py:11-19 | in initGraph's matrix no two-step path leads from 27 to 9 |
| Scenarios.SquaredGraphFinds27To6 | CPTS350PROJECT.py:133-141 | findEdge(bddRR2(graphToBDD(initGraph())), 27, 6) is true, through node 30 |
| Scenarios.SquaredGraphMisses27To9 | CPTS350PROJECT.py:143-145 | findEdge(bddRR2(graphToBDD(initGraph())), 27, 9) is false |

## Left out

- The data structure of the Boolean-function library is not modelled: BDD nodes, variable
  order, hash-consing, and the parsing of the `"&".join(...)` string by `expr`. Functions
  are modelled by their satisfying points, and `equivalent` by equality.
- Variable names are not modelled: the `bddvar` names, the globals `varX`/`varY`
  (CPTS350PROJECT.py:7-8), and the `var*2` name building in findNode. A namespace is one of
  three constructors. A `var` string other than `'x'`, `'y'` or `'z'` is not modelled.
- Negative node indices are not modelled (indices are `nat`). For them `format` yields a
  '-' sign, which `int()` rejects.
- Squaring.BddRR2Star: the source loops without a bound. The model takes a number of rounds
  and returns `None` when the loop has not stopped within them.
- Squaring.BddRR2Star: no convergence claim is made. `Squaring.BddRR2StarCycleDiverges`
  shows a relation on which the loop runs forever.
- Scenarios: testRR2star (CPTS350PROJECT.py:147-153) is not stated. It asserts that edge
  27 -> 6 is in the fixpoint reached from initGraph's squared relation. Proving that needs
  the concrete iteration sequence on that graph. `Squaring.BddRR2StarOfRelation` reduces
  it to the relation squared k times, whose pairs are joined by paths of exactly 2^k edges;
  the value of k and the paths on that graph are not computed.
- testStatemnt (CPTS350PROJECT.py:155-173) builds a conjunction and stops without a result
  or an assertion. The unittest harness is left out too.
- Queries.FindNodeInNodeSet: stated for n < 32 only. Above 32 findNode reads an aliased
  encoding (see `Encoding.EncodeAliasesAboveDomain`).
- Queries.FindEdgeInRelation: stated for a, b < 32 only. Above 32 findEdge reads an aliased
  encoding, as findNode does.
- Queries.FindEdgeAfterGraphToBDD: stated for a, b < 32 only, for the same reason.
- Squaring.BddRR2FindEdge: stated for a, b < 32 only, for the same reason.
- Queries.FindNodeAfterCreateBDDString: stated for lists of at most 32 entries. Longer
  lists alias, as `Queries.CreateBDDStringAliasesLongList` shows.
