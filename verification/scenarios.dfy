/**
 Small clauses worked through the model.
 */
module Scenarios {
  import opened Ast
  import opened FuncRels
  import opened FuncDeps
  import opened Sharing
  import opened OrderedSets
  import opened Keys
  import opened Variables
  import Emission

  /** The table with the one record `f<TAB>ST`, for a binary relation `f`. */
  function SingleF(): FuncRelMap
  {
    ReadFuncRelInfo([Record("f", "ST")])
  }

  lemma SingleFEntries()
    ensures SingleF() == [Entry("f", Desc([0], 1))]
    ensures Lookup(SingleF(), "f") == [Desc([0], 1)]
  {
    ScanST();
    var rs := [Record("f", "ST")];
    assert rs[0] == Record("f", "ST") && rs[1..] == [];
    var m := SingleF();
    assert m == [Entry("f", Desc([0], 1))];
    assert m[1..] == [];
  }

  /** An atom `f(x, y)` under that table: one edge `x -> y`, the target's
      vertex requested before the source's. */
  lemma SingleAtom(x: string, y: string)
    ensures InRange(SingleF(), [Atom("f", [Var(x), Var(y)])])
    ensures BuildFuncDeps(SingleF(), [Atom("f", [Var(x), Var(y)])])
         == DepGraph(AddKeys([], [y, x]), [DepEdge(x, y, "f")])
  {
    SingleFEntries();
    var m := SingleF();
    var args := [Var(x), Var(y)];
    var d := Desc([0], 1);
    var lits := [Atom("f", args)];
    assert lits[1..] == [];
    var srcs: seq<nat> := [0];
    assert srcs[1..] == [];
    var es := SourceEdges("f", args, srcs, y);
    assert es == [DepEdge(x, y, "f")];
    assert EdgeSources(es) == [x];
    assert DescTrace("f", args, d) == Trace([y, x], es);
    var ds := [d];
    assert ds[1..] == [];
    assert DescsTrace("f", args, ds) == Trace([y, x], es);
    assert LitsTrace(m, lits) == Trace([y, x], es);
  }

  /** Two distinct keys requested in turn become two vertices in that order;
      the same key requested twice becomes one. */
  lemma TwoKeys(y: string, x: string)
    ensures AddKeys([], [y, x]) == if x == y then [y] else [y, x]
  {
    var ks := [y, x];
    assert ks[1..] == [x] && ks[1..][1..] == [];
    assert AddKeys([], ks) == AddKeys([y], [x]);
    assert AddKeys([y], [x]) == AddKeys(AddKey([y], x), []);
  }

  /** Atom `f(x, y)` with `x` and `y` distinct gives the edge `x -> y`
      labelled `f` and two vertices, `y` created before `x`. */
  lemma FuncDepsSingleEdge(x: string, y: string)
    requires x != y
    ensures InRange(SingleF(), [Atom("f", [Var(x), Var(y)])])
    ensures BuildFuncDeps(SingleF(), [Atom("f", [Var(x), Var(y)])])
         == DepGraph([y, x], [DepEdge(x, y, "f")])
  {
    SingleAtom(x, y);
    TwoKeys(y, x);
  }

  /** There is no self-loop guard: `f(x, x)` gives the edge `x -> x` on the
      single vertex `x`. */
  lemma FuncDepsSelfLoop(x: string)
    ensures InRange(SingleF(), [Atom("f", [Var(x), Var(x)])])
    ensures BuildFuncDeps(SingleF(), [Atom("f", [Var(x), Var(x)])])
         == DepGraph([x], [DepEdge(x, x, "f")])
  {
    SingleAtom(x, x);
    TwoKeys(x, x);
  }

  /** The table with the one record `g<TAB>SX`, which has no `T`. */
  function NoTarget(): FuncRelMap
  {
    ReadFuncRelInfo([Record("g", "SX")])
  }

  lemma NoTargetEntries()
    ensures NoTarget() == [Entry("g", Desc([0], 0))]
    ensures Lookup(NoTarget(), "g") == [Desc([0], 0)]
  {
    ScanSX();
    var rs := [Record("g", "SX")];
    assert rs[0] == Record("g", "SX") && rs[1..] == [];
    var m := NoTarget();
    assert m == [Entry("g", Desc([0], 0))];
    assert m[1..] == [];
  }

  /** Under any table registering only `[0] -> 0` for `g`, the atom `g(x, y)`
      requests `x` twice and gives one edge `x -> x`. */
  lemma NoTargetTrace(m: FuncRelMap, x: string, y: string)
    requires Lookup(m, "g") == [Desc([0], 0)]
    ensures InRange(m, [Atom("g", [Var(x), Var(y)])])
    ensures LitsTrace(m, [Atom("g", [Var(x), Var(y)])]) == Trace([x, x], [DepEdge(x, x, "g")])
  {
    var d := Desc([0], 0);
    var args := [Var(x), Var(y)];
    var lits := [Atom("g", args)];
    assert lits[1..] == [];
    var srcs: seq<nat> := [0];
    assert srcs[1..] == [];
    var es := SourceEdges("g", args, srcs, x);
    assert es == [DepEdge(x, x, "g")];
    assert EdgeSources(es) == [x];
    assert DescTrace("g", args, d) == Trace([x, x], es);
    var ds := [d];
    assert ds[1..] == [];
    assert DescsTrace("g", args, ds) == Trace([x, x], es);
  }

  /** A pattern without `T` makes position 0 both a source and the target,
      so `g(x, y)` gives the edge `x -> x` whatever `y` is. */
  lemma NoTargetSelfLoop(x: string, y: string)
    ensures InRange(NoTarget(), [Atom("g", [Var(x), Var(y)])])
    ensures BuildFuncDeps(NoTarget(), [Atom("g", [Var(x), Var(y)])])
         == DepGraph([x], [DepEdge(x, x, "g")])
  {
    NoTargetEntries();
    NoTargetTrace(NoTarget(), x, y);
    TwoKeys(x, x);
  }

  /** A registered descriptor whose target argument is not a variable is
      read no further: its source positions may lie beyond the atom's arity,
      and the atom contributes neither a vertex nor an edge. */
  lemma NonVarTarget(m: FuncRelMap, rel: string, args: seq<Arg>, d: Desc)
    requires Lookup(m, rel) == [d] && d.target < |args| && !args[d.target].Var?
    ensures InRange(m, [Atom(rel, args)])
    ensures BuildFuncDeps(m, [Atom(rel, args)]) == DepGraph([], [])
  {
    var lits := [Atom(rel, args)];
    var ds := [d];
    assert lits[1..] == [] && ds[1..] == [];
    assert DescsTrace(rel, args, ds) == Trace([], []);
    assert LitsTrace(m, lits) == Trace([], []);
  }

  /** Three atoms over three distinct variables: `p(x, y)`, `q(y, z)`, `r(z, x)`. */
  function PQR(x: string, y: string, z: string): seq<Lit>
  {
    [Atom("p", [Var(x), Var(y)]), Atom("q", [Var(y), Var(z)]), Atom("r", [Var(z), Var(x)])]
  }

  /** A binary atom over two variables mentions exactly those two. */
  lemma BinaryVars(rel: string, a: string, b: string)
    ensures LitVarSet(Atom(rel, [Var(a), Var(b)])) == {a, b}
  {
    var args := [Var(a), Var(b)];
    assert args[1..] == [Var(b)] && args[1..][1..] == [];
    assert ArgsVars(args[1..]) == {b};
    assert ArgsVars(args) == {a} + {b};
  }

  lemma Intersections(x: string, y: string, z: string)
    requires x != y && y != z && x != z
    ensures LitVarSet(PQR(x, y, z)[0]) * LitVarSet(PQR(x, y, z)[1]) == {y}
    ensures LitVarSet(PQR(x, y, z)[1]) * LitVarSet(PQR(x, y, z)[2]) == {z}
    ensures LitVarSet(PQR(x, y, z)[0]) * LitVarSet(PQR(x, y, z)[2]) == {x}
  {
    BinaryVars("p", x, y);
    BinaryVars("q", y, z);
    BinaryVars("r", z, x);
  }

  /** `p(x, y), q(y, z)` without functional relations has an empty
      dependency graph. */
  lemma TwoAtomsNoDeps(x: string, y: string, z: string)
    ensures BuildFuncDeps([], PQR(x, y, z)[..2]) == DepGraph([], [])
  {
    var lits := PQR(x, y, z)[..2];
    assert forall l | l in lits && l.Atom? :: !IsFunctional([], l.rel);
    Emission.NoFunctionalAtoms([], lits);
  }

  /** Its sharing graph has one edge, from the first literal to the second,
      labelled `y`. */
  lemma TwoAtomsEdge(x: string, y: string, z: string)
    requires x != y && y != z && x != z
    ensures Between(BuildSharing(PQR(x, y, z)[..2]).edges, 0, 1) == 1
    ensures forall e | e in BuildSharing(PQR(x, y, z)[..2]).edges :: e.a == 0 && e.b == 1 && e.variable == y
  {
    var lits := PQR(x, y, z)[..2];
    Intersections(x, y, z);
    assert |lits| == 2 && LitVarSet(lits[0]) * LitVarSet(lits[1]) == {y};
    PairEdge(lits, y);
  }

  /** Two literals with exactly one common name `v` are joined by one edge,
      labelled `v`. */
  lemma PairEdge(lits: seq<Lit>, v: string)
    requires |lits| == 2 && LitVarSet(lits[0]) * LitVarSet(lits[1]) == {v}
    ensures Between(BuildSharing(lits).edges, 0, 1) == 1
    ensures forall e | e in BuildSharing(lits).edges :: e.a == 0 && e.b == 1 && e.variable == v
  {
    PairEdgeCount(lits, v);
    PairEdgeEnds(lits, v);
  }

  lemma PairEdgeCount(lits: seq<Lit>, v: string)
    requires |lits| == 2 && LitVarSet(lits[0]) * LitVarSet(lits[1]) == {v}
    ensures Between(BuildSharing(lits).edges, 0, 1) == 1
  {
    SharingEdgeCount(lits, 0, 1);
    assert |{v}| == 1;
  }

  lemma PairEdgeEnds(lits: seq<Lit>, v: string)
    requires |lits| == 2 && LitVarSet(lits[0]) * LitVarSet(lits[1]) == {v}
    ensures forall e | e in BuildSharing(lits).edges :: e.a == 0 && e.b == 1 && e.variable == v
  {
    SharingEdges(lits);
  }

  /** Its vertices are the two literals. */
  lemma TwoAtomsVertices(x: string, y: string, z: string)
    requires x != y && y != z && x != z
    ensures forall v: nat :: v in BuildSharing(PQR(x, y, z)[..2]).vertices <==> v < 2
  {
    Intersections(x, y, z);
    var lits := PQR(x, y, z)[..2];
    assert lits[0] == PQR(x, y, z)[0] && lits[1] == PQR(x, y, z)[1];
    assert Shares(lits, 0, 1) && Shares(lits, 1, 0);
    assert SharesWithOther(lits, 0) && SharesWithOther(lits, 1);
    AllShare(lits);
  }

  /** `p(x, y), q(y, z), r(z, x)`: a triangle, one edge for each pair of
      literals. */
  lemma TriangleEdges(x: string, y: string, z: string)
    requires x != y && y != z && x != z
    ensures Between(BuildSharing(PQR(x, y, z)).edges, 0, 1) == 1
    ensures Between(BuildSharing(PQR(x, y, z)).edges, 1, 2) == 1
    ensures Between(BuildSharing(PQR(x, y, z)).edges, 0, 2) == 1
  {
    var lits := PQR(x, y, z);
    Intersections(x, y, z);
    SharingEdgeCount(lits, 0, 1);
    SharingEdgeCount(lits, 1, 2);
    SharingEdgeCount(lits, 0, 2);
  }

  /** The triangle's vertices are its three literals. */
  lemma TriangleVertices(x: string, y: string, z: string)
    requires x != y && y != z && x != z
    ensures forall v: nat :: v in BuildSharing(PQR(x, y, z)).vertices <==> v < 3
    ensures |BuildSharing(PQR(x, y, z)).vertices| == 3
  {
    TriangleShares(x, y, z);
    AllShare(PQR(x, y, z));
  }

  /** Each literal of the triangle shares a variable with its successor. */
  lemma TriangleShares(x: string, y: string, z: string)
    requires x != y && y != z && x != z
    ensures forall v: nat | v < |PQR(x, y, z)| :: SharesWithOther(PQR(x, y, z), v)
  {
    var lits := PQR(x, y, z);
    BinaryVars("p", x, y);
    BinaryVars("q", y, z);
    BinaryVars("r", z, x);
    assert Shares(lits, 0, 1) by { assert y in LitVarSet(lits[0]) * LitVarSet(lits[1]); }
    assert Shares(lits, 1, 2) by { assert z in LitVarSet(lits[1]) * LitVarSet(lits[2]); }
    assert Shares(lits, 2, 0) by { assert x in LitVarSet(lits[2]) * LitVarSet(lits[0]); }
  }
}
