/**
 What the pass does with one clause: it builds both graphs over the clause's
 atoms and decides, for each, whether it is worth handing to the renderer.
 The pass never changes the program.
 */
module Emission {
  import opened Ast
  import opened FuncRels
  import opened FuncDeps
  import opened Sharing

  /** The dependency graph is emitted when it has more than two vertices. */
  predicate EmitFuncDeps(g: DepGraph)
  {
    |g.vertices| > 2
  }

  /** `hasFuncRel`: some vertex of the sharing graph is an atom whose relation
      has a registered descriptor. */
  function HasFuncRel(m: FuncRelMap, lits: seq<Lit>, vs: seq<nat>): (r: bool)
    requires forall v | v in vs :: v < |lits|
    ensures r <==> exists v | v in vs :: lits[v].Atom? && IsFunctional(m, lits[v].rel)
    decreases |vs|
  {
    if vs == [] then false
    else
      assert vs[0] in vs && forall v | v in vs[1..] :: v in vs;
      assert forall v | v in vs && v != vs[0] :: v in vs[1..];
      (lits[vs[0]].Atom? && IsFunctional(m, lits[vs[0]].rel)) || HasFuncRel(m, lits, vs[1..])
  }

  /** The sharing graph is emitted when it has more than two vertices and one
      of them is an atom of a functional relation. */
  predicate EmitSharing(m: FuncRelMap, lits: seq<Lit>, g: SharingGraph)
    requires forall v | v in g.vertices :: v < |lits|
  {
    |g.vertices| > 2 && HasFuncRel(m, lits, g.vertices)
  }

  /** The result of analysing one clause. */
  datatype Report = Report(deps: DepGraph, emitDeps: bool, sharing: SharingGraph, emitSharing: bool)

  /** `handleRelation` for one clause: both builders run over the clause's
      atoms, each graph with its own emission decision. */
  function AnalyseClause(m: FuncRelMap, body: seq<Lit>): (r: Report)
    requires InRange(m, Atoms(body))
    ensures r.deps == BuildFuncDeps(m, Atoms(body)) && r.sharing == BuildSharing(Atoms(body))
    ensures r.emitDeps <==> |r.deps.vertices| > 2
    ensures r.emitSharing ==> |r.sharing.vertices| > 2
    ensures r.emitSharing ==> exists l | l in body :: l.Atom? && IsFunctional(m, l.rel)
    ensures r.emitSharing <==>
      && |r.sharing.vertices| > 2
      && exists i: nat | i < |Atoms(body)| ::
        Atoms(body)[i].Atom? && IsFunctional(m, Atoms(body)[i].rel) && SharesWithOther(Atoms(body), i)
  {
    var lits := Atoms(body);
    var deps := BuildFuncDeps(m, lits);
    var sharing := BuildSharing(lits);
    SharingEmission(m, lits);
    var emit := EmitSharing(m, lits, sharing);
    EmittedAtomInBody(m, body);
    Report(deps, EmitFuncDeps(deps), sharing, emit)
  }

  /** An emitted sharing graph has a vertex that is an atom of the body. */
  lemma EmittedAtomInBody(m: FuncRelMap, body: seq<Lit>)
    ensures forall v | v in BuildSharing(Atoms(body)).vertices :: v < |Atoms(body)|
    ensures EmitSharing(m, Atoms(body), BuildSharing(Atoms(body))) ==>
      exists l | l in body :: l.Atom? && IsFunctional(m, l.rel)
  {
    var lits := Atoms(body);
    var sharing := BuildSharing(lits);
    SharingEmission(m, lits);
    if EmitSharing(m, lits, sharing) {
      var v :| v in sharing.vertices && lits[v].Atom? && IsFunctional(m, lits[v].rel);
      assert lits[v] in lits;
    }
  }

  /** The sharing graph of a literal sequence is emitted exactly when more
      than two literals share a variable with another literal and one of the
      literals that does is an atom of a functional relation. */
  lemma SharingEmission(m: FuncRelMap, lits: seq<Lit>)
    ensures forall v | v in BuildSharing(lits).vertices :: v < |lits|
    ensures EmitSharing(m, lits, BuildSharing(lits)) <==>
      && |BuildSharing(lits).vertices| > 2
      && exists i: nat | i < |lits| ::
        lits[i].Atom? && IsFunctional(m, lits[i].rel) && SharesWithOther(lits, i)
  {
    SharingVertices(lits);
  }

  /** A literal sequence without functional atoms has an empty dependency
      graph, so it is never emitted. */
  lemma {:induction false} NoFunctionalAtoms(m: FuncRelMap, lits: seq<Lit>)
    requires forall l | l in lits && l.Atom? :: !IsFunctional(m, l.rel)
    ensures InRange(m, lits)
    ensures BuildFuncDeps(m, lits) == DepGraph([], [])
    ensures !EmitFuncDeps(BuildFuncDeps(m, lits))
  {
    NoFunctionalTrace(m, lits);
  }

  lemma {:induction false} NoFunctionalTrace(m: FuncRelMap, lits: seq<Lit>)
    requires forall l | l in lits && l.Atom? :: !IsFunctional(m, l.rel)
    ensures InRange(m, lits)
    ensures LitsTrace(m, lits) == Trace([], [])
    decreases |lits|
  {
    if lits != [] {
      assert lits[0] in lits && forall l | l in lits[1..] :: l in lits;
      NoFunctionalTrace(m, lits[1..]);
    }
  }

  /** The label sanitiser of both renderers: every `?` becomes `_`. */
  function Sanitize(s: string): (r: string)
    ensures |r| == |s|
    ensures forall k | 0 <= k < |s| :: r[k] == (if s[k] == '?' then '_' else s[k])
    decreases |s|
  {
    if s == [] then []
    else [if s[0] == '?' then '_' else s[0]] + Sanitize(s[1..])
  }

  /** A sanitised label contains no `?`, sanitising it again changes
      nothing, and a label without `?` is left as it is. */
  lemma SanitizeProperties(s: string)
    ensures '?' !in Sanitize(s)
    ensures Sanitize(Sanitize(s)) == Sanitize(s)
    ensures '?' !in s ==> Sanitize(s) == s
  {
    var r := Sanitize(s);
    assert Sanitize(r) == r;
    if '?' !in s {
      assert forall k | 0 <= k < |s| :: s[k] != '?';
    }
  }
}
