/**
 The functional-dependency graph of a clause (`printFuncRelDeps`): a directed
 multigraph over variable names with one edge, labelled with the relation
 name, from each variable at a source position of a registered descriptor to
 the variable at its target position.
 */
module FuncDeps {
  import opened Ast
  import opened FuncRels
  import opened OrderedSets
  import opened Keys

  datatype DepEdge = DepEdge(src: string, dst: string, relation: string)

  /** Vertices are variable names, each at most once, in creation order. */
  datatype DepGraph = DepGraph(vertices: seq<string>, edges: seq<DepEdge>)

  /** The `getVertex` calls and `add_edge` calls of a run of the builder, in
      order. The builder interleaves them; only the order within each kind
      is visible in the graph. */
  datatype Trace = Trace(requests: seq<string>, edges: seq<DepEdge>)

  function Join(t: Trace, u: Trace): Trace
  {
    Trace(t.requests + u.requests, t.edges + u.edges)
  }

  /** Every position of the descriptor that the builder reads exists in the
      atom: the target always, the sources only when the target argument is a
      variable. `getArgument` does no bounds check, so the caller must ensure it. */
  predicate Fits(d: Desc, args: seq<Arg>)
  {
    d.target < |args| && (args[d.target].Var? ==> forall s | s in d.sources :: s < |args|)
  }

  /** Every descriptor registered for the literal, if it is an atom, fits it. */
  predicate LitInRange(m: FuncRelMap, l: Lit)
  {
    l.Atom? ==> forall d | d in Lookup(m, l.rel) :: Fits(d, l.args)
  }

  /** Every descriptor registered for an atom of the literals fits the atom. */
  predicate InRange(m: FuncRelMap, lits: seq<Lit>)
  {
    forall l | l in lits :: LitInRange(m, l)
  }

  /** The edges into target variable `y` from the variables at the source
      positions `srcs`, in position order; a non-variable source is skipped. */
  function SourceEdges(rel: string, args: seq<Arg>, srcs: seq<nat>, y: string): (es: seq<DepEdge>)
    requires forall s | s in srcs :: s < |args|
    ensures |es| <= |srcs|
    ensures forall e | e in es :: e.dst == y && e.relation == rel
    ensures forall e | e in es :: exists s :: s in srcs && args[s] == Var(e.src)
    decreases |srcs|
  {
    if srcs == [] then []
    else
      assert srcs[0] in srcs && forall s | s in srcs[1..] :: s in srcs;
      var rest := SourceEdges(rel, args, srcs[1..], y);
      match args[srcs[0]]
      case Var(x) => [DepEdge(x, y, rel)] + rest
      case Compound(_) => rest
  }

  function EdgeSources(es: seq<DepEdge>): (xs: seq<string>)
    ensures |xs| == |es|
    ensures forall k | 0 <= k < |es| :: xs[k] == es[k].src
    decreases |es|
  {
    if es == [] then [] else [es[0].src] + EdgeSources(es[1..])
  }

  /** One descriptor of one atom: nothing when the target argument is not a
      variable; otherwise the target's vertex, then for each variable source
      its vertex and its edge. */
  function DescTrace(rel: string, args: seq<Arg>, d: Desc): Trace
    requires Fits(d, args)
  {
    match args[d.target]
    case Compound(_) => Trace([], [])
    case Var(y) =>
      var es := SourceEdges(rel, args, d.sources, y);
      Trace([y] + EdgeSources(es), es)
  }

  /** All descriptors registered for one atom, in registration order. */
  function DescsTrace(rel: string, args: seq<Arg>, ds: seq<Desc>): Trace
    requires forall d | d in ds :: Fits(d, args)
    decreases |ds|
  {
    if ds == [] then Trace([], [])
    else Join(DescTrace(rel, args, ds[0]), DescsTrace(rel, args, ds[1..]))
  }

  /** One literal: an atom looks up its relation's descriptors; a literal of
      any other kind has none. */
  function LitTrace(m: FuncRelMap, l: Lit): Trace
    requires LitInRange(m, l)
  {
    match l
    case Atom(rel, args) => DescsTrace(rel, args, Lookup(m, rel))
    case BinCon(_, _) => Trace([], [])
  }

  function LitsTrace(m: FuncRelMap, lits: seq<Lit>): Trace
    requires InRange(m, lits)
    decreases |lits|
  {
    if lits == [] then Trace([], [])
    else
      assert lits[0] in lits && forall l | l in lits[1..] :: l in lits;
      Join(LitTrace(m, lits[0]), LitsTrace(m, lits[1..]))
  }

  /** `printFuncRelDeps`: the dependency graph of the literals of a clause. */
  function BuildFuncDeps(m: FuncRelMap, lits: seq<Lit>): (g: DepGraph)
    requires InRange(m, lits)
    ensures NoDup(g.vertices)
  {
    var t := LitsTrace(m, lits);
    DepGraph(AddKeys([], t.requests), t.edges)
  }

  /** The number of edges leaving the vertex `x`. */
  function OutDegree(es: seq<DepEdge>, x: string): nat
    decreases |es|
  {
    if es == [] then 0 else (if es[0].src == x then 1 else 0) + OutDegree(es[1..], x)
  }

  /** One edge per source position holding the variable: a variable at two
      source positions gets two parallel edges. */
  lemma {:induction false} SourceEdgesCount(rel: string, args: seq<Arg>, srcs: seq<nat>, y: string, x: string)
    requires NoDup(srcs) && forall s | s in srcs :: s < |args|
    ensures OutDegree(SourceEdges(rel, args, srcs, y), x)
         == |set s | s in srcs && args[s] == Var(x)|
    decreases |srcs|
  {
    if srcs != [] {
      var tail := srcs[1..];
      assert srcs[0] in srcs;
      assert NoDup(tail) by {
        forall i, j | 0 <= i < j < |tail|
          ensures tail[i] != tail[j]
        {
          assert tail[i] == srcs[i + 1] && tail[j] == srcs[j + 1];
        }
      }
      assert forall s | s in tail :: s in srcs;
      SourceEdgesCount(rel, args, tail, y, x);
      var all := set s | s in srcs && args[s] == Var(x);
      var later := set s | s in tail && args[s] == Var(x);
      assert srcs[0] !in tail by {
        forall k | 0 <= k < |tail|
          ensures tail[k] != srcs[0]
        {
          assert tail[k] == srcs[k + 1];
        }
      }
      assert forall s | s in srcs && s != srcs[0] :: s in tail;
      var rest := SourceEdges(rel, args, tail, y);
      match args[srcs[0]]
      case Var(z) =>
        var es := [DepEdge(z, y, rel)] + rest;
        assert es[0] == DepEdge(z, y, rel) && es[1..] == rest;
        if z == x {
          assert all == later + {srcs[0]};
        } else {
          assert all == later;
        }
      case Compound(_) =>
        assert all == later;
    }
  }

  lemma IncreasingNoDup(s: PosSet)
    ensures NoDup(s)
  {
  }

  /** What one descriptor occurrence contributes: nothing when the target
      argument is not a variable; otherwise edges labelled with the relation
      name into the target variable, as many from each variable as source
      positions hold it, and the target's vertex even when no source is a
      variable. */
  lemma DescContribution(rel: string, args: seq<Arg>, d: Desc)
    requires Fits(d, args)
    ensures !args[d.target].Var? ==> DescTrace(rel, args, d) == Trace([], [])
    ensures args[d.target].Var? ==>
      var t := DescTrace(rel, args, d);
      && args[d.target].name in t.requests
      && (forall e | e in t.edges :: e.dst == args[d.target].name && e.relation == rel)
      && (forall x :: OutDegree(t.edges, x) == |set s | s in d.sources && args[s] == Var(x)|)
  {
    if args[d.target].Var? {
      IncreasingNoDup(d.sources);
      forall x
        ensures OutDegree(DescTrace(rel, args, d).edges, x) == |set s | s in d.sources && args[s] == Var(x)|
      {
        SourceEdgesCount(rel, args, d.sources, args[d.target].name, x);
      }
    }
  }

  /** Reference count: the number of source positions of `d` that hold the
      variable `x`, when the target argument is a variable; none otherwise. */
  function DescOut(args: seq<Arg>, d: Desc, x: string): nat
    requires Fits(d, args)
  {
    if args[d.target].Var? then |set s | s in d.sources && args[s] == Var(x)| else 0
  }

  function DescsOut(args: seq<Arg>, ds: seq<Desc>, x: string): nat
    requires forall d | d in ds :: Fits(d, args)
    decreases |ds|
  {
    if ds == [] then 0 else DescOut(args, ds[0], x) + DescsOut(args, ds[1..], x)
  }

  /** Summed over every registered descriptor of every atom of the literals. */
  function LitsOut(m: FuncRelMap, lits: seq<Lit>, x: string): nat
    requires InRange(m, lits)
    decreases |lits|
  {
    if lits == [] then 0
    else
      assert lits[0] in lits && forall l | l in lits[1..] :: l in lits;
      (if lits[0].Atom? then DescsOut(lits[0].args, Lookup(m, lits[0].rel), x) else 0)
        + LitsOut(m, lits[1..], x)
  }

  lemma {:induction false} OutDegreeConcat(a: seq<DepEdge>, b: seq<DepEdge>, x: string)
    ensures OutDegree(a + b, x) == OutDegree(a, x) + OutDegree(b, x)
    decreases |a|
  {
    if a == [] {
      assert a + b == b;
    } else {
      assert (a + b)[0] == a[0] && (a + b)[1..] == a[1..] + b;
      OutDegreeConcat(a[1..], b, x);
    }
  }

  lemma {:induction false} DescsOutDegree(rel: string, args: seq<Arg>, ds: seq<Desc>, x: string)
    requires forall d | d in ds :: Fits(d, args)
    ensures OutDegree(DescsTrace(rel, args, ds).edges, x) == DescsOut(args, ds, x)
    decreases |ds|
  {
    if ds != [] {
      assert ds[0] in ds && forall d | d in ds[1..] :: d in ds;
      DescContribution(rel, args, ds[0]);
      DescsOutDegree(rel, args, ds[1..], x);
      OutDegreeConcat(DescTrace(rel, args, ds[0]).edges, DescsTrace(rel, args, ds[1..]).edges, x);
    }
  }

  lemma {:induction false} LitsOutDegree(m: FuncRelMap, lits: seq<Lit>, x: string)
    requires InRange(m, lits)
    ensures OutDegree(LitsTrace(m, lits).edges, x) == LitsOut(m, lits, x)
    decreases |lits|
  {
    if lits != [] {
      assert lits[0] in lits && forall l | l in lits[1..] :: l in lits;
      if lits[0].Atom? {
        DescsOutDegree(lits[0].rel, lits[0].args, Lookup(m, lits[0].rel), x);
      }
      LitsOutDegree(m, lits[1..], x);
      OutDegreeConcat(LitTrace(m, lits[0]).edges, LitsTrace(m, lits[1..]).edges, x);
    }
  }

  /** Edges are never merged: a variable leaves the dependency graph as many
      times as it stands at a source position of a registered descriptor,
      with a variable target, of an atom, counted over every descriptor of
      every atom. */
  lemma FuncDepsOutDegree(m: FuncRelMap, lits: seq<Lit>, x: string)
    requires InRange(m, lits)
    ensures OutDegree(BuildFuncDeps(m, lits).edges, x) == LitsOut(m, lits, x)
  {
    LitsOutDegree(m, lits, x);
  }

  /** Descriptor `d` is registered for atom `l` and fits it. */
  predicate Registered(m: FuncRelMap, l: Lit, d: Desc)
  {
    l.Atom? && d in Lookup(m, l.rel) && Fits(d, l.args)
  }

  /** `v` is the variable at the target position of a registered descriptor
      of an atom of the literals. */
  ghost predicate TargetVar(m: FuncRelMap, lits: seq<Lit>, v: string)
  {
    exists l, d | l in lits && Registered(m, l, d) :: l.args[d.target] == Var(v)
  }

  /** The edge comes from an atom of the literals and a registered descriptor
      of it: it is labelled with the relation name, leaves the variable at one
      of the source positions and enters the variable at the target position. */
  ghost predicate EdgeFrom(m: FuncRelMap, lits: seq<Lit>, e: DepEdge)
  {
    exists l, d, s | l in lits && Registered(m, l, d) && s in d.sources ::
      e.relation == l.rel && l.args[d.target] == Var(e.dst) && l.args[s] == Var(e.src)
  }

  lemma {:induction false} DescsEdgeFrom(rel: string, args: seq<Arg>, ds: seq<Desc>, e: DepEdge)
    requires forall d | d in ds :: Fits(d, args)
    requires e in DescsTrace(rel, args, ds).edges
    ensures exists d, s | d in ds && s in d.sources ::
      e.relation == rel && args[d.target] == Var(e.dst) && args[s] == Var(e.src)
    decreases |ds|
  {
    assert ds[0] in ds;
    if e in DescTrace(rel, args, ds[0]).edges {
      var s :| s in ds[0].sources && args[s] == Var(e.src);
    } else {
      assert forall d | d in ds[1..] :: d in ds;
      DescsEdgeFrom(rel, args, ds[1..], e);
    }
  }

  lemma {:induction false} LitsEdgeFrom(m: FuncRelMap, lits: seq<Lit>, e: DepEdge)
    requires InRange(m, lits)
    requires e in LitsTrace(m, lits).edges
    ensures EdgeFrom(m, lits, e)
    decreases |lits|
  {
    var l := lits[0];
    assert l in lits;
    if e in LitTrace(m, l).edges {
      var d, s :| d in Lookup(m, l.rel) && s in d.sources &&
        e.relation == l.rel && l.args[d.target] == Var(e.dst) && l.args[s] == Var(e.src) by {
        DescsEdgeFrom(l.rel, l.args, Lookup(m, l.rel), e);
      }
      assert Registered(m, l, d);
    } else {
      assert forall k | k in lits[1..] :: k in lits;
      LitsEdgeFrom(m, lits[1..], e);
    }
  }

  /** A variable at a source position gives its edge into the target. */
  lemma {:induction false} SourceEdgesComplete(rel: string, args: seq<Arg>, srcs: seq<nat>, y: string, s: nat)
    requires forall t | t in srcs :: t < |args|
    requires s in srcs && args[s].Var?
    ensures DepEdge(args[s].name, y, rel) in SourceEdges(rel, args, srcs, y)
    decreases |srcs|
  {
    assert srcs[0] in srcs && forall t | t in srcs[1..] :: t in srcs;
    if s != srcs[0] {
      assert s in srcs[1..];
      SourceEdgesComplete(rel, args, srcs[1..], y, s);
    }
  }

  lemma {:induction false} DescsEdgeComplete(rel: string, args: seq<Arg>, ds: seq<Desc>, d: Desc, s: nat)
    requires forall c | c in ds :: Fits(c, args)
    requires d in ds && s in d.sources
    requires d.target < |args| && s < |args| && args[d.target].Var? && args[s].Var?
    ensures DepEdge(args[s].name, args[d.target].name, rel) in DescsTrace(rel, args, ds).edges
    decreases |ds|
  {
    assert ds[0] in ds && forall c | c in ds[1..] :: c in ds;
    if d == ds[0] {
      SourceEdgesComplete(rel, args, d.sources, args[d.target].name, s);
    } else {
      assert d in ds[1..];
      DescsEdgeComplete(rel, args, ds[1..], d, s);
    }
  }

  lemma {:induction false} LitsEdgeComplete(m: FuncRelMap, lits: seq<Lit>, l: Lit, d: Desc, s: nat)
    requires InRange(m, lits)
    requires l in lits && Registered(m, l, d) && s in d.sources
    requires l.args[d.target].Var? && l.args[s].Var?
    ensures DepEdge(l.args[s].name, l.args[d.target].name, l.rel) in LitsTrace(m, lits).edges
    decreases |lits|
  {
    assert lits[0] in lits && forall k | k in lits[1..] :: k in lits;
    if l == lits[0] {
      DescsEdgeComplete(l.rel, l.args, Lookup(m, l.rel), d, s);
    } else {
      assert l in lits[1..];
      LitsEdgeComplete(m, lits[1..], l, d, s);
    }
  }

  /** Every edge of the dependency graph comes from a registered descriptor
      of an atom of the clause, and both its ends are vertices; conversely,
      every registered descriptor of an atom whose target argument is a
      variable gives an edge from each variable at one of its source
      positions. */
  lemma FuncDepsEdges(m: FuncRelMap, lits: seq<Lit>)
    requires InRange(m, lits)
    ensures forall e | e in BuildFuncDeps(m, lits).edges :: EdgeFrom(m, lits, e)
    ensures forall e | e in BuildFuncDeps(m, lits).edges ::
      e.src in BuildFuncDeps(m, lits).vertices && e.dst in BuildFuncDeps(m, lits).vertices
    ensures forall e :: EdgeFrom(m, lits, e) ==> e in BuildFuncDeps(m, lits).edges
  {
    var g := BuildFuncDeps(m, lits);
    forall e | e in g.edges
      ensures EdgeFrom(m, lits, e) && e.src in g.vertices && e.dst in g.vertices
    {
      LitsEdgeFrom(m, lits, e);
      FuncDepsVertices(m, lits);
      assert TargetVar(m, lits, e.dst);
    }
    forall e | EdgeFrom(m, lits, e)
      ensures e in g.edges
    {
      var l, d, s :| l in lits && Registered(m, l, d) && s in d.sources &&
        e.relation == l.rel && l.args[d.target] == Var(e.dst) && l.args[s] == Var(e.src);
      LitsEdgeComplete(m, lits, l, d, s);
    }
  }

  lemma DescRequests(rel: string, args: seq<Arg>, d: Desc, v: string)
    requires Fits(d, args)
    ensures v in DescTrace(rel, args, d).requests <==>
      args[d.target] == Var(v) || exists e | e in DescTrace(rel, args, d).edges :: e.src == v
  {
    if args[d.target].Var? {
      var es := SourceEdges(rel, args, d.sources, args[d.target].name);
      var xs := EdgeSources(es);
      if v in xs {
        var k :| 0 <= k < |xs| && xs[k] == v;
        assert es[k] in es;
      }
      if exists e | e in es :: e.src == v {
        var e :| e in es && e.src == v;
        var k :| 0 <= k < |es| && es[k] == e;
        assert xs[k] == v;
      }
    }
  }

  lemma {:induction false} DescsRequests(rel: string, args: seq<Arg>, ds: seq<Desc>, v: string)
    requires forall d | d in ds :: Fits(d, args)
    ensures v in DescsTrace(rel, args, ds).requests <==>
      (exists d | d in ds :: args[d.target] == Var(v))
      || exists e | e in DescsTrace(rel, args, ds).edges :: e.src == v
    decreases |ds|
  {
    if ds != [] {
      assert ds[0] in ds;
      assert forall d | d in ds[1..] :: d in ds;
      assert forall d | d in ds && d != ds[0] :: d in ds[1..];
      DescRequests(rel, args, ds[0], v);
      DescsRequests(rel, args, ds[1..], v);
    }
  }

  /** A target variable of the literals is one of the first literal or of the rest. */
  lemma TargetVarCons(m: FuncRelMap, lits: seq<Lit>, v: string)
    requires lits != []
    ensures TargetVar(m, lits, v) <==>
      (exists d | Registered(m, lits[0], d) :: lits[0].args[d.target] == Var(v))
      || TargetVar(m, lits[1..], v)
  {
    assert lits[0] in lits;
    assert forall k | k in lits[1..] :: k in lits;
    if TargetVar(m, lits, v) {
      var k, d :| k in lits && Registered(m, k, d) && k.args[d.target] == Var(v);
      if k != lits[0] {
        assert k in lits[1..];
      }
    }
  }

  lemma LitRequests(m: FuncRelMap, l: Lit, v: string)
    requires LitInRange(m, l)
    ensures v in LitTrace(m, l).requests <==>
      (exists d | Registered(m, l, d) :: l.args[d.target] == Var(v))
      || exists e | e in LitTrace(m, l).edges :: e.src == v
  {
    if l.Atom? {
      DescsRequests(l.rel, l.args, Lookup(m, l.rel), v);
    }
  }

  lemma {:induction false} LitsRequests(m: FuncRelMap, lits: seq<Lit>, v: string)
    requires InRange(m, lits)
    ensures v in LitsTrace(m, lits).requests <==>
      TargetVar(m, lits, v) || exists e | e in LitsTrace(m, lits).edges :: e.src == v
    decreases |lits|
  {
    if lits != [] {
      assert lits[0] in lits && forall k | k in lits[1..] :: k in lits;
      var t := LitTrace(m, lits[0]);
      var u := LitsTrace(m, lits[1..]);
      assert LitsTrace(m, lits) == Join(t, u);
      LitsRequests(m, lits[1..], v);
      LitRequests(m, lits[0], v);
      TargetVarCons(m, lits, v);
    }
  }

  /** The vertices of the dependency graph are the target variables of the
      registered descriptors of the clause's atoms (created even when no
      source is a variable) and the sources of its edges, each once. */
  lemma FuncDepsVertices(m: FuncRelMap, lits: seq<Lit>)
    requires InRange(m, lits)
    ensures forall v :: v in BuildFuncDeps(m, lits).vertices <==>
      TargetVar(m, lits, v) || exists e | e in BuildFuncDeps(m, lits).edges :: e.src == v
  {
    var g := BuildFuncDeps(m, lits);
    forall v
      ensures v in g.vertices <==> TargetVar(m, lits, v) || exists e | e in g.edges :: e.src == v
    {
      assert v in g.vertices <==> v in Elems(g.vertices);
      LitsRequests(m, lits, v);
    }
  }

  lemma JoinAssoc(t: Trace, u: Trace, w: Trace)
    ensures Join(t, Join(u, w)) == Join(Join(t, u), w)
  {
    assert t.requests + (u.requests + w.requests) == (t.requests + u.requests) + w.requests;
    assert t.edges + (u.edges + w.edges) == (t.edges + u.edges) + w.edges;
  }

  /** Every part of a run of literals in range is in range. */
  lemma InRangeParts(m: FuncRelMap, a: seq<Lit>, b: seq<Lit>)
    requires InRange(m, a + b)
    ensures InRange(m, a) && InRange(m, b)
    ensures a != [] ==> InRange(m, a[1..] + b) && LitInRange(m, a[0])
  {
    assert forall l | l in a :: l in a + b;
    assert forall l | l in b :: l in a + b;
    if a != [] {
      assert forall l | l in a[1..] + b :: l in a + b;
    }
  }

  lemma {:induction false} LitsTraceConcat(m: FuncRelMap, a: seq<Lit>, b: seq<Lit>)
    requires InRange(m, a + b)
    ensures InRange(m, a) && InRange(m, b)
    ensures LitsTrace(m, a + b) == Join(LitsTrace(m, a), LitsTrace(m, b))
    decreases |a|
  {
    InRangeParts(m, a, b);
    if a == [] {
      assert a + b == b;
    } else {
      var ab := a + b;
      assert ab[0] == a[0] && ab[1..] == a[1..] + b;
      LitsTraceConcat(m, a[1..], b);
      JoinAssoc(LitTrace(m, a[0]), LitsTrace(m, a[1..]), LitsTrace(m, b));
    }
  }

  /** Literals contribute independently: the graph of two consecutive runs of
      literals has the edges of the first followed by those of the second, and
      the vertices of both. */
  lemma FuncDepsConcat(m: FuncRelMap, a: seq<Lit>, b: seq<Lit>)
    requires InRange(m, a + b)
    ensures InRange(m, a) && InRange(m, b)
    ensures BuildFuncDeps(m, a + b).edges == BuildFuncDeps(m, a).edges + BuildFuncDeps(m, b).edges
    ensures Elems(BuildFuncDeps(m, a + b).vertices)
         == Elems(BuildFuncDeps(m, a).vertices) + Elems(BuildFuncDeps(m, b).vertices)
  {
    LitsTraceConcat(m, a, b);
    var t := LitsTrace(m, a);
    var u := LitsTrace(m, b);
    assert Elems(t.requests + u.requests) == Elems(t.requests) + Elems(u.requests);
  }
}
