/**
 The shared-variable graph of a clause (`printAtomDeps`): an undirected
 multigraph over literal occurrences, with one edge per variable name two
 distinct literals have in common. A literal is identified by its index in
 the literal sequence.
 */
module Sharing {
  import opened Ast
  import opened Variables
  import opened OrderedSets
  import opened Keys

  /** An edge between the literals at indices `a` and `b`, labelled with a
      shared variable name; the builder always puts the earlier literal first. */
  datatype ShareEdge = ShareEdge(a: nat, b: nat, variable: string)

  /** Vertices are literal indices, each at most once, in creation order. */
  datatype SharingGraph = SharingGraph(vertices: seq<nat>, edges: seq<ShareEdge>)

  /** The `getVertex` and `add_edge` calls of a run of the builder, in order. */
  datatype ShareTrace = ShareTrace(requests: seq<nat>, edges: seq<ShareEdge>)

  function JoinShare(t: ShareTrace, u: ShareTrace): ShareTrace
  {
    ShareTrace(t.requests + u.requests, t.edges + u.edges)
  }

  /** `argMap`: the variable set of each literal. */
  function VarSets(lits: seq<Lit>): (sets: seq<StringSet>)
    ensures |sets| == |lits|
    ensures forall i | 0 <= i < |lits| :: Elems(sets[i]) == LitVarSet(lits[i])
    decreases |lits|
  {
    if lits == [] then [] else [LitVars(lits[0])] + VarSets(lits[1..])
  }

  /** The pairs `(i, j)` with `j` from `from` up to `n`. */
  function Row(i: nat, from: nat, n: nat): (ps: seq<(nat, nat)>)
    ensures forall p :: p in ps <==> p.0 == i && from <= p.1 < n
    ensures NoDup(ps)
    decreases n - from
  {
    if from >= n then []
    else
      var rest := Row(i, from + 1, n);
      NoDupConcat([(i, from)], rest);
      [(i, from)] + rest
  }

  /** The unordered pairs of distinct indices, the earlier first, with the
      earlier index from `from` up to `n`, in the order of the nested loops. */
  function Pairs(from: nat, n: nat): (ps: seq<(nat, nat)>)
    ensures forall p :: p in ps <==> from <= p.0 < p.1 < n
    ensures NoDup(ps)
    decreases n - from
  {
    if from >= n then []
    else
      var row := Row(from, from + 1, n);
      var rest := Pairs(from + 1, n);
      NoDupConcat(row, rest);
      row + rest
  }

  /** One edge between `i` and `j` per common name, in the intersection's order. */
  function Labelled(i: nat, j: nat, common: seq<string>): (es: seq<ShareEdge>)
    ensures |es| == |common|
    ensures forall k | 0 <= k < |es| :: es[k] == ShareEdge(i, j, common[k])
    decreases |common|
  {
    if common == [] then [] else [ShareEdge(i, j, common[0])] + Labelled(i, j, common[1..])
  }

  /** One pair of literals: nothing when they share no variable; otherwise
      both vertices and one edge per common variable name. */
  function PairTrace(sets: seq<StringSet>, p: (nat, nat)): ShareTrace
    requires p.0 < |sets| && p.1 < |sets|
  {
    var common := Intersect(sets[p.0], sets[p.1]);
    if common == [] then ShareTrace([], [])
    else ShareTrace([p.0, p.1], Labelled(p.0, p.1, common))
  }

  function PairsTrace(sets: seq<StringSet>, ps: seq<(nat, nat)>): ShareTrace
    requires forall p | p in ps :: p.0 < |sets| && p.1 < |sets|
    decreases |ps|
  {
    if ps == [] then ShareTrace([], [])
    else
      assert ps[0] in ps && forall p | p in ps[1..] :: p in ps;
      JoinShare(PairTrace(sets, ps[0]), PairsTrace(sets, ps[1..]))
  }

  /** `printAtomDeps`: the shared-variable graph of a literal sequence. */
  function BuildSharing(lits: seq<Lit>): (g: SharingGraph)
    ensures NoDup(g.vertices)
  {
    var t := PairsTrace(VarSets(lits), Pairs(0, |lits|));
    SharingGraph(AddKeys([], t.requests), t.edges)
  }

  /** The number of edges joining the literals `p` and `q`, in either direction. */
  function Between(es: seq<ShareEdge>, p: nat, q: nat): nat
    decreases |es|
  {
    if es == [] then 0
    else
      (if (es[0].a == p && es[0].b == q) || (es[0].a == q && es[0].b == p) then 1 else 0)
        + Between(es[1..], p, q)
  }

  lemma {:induction false} BetweenConcat(x: seq<ShareEdge>, y: seq<ShareEdge>, p: nat, q: nat)
    ensures Between(x + y, p, q) == Between(x, p, q) + Between(y, p, q)
    decreases |x|
  {
    if x == [] {
      assert x + y == y;
    } else {
      assert (x + y)[0] == x[0] && (x + y)[1..] == x[1..] + y;
      BetweenConcat(x[1..], y, p, q);
    }
  }

  lemma {:induction false} LabelledBetween(i: nat, j: nat, common: seq<string>, p: nat, q: nat)
    requires i < j && p < q
    ensures Between(Labelled(i, j, common), p, q) == if i == p && j == q then |common| else 0
    decreases |common|
  {
    if common != [] {
      var es := Labelled(i, j, common);
      assert es[1..] == Labelled(i, j, common[1..]);
      LabelledBetween(i, j, common[1..], p, q);
    }
  }

  /** Edges between `p` and `q` come only from the pair `(p, q)` itself, one
      per common name. */
  lemma {:induction false} PairsTraceBetween(sets: seq<StringSet>, ps: seq<(nat, nat)>, p: nat, q: nat)
    requires forall r | r in ps :: r.0 < r.1 < |sets|
    requires NoDup(ps)
    requires p < q < |sets|
    ensures Between(PairsTrace(sets, ps).edges, p, q)
         == if (p, q) in ps then |Intersect(sets[p], sets[q])| else 0
    decreases |ps|
  {
    if ps != [] {
      var r := ps[0];
      assert r in ps;
      var tail := ps[1..];
      assert forall x | x in tail :: x in ps;
      assert NoDup(tail) by {
        forall i, j | 0 <= i < j < |tail|
          ensures tail[i] != tail[j]
        {
          assert tail[i] == ps[i + 1] && tail[j] == ps[j + 1];
        }
      }
      assert r !in tail by {
        forall k | 0 <= k < |tail|
          ensures tail[k] != r
        {
          assert tail[k] == ps[k + 1];
        }
      }
      assert (p, q) in ps <==> (p, q) == r || (p, q) in tail;
      PairsTraceBetween(sets, tail, p, q);
      var common := Intersect(sets[r.0], sets[r.1]);
      BetweenConcat(PairTrace(sets, r).edges, PairsTrace(sets, tail).edges, p, q);
      if common != [] {
        LabelledBetween(r.0, r.1, common, p, q);
      }
    }
  }

  /** Every pair of distinct literals is joined by exactly as many edges as
      they have variable names in common. */
  lemma SharingEdgeCount(lits: seq<Lit>, p: nat, q: nat)
    requires p < q < |lits|
    ensures Between(BuildSharing(lits).edges, p, q) == |LitVarSet(lits[p]) * LitVarSet(lits[q])|
  {
    var sets := VarSets(lits);
    PairsTraceBetween(sets, Pairs(0, |lits|), p, q);
    IntersectCard(sets[p], sets[q]);
  }

  /** The number of edges joining `p` and `q`, in either direction, labelled `v`. */
  function LabelCount(es: seq<ShareEdge>, p: nat, q: nat, v: string): nat
    decreases |es|
  {
    if es == [] then 0
    else
      (if ((es[0].a == p && es[0].b == q) || (es[0].a == q && es[0].b == p)) && es[0].variable == v
       then 1 else 0)
        + LabelCount(es[1..], p, q, v)
  }

  lemma {:induction false} LabelCountConcat(x: seq<ShareEdge>, y: seq<ShareEdge>, p: nat, q: nat, v: string)
    ensures LabelCount(x + y, p, q, v) == LabelCount(x, p, q, v) + LabelCount(y, p, q, v)
    decreases |x|
  {
    if x == [] {
      assert x + y == y;
    } else {
      assert (x + y)[0] == x[0] && (x + y)[1..] == x[1..] + y;
      LabelCountConcat(x[1..], y, p, q, v);
    }
  }

  lemma {:induction false} LabelledLabelCount(i: nat, j: nat, common: seq<string>, p: nat, q: nat, v: string)
    requires i < j && p < q && NoDup(common)
    ensures LabelCount(Labelled(i, j, common), p, q, v)
         == if i == p && j == q && v in common then 1 else 0
    decreases |common|
  {
    if common != [] {
      var es := Labelled(i, j, common);
      var tail := common[1..];
      assert es[1..] == Labelled(i, j, tail);
      assert NoDup(tail) by {
        forall a, b | 0 <= a < b < |tail|
          ensures tail[a] != tail[b]
        {
          assert tail[a] == common[a + 1] && tail[b] == common[b + 1];
        }
      }
      assert common[0] !in tail by {
        forall k | 0 <= k < |tail|
          ensures tail[k] != common[0]
        {
          assert tail[k] == common[k + 1];
        }
      }
      assert v in common <==> v == common[0] || v in tail;
      LabelledLabelCount(i, j, tail, p, q, v);
    }
  }

  /** Edges labelled `v` between `p` and `q` come only from the pair `(p, q)`
      itself, and only when `v` is one of its common names. */
  lemma {:induction false} PairsTraceLabelCount(sets: seq<StringSet>, ps: seq<(nat, nat)>, p: nat, q: nat, v: string)
    requires forall r | r in ps :: r.0 < r.1 < |sets|
    requires NoDup(ps)
    requires p < q < |sets|
    ensures LabelCount(PairsTrace(sets, ps).edges, p, q, v)
         == if (p, q) in ps && v in Intersect(sets[p], sets[q]) then 1 else 0
    decreases |ps|
  {
    if ps != [] {
      var r := ps[0];
      assert r in ps;
      var tail := ps[1..];
      assert forall x | x in tail :: x in ps;
      assert NoDup(tail) by {
        forall i, j | 0 <= i < j < |tail|
          ensures tail[i] != tail[j]
        {
          assert tail[i] == ps[i + 1] && tail[j] == ps[j + 1];
        }
      }
      assert r !in tail by {
        forall k | 0 <= k < |tail|
          ensures tail[k] != r
        {
          assert tail[k] == ps[k + 1];
        }
      }
      assert (p, q) in ps <==> (p, q) == r || (p, q) in tail;
      PairsTraceLabelCount(sets, tail, p, q, v);
      var common := Intersect(sets[r.0], sets[r.1]);
      LabelCountConcat(PairTrace(sets, r).edges, PairsTrace(sets, tail).edges, p, q, v);
      if common != [] {
        SortedNoDup(common);
        LabelledLabelCount(r.0, r.1, common, p, q, v);
      }
    }
  }

  /** One edge per common name: two distinct literals are joined by exactly
      one edge labelled `v` when both mention `v`, and by none otherwise. */
  lemma SharingLabelCount(lits: seq<Lit>, p: nat, q: nat, v: string)
    requires p < q < |lits|
    ensures LabelCount(BuildSharing(lits).edges, p, q, v)
         == if v in LitVarSet(lits[p]) * LitVarSet(lits[q]) then 1 else 0
  {
    var sets := VarSets(lits);
    PairsTraceLabelCount(sets, Pairs(0, |lits|), p, q, v);
    assert v in Intersect(sets[p], sets[q]) <==> v in Elems(Intersect(sets[p], sets[q]));
  }

  lemma {:induction false} PairsTraceEdges(sets: seq<StringSet>, ps: seq<(nat, nat)>, e: ShareEdge)
    requires forall r | r in ps :: r.0 < r.1 < |sets|
    requires e in PairsTrace(sets, ps).edges
    ensures e.a < e.b < |sets|
    ensures e.variable in Elems(sets[e.a]) * Elems(sets[e.b])
    decreases |ps|
  {
    var r := ps[0];
    assert r in ps && forall x | x in ps[1..] :: x in ps;
    var common := Intersect(sets[r.0], sets[r.1]);
    if e in PairTrace(sets, r).edges {
      var es := Labelled(r.0, r.1, common);
      var k :| 0 <= k < |es| && es[k] == e;
      assert common[k] in Elems(common);
    } else {
      PairsTraceEdges(sets, ps[1..], e);
    }
  }

  /** No edge joins a literal to itself; each edge joins an earlier literal to
      a later one and is labelled with a variable name both of them mention. */
  lemma SharingEdges(lits: seq<Lit>)
    ensures forall e | e in BuildSharing(lits).edges ::
      && e.a < e.b < |lits|
      && e.variable in LitVarSet(lits[e.a]) * LitVarSet(lits[e.b])
  {
    forall e | e in BuildSharing(lits).edges
      ensures e.a < e.b < |lits| && e.variable in LitVarSet(lits[e.a]) * LitVarSet(lits[e.b])
    {
      PairsTraceEdges(VarSets(lits), Pairs(0, |lits|), e);
    }
  }

  /** Two literals share a variable. */
  predicate Shares(lits: seq<Lit>, i: nat, j: nat)
    requires i < |lits| && j < |lits|
  {
    LitVarSet(lits[i]) * LitVarSet(lits[j]) != {}
  }

  lemma {:induction false} PairsTraceRequests(sets: seq<StringSet>, ps: seq<(nat, nat)>, v: nat)
    requires forall r | r in ps :: r.0 < r.1 < |sets|
    ensures v in PairsTrace(sets, ps).requests <==>
      exists r | r in ps :: (r.0 == v || r.1 == v) && Elems(sets[r.0]) * Elems(sets[r.1]) != {}
    decreases |ps|
  {
    if ps != [] {
      var r := ps[0];
      assert r in ps && forall x | x in ps[1..] :: x in ps;
      assert forall x | x in ps && x != r :: x in ps[1..];
      PairsTraceRequests(sets, ps[1..], v);
      var common := Intersect(sets[r.0], sets[r.1]);
      if common != [] {
        assert common[0] in Elems(common);
      }
    }
  }

  /** The literal at `v` shares a variable with some other literal. */
  ghost predicate SharesWithOther(lits: seq<Lit>, v: nat)
  {
    v < |lits| && exists w: nat | w < |lits| :: w != v && Shares(lits, v, w)
  }

  /** The literal at `v` is an end of some edge. */
  ghost predicate Incident(es: seq<ShareEdge>, v: nat)
  {
    exists e | e in es :: e.a == v || e.b == v
  }

  lemma SharesSymmetric(lits: seq<Lit>, i: nat, j: nat)
    requires i < |lits| && j < |lits|
    ensures Shares(lits, i, j) <==> Shares(lits, j, i)
  {
    assert LitVarSet(lits[i]) * LitVarSet(lits[j]) == LitVarSet(lits[j]) * LitVarSet(lits[i]);
  }

  lemma SharingVertex(lits: seq<Lit>, v: nat)
    ensures v in BuildSharing(lits).vertices <==> SharesWithOther(lits, v)
  {
    var n := |lits|;
    var sets := VarSets(lits);
    var ps := Pairs(0, n);
    var g := BuildSharing(lits);
    assert v in g.vertices <==> v in Elems(g.vertices);
    PairsTraceRequests(sets, ps, v);
    if v < n && exists w: nat | w < n :: w != v && Shares(lits, v, w) {
      var w: nat :| w < n && w != v && Shares(lits, v, w);
      if v < w {
        assert (v, w) in ps;
      } else {
        SharesSymmetric(lits, v, w);
        assert (w, v) in ps;
      }
    }
    if v in g.vertices {
      var r :| r in ps && (r.0 == v || r.1 == v) && Elems(sets[r.0]) * Elems(sets[r.1]) != {};
      if r.0 == v {
        assert Shares(lits, v, r.1);
      } else {
        SharesSymmetric(lits, r.0, v);
      }
    }
  }

  lemma SharingVertexEdge(lits: seq<Lit>, v: nat)
    requires v in BuildSharing(lits).vertices
    ensures Incident(BuildSharing(lits).edges, v)
  {
    var n := |lits|;
    SharingVertex(lits, v);
    var w: nat :| w < n && w != v && Shares(lits, v, w);
    SharesSymmetric(lits, v, w);
    var p, q := if v < w then v else w, if v < w then w else v;
    assert Shares(lits, p, q);
    SharingEdgeCount(lits, p, q);
    BetweenWitness(BuildSharing(lits).edges, p, q);
  }

  /** There are at most as many vertices as literals. */
  lemma SharingVertexBound(lits: seq<Lit>)
    ensures |BuildSharing(lits).vertices| <= |lits|
  {
    var g := BuildSharing(lits);
    forall v | v in g.vertices
      ensures v < |lits|
    {
      SharingVertex(lits, v);
    }
    VerticesBelow(g.vertices, |lits|);
  }

  /** A literal has a vertex exactly when it shares a variable with another
      literal; so every vertex has an edge, and there are at most as many
      vertices as literals. */
  lemma SharingVertices(lits: seq<Lit>)
    ensures forall v: nat :: v in BuildSharing(lits).vertices <==> SharesWithOther(lits, v)
    ensures forall v | v in BuildSharing(lits).vertices :: Incident(BuildSharing(lits).edges, v)
    ensures |BuildSharing(lits).vertices| <= |lits|
  {
    var g := BuildSharing(lits);
    forall v: nat
      ensures v in g.vertices <==> SharesWithOther(lits, v)
    {
      SharingVertex(lits, v);
    }
    forall v | v in g.vertices
      ensures Incident(g.edges, v)
    {
      SharingVertexEdge(lits, v);
    }
    SharingVertexBound(lits);
  }

  /** A positive count between two literals names an edge joining them. */
  lemma {:induction false} BetweenWitness(es: seq<ShareEdge>, p: nat, q: nat)
    requires Between(es, p, q) > 0
    ensures exists e | e in es :: (e.a == p && e.b == q) || (e.a == q && e.b == p)
    decreases |es|
  {
    if !((es[0].a == p && es[0].b == q) || (es[0].a == q && es[0].b == p)) {
      BetweenWitness(es[1..], p, q);
      var e :| e in es[1..] && ((e.a == p && e.b == q) || (e.a == q && e.b == p));
      assert e in es;
    } else {
      assert es[0] in es;
    }
  }

  /** Distinct indices below `n` are at most `n` many. */
  lemma VerticesBelow(vs: seq<nat>, n: nat)
    requires NoDup(vs) && forall v | v in vs :: v < n
    ensures |vs| <= n
  {
    NoDupCard(vs);
    var below: seq<nat> := seq(n, k => k);
    assert NoDup(below);
    NoDupCard(below);
    assert Elems(vs) <= Elems(below) by {
      forall v | v in Elems(vs)
        ensures v in Elems(below)
      {
        assert below[v] == v;
      }
    }
    SubsetCard(Elems(vs), Elems(below));
  }

  /** Distinct indices that are exactly those below `n` are `n` many. */
  lemma VerticesExactly(vs: seq<nat>, n: nat)
    requires NoDup(vs) && forall v: nat :: v in vs <==> v < n
    ensures |vs| == n
  {
    VerticesBelow(vs, n);
    NoDupCard(vs);
    var below: seq<nat> := seq(n, k => k);
    assert NoDup(below);
    NoDupCard(below);
    assert Elems(below) <= Elems(vs) by {
      forall v | v in Elems(below)
        ensures v in Elems(vs)
      {
        assert v in vs;
      }
    }
    SubsetCard(Elems(below), Elems(vs));
  }

  /** When every literal shares a variable with another literal, every
      literal is a vertex, each once. */
  lemma AllShare(lits: seq<Lit>)
    requires forall v: nat | v < |lits| :: SharesWithOther(lits, v)
    ensures forall v: nat :: v in BuildSharing(lits).vertices <==> v < |lits|
    ensures |BuildSharing(lits).vertices| == |lits|
  {
    var vs := BuildSharing(lits).vertices;
    forall v: nat
      ensures v in vs <==> v < |lits|
    {
      SharingVertex(lits, v);
    }
    VerticesExactly(vs, |lits|);
  }

  lemma SubsetCard<T>(a: set<T>, b: set<T>)
    requires a <= b
    ensures |a| <= |b|
  {
    assert b == a + (b - a);
  }
}
