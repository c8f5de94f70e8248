/**
 The part of the compiler's clause representation the pass reads: the
 literals of a clause body and the argument trees inside them.
 */
module Ast {

  /** An argument is a variable leaf or any other node (constant, functor,
      record, ...) whose children are arguments again. */
  datatype Arg = Var(name: string) | Compound(children: seq<Arg>)

  /** A literal is a relational atom or a binary constraint. A literal's
      identity is its position in the literal sequence, not its value. */
  datatype Lit = Atom(rel: string, args: seq<Arg>) | BinCon(lhs: Arg, rhs: Arg)

  /** `AstClause::getAtoms`: the atoms of a body, in body order. Every atom
      occurrence is kept, so equal atoms stay distinct literals. */
  function Atoms(body: seq<Lit>): (r: seq<Lit>)
    ensures forall l | l in r :: l.Atom? && l in body
    ensures forall l | l in body && l.Atom? :: l in r
    ensures forall l :: multiset(r)[l] == if l.Atom? then multiset(body)[l] else 0
    ensures |r| <= |body|
    decreases |body|
  {
    if body == [] then []
    else
      var rest := Atoms(body[1..]);
      assert forall l | l in body && l != body[0] :: l in body[1..];
      assert body == [body[0]] + body[1..];
      assert multiset(body) == multiset([body[0]]) + multiset(body[1..]);
      if body[0].Atom? then [body[0]] + rest else rest
  }

  /** The atoms of two consecutive parts of a body are those of the first
      part followed by those of the second: body order is kept. */
  lemma {:induction false} AtomsConcat(a: seq<Lit>, b: seq<Lit>)
    ensures Atoms(a + b) == Atoms(a) + Atoms(b)
    decreases |a|
  {
    if a == [] {
      assert a + b == b;
    } else {
      assert (a + b)[0] == a[0] && (a + b)[1..] == a[1..] + b;
      AtomsConcat(a[1..], b);
    }
  }

  /** A single literal contributes itself when it is an atom, nothing otherwise. */
  lemma AtomsSingle(l: Lit)
    ensures Atoms([l]) == if l.Atom? then [l] else []
  {
    assert [l][1..] == [];
  }
}
