/**
 Variable collection: the names of the variables an argument tree or a
 literal mentions, gathered into an ordered string set.
 */
module Variables {
  import opened Ast
  import opened OrderedSets

  /** Reference definition: a variable mentions its own name, any other
      argument the names its children mention. */
  function ArgVars(a: Arg): set<string>
    decreases a
  {
    match a
    case Var(n) => {n}
    case Compound(cs) => ArgsVars(cs)
  }

  /** The union of the names mentioned by each argument of a sequence. */
  function ArgsVars(cs: seq<Arg>): set<string>
    decreases cs
  {
    if cs == [] then {} else ArgVars(cs[0]) + ArgsVars(cs[1..])
  }

  /** Reference definition for a literal: the names of all its arguments, or
      of both sides of a constraint. */
  function LitVarSet(l: Lit): set<string>
  {
    match l
    case Atom(_, args) => ArgsVars(args)
    case BinCon(lhs, rhs) => ArgVars(lhs) + ArgVars(rhs)
  }

  /** `collectVariableNames`: adds to `vars` the names of the variables in `a`,
      inserting a variable's name and otherwise descending into the children. */
  function Collect(a: Arg, vars: StringSet): (r: StringSet)
    ensures Elems(r) == Elems(vars) + ArgVars(a)
    decreases a
  {
    match a
    case Var(n) => Insert(vars, n)
    case Compound(cs) => CollectAll(cs, vars)
  }

  /** Collects from each argument in turn. */
  function CollectAll(cs: seq<Arg>, vars: StringSet): (r: StringSet)
    ensures Elems(r) == Elems(vars) + ArgsVars(cs)
    decreases cs
  {
    if cs == [] then vars else CollectAll(cs[1..], Collect(cs[0], vars))
  }

  /** The variable set the sharing-graph builder keeps for one literal. */
  function LitVars(l: Lit): (r: StringSet)
    ensures Elems(r) == LitVarSet(l)
  {
    match l
    case Atom(_, args) => CollectAll(args, [])
    case BinCon(lhs, rhs) => Collect(rhs, Collect(lhs, []))
  }
}
