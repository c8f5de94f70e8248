# Functional-literal analysis of Souffle clauses, modelled in Dafny

`src/ReorderFuncLiterals.cpp` is an analysis pass over a Datalog program. It reads a
table of *functional relations*. Each table row is a relation name and a pattern
of `S` (source), `T` (target) and `X` (other) argument positions. The row declares
that the source arguments of the relation determine the target argument. For each
clause, the pass builds two labelled multigraphs:

- **The functional-dependency graph** (`printFuncRelDeps`). Vertices are variable
  names. For every atom of a registered relation and every descriptor registered
  for it, there is one edge from each variable at a source position to the
  variable at the target position. Each such edge is labelled with the relation
  name.
- **The shared-variable graph** (`printAtomDeps`). Vertices are literal
  occurrences. Each pair of distinct literals gets one edge per variable name
  the two literals have in common.

Each graph is handed to a renderer only when it passes an emission test. The pass
never changes the program.

The model is pure and functional:

- `OrderedSets` holds the ordered string sets (`std::set<std::string>`) and their
  sorted-merge intersection (`std::set_intersection`).
- `Ast` holds arguments and literals as closed datatypes.
- `Variables` holds `collectVariableNames`, with a set-valued reference
  definition next to it.
- `FuncRels` holds the pattern scan and the record-to-multimap step of
  `readFuncRelInfo`. The multimap is its entries in insertion order, and
  `equal_range` is `Lookup`.
- `Keys` models the lazy vertex creation (`getVertex`).
- `FuncDeps` and `Sharing` hold the two graph builders.
- `Emission` holds the emission predicates, the per-clause analysis and the
  label sanitiser.
- `Scenarios` holds small clauses worked through the model.

Each builder is written as a *trace*: the `getVertex` requests and `add_edge`
calls in the order the loops make them. The vertices are the requests with
duplicates removed, in first-request order. A literal is identified by its index
in the literal sequence.

## Model

| member | source | states |
|---|---|---|
| OrderedSets.Insert | src/ReorderFuncLiterals.cpp:55 | Inserting a name into an ordered name set yields exactly the old names plus the new one; the set grows by one exactly when the name was absent. |
| OrderedSets.Intersect | src/ReorderFuncLiterals.cpp:98-101 | The ordered intersection of two name sets holds exactly the names in both, sorted and without duplicates. |
| OrderedSets.IntersectCard | src/ReorderFuncLiterals.cpp:98-101 | The intersection lists as many names as the two sets have in common. |
| Variables.Collect | src/ReorderFuncLiterals.cpp:53-62 | Collecting from an argument adds exactly its variable names to the set: a variable its own name, any other argument the names of its children, recursively. |
| Variables.CollectAll | src/ReorderFuncLiterals.cpp:57-60 | Collecting from a run of children adds the union of their variable names. |
| Variables.LitVars | src/ReorderFuncLiterals.cpp:79-90 | A literal's variable set is the union over an atom's arguments, or over both sides of a binary constraint. |
| Sharing.VarSets | src/ReorderFuncLiterals.cpp:79-91 | `argMap` holds, for every literal, exactly that literal's variable names. |
| Ast.Atoms | src/ReorderFuncLiterals.cpp:79 | The literals iterated are the atoms of the body: each atom occurs as often as in the body, and nothing else occurs. |
| Ast.AtomsConcat | src/ReorderFuncLiterals.cpp:79 | Body order is kept: the atoms of two consecutive parts of a body are the first part's followed by the second's. |
| Ast.AtomsSingle | src/ReorderFuncLiterals.cpp:79 | A one-literal body yields that literal when it is an atom and nothing otherwise; with `AtomsConcat` this fixes the atoms of every body. |
| FuncRels.Scan | src/ReorderFuncLiterals.cpp:280-290 | Every source position of a scanned pattern is below the number of positions the pattern spans. |
| FuncRels.ScanSourcesFromS | src/ReorderFuncLiterals.cpp:283-284 | Every source position is the position of some `S` of the pattern. |
| FuncRels.ScanSFromSources | src/ReorderFuncLiterals.cpp:283-284 | The position of every `S` of the pattern is a source position. |
| FuncRels.ScanTargetDefault | src/ReorderFuncLiterals.cpp:280-286 | A pattern without `T` leaves the target at the default position 0. |
| FuncRels.ScanTargetLast | src/ReorderFuncLiterals.cpp:285-286 | The target is the position of the last `T`: a later `T` overwrites an earlier one. |
| FuncRels.FillerIgnored | src/ReorderFuncLiterals.cpp:288-289 | Only `S`, `T` and `X` advance the position: removing all other characters changes neither the descriptor nor the width. |
| FuncRels.ScanST | src/ReorderFuncLiterals.cpp:281-290 | `ST` gives source {0} and target 1, the same descriptor as `STX`. |
| FuncRels.ScanExamples | src/ReorderFuncLiterals.cpp:281-290 | `STX` gives source {0} and target 1, `SSXT` gives sources {0, 1} and target 3, and `SX` gives source {0} and target 0. |
| FuncRels.ReadFuncRelInfo | src/ReorderFuncLiterals.cpp:273-295 | No entry has an empty relation name, and each record adds at most one entry. |
| FuncRels.ReadConcat | src/ReorderFuncLiterals.cpp:267-296 | Records are read independently: the table read from two consecutive parts is the concatenation of the two tables. |
| FuncRels.Lookup | src/ReorderFuncLiterals.cpp:187 | `equal_range` yields exactly the descriptors of the entries with that name. |
| FuncRels.LookupCount | src/ReorderFuncLiterals.cpp:187-191 | Entries are not merged: each descriptor is looked up as many times as an entry with that name and descriptor occurs. |
| FuncRels.IsFunctionalIff | src/ReorderFuncLiterals.cpp:121 | `count` is positive exactly when some entry carries the name. |
| FuncRels.LookupAfterRead | src/ReorderFuncLiterals.cpp:273-295 | After reading, nothing is registered under the empty name. Under any other name there is one descriptor per record with that name, the scan of its pattern, in table order, and repeated names are not merged. |
| Keys.AddKey | src/ReorderFuncLiterals.cpp:177-184 | Looking up a key creates its vertex only when it has none: the key set gains exactly that key, stays duplicate-free, and the existing vertices keep their order. |
| Keys.AddKeys | src/ReorderFuncLiterals.cpp:70-77 | A run of lookups yields the union of the keys, duplicate-free, with the existing vertices kept as a prefix. |
| FuncDeps.SourceEdges | src/ReorderFuncLiterals.cpp:198-206 | Every edge of one descriptor enters the target variable, carries the relation name, and leaves a variable found at some source position. |
| FuncDeps.SourceEdgesCount | src/ReorderFuncLiterals.cpp:198-206 | A variable has exactly as many out-edges as there are source positions holding it. Non-variable sources are skipped one by one, and repeats are not removed. |
| FuncDeps.DescContribution | src/ReorderFuncLiterals.cpp:191-207 | A descriptor whose target argument is not a variable contributes nothing. Otherwise the target gets a vertex even with no edge, and the out-degrees are as in `SourceEdgesCount`. |
| FuncDeps.BuildFuncDeps | src/ReorderFuncLiterals.cpp:172-208 | Each variable name is at most one vertex of the dependency graph. |
| FuncDeps.FuncDepsEdges | src/ReorderFuncLiterals.cpp:186-207 | An edge is in the graph exactly when it comes from an atom of the clause and a descriptor registered for its relation. Such an edge leaves the variable at a source position, enters the variable at the target position and carries the relation name. Both ends of every edge are vertices. |
| FuncDeps.FuncDepsOutDegree | src/ReorderFuncLiterals.cpp:186-207 | Edges are never merged. A variable's out-degree is the number of times it stands at a source position of a registered descriptor with a variable target, counted over every descriptor of every atom. |
| FuncDeps.FuncDepsVertices | src/ReorderFuncLiterals.cpp:177-205 | A name is a vertex exactly when it is the target variable of a registered descriptor of some atom, or the source of some edge. |
| FuncDeps.LitsTraceConcat | src/ReorderFuncLiterals.cpp:186-208 | Atoms are processed one after another: the trace of two consecutive runs of literals is the first run's trace followed by the second's. |
| FuncDeps.FuncDepsConcat | src/ReorderFuncLiterals.cpp:186-208 | The graph of two runs of literals has the first run's edges followed by the second's, and the vertices of both. |
| Emission.NoFunctionalAtoms | src/ReorderFuncLiterals.cpp:186-189 | A clause with no atom of a registered relation has an empty dependency graph, which is not emitted. |
| Sharing.Pairs | src/ReorderFuncLiterals.cpp:93-97 | The nested loops visit every unordered pair of distinct literals exactly once, the earlier literal first. |
| Sharing.BuildSharing | src/ReorderFuncLiterals.cpp:64-114 | Each literal is at most one vertex of the sharing graph. |
| Sharing.SharingEdgeCount | src/ReorderFuncLiterals.cpp:93-112 | Two distinct literals are joined by exactly as many edges as they have variable names in common. |
| Sharing.SharingLabelCount | src/ReorderFuncLiterals.cpp:98-112 | One edge per common name: two distinct literals are joined by exactly one edge labelled `v` when both mention `v`, and by none otherwise. |
| Sharing.SharingEdges | src/ReorderFuncLiterals.cpp:93-112 | Every edge joins two different literals, the earlier first, and is labelled with a name in both their variable sets. No edge joins a literal to itself. |
| Sharing.SharingVertex | src/ReorderFuncLiterals.cpp:70-107 | A literal is a vertex exactly when it shares a variable name with some other literal. |
| Sharing.SharingVertexEdge | src/ReorderFuncLiterals.cpp:103-111 | Every vertex is an end of some edge. |
| Sharing.SharingVertexBound | src/ReorderFuncLiterals.cpp:70-107 | There are no more vertices than literals. |
| Sharing.SharingVertices | src/ReorderFuncLiterals.cpp:70-111 | `SharingVertex`, `SharingVertexEdge` and `SharingVertexBound` together, for all literals. |
| Sharing.AllShare | src/ReorderFuncLiterals.cpp:103-107 | When every literal shares a variable with another literal, the vertices are exactly the literals, each once. |
| Emission.HasFuncRel | src/ReorderFuncLiterals.cpp:118-124 | `hasFuncRel` holds exactly when some vertex is an atom whose relation has a registered descriptor. |
| Emission.AnalyseClause | src/ReorderFuncLiterals.cpp:39-45 | Both graphs are built over the clause's atoms. The dependency graph is emitted exactly when it has more than two vertices. The sharing graph is emitted exactly when it has more than two vertices and some atom of a registered relation shares a variable with another atom. |
| Emission.SharingEmission | src/ReorderFuncLiterals.cpp:118-161 | The sharing graph is emitted exactly when more than two literals share a variable with another literal and one literal that does is an atom of a registered relation. |
| Emission.Sanitize | src/ReorderFuncLiterals.cpp:133-135 | The sanitised label has the same length, and each `?` becomes `_` while every other character stays the same. |
| Emission.SanitizeProperties | src/ReorderFuncLiterals.cpp:144-146 | A sanitised label holds no `?`. Sanitising is idempotent and leaves a label without `?` unchanged. |
| Scenarios.SingleFEntries | src/ReorderFuncLiterals.cpp:273-295 | The one-record table `f<TAB>ST` registers exactly `[0] -> 1` under `f`. |
| Scenarios.FuncDepsSingleEdge | src/ReorderFuncLiterals.cpp:186-207 | Under that table, `f(x, y)` with distinct variables gives the vertices `y` then `x` and the one edge `x -> y` labelled `f`. |
| Scenarios.FuncDepsSelfLoop | src/ReorderFuncLiterals.cpp:196-205 | Under that table, `f(x, x)` gives the self-loop `x -> x` on the single vertex `x`: the builder has no self-loop guard. |
| Scenarios.NonVarTarget | src/ReorderFuncLiterals.cpp:191-199 | A registered descriptor whose target argument is not a variable is left at lines 193-194, before any source is read: whatever its source positions, the atom adds no vertex and no edge. |
| Scenarios.NoTargetSelfLoop | src/ReorderFuncLiterals.cpp:280-290 | A table row `g<TAB>SX`, which has no `T`, registers target 0, which is also a source. So `g(x, y)` gives the self-loop `x -> x`. |
| Scenarios.TwoAtomsNoDeps | src/ReorderFuncLiterals.cpp:186-189 | Without registered relations, `p(x, y), q(y, z)` has an empty dependency graph. |
| Scenarios.TwoAtomsEdge | src/ReorderFuncLiterals.cpp:93-112 | Its sharing graph has one edge, from the first literal to the second, labelled `y`. |
| Scenarios.TwoAtomsVertices | src/ReorderFuncLiterals.cpp:103-107 | The vertices of that sharing graph are exactly the two literals. |
| Scenarios.TriangleEdges | src/ReorderFuncLiterals.cpp:93-112 | `p(x, y), q(y, z), r(z, x)` gives one edge between each pair of literals. |
| Scenarios.TriangleVertices | src/ReorderFuncLiterals.cpp:103-107 | That triangle has exactly its three literals as vertices. |

## Behaviour worth knowing

- **No self-loop guard.** The dependency builder never checks that an edge's
  two ends differ (lines 196-205):
  - `f(x, x)` with pattern `ST` gives the edge `x -> x` (`FuncDepsSelfLoop`).
  - A pattern without `T` whose first position is `S` gives a descriptor whose
    target equals one of its sources (`NoTargetSelfLoop`).
- **Rows without a `T` are kept.** Such a row is registered with the default
  target 0 (lines 280-295). In the model, only a record with an empty name
  adds no entry (see `FuncRels.ReadFuncRelInfo` under Left out).

## Left out

- Reading the table file is not modelled. That covers `ifstream`, reading up to
  a tab, `seekg` over the newline and the `eof` loop (lines 263-296). The model
  reads an in-memory sequence of (name, pattern) records.
- FuncRels.ReadFuncRelInfo: skipping a record with an empty name is the model's
  choice, not what the code does. An empty `relName` means the `get` at line 270
  extracted nothing, which sets the stream's failbit.
  - At the end of the file, eofbit is set as well, so the loop at line 267 ends.
    This is the normal way the reader stops.
  - A line that starts with a tab leaves eofbit clear. So does a file that failed
    to open. In both cases every later `get` fails too, and `while (!csvFile.eof())`
    never ends: the code hangs and returns no table.
  - The model covers only tables the code reads to the end.
- Boost Graph Library types, `write_graphviz` and the rendered attributes are
  not modelled. That includes the label quoting and the red colour of
  functional atoms (lines 5-25, 130-158, 214-236). Graphs are explicit vertex
  and edge sequences.
- `DEBUG`-gated file writing, file names and the function-local `print_count`
  counters are side effects (lines 128, 160-168, 211-246). Only the emission
  tests are modelled.
- AST printing (`cls.print`, `g[v]->print`) and the descriptor `operator<<`
  (lines 250-260) are output formatting over printers that are not part of this
  model.
- `Global::config()`, the transformer entry point and the loops over relations
  and clauses are not modelled (lines 39-50, 301-317). They always report "no
  change". `AnalyseClause` models one clause.
- The AST class hierarchy is replaced by the closed datatypes `Arg` and `Lit`.
  `getAtoms` is modelled as `Ast.Atoms`. Because the loops iterate atoms only, the
  binary-constraint branches are reached when a builder is given constraints
  directly, never through `AnalyseClause`.
- Pointer order is not modelled. `argMap` and `literalToVertex` are ordered by
  literal address. The model visits literals in body order, so the order of the
  sharing graph's vertices and edges may differ from the code's. The same holds
  for the direction of a sharing edge: the code starts it at the literal with
  the lower address (lines 93, 106-107), the model at the earlier literal in the
  body, so "the earlier first" in `SharingEdges` and `TwoAtomsEdge` describes
  the model. The edge counts per pair, the labels and the vertex set do not
  depend on the order.
- FuncRels.Scan: the position counter is an `unsigned` and would wrap after
  2^32 positions. The model uses an unbounded counter.
- FuncDeps.BuildFuncDeps: `getArgument` does no bounds check (lines 192, 199). The
  model requires every position the code reads to lie within the atom's arity
  (`InRange`): the target always, the sources only when the target argument is
  a variable. It says nothing about reading an out-of-range position.
- The descriptor type's header is not part of this model. It is assumed to be a
  `std::pair` of a position set and a position, so a default-constructed
  descriptor has target 0.
