# k-colouring with z3, modelled in Dafny

The repository colours the nodes of a graph read from a DOT file with at most
`k` colours. It asks the z3 solver for a colouring and writes the result back
into the graph as node attributes. It has two scripts, and each uses its own
encoding.

- **One-hot encoding** (`k-coloring.py`).
  - There is one Boolean indicator `{n}_{c}` per node `n` and colour index
    `c < k`.
  - Three clause families are built over the indicators:
    - coverage: each node has some colour;
    - uniqueness: `Not(And(a, b))` for each pair of one node's indicators;
    - adjacency: `Not(And(x[u][c], x[v][c]))` for each edge and colour.
  - Decoding collects the true indicators and splits each name on `'_'`. It
    then writes `fillcolor` (the palette entry) and `style` (`filled`) into
    the node's attributes.
- **Quantified encoding** (`k-coloring-q.py`).
  - An uninterpreted `color: Int -> Int` and `edge: Int x Int -> Bool` are
    constrained by three axioms over all integers: symmetry, range
    `0 <= color(x) < k`, and adjacent colours differ.
  - Each edge adds one ground fact `edge(Int(u), Int(v))`.
  - A dictionary collects one integer constant per edge endpoint.
  - Decoding evaluates `color` at each collected constant and writes
    `color`, `fillcolor` and `style`.

The model follows the Python code.

- **Variables.** A z3 variable is identified by its name, so a variable is its
  name (a string) and a solver model is any valuation `string -> bool`. For
  the quantified encoding, a model is any interpretation of the constants,
  `color` and `edge`.
- **Python semantics.** These pieces are written out:
  - `str(c)`, `int(s)` and `s.split('_')` (module `Text`);
  - Python's negative list indexing (`Graphs.PyIndex`);
  - `range(k)` being empty for `k <= 0` (`OneHot.NumColours`).
- **Graph.** The graph is a node sequence plus an edge sequence. The mutable
  node attributes live in the class `Graphs.DotGraph`.
- **Decoding loops.** Each is an imperative method that updates the
  attributes in place through `DotGraph.SetNodeAttr`. Each is proved equal
  to a recursive specification function (`PaintVars`, `PaintKeys`), and the
  properties are proved about that function.
- **Evaluation order.** Python evaluates the right-hand side
  `palette[int(cc[1])]` before the subscript target `G.nodes[cc[0]]`. So an
  `IndexError` or `ValueError` is raised before a `KeyError`, and the model
  keeps that order.

Main results:

- **One-hot encoding.**
  - Clause counts and shapes: `|V|` coverage clauses, `|V|·k(k-1)/2`
    uniqueness clauses, `|E|·k` adjacency clauses.
  - The meaning of the clause conjunction.
  - Soundness: a satisfying valuation has exactly one true indicator per
    node and describes a proper colouring.
  - Completeness: the valuation of any proper colouring satisfies the
    clauses.
  - Monotonicity from `k` to `k + 1`.
  - The name round trip: splitting `{n}_{c}` on `'_'` gives back `n` and `c`
    exactly when `n` holds no `'_'`.
  - Decoding a satisfying valuation, when no node name holds `'_'` and the
    palette has k entries, paints every node with its colour and touches
    nothing else. A node whose name holds `'_'` is never painted by its own
    indicator: splitting its name gives a different `cc[0]`, and `cc[1]` may
    not be a number or may index past the palette, so the loop may raise or
    repaint another node. With nodes `a` and `a_1` both on colour 0, the
    true variables `a_0` and `a_1_0` both paint `a`, the last one with
    palette entry 1, and `a_1` stays unpainted.
- **Quantified encoding.**
  - The keys of `_vars` are exactly the edge endpoints, each inserted once.
  - Soundness: endpoints of an edge get different colours in `[0, k)`.
  - Symmetry entails the reverse edge.
  - The range axiom forces `k >= 1`.
  - Completeness with respect to interpretations: a proper colouring yields
    a model.
  - Decoding never touches an isolated node and raises nothing under the
    range axiom. It gives `color` and `fillcolor` the same palette entry.

## Model

| member | source | states |
|---|---|---|
| Text.Decimal | k-coloring.py:16 | `str(c)` of a non-negative int is a non-empty digit string with no leading zero unless c is 0 |
| Text.ParseInt | k-coloring.py:59 | `int(s)` succeeds exactly on non-empty digit strings, with a non-negative value |
| Text.ParseIntDecimal | k-coloring.py:57-59 | `int(str(c)) == c` for every colour index c, the number written into the name at line 16 |
| Text.Split | k-coloring.py:58 | `s.split('_')` gives at least one piece, no piece holds `'_'`, and joining the pieces with `'_'` gives back s |
| Text.SplitFirst | k-coloring.py:58 | splitting `a + '_' + b` with no `'_'` in a gives `[a]` followed by the pieces of b |
| Text.SplitNoSeparator | k-coloring.py:58 | a string without `'_'` splits into itself alone |
| Graphs.PyIndex | k-coloring.py:59 | `palette[i]` succeeds exactly for `-len <= i < len`, and gives the i-th entry for a non-negative i |
| Graphs.DotGraph.SetNodeAttr | k-coloring.py:59-60 | `G.nodes[n][key] = value` succeeds exactly when n is a node, changes only that one attribute, and keeps one attribute dictionary per node |
| Graphs.DotGraph.constructor | k-coloring.py:36 | the graph read from the DOT file, with one attribute dictionary per node |
| OneHot.VarNameRoundTrip | k-coloring.py:16 | every name `{n}_{c}` reads back as (n, c) when cut at its last `'_'`, whatever characters n holds; this inverse exists only in the model, to prove names injective, and is not how the script decodes (it cuts at the first `'_'`, see `OneHot.SplitVarName`) |
| OneHot.VarNameInjective | k-coloring.py:16 | two indicators have the same name exactly when they have the same node and colour |
| OneHot.VarName | k-coloring.py:16 | the name `f'{n}_{c}'` of an indicator; its contract is that of `OneHot.VarNameRoundTrip`, `OneHot.VarNameInjective` and `OneHot.SplitVarName` |
| OneHot.NumColours | k-coloring.py:16 | the length of `range(k)`, 0 for k <= 0; `OneHot.GenVarsShape` and `OneHot.BuildClauses` state what it decides |
| OneHot.GenVars | k-coloring.py:13-16 | `_gen_vars` has the graph's nodes as keys, in node order |
| OneHot.GenVarsShape | k-coloring.py:13-16 | each node's list has exactly k variables, the c-th reads back as (node, c), and no variable occurs twice in the table |
| OneHot.LookupGenVars | k-coloring.py:13-20 | `_vars[n]` is the list of n's k indicators in colour order |
| OneHot.Keys | k-coloring.py:20 | `_vars.keys()` in insertion order; the contract of `OneHot.CoverageClauses` |
| OneHot.Lookup | k-coloring.py:32 | `_vars[v]`; the contract of `OneHot.LookupGenVars` |
| OneHot.EachVertexHasColour | k-coloring.py:18-20 | `_each_v_has_c`: one `Or` per key of `_vars`; its count and meaning are the contract of `OneHot.CoverageClauses` |
| OneHot.CoverageClauses | k-coloring.py:18-20 | one clause per node, the disjunction of all its indicators; they all hold exactly when every node has a true indicator |
| OneHot.PairwiseExclusions | k-coloring.py:25-26 | `combinations(row, 2)` mapped to `Not(And(a, b))`; its count and members are the contracts of `OneHot.PairwiseExclusionsCount` and `OneHot.PairwiseExclusionsMembers` |
| OneHot.EachVertexOnlyOneColour | k-coloring.py:23-26 | `_each_v_only_one_c`; its shape and meaning are the contracts of `OneHot.OnlyOneColourClauses` and `OneHot.UniquenessMeaning` |
| OneHot.PairwiseExclusionsCount | k-coloring.py:25-26 | `combinations(row, 2)` yields len(row)(len(row)-1)/2 clauses |
| OneHot.PairwiseExclusionsMembers | k-coloring.py:25-26 | the uniqueness clauses of a row are exactly `Not(And(row[i], row[j]))` for positions i < j |
| OneHot.OnlyOneColourClauses | k-coloring.py:23-26 | `_each_v_only_one_c` emits \|V\|·k(k-1)/2 clauses, each pairing two different indicators of the same node, and every such pair appears |
| OneHot.UniquenessMeaning | k-coloring.py:23-26 | the uniqueness clauses hold exactly when no node has two true indicators |
| OneHot.ZipExclusions | k-coloring.py:32 | `zip(_vars[u], _vars[v])` mapped to `Not(And(a, b))`; what it yields is the contract of `OneHot.AdjacencyClauses` |
| OneHot.AdjacentNotSameColour | k-coloring.py:28-32 | `_adj_not_same_c`; its count, members and meaning are the contracts of `OneHot.AdjacencyCount`, `OneHot.AdjacencyClauses` and `OneHot.AdjacencyMeaning` |
| OneHot.AdjacencyCount | k-coloring.py:28-32 | `_adj_not_same_c` emits exactly k clauses per edge |
| OneHot.AdjacencyClauses | k-coloring.py:28-32 | every adjacency clause pairs the c-th indicators of the two ends of an edge, and every such pair appears |
| OneHot.AdjacencyMeaning | k-coloring.py:28-32 | the adjacency clauses hold exactly when no edge has both ends' c-th indicators true |
| OneHot.AllHoldAppend | k-coloring.py:47 | `f1 + f2 + f3` holds exactly when each of its parts holds |
| OneHot.Encode | k-coloring.py:38-47 | `f1 + f2 + f3`; what it means is the contract of `OneHot.EncodeMeaning`, and `OneHot.OneHotSound` and `OneHot.OneHotComplete` relate it to proper colourings |
| OneHot.BuildClauses | k-coloring.py:18-20 | building the clauses raises exactly when the graph has a node and `range(k)` is empty (an `Or` of no indicators), and otherwise gives `f1 + f2 + f3` |
| OneHot.EncodeMeaning | k-coloring.py:38-47 | a valuation satisfies the clauses exactly when every node has some, at most one, colour and adjacent nodes never share one |
| OneHot.OneHotSound | k-coloring.py:38-52 | a satisfying valuation makes exactly one indicator true per node, and the colouring it describes is proper with indices in [0, k) |
| OneHot.OneHotComplete | k-coloring.py:38-47 | the valuation making `{v}_{c}` true exactly when col[v] == c satisfies the clauses of any proper colouring and decodes back to that colouring |
| OneHot.OneHotMonotone | k-coloring.py:38-47 | a graph satisfiable with k colours is satisfiable with k + 1 |
| OneHot.SelectAppend | k-coloring.py:52 | filtering the true variables distributes over concatenation |
| OneHot.SelectIndicators | k-coloring.py:52 | among one node's indicators, only the one of its colour is kept |
| OneHot.Chain | k-coloring.py:52 | `chain(*dic.values())`; with `OneHot.Select`, the contract of `OneHot.TrueVarsOnePerVertex` and `OneHot.SelectIndicators` |
| OneHot.Select | k-coloring.py:52 | the `if m[p]` filter; the contract of `OneHot.SelectAppend`, `OneHot.SelectIndicators` and `OneHot.TrueVarsOnePerVertex` |
| OneHot.TrueVars | k-coloring.py:52 | `[p for p in chain(*dic.values()) if m[p]]`; under a model it is the contract of `OneHot.TrueVarsOnePerVertex` |
| OneHot.TrueVarsOnePerVertex | k-coloring.py:52 | under a satisfying valuation `colors` is exactly one variable per node, in node order: the indicator of its colour |
| OneHot.SplitVarName | k-coloring.py:57-59 | splitting the name `{n}_{c}` built at line 16 on `'_'` gives `cc[0] == n` and `int(cc[1]) == c` exactly when n holds no `'_'` |
| OneHot.PaintVar | k-coloring.py:57-60 | one pass of the decoding loop, IndexError and ValueError before KeyError; what it writes is the contract of `OneHot.DecodePaintsEveryVertex` and `OneHot.UnderscoreNodeUntouched` |
| OneHot.PaintVars | k-coloring.py:56-60 | the decoding loop as a function; what it gives is the contract of `OneHot.DecodePaintsEveryVertex` and `OneHot.UnderscoreNodeUntouched` |
| OneHot.Decode | k-coloring.py:52-60 | the decoding block keeps one attribute dictionary per node and leaves the attributes and exception that `PaintVars` gives for the true variables; for a satisfying valuation, node names without `'_'` and a k-entry palette it raises nothing and paints every node `fillcolor` = the palette entry of its colour and `style` = `filled` |
| OneHot.PaintNames | k-coloring.py:56-60 | the `for` loop updates the attributes in place to exactly what `PaintVars` gives, and stops with the same exception |
| OneHot.DecodePaintsEveryVertex | k-coloring.py:52-60 | with a satisfying valuation, no `'_'` in node names and a k-entry palette, decoding raises nothing, gives every node `fillcolor` = the palette entry of its colour and `style` = `filled`, and leaves every other node and attribute as it was |
| OneHot.UnderscoreNodeUntouched | k-coloring.py:57-60 | a node whose name holds `'_'` is never written by the decoding loop |
| Quantified.CollectEndpoints | k-coloring-q.py:45-51 | the collected key order has no repeats and holds exactly the endpoints of the edges |
| Quantified.KeysAreEndpoints | k-coloring-q.py:45-51 | the keys of `_vars` are exactly the edge endpoints, each listed once |
| Quantified.AddKey | k-coloring-q.py:48-51 | `if _vars.get(v) is None: _vars[v] = Int(v)`; its effect on the key order is the contract of `Quantified.CollectEndpoints` |
| Quantified.Collect | k-coloring-q.py:45-51 | the key order of `_vars` after the edge loop; the contract of `Quantified.CollectEndpoints` |
| Quantified.Axioms | k-coloring-q.py:26-40 | the three axioms added to the solver; their meaning is the contract of `Quantified.SystemMeaning` |
| Quantified.Models | k-coloring-q.py:26-34 | when an interpretation satisfies one assertion; the contract of `Quantified.SystemMeaning` |
| Quantified.EdgeFacts | k-coloring-q.py:54 | one fact `edge(Int(u), Int(v))` per edge; its meaning is the contract of `Quantified.SystemMeaning` and `Quantified.SymmetryEntailsReverse` |
| Quantified.Fact | k-coloring-q.py:54 | the ground fact `edge(Int(e[0]), Int(e[1]))` of one edge; the contract of `Quantified.SystemMeaning` |
| Quantified.ColourOf | k-coloring-q.py:60-61 | `m.evaluate(color(v))` for the constant `Int(v)`; the contract of `Quantified.QuantifiedSound` and `Quantified.DecodeModel` |
| Quantified.VarsOf | k-coloring-q.py:43-51 | `_vars` after the edge loop, `Int(v)` for each collected key; the contract of `Quantified.Build` and `Quantified.ColourGraph` |
| Quantified.Build | k-coloring-q.py:36-54 | after the edge loop, `_vars` maps exactly the edge endpoints v to `Int(v)` in first-appearance order without repeats, and the solver holds the three axioms then one fact per edge |
| Quantified.SystemMeaning | k-coloring-q.py:26-54 | an interpretation is a model exactly when the three axioms hold and `edge` holds of the constants of every edge's ends |
| Quantified.RangeForcesPositive | k-coloring-q.py:30 | the range axiom has a model only when k >= 1 |
| Quantified.SymmetryEntailsReverse | k-coloring-q.py:26-54 | in every model `edge(Int(v), Int(u))` holds for every edge (u, v) |
| Quantified.QuantifiedSound | k-coloring-q.py:30-54 | in every model every colour is in [0, k) and the ends of every edge get different colours |
| Quantified.WitnessRange | k-coloring-q.py:30 | the interpretation built from a proper colouring satisfies the range axiom |
| Quantified.WitnessAdjacentDiffer | k-coloring-q.py:34 | the interpretation built from a proper colouring satisfies the adjacent-colours axiom |
| Quantified.WitnessSymmetricFacts | k-coloring-q.py:26-54 | the interpretation built from a proper colouring satisfies symmetry and every edge fact |
| Quantified.QuantifiedComplete | k-coloring-q.py:26-54 | every proper colouring with k >= 1 gives a model of the system whose node colours are the colouring's |
| Quantified.Decode | k-coloring-q.py:56-64 | the decoding block keeps one attribute dictionary per node and leaves the attributes and exception that `PaintKeys` gives for the keys of `_vars`; for a model of the system and a k-entry palette it raises nothing, paints every endpoint with the palette entry of its colour in `color` and `fillcolor` and leaves every other node unchanged |
| Quantified.PaintOrder | k-coloring-q.py:59-64 | the `for` loop updates the attributes in place to exactly what `PaintKeys` gives, and stops with the same exception |
| Quantified.PaintOne | k-coloring-q.py:60-64 | one pass writes `color`, `fillcolor` and `style` as `PaintKey` gives, or raises its exception and changes nothing |
| Quantified.PaintKey | k-coloring-q.py:60-64 | one pass of the decoding loop, IndexError before KeyError; what it writes is the contract of `Quantified.PaintKeysSameEntry` and `Quantified.PaintKeysInRange` |
| Quantified.PaintKeys | k-coloring-q.py:59-64 | the decoding loop as a function; what it gives is the contract of `Quantified.PaintKeysOnlyKeys`, `Quantified.PaintKeysSameEntry`, `Quantified.PaintKeysInRange` and `Quantified.DecodeModel` |
| Quantified.PaintKeysOnlyKeys | k-coloring-q.py:59-64 | decoding writes only the keys of `_vars`: no node is added or removed, and every other node keeps its attributes |
| Quantified.PaintKeysSameEntry | k-coloring-q.py:62-64 | when decoding finishes, every key has `color` equal to `fillcolor` and `style` `filled` |
| Quantified.PaintKeysInRange | k-coloring-q.py:60-64 | under the range axiom (line 30) and a k-entry palette (line 13), decoding raises nothing and gives each key the palette entry of its colour |
| Quantified.DecodeModel | k-coloring-q.py:43-64 | decoding a model of the system raises nothing, paints every endpoint with the palette entry of its colour (at different palette indices at the two ends of each edge), and leaves every node that is on no edge unchanged |
| Quantified.ColourGraph | k-coloring-q.py:36-64 | building `_vars` and the assertions and then decoding the returned model: the solver receives the axioms and one fact per edge, and for a model of them and a k-entry palette nothing is raised, every endpoint gets the palette entry of its colour in `color` and `fillcolor`, and every other node is unchanged |
| Scenarios.TriangleTwoUnsat | k-coloring.py:38-47 | a triangle has no satisfying valuation with k = 2 |
| Scenarios.TriangleThreeSat | k-coloring.py:38-52 | a triangle is satisfiable with k = 3, and every model gives its nodes three different colours in [0, 3) |
| Scenarios.PathTwoSat | k-coloring.py:38-47 | the path a-b-c-d is satisfiable with k = 2 |
| Scenarios.PathTwoAlternates | k-coloring.py:38-52 | every model of the path with k = 2 alternates the two colours |
| Scenarios.SingleOneSat | k-coloring.py:38-52 | a single node without edges is satisfiable with k = 1 and gets colour 0 |
| Scenarios.K4ThreeUnsat | k-coloring.py:38-47 | the complete graph on four nodes has no satisfying valuation with k = 3 |
| Scenarios.K4FourSat | k-coloring.py:38-52 | the complete graph on four nodes is satisfiable with k = 4, and every model gives its nodes four different colours in [0, 4) |
| Scenarios.UnderscoreNamesTrueVars | k-coloring.py:38-52 | with nodes `a` and `a_1`, k = 2 and both on colour 0, the clauses hold and the true variables are `a_0` and `a_1_0` |
| Scenarios.UnderscoreNameRepaints | k-coloring.py:56-60 | decoding `a_0` then `a_1_0` with a two-entry palette raises nothing, paints `a` with palette entry 1 and leaves `a_1` as it was |

## Left out

- **The z3 solver.** `Solver()`, `check()`, `.r > 0`, `model()`,
  `evaluate` and `as_long()` are left out. A solver answer is modelled as
  "some valuation or interpretation satisfying the constraints". The
  completeness lemmas state that such a model exists when a proper colouring
  does. Whether z3 finds one for the quantified axioms over all integers
  depends on its quantifier instantiation, which is not modelled. A model
  value that `as_long()` cannot convert cannot arise: interpretations give
  integers.
- **`m[p]` for an unconstrained variable.** z3 may return `None` here, which
  `if m[p]` treats as false. A valuation is total, and such a variable is
  simply false in it.
- **Graph I/O.** `read_dot`, `write_dot`, `to_pydot(...).to_string()`,
  printing to stdout/stderr and argument parsing (k-coloring.py:34-36,
  62-93; k-coloring-q.py:67-76) are left out. The graph is a node sequence
  plus an edge sequence. Nodes are distinct and edges join nodes
  (`Graphs.WellFormed`), as networkx guarantees.
- **The palette.** seaborn `color_palette('pastel', k).as_hex()` is a
  parameter `palette`. The lemmas about decoding assume it has k entries.
- **`random_graph.py`.** It draws random graphs with library calls, and it
  is not part of this model.
- **Edge attributes.** `DotGraph` holds only node attributes and a constant
  graph, so decoding cannot change an edge.
- **`k < 1`.** Neither script rejects it.
  - In the one-hot encoding, `range(k)` is then empty and every node's
    indicator list is empty. z3py's `Or` of an empty list either raises,
    because no argument supplies a context, or, in releases that fall back
    to the main context, is `False`. `OneHot.BuildClauses` models the
    exception, raised exactly when the graph has a node. `OneHot.Encode`
    reads the empty `Or` as false, so its lemmas give such a graph no
    satisfying valuation (`OneHot.EncodeMeaning`).
  - In the quantified encoding, the range axiom has no model
    (`Quantified.RangeForcesPositive`).
- **Out-of-range colour index.** The code has no DecodeError for it and
  relies on Python list indexing, so a negative index wraps around
  (`Graphs.PyIndex`). The model follows that code.
- **Decoding determinism.** Both decodings are functions of the model
  (`PaintVars`, `PaintKeys`), so decoding the same model twice gives the same
  attributes. There is no separate lemma for it.
- Text.ParseInt: accepts only non-empty ASCII digit strings. Python's `int`
  also accepts surrounding whitespace, a sign, `_` between digits and
  non-ASCII digits.
  - For a node name without `'_'`, `cc[1]` is always `str(c)`, so the
    difference never shows.
  - For a name such as `a_+1`, Python reads `cc[1] = "+1"` as 1, where the
    model raises ValueError.
- Quantified.QuantifiedComplete: requires k >= 1. With k <= 0 the range
  axiom has no model at all (`Quantified.RangeForcesPositive`).
