/** The quantified encoding of k-colouring (k-coloring-q.py): uninterpreted
    `color: Int -> Int` and `edge: Int x Int -> Bool`, three axioms over all
    integers, one ground `edge` fact per edge of the graph, and one integer
    constant per edge endpoint. A solver model is any interpretation of those
    symbols; decoding evaluates `color` at each collected constant. */
module Quantified {
  import opened Wrappers
  import opened Graphs

  /** The z3 integer constant `Int(name)`; two calls with the same name
      denote the same constant. */
  datatype IntConst = IntConst(name: string)

  /** An interpretation: a value for every integer constant (by name), and the
      functions `color` and `edge`. */
  datatype Interp = Interp(constant: string -> int, colour: int -> int, edge: (int, int) -> bool)

  /** The value `m.evaluate(color(Int(v)))` of node v's colour. */
  function ColourOf(I: Interp, v: Node): int {
    I.colour(I.constant(v))
  }

  /** The assertions handed to the solver. */
  datatype Assertion =
    | EdgeSymmetry                        // ForAll x y. edge(x, y) => edge(y, x)
    | ColourBetween(k: int)               // ForAll x. color(x) >= 0 and color(x) < k
    | AdjacentColoursDiffer               // ForAll x y. edge(x, y) => color(x) != color(y)
    | EdgeFact(u: IntConst, v: IntConst)  // edge(u, v)

  ghost predicate EdgeSymmetric(I: Interp) {
    forall x, y :: I.edge(x, y) ==> I.edge(y, x)
  }

  ghost predicate ColourInRange(I: Interp, k: int) {
    forall x :: 0 <= I.colour(x) < k
  }

  ghost predicate AdjacentDiffer(I: Interp) {
    forall x, y :: I.edge(x, y) ==> I.colour(x) != I.colour(y)
  }

  ghost predicate Models(I: Interp, a: Assertion) {
    match a
    case EdgeSymmetry => EdgeSymmetric(I)
    case ColourBetween(k) => ColourInRange(I, k)
    case AdjacentColoursDiffer => AdjacentDiffer(I)
    case EdgeFact(u, v) => I.edge(I.constant(u.name), I.constant(v.name))
  }

  ghost predicate ModelsAll(I: Interp, system: seq<Assertion>) {
    forall a :: a in system ==> Models(I, a)
  }

  /** The three axioms, in the order they are added. */
  function Axioms(k: int): seq<Assertion> {
    [EdgeSymmetry, ColourBetween(k), AdjacentColoursDiffer]
  }

  /** `edge(Int(e[0]), Int(e[1]))`. */
  function Fact(e: (Node, Node)): Assertion {
    EdgeFact(IntConst(e.0), IntConst(e.1))
  }

  /** One ground fact per edge, in edge order. */
  function EdgeFacts(edges: seq<(Node, Node)>): (r: seq<Assertion>) {
    seq(|edges|, i requires 0 <= i < |edges| => Fact(edges[i]))
  }

  /** v is an end of some edge. */
  predicate IsEndpoint(edges: seq<(Node, Node)>, v: Node) {
    exists e :: e in edges && (v == e.0 || v == e.1)
  }

  /** `if _vars.get(v) is None: _vars[v] = Int(v)`, on the key order of `_vars`. */
  function AddKey(order: seq<Node>, v: Node): seq<Node> {
    if v in order then order else order + [v]
  }

  /** The key order of `_vars` after the edge loop, starting from `order`:
      endpoints by first appearance. */
  function Collect(order: seq<Node>, edges: seq<(Node, Node)>): seq<Node>
    decreases |edges|
  {
    if edges == [] then order
    else Collect(AddKey(AddKey(order, edges[0].0), edges[0].1), edges[1..])
  }

  /** The loop collects each endpoint once, and nothing else. */
  lemma {:induction false} CollectEndpoints(order: seq<Node>, edges: seq<(Node, Node)>)
    requires Distinct(order)
    ensures Distinct(Collect(order, edges))
    ensures forall v :: v in Collect(order, edges) <==> v in order || IsEndpoint(edges, v)
    decreases |edges|
  {
    if edges != [] {
      var e := edges[0];
      var next := AddKey(AddKey(order, e.0), e.1);
      assert forall v :: v in next <==> v in order || v == e.0 || v == e.1;
      CollectEndpoints(next, edges[1..]);
      forall v
        ensures IsEndpoint(edges, v) <==> v == e.0 || v == e.1 || IsEndpoint(edges[1..], v)
      {
        if IsEndpoint(edges, v) {
          var f :| f in edges && (v == f.0 || v == f.1);
          if f != e {
            assert f in edges[1..];
          }
        }
        if IsEndpoint(edges[1..], v) {
          var f :| f in edges[1..] && (v == f.0 || v == f.1);
          assert f in edges;
        }
        assert e in edges;
      }
    }
  }

  lemma CollectStep(order: seq<Node>, edges: seq<(Node, Node)>, i: nat)
    requires i < |edges|
    ensures Collect(order, edges[i..]) == Collect(AddKey(AddKey(order, edges[i].0), edges[i].1), edges[i + 1..])
  {
    assert edges[i..][0] == edges[i] && edges[i..][1..] == edges[i + 1..];
  }

  lemma EdgeFactsSnoc(edges: seq<(Node, Node)>, i: nat)
    requires i < |edges|
    ensures EdgeFacts(edges[..i + 1]) == EdgeFacts(edges[..i]) + [Fact(edges[i])]
  {
  }

  lemma KeysAreEndpoints(vars: map<Node, IntConst>, order: seq<Node>, edges: seq<(Node, Node)>)
    requires order == Collect([], edges)
    requires forall v :: v in vars <==> v in order
    ensures forall v :: v in vars <==> IsEndpoint(edges, v)
    ensures Distinct(order)
  {
    CollectEndpoints([], edges);
  }

  /** Lines 36-54 of `main`: the solver receives the three axioms and one
      ground fact per edge, and `_vars` gains `Int(v)` for each endpoint v not
      yet in it. */
  method Build(g: Graph, k: int) returns (vars: map<Node, IntConst>, order: seq<Node>, system: seq<Assertion>)
    ensures order == Collect([], g.edges)
    ensures forall v :: v in vars <==> v in order
    ensures forall v :: v in vars ==> vars[v] == IntConst(v)
    ensures forall v :: v in vars <==> IsEndpoint(g.edges, v)
    ensures Distinct(order)
    ensures system == Axioms(k) + EdgeFacts(g.edges)
  {
    system := [EdgeSymmetry, ColourBetween(k), AdjacentColoursDiffer];
    vars := map[];
    order := [];
    var i := 0;
    while i < |g.edges|
      invariant 0 <= i <= |g.edges|
      invariant Collect(order, g.edges[i..]) == Collect([], g.edges)
      invariant forall v :: v in vars <==> v in order
      invariant forall v :: v in vars ==> vars[v] == IntConst(v)
      invariant system == Axioms(k) + EdgeFacts(g.edges[..i])
    {
      var e := g.edges[i];
      CollectStep(order, g.edges, i);
      EdgeFactsSnoc(g.edges, i);
      ghost var order0 := order;
      var v, w := e.0, e.1;
      if v !in vars {
        vars := vars[v := IntConst(v)];
        order := order + [v];
      }
      if w !in vars {
        vars := vars[w := IntConst(w)];
        order := order + [w];
      }
      assert order == AddKey(AddKey(order0, v), w);
      system := system + [EdgeFact(IntConst(e.0), IntConst(e.1))];
      i := i + 1;
    }
    assert g.edges[..i] == g.edges;
    assert g.edges[i..] == [];
    KeysAreEndpoints(vars, order, g.edges);
  }

  /** What a model of the system is: the three axioms hold, and `edge` holds
      of the constants of the two ends of every edge. */
  lemma SystemMeaning(I: Interp, k: int, edges: seq<(Node, Node)>)
    ensures ModelsAll(I, Axioms(k) + EdgeFacts(edges)) <==>
      && EdgeSymmetric(I) && ColourInRange(I, k) && AdjacentDiffer(I)
      && (forall e :: e in edges ==> I.edge(I.constant(e.0), I.constant(e.1)))
  {
    var system := Axioms(k) + EdgeFacts(edges);
    assert forall i :: 0 <= i < |edges| ==> system[3 + i] == Fact(edges[i]);
    if ModelsAll(I, system) {
      assert Models(I, system[0]) && Models(I, system[1]) && Models(I, system[2]);
      forall e | e in edges
        ensures I.edge(I.constant(e.0), I.constant(e.1))
      {
        var i :| 0 <= i < |edges| && edges[i] == e;
        assert Models(I, system[3 + i]);
      }
    }
    if && EdgeSymmetric(I) && ColourInRange(I, k) && AdjacentDiffer(I)
       && (forall e :: e in edges ==> I.edge(I.constant(e.0), I.constant(e.1)))
    {
      forall a | a in system
        ensures Models(I, a)
      {
        var j :| 0 <= j < |system| && system[j] == a;
        if j >= 3 {
          assert edges[j - 3] in edges;
          assert a == Fact(edges[j - 3]);
        }
      }
    }
  }

  /** The range axiom ranges over every integer, so it has a model only when
      k >= 1: with k <= 0 the solver answers unsat. */
  lemma RangeForcesPositive(I: Interp, k: int)
    requires ColourInRange(I, k)
    ensures k >= 1
  {
    assert 0 <= I.colour(0) < k;
  }

  /** Symmetry with the ground fact `edge(u, v)` entails `edge(v, u)`. */
  lemma SymmetryEntailsReverse(I: Interp, k: int, edges: seq<(Node, Node)>)
    requires ModelsAll(I, Axioms(k) + EdgeFacts(edges))
    ensures forall e :: e in edges ==> I.edge(I.constant(e.1), I.constant(e.0))
  {
    SystemMeaning(I, k, edges);
    assert EdgeSymmetric(I);
    forall e | e in edges
      ensures I.edge(I.constant(e.1), I.constant(e.0))
    {
      var x, y := I.constant(e.0), I.constant(e.1);
      assert I.edge(x, y);
      assert I.edge(x, y) ==> I.edge(y, x);
    }
  }

  /** Soundness: in every model the colour of every node lies in [0, k) and
      the two ends of every edge get different colours. */
  lemma QuantifiedSound(I: Interp, k: int, edges: seq<(Node, Node)>)
    requires ModelsAll(I, Axioms(k) + EdgeFacts(edges))
    ensures forall v :: 0 <= ColourOf(I, v) < k
    ensures forall e :: e in edges ==> ColourOf(I, e.0) != ColourOf(I, e.1)
  {
    SystemMeaning(I, k, edges);
    assert ColourInRange(I, k) && AdjacentDiffer(I);
    forall v
      ensures 0 <= ColourOf(I, v) < k
    {
      var x := I.constant(v);
      assert 0 <= I.colour(x) < k;
    }
    forall e | e in edges
      ensures ColourOf(I, e.0) != ColourOf(I, e.1)
    {
      var x, y := I.constant(e.0), I.constant(e.1);
      assert I.edge(x, y);
      assert I.colour(x) != I.colour(y);
    }
  }

  // ---------------------------------------------------------------------------
  // Completeness of the encoding

  /** Position of n in s, or -1. */
  function IndexOf(s: seq<Node>, n: Node): (i: int)
    ensures -1 <= i < |s|
    ensures 0 <= i ==> s[i] == n
    ensures i < 0 <==> n !in s
  {
    if s == [] then -1
    else if s[0] == n then 0
    else var j := IndexOf(s[1..], n); if j < 0 then -1 else j + 1
  }

  /** x and y are the positions of the two ends of e, in either order. */
  ghost predicate WitnessEdge(g: Graph, e: (Node, Node), x: int, y: int) {
    || (x == IndexOf(g.nodes, e.0) && y == IndexOf(g.nodes, e.1))
    || (x == IndexOf(g.nodes, e.1) && y == IndexOf(g.nodes, e.0))
  }

  /** The interpretation built from a colouring: each node's constant is its
      position, `color` reads the colouring at that position, and `edge` is
      the symmetric closure of the edges. */
  ghost function WitnessInterp(g: Graph, col: map<Node, int>): Interp {
    Interp(
      n => IndexOf(g.nodes, n),
      x => if 0 <= x < |g.nodes| && g.nodes[x] in col then col[g.nodes[x]] else 0,
      (x, y) => exists e :: e in g.edges && WitnessEdge(g, e, x, y))
  }

  lemma WitnessRange(g: Graph, k: int, col: map<Node, int>)
    requires IsProperColouring(g, k, col)
    requires k >= 1
    ensures ColourInRange(WitnessInterp(g, col), k)
  {
    var I := WitnessInterp(g, col);
    forall x
      ensures 0 <= I.colour(x) < k
    {
      if 0 <= x < |g.nodes| && g.nodes[x] in col {
        assert g.nodes[x] in g.nodes;
      }
    }
  }

  lemma WitnessAdjacentDiffer(g: Graph, k: int, col: map<Node, int>)
    requires WellFormed(g)
    requires IsProperColouring(g, k, col)
    ensures AdjacentDiffer(WitnessInterp(g, col))
  {
    var I := WitnessInterp(g, col);
    forall x, y | I.edge(x, y)
      ensures I.colour(x) != I.colour(y)
    {
      var e :| e in g.edges && WitnessEdge(g, e, x, y);
      var i0, i1 := IndexOf(g.nodes, e.0), IndexOf(g.nodes, e.1);
      assert I.colour(i0) == col[e.0];
      assert I.colour(i1) == col[e.1];
    }
  }

  lemma WitnessSymmetricFacts(g: Graph, col: map<Node, int>)
    requires WellFormed(g)
    ensures EdgeSymmetric(WitnessInterp(g, col))
    ensures forall e :: e in g.edges ==> WitnessInterp(g, col).edge(IndexOf(g.nodes, e.0), IndexOf(g.nodes, e.1))
  {
    var I := WitnessInterp(g, col);
    forall x, y | I.edge(x, y)
      ensures I.edge(y, x)
    {
      var e :| e in g.edges && WitnessEdge(g, e, x, y);
      assert WitnessEdge(g, e, y, x);
    }
    forall e | e in g.edges
      ensures I.edge(IndexOf(g.nodes, e.0), IndexOf(g.nodes, e.1))
    {
      assert WitnessEdge(g, e, IndexOf(g.nodes, e.0), IndexOf(g.nodes, e.1));
    }
  }

  /** Completeness: every proper colouring with k >= 1 colours gives a model
      of the system, whose colours are those of the colouring. */
  lemma QuantifiedComplete(g: Graph, k: int, col: map<Node, int>)
    requires WellFormed(g)
    requires IsProperColouring(g, k, col)
    requires k >= 1
    ensures ModelsAll(WitnessInterp(g, col), Axioms(k) + EdgeFacts(g.edges))
    ensures forall n :: n in g.nodes ==> ColourOf(WitnessInterp(g, col), n) == col[n]
  {
    WitnessRange(g, k, col);
    WitnessAdjacentDiffer(g, k, col);
    WitnessSymmetricFacts(g, col);
    SystemMeaning(WitnessInterp(g, col), k, g.edges);
  }

  // ---------------------------------------------------------------------------
  // Decoding

  /** One pass of the decoding loop for key v whose colour evaluates to
      `index`: `colors[index]` is evaluated before `G.nodes[v]`, then written
      to `color` and `fillcolor`, and `style` becomes 'filled'. */
  function PaintKey(attrs: map<Node, Attrs>, v: Node, index: int, palette: seq<string>): Result<map<Node, Attrs>, DecodeError> {
    match PyIndex(palette, index)
    case None => Failure(IndexError)
    case Some(hex) =>
      if v !in attrs then Failure(KeyError)
      else Success(attrs[v := attrs[v]["color" := hex]["fillcolor" := hex]["style" := "filled"]])
  }

  /** The decoding loop over the keys of `_vars` in order: the attributes it
      leaves and the exception that stopped it, if any. */
  function PaintKeys(attrs: map<Node, Attrs>, keys: seq<Node>, vars: map<Node, IntConst>, I: Interp, palette: seq<string>): (map<Node, Attrs>, Option<DecodeError>)
    requires forall v :: v in keys ==> v in vars
    decreases |keys|
  {
    if keys == [] then (attrs, None)
    else match PaintKey(attrs, keys[0], I.colour(I.constant(vars[keys[0]].name)), palette)
      case Failure(e) => (attrs, Some(e))
      case Success(next) => PaintKeys(next, keys[1..], vars, I, palette)
  }

  /** Lines 59-64 of `main`: for each key of `_vars`, evaluate the colour of
      its constant in the model and write it into the node's attributes. */
  method Decode(G: DotGraph, vars: map<Node, IntConst>, order: seq<Node>, I: Interp, ghost k: int, palette: seq<string>) returns (err: Option<DecodeError>)
    requires G.Valid()
    requires forall v :: v in order ==> v in vars
    modifies G
    ensures G.Valid()
    ensures (G.nodeAttrs, err) == PaintKeys(old(G.nodeAttrs), order, vars, I, palette)
    ensures && ModelsAll(I, Axioms(k) + EdgeFacts(G.graph.edges))
            && order == Collect([], G.graph.edges) && vars == VarsOf(order) && |palette| == k ==>
      && err == None
      && (forall v :: IsEndpoint(G.graph.edges, v) ==>
            var c := ColourOf(I, v);
            && 0 <= c < |palette| && v in old(G.nodeAttrs) && v in G.nodeAttrs
            && G.nodeAttrs[v] == old(G.nodeAttrs)[v]["color" := palette[c]]["fillcolor" := palette[c]]["style" := "filled"])
      && (forall v :: v in old(G.nodeAttrs) && !IsEndpoint(G.graph.edges, v) ==>
            v in G.nodeAttrs && G.nodeAttrs[v] == old(G.nodeAttrs)[v])
  {
    if && ModelsAll(I, Axioms(k) + EdgeFacts(G.graph.edges))
       && order == Collect([], G.graph.edges) && vars == VarsOf(order) && |palette| == k
    {
      DecodeModel(G.graph, k, I, palette, G.nodeAttrs);
    }
    err := PaintOrder(G, vars, order, I, palette);
  }

  /** The `for` loop of the decoding block, over the keys in `order`. */
  method PaintOrder(G: DotGraph, vars: map<Node, IntConst>, order: seq<Node>, I: Interp, palette: seq<string>) returns (err: Option<DecodeError>)
    requires G.Valid()
    requires forall v :: v in order ==> v in vars
    modifies G
    ensures G.Valid()
    ensures (G.nodeAttrs, err) == PaintKeys(old(G.nodeAttrs), order, vars, I, palette)
  {
    var i := 0;
    while i < |order|
      invariant 0 <= i <= |order|
      invariant PaintKeys(G.nodeAttrs, order[i..], vars, I, palette) == PaintKeys(old(G.nodeAttrs), order, vars, I, palette)
      invariant G.Valid()
    {
      var key := order[i];
      assert order[i..][0] == key && order[i..][1..] == order[i + 1..];
      var kColour := I.colour(I.constant(vars[key].name));
      err := PaintOne(G, key, kColour, palette);
      if err.Some? {
        return;
      }
      i := i + 1;
    }
    return None;
  }

  /** The body of the decoding loop for key `v` of colour `index`: the three
      attribute writes, or the exception that stops the loop. */
  method PaintOne(G: DotGraph, v: Node, index: int, palette: seq<string>) returns (err: Option<DecodeError>)
    requires G.Valid()
    modifies G
    ensures G.Valid()
    ensures match PaintKey(old(G.nodeAttrs), v, index, palette)
      case Failure(e) => err == Some(e) && G.nodeAttrs == old(G.nodeAttrs)
      case Success(next) => err == None && G.nodeAttrs == next
  {
    var before := G.nodeAttrs;
    var hex := PyIndex(palette, index);
    if hex.None? {
      return Some(IndexError);
    }
    var ok := G.SetNodeAttr(v, "color", hex.value);
    if !ok {
      return Some(KeyError);
    }
    var a1 := before[v]["color" := hex.value];
    assert G.nodeAttrs == before[v := a1];
    ok := G.SetNodeAttr(v, "fillcolor", hex.value);
    var a2 := a1["fillcolor" := hex.value];
    assert G.nodeAttrs == before[v := a2];
    ok := G.SetNodeAttr(v, "style", "filled");
    assert G.nodeAttrs == before[v := a2["style" := "filled"]];
    return None;
  }

  /** Decoding writes only the nodes listed in `keys`: every other node keeps
      its attributes, and no node is added or removed. */
  lemma {:induction false} PaintKeysOnlyKeys(attrs: map<Node, Attrs>, keys: seq<Node>, vars: map<Node, IntConst>, I: Interp, palette: seq<string>)
    requires forall v :: v in keys ==> v in vars
    ensures var r := PaintKeys(attrs, keys, vars, I, palette);
      && r.0.Keys == attrs.Keys
      && (forall v :: v in attrs && v !in keys ==> r.0[v] == attrs[v])
    decreases |keys|
  {
    if keys != [] {
      match PaintKey(attrs, keys[0], I.colour(I.constant(vars[keys[0]].name)), palette)
      case Failure(_) =>
      case Success(next) =>
        PaintKeysOnlyKeys(next, keys[1..], vars, I, palette);
    }
  }

  /** Whenever decoding finishes, every key's `color` and `fillcolor` are the
      same palette entry and its `style` is 'filled'. */
  lemma {:induction false} PaintKeysSameEntry(attrs: map<Node, Attrs>, keys: seq<Node>, vars: map<Node, IntConst>, I: Interp, palette: seq<string>)
    requires forall v :: v in keys ==> v in vars
    ensures var r := PaintKeys(attrs, keys, vars, I, palette);
      r.1 == None ==>
        forall v :: v in keys ==>
          && v in r.0 && "color" in r.0[v] && "fillcolor" in r.0[v] && "style" in r.0[v]
          && r.0[v]["color"] == r.0[v]["fillcolor"] && r.0[v]["style"] == "filled"
    decreases |keys|
  {
    if keys != [] {
      match PaintKey(attrs, keys[0], I.colour(I.constant(vars[keys[0]].name)), palette)
      case Failure(_) =>
      case Success(next) =>
        PaintKeysSameEntry(next, keys[1..], vars, I, palette);
        PaintKeysOnlyKeys(next, keys[1..], vars, I, palette);
    }
  }

  /** Under the range axiom and a k-entry palette, decoding distinct keys
      whose constants are `Int(v)` raises nothing and gives each key the
      palette entry of its colour. */
  lemma {:induction false} PaintKeysInRange(attrs: map<Node, Attrs>, keys: seq<Node>, vars: map<Node, IntConst>, I: Interp, k: int, palette: seq<string>)
    requires Distinct(keys)
    requires forall v :: v in keys ==> v in vars && vars[v] == IntConst(v) && v in attrs
    requires ColourInRange(I, k)
    requires |palette| == k
    ensures var r := PaintKeys(attrs, keys, vars, I, palette);
      && r.1 == None
      && (forall v :: v in keys ==>
            var c := ColourOf(I, v);
            0 <= c < |palette| && v in r.0 &&
            r.0[v] == attrs[v]["color" := palette[c]]["fillcolor" := palette[c]]["style" := "filled"])
    decreases |keys|
  {
    if keys != [] {
      var v0 := keys[0];
      var c := ColourOf(I, v0);
      var x := I.constant(v0);
      assert 0 <= I.colour(x) < k;
      var next := attrs[v0 := attrs[v0]["color" := palette[c]]["fillcolor" := palette[c]]["style" := "filled"]];
      assert PaintKey(attrs, v0, I.colour(I.constant(vars[v0].name)), palette) == Success(next);
      forall v | v in keys[1..]
        ensures v in keys && v != v0
      {
        var j :| 0 <= j < |keys[1..]| && keys[1..][j] == v;
        assert keys[j + 1] == v;
      }
      PaintKeysInRange(next, keys[1..], vars, I, k, palette);
      PaintKeysOnlyKeys(next, keys[1..], vars, I, palette);
    }
  }

  /** `_vars` as the edge loop leaves it. */
  function VarsOf(order: seq<Node>): (vars: map<Node, IntConst>)
    ensures forall v :: v in vars <==> v in order
  {
    map v | v in order :: IntConst(v)
  }

  /** Decoding a model of the system built from a well-formed graph, with a
      k-entry palette: nothing is raised; every endpoint of an edge gets
      `color` and `fillcolor` from the palette entry of its colour and style
      'filled', the ends of each edge get entries at different indices; and a
      node on no edge is left exactly as it was. */
  lemma DecodeModel(g: Graph, k: int, I: Interp, palette: seq<string>, attrs: map<Node, Attrs>)
    requires WellFormed(g)
    requires ModelsAll(I, Axioms(k) + EdgeFacts(g.edges))
    requires |palette| == k
    requires forall n :: n in g.nodes ==> n in attrs
    ensures var order := Collect([], g.edges);
      var r := PaintKeys(attrs, order, VarsOf(order), I, palette);
      && r.1 == None
      && r.0.Keys == attrs.Keys
      && (forall v :: IsEndpoint(g.edges, v) ==>
            var c := ColourOf(I, v);
            0 <= c < |palette| && v in r.0 &&
            r.0[v] == attrs[v]["color" := palette[c]]["fillcolor" := palette[c]]["style" := "filled"])
      && (forall e :: e in g.edges ==> ColourOf(I, e.0) != ColourOf(I, e.1))
      && (forall v :: v in attrs && !IsEndpoint(g.edges, v) ==> r.0[v] == attrs[v])
  {
    var order := Collect([], g.edges);
    var vars := VarsOf(order);
    CollectEndpoints([], g.edges);
    SystemMeaning(I, k, g.edges);
    QuantifiedSound(I, k, g.edges);
    forall v | v in order
      ensures v in attrs
    {
      var e :| e in g.edges && (v == e.0 || v == e.1);
    }
    PaintKeysInRange(attrs, order, vars, I, k, palette);
    PaintKeysOnlyKeys(attrs, order, vars, I, palette);
  }

  /** `main` without the solver call: build `_vars` and the assertions, then
      decode the model `I` the solver is taken to return for them. */
  method ColourGraph(G: DotGraph, k: int, I: Interp, palette: seq<string>) returns (system: seq<Assertion>, err: Option<DecodeError>)
    requires G.Valid()
    modifies G
    ensures G.Valid()
    ensures system == Axioms(k) + EdgeFacts(G.graph.edges)
    ensures var order := Collect([], G.graph.edges);
      (G.nodeAttrs, err) == PaintKeys(old(G.nodeAttrs), order, VarsOf(order), I, palette)
    ensures ModelsAll(I, system) && |palette| == k ==>
      && err == None
      && (forall v :: IsEndpoint(G.graph.edges, v) ==>
            var c := ColourOf(I, v);
            && 0 <= c < |palette| && v in old(G.nodeAttrs) && v in G.nodeAttrs
            && G.nodeAttrs[v] == old(G.nodeAttrs)[v]["color" := palette[c]]["fillcolor" := palette[c]]["style" := "filled"])
      && (forall v :: v in old(G.nodeAttrs) && !IsEndpoint(G.graph.edges, v) ==>
            v in G.nodeAttrs && G.nodeAttrs[v] == old(G.nodeAttrs)[v])
  {
    var vars, order;
    vars, order, system := Build(G.graph, k);
    assert vars == VarsOf(order);
    err := Decode(G, vars, order, I, k, palette);
  }
}
