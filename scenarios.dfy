/** Small graphs on which the one-hot encoding is satisfiable or not, and
    what decoding then gives. */
module Scenarios {
  import opened Wrappers
  import opened Text
  import opened Graphs
  import opened OneHot

  function Triangle(): Graph {
    Graph(["a", "b", "c"], [("a", "b"), ("b", "c"), ("a", "c")])
  }

  function Path(): Graph {
    Graph(["a", "b", "c", "d"], [("a", "b"), ("b", "c"), ("c", "d")])
  }

  function Single(): Graph {
    Graph(["a"], [])
  }

  function K4(): Graph {
    Graph(["a", "b", "c", "d"], [("a", "b"), ("a", "c"), ("a", "d"), ("b", "c"), ("b", "d"), ("c", "d")])
  }

  /** Three mutually adjacent nodes cannot share two colours. */
  lemma TriangleHasNoTwoColouring(col: map<Node, int>)
    ensures !IsProperColouring(Triangle(), 2, col)
  {
    var g := Triangle();
    assert ("a", "b") in g.edges && ("b", "c") in g.edges && ("a", "c") in g.edges;
  }

  /** The triangle with k = 2: no valuation satisfies the clauses. */
  lemma TriangleTwoUnsat(val: string -> bool)
    ensures !AllHold(Encode(Triangle(), 2), val)
  {
    if AllHold(Encode(Triangle(), 2), val) {
      OneHotSound(Triangle(), 2, val);
      TriangleHasNoTwoColouring(ColouringOf(Triangle(), 2, val));
    }
  }

  /** The triangle with k = 3: satisfiable, and every model gives the three
      nodes three different colours among 0, 1 and 2. */
  lemma TriangleThreeSat(val: string -> bool)
    ensures AllHold(Encode(Triangle(), 3), ValuationOf(map["a" := 0, "b" := 1, "c" := 2]))
    ensures AllHold(Encode(Triangle(), 3), val) ==>
      var col := ColouringOf(Triangle(), 3, val);
      && (forall n :: n in Triangle().nodes ==> 0 <= col[n] < 3)
      && col["a"] != col["b"] && col["b"] != col["c"] && col["a"] != col["c"]
  {
    var g := Triangle();
    assert ("a", "b") in g.edges && ("b", "c") in g.edges && ("a", "c") in g.edges;
    OneHotComplete(g, 3, map["a" := 0, "b" := 1, "c" := 2]);
    if AllHold(Encode(g, 3), val) {
      OneHotSound(g, 3, val);
    }
  }

  /** The path a-b-c-d with k = 2 is satisfiable. */
  lemma PathTwoSat()
    ensures AllHold(Encode(Path(), 2), ValuationOf(map["a" := 0, "b" := 1, "c" := 0, "d" := 1]))
  {
    var g := Path();
    var col := map["a" := 0, "b" := 1, "c" := 0, "d" := 1];
    assert forall e :: e in g.edges ==> e in [("a", "b"), ("b", "c"), ("c", "d")];
    assert IsProperColouring(g, 2, col);
    OneHotComplete(g, 2, col);
  }

  /** Every model of the path with k = 2 alternates the two colours. */
  lemma PathTwoAlternates(val: string -> bool)
    ensures AllHold(Encode(Path(), 2), val) ==>
      var col := ColouringOf(Path(), 2, val);
      && col["a"] == col["c"] && col["b"] == col["d"] && col["a"] != col["b"]
  {
    var g := Path();
    assert ("a", "b") in g.edges && ("b", "c") in g.edges && ("c", "d") in g.edges;
    if AllHold(Encode(g, 2), val) {
      OneHotSound(g, 2, val);
    }
  }

  /** A single node without edges and k = 1: satisfiable, and the node gets
      colour 0. */
  lemma SingleOneSat(val: string -> bool)
    ensures AllHold(Encode(Single(), 1), ValuationOf(map["a" := 0]))
    ensures AllHold(Encode(Single(), 1), val) ==> ColouringOf(Single(), 1, val)["a"] == 0
  {
    OneHotComplete(Single(), 1, map["a" := 0]);
    if AllHold(Encode(Single(), 1), val) {
      OneHotSound(Single(), 1, val);
    }
  }

  /** Four mutually adjacent nodes cannot share three colours. */
  lemma K4HasNoThreeColouring(col: map<Node, int>)
    ensures !IsProperColouring(K4(), 3, col)
  {
    var g := K4();
    assert ("a", "b") in g.edges && ("a", "c") in g.edges && ("a", "d") in g.edges;
    assert ("b", "c") in g.edges && ("b", "d") in g.edges && ("c", "d") in g.edges;
  }

  /** The complete graph on four nodes with k = 3: no valuation satisfies
      the clauses. */
  lemma K4ThreeUnsat(val: string -> bool)
    ensures !AllHold(Encode(K4(), 3), val)
  {
    if AllHold(Encode(K4(), 3), val) {
      OneHotSound(K4(), 3, val);
      K4HasNoThreeColouring(ColouringOf(K4(), 3, val));
    }
  }

  /** The complete graph on four nodes with k = 4: satisfiable, and every
      model gives the four nodes four different colours among 0 to 3. */
  lemma K4FourSat(val: string -> bool)
    ensures AllHold(Encode(K4(), 4), ValuationOf(map["a" := 0, "b" := 1, "c" := 2, "d" := 3]))
    ensures AllHold(Encode(K4(), 4), val) ==>
      var col := ColouringOf(K4(), 4, val);
      && (forall n :: n in K4().nodes ==> 0 <= col[n] < 4)
      && col["a"] != col["b"] && col["a"] != col["c"] && col["a"] != col["d"]
      && col["b"] != col["c"] && col["b"] != col["d"] && col["c"] != col["d"]
  {
    var g := K4();
    var col := map["a" := 0, "b" := 1, "c" := 2, "d" := 3];
    assert forall e :: e in g.edges ==> e.0 in col && e.1 in col && col[e.0] != col[e.1];
    OneHotComplete(g, 4, col);
    assert ("a", "b") in g.edges && ("a", "c") in g.edges && ("a", "d") in g.edges;
    assert ("b", "c") in g.edges && ("b", "d") in g.edges && ("c", "d") in g.edges;
    if AllHold(Encode(g, 4), val) {
      OneHotSound(g, 4, val);
    }
  }

  /** Nodes `a` and `a_1`, no edge, k = 2, both nodes on colour 0: the
      clauses hold and the true variables are `a_0` and `a_1_0`. */
  lemma UnderscoreNamesTrueVars()
    ensures var g := Graph(["a", "a_1"], []);
      var val := ValuationOf(map["a" := 0, "a_1" := 0]);
      && AllHold(Encode(g, 2), val)
      && TrueVars(GenVars(g.nodes, 2), val) == ["a_0", "a_1_0"]
  {
    var g := Graph(["a", "a_1"], []);
    var col := map["a" := 0, "a_1" := 0];
    var val := ValuationOf(col);
    OneHotComplete(g, 2, col);
    TrueVarsOnePerVertex(g, 2, val);
    UnderscoreNamesChosen(ColouringOf(g, 2, val));
  }

  lemma UnderscoreNamesChosen(cv: map<Node, int>)
    requires "a" in cv && "a_1" in cv && cv["a"] == 0 && cv["a_1"] == 0
    ensures ChosenVars(["a", "a_1"], cv) == ["a_0", "a_1_0"]
  {
    assert Decimal(0) == "0";
    var chosen := ChosenVars(["a", "a_1"], cv);
    assert chosen[0] == "a_0" && chosen[1] == "a_1_0";
  }

  /** `a_0` and `a_1_0` split into `["a", "0"]` and `["a", "1", "0"]`, so the
      decoding loop paints `a` twice, last with palette entry 1, and never
      paints `a_1`. */
  lemma UnderscoreNameRepaints(attrs: map<Node, Attrs>, palette: seq<string>)
    requires "a" in attrs && "a_1" in attrs && attrs["a"] == map[]
    requires |palette| == 2
    ensures var r := PaintVars(attrs, ["a_0", "a_1_0"], palette);
      && r.1 == None
      && "a" in r.0 && r.0["a"] == map["fillcolor" := palette[1], "style" := "filled"]
      && "a_1" in r.0 && r.0["a_1"] == attrs["a_1"]
  {
    var m1 := attrs["a" := map["fillcolor" := palette[0], "style" := "filled"]];
    var m2 := m1["a" := map["fillcolor" := palette[1], "style" := "filled"]];
    PaintFirstName(attrs, palette);
    PaintSecondName(m1, palette);
    PaintTwoNames(attrs, "a_0", "a_1_0", palette, m1, m2);
  }

  lemma PaintTwoNames(attrs: map<Node, Attrs>, n0: string, n1: string, palette: seq<string>, m1: map<Node, Attrs>, m2: map<Node, Attrs>)
    requires PaintVar(attrs, n0, palette) == Success(m1)
    requires PaintVar(m1, n1, palette) == Success(m2)
    ensures PaintVars(attrs, [n0, n1], palette) == (m2, None)
  {
    assert [n0, n1][1..] == [n1];
    assert [n1][1..] == [];
    assert PaintVars(attrs, [n0, n1], palette) == PaintVars(m1, [n1], palette);
    assert PaintVars(m1, [n1], palette) == PaintVars(m2, [], palette);
  }

  lemma PaintFirstName(attrs: map<Node, Attrs>, palette: seq<string>)
    requires "a" in attrs && attrs["a"] == map[]
    requires |palette| == 2
    ensures PaintVar(attrs, "a_0", palette) == Success(attrs["a" := map["fillcolor" := palette[0], "style" := "filled"]])
  {
    SplitFirst("a", '_', "0");
    SplitNoSeparator("0", '_');
    assert "a_0" == "a" + ['_'] + "0";
    assert ParseInt("0") == Some(0);
  }

  lemma PaintSecondName(attrs: map<Node, Attrs>, palette: seq<string>)
    requires |palette| == 2
    requires "a" in attrs && attrs["a"] == map["fillcolor" := palette[0], "style" := "filled"]
    ensures PaintVar(attrs, "a_1_0", palette) == Success(attrs["a" := map["fillcolor" := palette[1], "style" := "filled"]])
  {
    assert attrs["a"]["fillcolor" := palette[1]]["style" := "filled"] == map["fillcolor" := palette[1], "style" := "filled"];
    SplitFirst("a", '_', "1_0");
    SplitFirst("1", '_', "0");
    SplitNoSeparator("0", '_');
    assert "a_1_0" == "a" + ['_'] + "1_0";
    assert "1_0" == "1" + ['_'] + "0";
    assert ParseInt("1") == Some(1);
  }
}
