/** The one-hot Boolean encoding of k-colouring (k-coloring.py): an indicator
    variable per (node, colour index), three clause families over them, and the
    decoding of a satisfying valuation into node attributes. A z3 Bool variable
    is identified by its name, so variables are modelled as their names and a
    solver model as a valuation of names. */
module OneHot {
  import opened Wrappers
  import opened Text
  import opened Graphs

  // ---------------------------------------------------------------------------
  // Variables

  /** The name `f'{n}_{c}'` of the indicator "node n has colour c". */
  function VarName(n: Node, c: nat): string {
    n + "_" + Decimal(c)
  }

  /** Reads a variable name back: the colour index follows the last '_'. */
  function ParseVarName(s: string): Option<(Node, nat)> {
    var i := LastIndex(s, '_');
    if i < 0 then None
    else match ParseInt(s[i + 1..])
      case None => None
      case Some(c) => Some((s[..i], c))
  }

  lemma DecimalHasNoUnderscore(c: nat)
    ensures '_' !in Decimal(c)
  {
    var d := Decimal(c);
    assert forall i :: 0 <= i < |d| ==> IsDigit(d[i]);
  }

  /** Every variable name reads back as the node and colour it was made from,
      whatever characters the node name holds. */
  lemma VarNameRoundTrip(n: Node, c: nat)
    ensures ParseVarName(VarName(n, c)) == Some((n, c))
  {
    var s := VarName(n, c);
    DecimalHasNoUnderscore(c);
    LastIndexAt(n, '_', Decimal(c));
    assert s[|n| + 1..] == Decimal(c);
    assert s[..|n|] == n;
    ParseIntDecimal(c);
  }

  /** Distinct (node, colour) pairs give distinct z3 variables. */
  lemma VarNameInjective(n1: Node, c1: nat, n2: Node, c2: nat)
    ensures VarName(n1, c1) == VarName(n2, c2) <==> n1 == n2 && c1 == c2
  {
    VarNameRoundTrip(n1, c1);
    VarNameRoundTrip(n2, c2);
  }

  /** `len(range(k))`. */
  function NumColours(k: int): nat {
    if k < 0 then 0 else k
  }

  /** The first `count` indicators of node n, in colour order. */
  function Indicators(n: Node, count: nat): seq<string> {
    seq(count, c requires 0 <= c < count => VarName(n, c))
  }

  /** A Python dict from node to its list of indicators, as its items in
      insertion order. */
  type VarTable = seq<(Node, seq<string>)>

  /** `_gen_vars(G, k)`. */
  function GenVars(nodes: seq<Node>, k: int): (dic: VarTable)
    ensures Keys(dic) == nodes
  {
    seq(|nodes|, i requires 0 <= i < |nodes| => (nodes[i], Indicators(nodes[i], NumColours(k))))
  }

  /** `_gen_vars` keys the nodes in order, gives each a list of exactly k
      variables whose c-th reads back as (node, c), and no variable occurs
      twice in the table. */
  lemma GenVarsShape(nodes: seq<Node>, k: int)
    requires Distinct(nodes)
    ensures var dic := GenVars(nodes, k);
      && |dic| == |nodes|
      && (forall i :: 0 <= i < |dic| ==> dic[i].0 == nodes[i] && |dic[i].1| == NumColours(k))
      && (forall i, c :: 0 <= i < |dic| && 0 <= c < |dic[i].1| ==> ParseVarName(dic[i].1[c]) == Some((nodes[i], c)))
      && (forall i, c, j, d ::
            0 <= i < |dic| && 0 <= c < |dic[i].1| && 0 <= j < |dic| && 0 <= d < |dic[j].1| && dic[i].1[c] == dic[j].1[d]
            ==> i == j && c == d)
  {
    var dic := GenVars(nodes, k);
    forall i, c | 0 <= i < |dic| && 0 <= c < |dic[i].1|
      ensures ParseVarName(dic[i].1[c]) == Some((nodes[i], c))
    {
      VarNameRoundTrip(nodes[i], c);
    }
  }

  // ---------------------------------------------------------------------------
  // Clauses

  /** `Or(xs)` and `Not(And(a, b))` over variable names. */
  datatype Formula = Or(disjuncts: seq<string>) | NotAnd(left: string, right: string)

  predicate Holds(f: Formula, val: string -> bool) {
    match f
    case Or(ds) => exists i :: 0 <= i < |ds| && val(ds[i])
    case NotAnd(a, b) => !(val(a) && val(b))
  }

  predicate AllHold(fs: seq<Formula>, val: string -> bool) {
    forall f :: f in fs ==> Holds(f, val)
  }

  /** `_each_v_has_c`: one disjunction of its indicators per node. */
  function EachVertexHasColour(dic: VarTable): seq<Formula> {
    seq(|dic|, i requires 0 <= i < |dic| => Or(dic[i].1))
  }

  /** `[Not(And(a, b)) for a, b in combinations(row, 2)]`, in the order of
      itertools.combinations. */
  function PairwiseExclusions(row: seq<string>): seq<Formula>
    decreases |row|
  {
    if row == [] then [] else Exclusions(row[0], row[1..]) + PairwiseExclusions(row[1..])
  }

  /** `Not(And(x, y))` for each y of `ys`, in order. */
  function Exclusions(x: string, ys: seq<string>): seq<Formula> {
    seq(|ys|, j requires 0 <= j < |ys| => NotAnd(x, ys[j]))
  }

  /** `_each_v_only_one_c`. */
  function EachVertexOnlyOneColour(dic: VarTable): seq<Formula> {
    if dic == [] then [] else PairwiseExclusions(dic[0].1) + EachVertexOnlyOneColour(dic[1..])
  }

  /** `list(dic.keys())`. */
  function Keys(dic: VarTable): seq<Node> {
    seq(|dic|, i requires 0 <= i < |dic| => dic[i].0)
  }

  /** `dic[n]`. */
  function Lookup(dic: VarTable, n: Node): seq<string>
    requires n in Keys(dic)
  {
    if dic[0].0 == n then dic[0].1
    else
      assert Keys(dic) == [dic[0].0] + Keys(dic[1..]);
      Lookup(dic[1..], n)
  }

  /** `[Not(And(x, y)) for x, y in zip(a, b)]`. */
  function ZipExclusions(a: seq<string>, b: seq<string>): seq<Formula> {
    var len := if |a| < |b| then |a| else |b|;
    seq(len, i requires 0 <= i < len => NotAnd(a[i], b[i]))
  }

  /** `_adj_not_same_c(G, dic)`. */
  function AdjacentNotSameColour(edges: seq<(Node, Node)>, dic: VarTable): seq<Formula>
    requires forall e :: e in edges ==> e.0 in Keys(dic) && e.1 in Keys(dic)
  {
    if edges == [] then []
    else ZipExclusions(Lookup(dic, edges[0].0), Lookup(dic, edges[0].1)) + AdjacentNotSameColour(edges[1..], dic)
  }

  lemma {:induction false} LookupGenVars(nodes: seq<Node>, k: int, n: Node)
    requires n in nodes
    ensures Lookup(GenVars(nodes, k), n) == Indicators(n, NumColours(k))
  {
    var dic := GenVars(nodes, k);
    assert dic[0].0 == nodes[0];
    if nodes[0] != n {
      assert GenVars(nodes, k)[1..] == GenVars(nodes[1..], k);
      LookupGenVars(nodes[1..], k, n);
    }
  }

  /** `f1 + f2 + f3`, the clauses handed to the solver in `main`, once every
      `Or` has been built (see BuildClauses). */
  function Encode(g: Graph, k: int): seq<Formula>
    requires WellFormed(g)
  {
    var dic := GenVars(g.nodes, k);
    EachVertexHasColour(dic) + EachVertexOnlyOneColour(dic) + AdjacentNotSameColour(g.edges, dic)
  }

  /** The exception z3 raises while the clauses are built: `Or` of an empty
      list has no argument to take its context from. */
  datatype EncodeError = EmptyOr

  /** Lines 38-44 of `main`: `_each_v_has_c` applies z3's `Or` to each node's
      list of indicators and raises on an empty list, so the clauses exist
      exactly when the graph has no node or `range(k)` is non-empty. */
  function BuildClauses(g: Graph, k: int): (r: Result<seq<Formula>, EncodeError>)
    requires WellFormed(g)
    ensures r.Failure? <==> g.nodes != [] && k <= 0
    ensures r.Success? ==> r.value == Encode(g, k)
  {
    var dic := GenVars(g.nodes, k);
    if exists i :: 0 <= i < |dic| && dic[i].1 == [] then Failure(EmptyOr)
    else Success(Encode(g, k))
  }

  // ---------------------------------------------------------------------------
  // What the clauses say

  /** Every node has at least one true indicator. */
  predicate SomeColour(nodes: seq<Node>, k: int, val: string -> bool) {
    forall n :: n in nodes ==> exists c :: 0 <= c < NumColours(k) && val(VarName(n, c))
  }

  /** No node has two true indicators. */
  predicate AtMostOneColour(nodes: seq<Node>, k: int, val: string -> bool) {
    forall n, c1, c2 :: n in nodes && 0 <= c1 < c2 < NumColours(k) ==> !(val(VarName(n, c1)) && val(VarName(n, c2)))
  }

  /** The two ends of an edge never have the same indicator true. */
  predicate EndpointsDiffer(edges: seq<(Node, Node)>, k: int, val: string -> bool) {
    forall e, c :: e in edges && 0 <= c < NumColours(k) ==> !(val(VarName(e.0, c)) && val(VarName(e.1, c)))
  }

  lemma GenVarsCons(nodes: seq<Node>, k: int)
    requires nodes != []
    ensures GenVars(nodes, k)[0] == (nodes[0], Indicators(nodes[0], NumColours(k)))
    ensures GenVars(nodes, k)[1..] == GenVars(nodes[1..], k)
  {
  }

  /** Coverage emits one clause per node, and the clauses hold exactly when
      every node has some true indicator. */
  lemma CoverageClauses(nodes: seq<Node>, k: int, val: string -> bool)
    ensures |EachVertexHasColour(GenVars(nodes, k))| == |nodes|
    ensures forall i :: 0 <= i < |nodes| ==> EachVertexHasColour(GenVars(nodes, k))[i] == Or(Indicators(nodes[i], NumColours(k)))
    ensures AllHold(EachVertexHasColour(GenVars(nodes, k)), val) <==> SomeColour(nodes, k, val)
  {
    var f1 := EachVertexHasColour(GenVars(nodes, k));
    var count := NumColours(k);
    if AllHold(f1, val) {
      forall n | n in nodes
        ensures exists c :: 0 <= c < count && val(VarName(n, c))
      {
        var i :| 0 <= i < |nodes| && nodes[i] == n;
        assert Holds(f1[i], val);
        var c :| 0 <= c < count && val(Indicators(n, count)[c]);
        assert val(VarName(n, c));
      }
    }
    if SomeColour(nodes, k, val) {
      forall f | f in f1
        ensures Holds(f, val)
      {
        var i :| 0 <= i < |f1| && f1[i] == f;
        var n := nodes[i];
        assert n in nodes;
        var c :| 0 <= c < count && val(VarName(n, c));
        assert Indicators(n, count)[c] == VarName(n, c);
      }
    }
  }

  /** m(m-1)/2, the number of 2-element combinations of m items. */
  function Choose2(m: nat): (r: nat)
    ensures 2 * r == m * (m - 1)
  {
    if m == 0 then 0 else m - 1 + Choose2(m - 1)
  }

  lemma MulPred(a: int, p: int)
    ensures a * p == (a - 1) * p + p
  {
  }

  /** `combinations(row, 2)` yields |row|(|row|-1)/2 pairs. */
  lemma {:induction false} PairwiseExclusionsCount(row: seq<string>)
    ensures |PairwiseExclusions(row)| == Choose2(|row|)
    decreases |row|
  {
    if row != [] {
      PairwiseExclusionsCount(row[1..]);
    }
  }

  /** `combinations(row, 2)` yields exactly the pairs of positions i < j. */
  lemma {:induction false} PairwiseExclusionsMembers(row: seq<string>)
    ensures forall f :: f in PairwiseExclusions(row) ==> exists i, j :: 0 <= i < j < |row| && f == NotAnd(row[i], row[j])
    ensures forall i, j :: 0 <= i < j < |row| ==> NotAnd(row[i], row[j]) in PairwiseExclusions(row)
    decreases |row|
  {
    if row != [] {
      var tail := row[1..];
      var head := Exclusions(row[0], tail);
      PairwiseExclusionsMembers(tail);
      assert PairwiseExclusions(row) == head + PairwiseExclusions(tail);
      forall f | f in PairwiseExclusions(row)
        ensures exists i, j :: 0 <= i < j < |row| && f == NotAnd(row[i], row[j])
      {
        if f in head {
          var j :| 0 <= j < |tail| && head[j] == f;
          assert f == NotAnd(row[0], row[j + 1]);
        } else {
          var i, j :| 0 <= i < j < |tail| && f == NotAnd(tail[i], tail[j]);
          assert f == NotAnd(row[i + 1], row[j + 1]);
        }
      }
      forall i, j | 0 <= i < j < |row|
        ensures NotAnd(row[i], row[j]) in PairwiseExclusions(row)
      {
        if i == 0 {
          assert head[j - 1] == NotAnd(row[i], row[j]);
        } else {
          assert NotAnd(tail[i - 1], tail[j - 1]) in PairwiseExclusions(tail);
        }
      }
    }
  }

  /** Uniqueness emits k(k-1)/2 clauses per node, each excluding two different
      colours of one node, and every such pair is excluded. */
  lemma {:induction false} OnlyOneColourClauses(nodes: seq<Node>, k: int)
    ensures |EachVertexOnlyOneColour(GenVars(nodes, k))| == |nodes| * Choose2(NumColours(k))
    ensures forall f :: f in EachVertexOnlyOneColour(GenVars(nodes, k)) ==>
      exists n, c1, c2 :: n in nodes && 0 <= c1 < c2 < NumColours(k) && f == NotAnd(VarName(n, c1), VarName(n, c2))
    ensures forall n, c1, c2 :: n in nodes && 0 <= c1 < c2 < NumColours(k) ==>
      NotAnd(VarName(n, c1), VarName(n, c2)) in EachVertexOnlyOneColour(GenVars(nodes, k))
    decreases |nodes|
  {
    var count := NumColours(k);
    if nodes == [] {
      assert |nodes| * Choose2(count) == 0;
    } else {
      var dic := GenVars(nodes, k);
      var n0 := nodes[0];
      var row := Indicators(n0, count);
      GenVarsCons(nodes, k);
      OnlyOneColourClauses(nodes[1..], k);
      PairwiseExclusionsCount(row);
      PairwiseExclusionsMembers(row);
      var f2 := EachVertexOnlyOneColour(dic);
      assert f2 == PairwiseExclusions(row) + EachVertexOnlyOneColour(GenVars(nodes[1..], k));
      MulPred(|nodes|, Choose2(count));
      forall f | f in f2
        ensures exists n, c1, c2 :: n in nodes && 0 <= c1 < c2 < count && f == NotAnd(VarName(n, c1), VarName(n, c2))
      {
        if f in PairwiseExclusions(row) {
          var i, j :| 0 <= i < j < |row| && f == NotAnd(row[i], row[j]);
          assert f == NotAnd(VarName(n0, i), VarName(n0, j));
        } else {
          var n, c1, c2 :| n in nodes[1..] && 0 <= c1 < c2 < count && f == NotAnd(VarName(n, c1), VarName(n, c2));
          assert n in nodes;
        }
      }
      forall n, c1, c2 | n in nodes && 0 <= c1 < c2 < count
        ensures NotAnd(VarName(n, c1), VarName(n, c2)) in f2
      {
        if n == n0 {
          assert NotAnd(row[c1], row[c2]) in PairwiseExclusions(row);
        } else {
          assert n in nodes[1..];
        }
      }
    }
  }

  /** Adjacency emits k clauses per edge. */
  lemma {:induction false} AdjacencyCount(nodes: seq<Node>, edges: seq<(Node, Node)>, k: int)
    requires EndpointsIn(edges, nodes)
    ensures |AdjacentNotSameColour(edges, GenVars(nodes, k))| == |edges| * NumColours(k)
    decreases |edges|
  {
    var count := NumColours(k);
    if edges == [] {
      assert |edges| * count == 0;
    } else {
      LookupGenVars(nodes, k, edges[0].0);
      LookupGenVars(nodes, k, edges[0].1);
      assert EndpointsIn(edges[1..], nodes);
      AdjacencyCount(nodes, edges[1..], k);
      MulPred(|edges|, count);
    }
  }

  /** Each adjacency clause excludes the same colour index at both ends of an
      edge, and every such pair is excluded. */
  lemma {:induction false} AdjacencyClauses(nodes: seq<Node>, edges: seq<(Node, Node)>, k: int)
    requires EndpointsIn(edges, nodes)
    ensures forall f :: f in AdjacentNotSameColour(edges, GenVars(nodes, k)) ==>
      exists e, c :: e in edges && 0 <= c < NumColours(k) && f == NotAnd(VarName(e.0, c), VarName(e.1, c))
    ensures forall e, c :: e in edges && 0 <= c < NumColours(k) ==>
      NotAnd(VarName(e.0, c), VarName(e.1, c)) in AdjacentNotSameColour(edges, GenVars(nodes, k))
    decreases |edges|
  {
    var count := NumColours(k);
    if edges != [] {
      var dic := GenVars(nodes, k);
      var e0 := edges[0];
      LookupGenVars(nodes, k, e0.0);
      LookupGenVars(nodes, k, e0.1);
      assert EndpointsIn(edges[1..], nodes);
      AdjacencyClauses(nodes, edges[1..], k);
      var head := ZipExclusions(Indicators(e0.0, count), Indicators(e0.1, count));
      var f3 := AdjacentNotSameColour(edges, dic);
      assert f3 == head + AdjacentNotSameColour(edges[1..], dic);
      forall f | f in f3
        ensures exists e, c :: e in edges && 0 <= c < count && f == NotAnd(VarName(e.0, c), VarName(e.1, c))
      {
        if f in head {
          var c :| 0 <= c < count && head[c] == f;
          assert f == NotAnd(VarName(e0.0, c), VarName(e0.1, c));
        } else {
          var e, c :| e in edges[1..] && 0 <= c < count && f == NotAnd(VarName(e.0, c), VarName(e.1, c));
          assert e in edges;
        }
      }
      forall e, c | e in edges && 0 <= c < count
        ensures NotAnd(VarName(e.0, c), VarName(e.1, c)) in f3
      {
        if e == e0 {
          assert head[c] == NotAnd(VarName(e.0, c), VarName(e.1, c));
        } else {
          assert e in edges[1..];
        }
      }
    }
  }

  /** The uniqueness clauses hold exactly when no node has two true indicators. */
  lemma UniquenessMeaning(nodes: seq<Node>, k: int, val: string -> bool)
    ensures AllHold(EachVertexOnlyOneColour(GenVars(nodes, k)), val) <==> AtMostOneColour(nodes, k, val)
  {
    var f2 := EachVertexOnlyOneColour(GenVars(nodes, k));
    OnlyOneColourClauses(nodes, k);
    if AllHold(f2, val) {
      forall n, c1, c2 | n in nodes && 0 <= c1 < c2 < NumColours(k)
        ensures !(val(VarName(n, c1)) && val(VarName(n, c2)))
      {
        assert Holds(NotAnd(VarName(n, c1), VarName(n, c2)), val);
      }
    }
    if AtMostOneColour(nodes, k, val) {
      forall f | f in f2
        ensures Holds(f, val)
      {
        var n, c1, c2 :| n in nodes && 0 <= c1 < c2 < NumColours(k) && f == NotAnd(VarName(n, c1), VarName(n, c2));
      }
    }
  }

  /** The adjacency clauses hold exactly when the ends of every edge never
      share a true indicator. */
  lemma AdjacencyMeaning(nodes: seq<Node>, edges: seq<(Node, Node)>, k: int, val: string -> bool)
    requires EndpointsIn(edges, nodes)
    ensures AllHold(AdjacentNotSameColour(edges, GenVars(nodes, k)), val) <==> EndpointsDiffer(edges, k, val)
  {
    var f3 := AdjacentNotSameColour(edges, GenVars(nodes, k));
    AdjacencyClauses(nodes, edges, k);
    if AllHold(f3, val) {
      forall e, c | e in edges && 0 <= c < NumColours(k)
        ensures !(val(VarName(e.0, c)) && val(VarName(e.1, c)))
      {
        assert Holds(NotAnd(VarName(e.0, c), VarName(e.1, c)), val);
      }
    }
    if EndpointsDiffer(edges, k, val) {
      forall f | f in f3
        ensures Holds(f, val)
      {
        var e, c :| e in edges && 0 <= c < NumColours(k) && f == NotAnd(VarName(e.0, c), VarName(e.1, c));
      }
    }
  }

  lemma AllHoldAppend(a: seq<Formula>, b: seq<Formula>, val: string -> bool)
    ensures AllHold(a + b, val) <==> AllHold(a, val) && AllHold(b, val)
  {
    if AllHold(a, val) && AllHold(b, val) {
      forall f | f in a + b
        ensures Holds(f, val)
      {
        assert f in a || f in b;
      }
    }
  }

  /** A valuation satisfies `f1 + f2 + f3` exactly when every node has exactly
      one true indicator and adjacent nodes never share one. */
  lemma EncodeMeaning(g: Graph, k: int, val: string -> bool)
    requires WellFormed(g)
    ensures AllHold(Encode(g, k), val) <==>
      SomeColour(g.nodes, k, val) && AtMostOneColour(g.nodes, k, val) && EndpointsDiffer(g.edges, k, val)
  {
    var dic := GenVars(g.nodes, k);
    var f1, f2, f3 := EachVertexHasColour(dic), EachVertexOnlyOneColour(dic), AdjacentNotSameColour(g.edges, dic);
    assert Encode(g, k) == f1 + f2 + f3;
    AllHoldAppend(f1 + f2, f3, val);
    AllHoldAppend(f1, f2, val);
    CoverageClauses(g.nodes, k, val);
    UniquenessMeaning(g.nodes, k, val);
    AdjacencyMeaning(g.nodes, g.edges, k, val);
  }

  // ---------------------------------------------------------------------------
  // Soundness and completeness

  /** The first colour index from `from` on whose indicator is true, or `count`. */
  function FirstTrue(val: string -> bool, n: Node, count: nat, from: nat): nat
    decreases count - from
  {
    if from >= count then count
    else if val(VarName(n, from)) then from
    else FirstTrue(val, n, count, from + 1)
  }

  lemma {:induction false} FirstTrueFinds(val: string -> bool, n: Node, count: nat, from: nat, c: nat)
    requires from <= c < count && val(VarName(n, c))
    requires forall d :: from <= d < c ==> !val(VarName(n, d))
    ensures FirstTrue(val, n, count, from) == c
    decreases c - from
  {
    if from < c {
      FirstTrueFinds(val, n, count, from + 1, c);
    }
  }

  /** The colouring a valuation describes: the index of each node's first true
      indicator. */
  function ColouringOf(g: Graph, k: int, val: string -> bool): map<Node, int> {
    map n | n in g.nodes :: FirstTrue(val, n, NumColours(k), 0)
  }

  /** Soundness: a valuation satisfying `f1 + f2 + f3` makes exactly one
      indicator true per node, and the colouring it describes is proper. */
  lemma OneHotSound(g: Graph, k: int, val: string -> bool)
    requires WellFormed(g)
    requires AllHold(Encode(g, k), val)
    ensures forall n, c :: n in g.nodes && 0 <= c < NumColours(k) ==>
      (val(VarName(n, c)) <==> c == ColouringOf(g, k, val)[n])
    ensures IsProperColouring(g, k, ColouringOf(g, k, val))
  {
    EncodeMeaning(g, k, val);
    var col := ColouringOf(g, k, val);
    forall n | n in g.nodes
      ensures 0 <= col[n] < NumColours(k) && val(VarName(n, col[n]))
      ensures forall c :: 0 <= c < NumColours(k) && val(VarName(n, c)) ==> c == col[n]
    {
      var c :| 0 <= c < NumColours(k) && val(VarName(n, c));
      FirstTrueFinds(val, n, NumColours(k), 0, c);
    }
  }

  /** The valuation `x[v][c] := (col[v] == c)`, read through variable names. */
  function ValuationOf(col: map<Node, int>): string -> bool {
    s => match ParseVarName(s)
      case Some(p) => p.0 in col && col[p.0] == p.1
      case None => false
  }

  /** Completeness: the valuation of a proper colouring satisfies
      `f1 + f2 + f3`, decoding it gives the colouring back, and it makes
      `v_c` true exactly when v has colour c. */
  lemma OneHotComplete(g: Graph, k: int, col: map<Node, int>)
    requires WellFormed(g)
    requires IsProperColouring(g, k, col)
    ensures AllHold(Encode(g, k), ValuationOf(col))
    ensures forall n :: n in g.nodes ==> ColouringOf(g, k, ValuationOf(col))[n] == col[n]
    ensures forall n, c :: 0 <= c ==> ValuationOf(col)(VarName(n, c)) == (n in col && col[n] == c)
  {
    var val := ValuationOf(col);
    forall n, c | 0 <= c
      ensures val(VarName(n, c)) == (n in col && col[n] == c)
    {
      VarNameRoundTrip(n, c);
    }
    EncodeMeaning(g, k, val);
    forall n | n in g.nodes
      ensures exists c :: 0 <= c < NumColours(k) && val(VarName(n, c))
    {
      assert val(VarName(n, col[n]));
    }
    OneHotSound(g, k, val);
    forall n | n in g.nodes
      ensures ColouringOf(g, k, val)[n] == col[n]
    {
      assert val(VarName(n, col[n]));
    }
  }

  /** A k-colourable graph stays satisfiable with k + 1 colours. */
  lemma OneHotMonotone(g: Graph, k: int, val: string -> bool)
    requires WellFormed(g)
    requires AllHold(Encode(g, k), val)
    ensures AllHold(Encode(g, k + 1), ValuationOf(ColouringOf(g, k, val)))
  {
    OneHotSound(g, k, val);
    OneHotComplete(g, k + 1, ColouringOf(g, k, val));
  }

  // ---------------------------------------------------------------------------
  // The true variables of a model

  /** `chain(*dic.values())`. */
  function Chain(dic: VarTable): seq<string> {
    if dic == [] then [] else dic[0].1 + Chain(dic[1..])
  }

  /** `[p for p in ps if m[p]]`. */
  function Select(ps: seq<string>, val: string -> bool): seq<string> {
    if ps == [] then [] else (if val(ps[0]) then [ps[0]] else []) + Select(ps[1..], val)
  }

  /** `colors` in `main`: the true variables, node by node in colour order. */
  function TrueVars(dic: VarTable, val: string -> bool): seq<string> {
    Select(Chain(dic), val)
  }

  /** The indicator of `col[n]` for each node n of `ns`, in order. */
  function ChosenVars(ns: seq<Node>, col: map<Node, int>): (r: seq<string>)
    requires forall n :: n in ns ==> n in col && col[n] >= 0
    ensures |r| == |ns|
    ensures forall i :: 0 <= i < |ns| ==> r[i] == VarName(ns[i], col[ns[i]])
  {
    if ns == [] then [] else [VarName(ns[0], col[ns[0]])] + ChosenVars(ns[1..], col)
  }

  lemma {:induction false} SelectAppend(a: seq<string>, b: seq<string>, val: string -> bool)
    ensures Select(a + b, val) == Select(a, val) + Select(b, val)
  {
    if a != [] {
      assert (a + b)[1..] == a[1..] + b;
      SelectAppend(a[1..], b, val);
    } else {
      assert a + b == b;
    }
  }

  lemma {:induction false} SelectIndicators(n: Node, m: nat, val: string -> bool, c0: nat)
    requires forall c :: 0 <= c < m ==> (val(VarName(n, c)) <==> c == c0)
    ensures Select(Indicators(n, m), val) == if c0 < m then [VarName(n, c0)] else []
    decreases m
  {
    if m > 0 {
      var last := VarName(n, m - 1);
      assert Indicators(n, m) == Indicators(n, m - 1) + [last];
      SelectIndicators(n, m - 1, val, c0);
      SelectAppend(Indicators(n, m - 1), [last], val);
      assert Select([last], val) == if val(last) then [last] else [];
    }
  }

  lemma {:induction false} SelectChain(ns: seq<Node>, k: int, val: string -> bool, col: map<Node, int>)
    requires forall n :: n in ns ==> n in col && 0 <= col[n] < NumColours(k)
    requires forall n, c :: n in ns && 0 <= c < NumColours(k) ==> (val(VarName(n, c)) <==> c == col[n])
    ensures Select(Chain(GenVars(ns, k)), val) == ChosenVars(ns, col)
    decreases |ns|
  {
    if ns != [] {
      var n0 := ns[0];
      GenVarsCons(ns, k);
      assert Chain(GenVars(ns, k)) == Indicators(n0, NumColours(k)) + Chain(GenVars(ns[1..], k));
      SelectAppend(Indicators(n0, NumColours(k)), Chain(GenVars(ns[1..], k)), val);
      SelectIndicators(n0, NumColours(k), val, col[n0]);
      SelectChain(ns[1..], k, val, col);
    }
  }

  /** Under a satisfying valuation `colors` holds exactly one variable per
      node, in node order: the indicator of the node's colour. */
  lemma TrueVarsOnePerVertex(g: Graph, k: int, val: string -> bool)
    requires WellFormed(g)
    requires AllHold(Encode(g, k), val)
    ensures TrueVars(GenVars(g.nodes, k), val) == ChosenVars(g.nodes, ColouringOf(g, k, val))
  {
    OneHotSound(g, k, val);
    SelectChain(g.nodes, k, val, ColouringOf(g, k, val));
  }

  // ---------------------------------------------------------------------------
  // Decoding into node attributes

  /** Splitting `f'{n}_{c}'` on '_' gives back n as `cc[0]` and c as
      `int(cc[1])` exactly when n holds no '_'. */
  lemma SplitVarName(n: Node, c: nat)
    ensures '_' !in n ==> Split(VarName(n, c), '_') == [n, Decimal(c)]
    ensures (var cc := Split(VarName(n, c), '_'); |cc| >= 2 && cc[0] == n && ParseInt(cc[1]) == Some(c)) <==> '_' !in n
  {
    DecimalHasNoUnderscore(c);
    ParseIntDecimal(c);
    if '_' !in n {
      SplitFirst(n, '_', Decimal(c));
      SplitNoSeparator(Decimal(c), '_');
    }
  }

  /** One pass of the decoding loop on the true variable `name`:
      `cc = str(name).split('_')`, then
      `G.nodes[cc[0]]['fillcolor'] = palette[int(cc[1])]` and
      `G.nodes[cc[0]]['style'] = 'filled'`. The right-hand side is evaluated
      first, so a short split, a non-number or a bad index is raised before a
      missing node. */
  function PaintVar(attrs: map<Node, Attrs>, name: string, palette: seq<string>): Result<map<Node, Attrs>, DecodeError> {
    var cc := Split(name, '_');
    if |cc| < 2 then Failure(IndexError)
    else match ParseInt(cc[1])
      case None => Failure(ValueError)
      case Some(i) =>
        match PyIndex(palette, i)
        case None => Failure(IndexError)
        case Some(hex) =>
          if cc[0] !in attrs then Failure(KeyError)
          else Success(attrs[cc[0] := attrs[cc[0]]["fillcolor" := hex]["style" := "filled"]])
  }

  /** The decoding loop over `names`: the attributes it leaves and the
      exception that stopped it, if any. */
  function PaintVars(attrs: map<Node, Attrs>, names: seq<string>, palette: seq<string>): (map<Node, Attrs>, Option<DecodeError>)
    decreases |names|
  {
    if names == [] then (attrs, None)
    else match PaintVar(attrs, names[0], palette)
      case Failure(e) => (attrs, Some(e))
      case Success(next) => PaintVars(next, names[1..], palette)
  }

  /** Lines 52-60 of `main`: collect the true variables of the model and
      write each one's colour into its node's attributes. */
  method Decode(G: DotGraph, k: int, val: string -> bool, palette: seq<string>) returns (err: Option<DecodeError>)
    requires G.Valid()
    modifies G
    ensures G.Valid()
    ensures (G.nodeAttrs, err) == PaintVars(old(G.nodeAttrs), TrueVars(GenVars(G.graph.nodes, k), val), palette)
    ensures AllHold(Encode(G.graph, k), val) && (forall n :: n in G.graph.nodes ==> '_' !in n) && |palette| == NumColours(k) ==>
      && err == None
      && (forall n :: n in G.graph.nodes ==>
            var c := ColouringOf(G.graph, k, val)[n];
            && 0 <= c < |palette| && n in old(G.nodeAttrs) && n in G.nodeAttrs
            && G.nodeAttrs[n] == old(G.nodeAttrs)[n]["fillcolor" := palette[c]]["style" := "filled"])
  {
    if AllHold(Encode(G.graph, k), val) && (forall n :: n in G.graph.nodes ==> '_' !in n) && |palette| == NumColours(k) {
      DecodePaintsEveryVertex(G.graph, k, val, palette, G.nodeAttrs);
    }
    var dic := GenVars(G.graph.nodes, k);
    err := PaintNames(G, TrueVars(dic, val), palette);
  }

  /** The `for` loop of the decoding block, over the names in `colors`. */
  method PaintNames(G: DotGraph, colors: seq<string>, palette: seq<string>) returns (err: Option<DecodeError>)
    requires G.Valid()
    modifies G
    ensures G.Valid()
    ensures (G.nodeAttrs, err) == PaintVars(old(G.nodeAttrs), colors, palette)
  {
    var i := 0;
    while i < |colors|
      invariant 0 <= i <= |colors|
      invariant PaintVars(G.nodeAttrs, colors[i..], palette) == PaintVars(old(G.nodeAttrs), colors, palette)
      invariant G.Valid()
    {
      var before := G.nodeAttrs;
      assert colors[i..][0] == colors[i] && colors[i..][1..] == colors[i + 1..];
      var cc := Split(colors[i], '_');
      if |cc| < 2 {
        assert PaintVar(before, colors[i], palette) == Failure(IndexError);
        return Some(IndexError);
      }
      var index := ParseInt(cc[1]);
      if index.None? {
        assert PaintVar(before, colors[i], palette) == Failure(ValueError);
        return Some(ValueError);
      }
      var hex := PyIndex(palette, index.value);
      if hex.None? {
        assert PaintVar(before, colors[i], palette) == Failure(IndexError);
        return Some(IndexError);
      }
      var ok := G.SetNodeAttr(cc[0], "fillcolor", hex.value);
      if !ok {
        assert PaintVar(before, colors[i], palette) == Failure(KeyError);
        return Some(KeyError);
      }
      var painted := before[cc[0]]["fillcolor" := hex.value];
      assert G.nodeAttrs == before[cc[0] := painted];
      ok := G.SetNodeAttr(cc[0], "style", "filled");
      assert G.nodeAttrs == before[cc[0] := painted["style" := "filled"]];
      assert PaintVar(before, colors[i], palette) == Success(G.nodeAttrs);
      i := i + 1;
    }
    return None;
  }

  lemma {:induction false} PaintChosen(attrs: map<Node, Attrs>, ns: seq<Node>, col: map<Node, int>, palette: seq<string>)
    requires Distinct(ns)
    requires forall n :: n in ns ==> '_' !in n && n in attrs && n in col && 0 <= col[n] < |palette|
    ensures var r := PaintVars(attrs, ChosenVars(ns, col), palette);
      && r.1 == None
      && r.0.Keys == attrs.Keys
      && (forall n :: n in ns ==> r.0[n] == attrs[n]["fillcolor" := palette[col[n]]]["style" := "filled"])
      && (forall n :: n in attrs && n !in ns ==> r.0[n] == attrs[n])
    decreases |ns|
  {
    if ns != [] {
      var n0 := ns[0];
      SplitVarName(n0, col[n0]);
      var next := attrs[n0 := attrs[n0]["fillcolor" := palette[col[n0]]]["style" := "filled"]];
      assert PaintVar(attrs, VarName(n0, col[n0]), palette) == Success(next);
      assert ChosenVars(ns, col)[1..] == ChosenVars(ns[1..], col);
      PaintChosen(next, ns[1..], col, palette);
    }
  }

  /** Decoding a satisfying valuation, when no node name holds '_' and the
      palette has k entries, raises nothing, gives every node the palette
      entry of its colour as `fillcolor` and `style` 'filled', and changes no
      other attribute. */
  lemma DecodePaintsEveryVertex(g: Graph, k: int, val: string -> bool, palette: seq<string>, attrs: map<Node, Attrs>)
    requires WellFormed(g)
    requires AllHold(Encode(g, k), val)
    requires forall n :: n in g.nodes ==> '_' !in n && n in attrs
    requires |palette| == NumColours(k)
    ensures var r := PaintVars(attrs, TrueVars(GenVars(g.nodes, k), val), palette);
      && r.1 == None
      && r.0.Keys == attrs.Keys
      && (forall n :: n in g.nodes ==>
            var c := ColouringOf(g, k, val)[n];
            0 <= c < |palette| && r.0[n] == attrs[n]["fillcolor" := palette[c]]["style" := "filled"])
      && (forall n :: n in attrs && n !in g.nodes ==> r.0[n] == attrs[n])
  {
    OneHotSound(g, k, val);
    TrueVarsOnePerVertex(g, k, val);
    PaintChosen(attrs, g.nodes, ColouringOf(g, k, val), palette);
  }

  /** The decoding loop never writes a node whose name holds '_': the `cc[0]`
      it writes is a piece of a split on '_'. */
  lemma {:induction false} UnderscoreNodeUntouched(attrs: map<Node, Attrs>, names: seq<string>, palette: seq<string>, n: Node)
    requires '_' in n && n in attrs
    ensures var r := PaintVars(attrs, names, palette); n in r.0 && r.0[n] == attrs[n]
    decreases |names|
  {
    if names != [] {
      match PaintVar(attrs, names[0], palette)
      case Failure(_) =>
      case Success(next) =>
        var cc := Split(names[0], '_');
        assert '_' !in cc[0];
        UnderscoreNodeUntouched(next, names[1..], palette, n);
    }
  }
}
