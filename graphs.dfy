/** The graph as the colouring scripts see it once `read_dot` has parsed it:
    a node sequence (iteration order of `G.nodes`), an edge sequence
    (`G.edges`), and the per-node attribute dictionaries that decoding writes. */
module Graphs {
  import opened Wrappers

  type Node = string

  datatype Graph = Graph(nodes: seq<Node>, edges: seq<(Node, Node)>)

  /** No element is listed twice. */
  predicate Distinct(s: seq<Node>) {
    forall i, j :: 0 <= i < j < |s| ==> s[i] != s[j]
  }

  /** Both ends of every edge are among `nodes`. */
  predicate EndpointsIn(edges: seq<(Node, Node)>, nodes: seq<Node>) {
    forall e :: e in edges ==> e.0 in nodes && e.1 in nodes
  }

  /** Nodes are listed once each and every edge joins two nodes. */
  predicate WellFormed(g: Graph) {
    Distinct(g.nodes) && EndpointsIn(g.edges, g.nodes)
  }

  /** `col` gives every node an index in [0, k) and the two ends of every
      edge different indices. */
  predicate IsProperColouring(g: Graph, k: int, col: map<Node, int>) {
    && (forall n :: n in g.nodes ==> n in col && 0 <= col[n] < k)
    && (forall e :: e in g.edges ==> e.0 in col && e.1 in col && col[e.0] != col[e.1])
  }

  /** Python's `s[i]`, negative indices counting from the end; None is IndexError. */
  function PyIndex<T>(s: seq<T>, i: int): (r: Option<T>)
    ensures r.Some? <==> -|s| <= i < |s|
    ensures 0 <= i < |s| ==> r == Some(s[i])
  {
    if 0 <= i < |s| then Some(s[i])
    else if -|s| <= i < 0 then Some(s[|s| + i])
    else None
  }

  /** The attribute dictionary of one node. */
  type Attrs = map<string, string>

  /** The exceptions decoding can raise. */
  datatype DecodeError = KeyError | ValueError | IndexError

  /** A parsed graph together with its mutable node attributes `G.nodes[n]`. */
  class DotGraph {
    const graph: Graph
    var nodeAttrs: map<Node, Attrs>

    /** The attribute store has exactly one dictionary per node. */
    ghost predicate Valid()
      reads this
    {
      WellFormed(graph) && nodeAttrs.Keys == set n | n in graph.nodes
    }

    /** The graph as `read_dot` returns it: one attribute dictionary per node. */
    constructor (g: Graph, attrs: map<Node, Attrs>)
      requires WellFormed(g)
      requires attrs.Keys == set n | n in g.nodes
      ensures graph == g && nodeAttrs == attrs
      ensures Valid()
    {
      graph := g;
      nodeAttrs := attrs;
    }

    /** `G.nodes[n][key] = value`; `ok` is false when `G.nodes[n]` raises KeyError. */
    method SetNodeAttr(n: Node, key: string, value: string) returns (ok: bool)
      modifies this
      ensures ok <==> n in old(nodeAttrs)
      ensures nodeAttrs == if ok then old(nodeAttrs)[n := old(nodeAttrs)[n][key := value]] else old(nodeAttrs)
      ensures old(Valid()) ==> Valid()
    {
      ok := n in nodeAttrs;
      if ok {
        nodeAttrs := nodeAttrs[n := nodeAttrs[n][key := value]];
      }
    }
  }
}
