/** The part of a networkx undirected `Graph` the weave uses: nodes with
    attribute dictionaries kept in insertion order, and edges without
    duplicates. */
module Graphs {
  import opened Wrappers
  import opened Seqs

  /** A node's attribute dictionary; an absent key is `None`. */
  datatype Attrs = Attrs(title: Option<string>, color: Option<string>, size: Option<nat>)

  /** The empty dictionary a node gets when `add_edge` creates it. */
  const NoAttrs := Attrs(None, None, None)

  /** An undirected edge, its endpoints in the order `add_edge` was given them. */
  datatype Edge = Edge(u: string, v: string)

  datatype Graph = Graph(nodes: seq<string>, attrs: map<string, Attrs>, edges: seq<Edge>)

  /** `nx.Graph()`. */
  const Empty := Graph([], map[], [])

  /** The two edges join the same pair of nodes. */
  predicate SameEnds(e: Edge, f: Edge)
  {
    (e.u == f.u && e.v == f.v) || (e.u == f.v && e.v == f.u)
  }

  /** The graph has an edge between `u` and `v`, in either direction. */
  predicate HasEdge(g: Graph, u: string, v: string)
  {
    Edge(u, v) in g.edges || Edge(v, u) in g.edges
  }

  /** Every node listed once and owning a dictionary, every edge between
      known nodes, no pair of nodes joined twice. */
  ghost predicate Valid(g: Graph)
  {
    && Distinct(g.nodes)
    && (forall n :: n in g.attrs <==> n in g.nodes)
    && (forall e :: e in g.edges ==> e.u in g.attrs && e.v in g.attrs)
    && (forall i, j :: 0 <= i < j < |g.edges| ==> !SameEnds(g.edges[i], g.edges[j]))
  }

  /** `dict.update`: the keys given in `update` replace those in `current`. */
  function Merge(current: Attrs, update: Attrs): Attrs
  {
    Attrs(
      if update.title.Some? then update.title else current.title,
      if update.color.Some? then update.color else current.color,
      if update.size.Some? then update.size else current.size)
  }

  /** `G.add_node(n, **a)`: a new node is appended with `a`; an existing node
      keeps its place and has `a` merged into its dictionary. */
  function AddNode(g: Graph, n: string, a: Attrs): (h: Graph)
    ensures Valid(g) ==> Valid(h)
    ensures forall m :: m in h.attrs <==> m in g.attrs || m == n
    ensures n in g.attrs ==> h.nodes == g.nodes && h.attrs[n] == Merge(g.attrs[n], a)
    ensures n !in g.attrs ==> h.nodes == g.nodes + [n] && h.attrs[n] == a
    ensures forall m :: m in g.attrs && m != n ==> h.attrs[m] == g.attrs[m]
    ensures h.edges == g.edges
  {
    if n in g.attrs then g.(attrs := g.attrs[n := Merge(g.attrs[n], a)])
    else
      var h := Graph(g.nodes + [n], g.attrs[n := a], g.edges);
      assert Valid(g) ==> Distinct(h.nodes) by {
        if Valid(g) {
          assert n !in g.nodes;
        }
      }
      h
  }

  /** The endpoint `n` as `add_edge` leaves it: created with an empty
      dictionary when missing, untouched otherwise. */
  function EnsureNode(g: Graph, n: string): (h: Graph)
    ensures Valid(g) ==> Valid(h)
    ensures forall m :: m in h.attrs <==> m in g.attrs || m == n
    ensures h.nodes == g.nodes + (if n in g.attrs then [] else [n])
    ensures forall m :: m in g.attrs ==> h.attrs[m] == g.attrs[m]
    ensures n !in g.attrs ==> h.attrs[n] == NoAttrs
    ensures h.edges == g.edges
  {
    if n in g.attrs then g else AddNode(g, n, NoAttrs)
  }

  /** Appending an edge between known nodes that are not yet joined keeps the
      graph well formed. */
  lemma AppendEdgeValid(g: Graph, u: string, v: string)
    requires Valid(g) && u in g.attrs && v in g.attrs && !HasEdge(g, u, v)
    ensures Valid(g.(edges := g.edges + [Edge(u, v)]))
  {
    var h := g.(edges := g.edges + [Edge(u, v)]);
    forall i, j | 0 <= i < j < |h.edges|
      ensures !SameEnds(h.edges[i], h.edges[j])
    {
      if j == |g.edges| {
        assert h.edges[i] in g.edges;
      }
    }
  }

  /** `G.add_edge(u, v)`: creates missing endpoints with empty dictionaries,
      and adds the edge unless the two nodes are already joined. */
  function AddEdge(g: Graph, u: string, v: string): (h: Graph)
    ensures Valid(g) ==> Valid(h)
    ensures HasEdge(h, u, v)
    ensures forall m :: m in h.attrs <==> m in g.attrs || m == u || m == v
    ensures h.nodes == g.nodes + (if u in g.attrs then [] else [u])
                               + (if v in g.attrs || v == u then [] else [v])
    ensures forall m :: m in g.attrs ==> h.attrs[m] == g.attrs[m]
    ensures forall m :: m in h.attrs && m !in g.attrs ==> h.attrs[m] == NoAttrs
    ensures HasEdge(g, u, v) ==> h.edges == g.edges
    ensures !HasEdge(g, u, v) ==> h.edges == g.edges + [Edge(u, v)]
  {
    var g2 := EnsureNode(EnsureNode(g, u), v);
    if HasEdge(g2, u, v) then g2
    else
      assert Valid(g2) ==> Valid(g2.(edges := g2.edges + [Edge(u, v)])) by {
        if Valid(g2) {
          AppendEdgeValid(g2, u, v);
        }
      }
      g2.(edges := g2.edges + [Edge(u, v)])
  }
}
