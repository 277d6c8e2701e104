/** The star graph built from the connections: a distinguished "NEW" node for
    the item just woven, and one node and one spoke per connection. */
module StarGraph {
  import opened Wrappers
  import opened Seqs
  import opened Graphs
  import opened Neighbours

  const NewNode := "NEW"
  const NewColor := "#00ff00"
  const NewSize: nat := 30

  /** `summary.replace("\n", " ")`. */
  function Flatten(summary: string): (title: string)
    ensures |title| == |summary|
    ensures '\n' !in title
    ensures forall i :: 0 <= i < |summary| ==>
      title[i] == (if summary[i] == '\n' then ' ' else summary[i])
    // the summary is changed exactly when it has a line break
    ensures title == summary <==> '\n' !in summary
  {
    var title := seq(|summary|, i requires 0 <= i < |summary| => if summary[i] == '\n' then ' ' else summary[i]);
    assert '\n' in summary ==> title != summary by {
      if '\n' in summary {
        var i :| 0 <= i < |summary| && summary[i] == '\n';
        assert title[i] != summary[i];
      }
    }
    title
  }

  /** The graph before the loop: only the "NEW" node, titled with the summary. */
  function Initial(summary: string): Graph
  {
    AddNode(Empty, NewNode, Attrs(Some(Flatten(summary)), Some(NewColor), Some(NewSize)))
  }

  /** One pass of the loop body for a connection: `add_node(old_id, title=...)`
      then `add_edge("NEW", old_id)`. */
  function AddNeighbour(g: Graph, n: Neighbour): Graph
  {
    AddEdge(AddNode(g, n.id, Attrs(Some(n.title), None, None)), NewNode, n.id)
  }

  /** The graph after the loop has handled the connections `ns`, in order. */
  function Build(summary: string, ns: seq<Neighbour>): Graph
  {
    if |ns| == 0 then Initial(summary)
    else AddNeighbour(Build(summary, ns[..|ns| - 1]), ns[|ns| - 1])
  }

  // ---------------------------------------------------------------------------
  // A declarative description of the same graph.

  function Ids(ns: seq<Neighbour>): (ids: seq<string>)
    ensures |ids| == |ns| && forall k :: 0 <= k < |ns| ==> ids[k] == ns[k].id
  {
    seq(|ns|, k requires 0 <= k < |ns| => ns[k].id)
  }

  /** The title of the last connection with id `x`, if there is one. */
  function LastTitle(ns: seq<Neighbour>, x: string): Option<string>
  {
    if |ns| == 0 then None
    else if ns[|ns| - 1].id == x then Some(ns[|ns| - 1].title)
    else LastTitle(ns[..|ns| - 1], x)
  }

  /** The dictionary node `x` should end with: the last title given to it, and
      the colour and size only for "NEW". */
  function ExpectedAttrs(summary: string, ns: seq<Neighbour>, x: string): Attrs
  {
    if x == NewNode then
      Attrs(Some(LastTitle(ns, x).GetOr(Flatten(summary))), Some(NewColor), Some(NewSize))
    else
      Attrs(LastTitle(ns, x), None, None)
  }

  /** One spoke from "NEW" to each of `ys`. */
  function Spokes(ys: seq<string>): (es: seq<Edge>)
    ensures |es| == |ys| && forall k :: 0 <= k < |ys| ==> es[k] == Edge(NewNode, ys[k])
  {
    seq(|ys|, k requires 0 <= k < |ys| => Edge(NewNode, ys[k]))
  }

  /** The star: "NEW" then each distinct connection id in order of first
      appearance; one spoke per distinct id. */
  function Star(summary: string, ns: seq<Neighbour>): Graph
  {
    var nodes := Dedup([NewNode] + Ids(ns));
    Graph(nodes, map x | x in nodes :: ExpectedAttrs(summary, ns, x), Spokes(Dedup(Ids(ns))))
  }

  // ---------------------------------------------------------------------------
  // The loop builds the star.

  lemma IdsSnoc(p: seq<Neighbour>, n: Neighbour)
    ensures Ids(p + [n]) == Ids(p) + [n.id]
    ensures ([NewNode] + Ids(p + [n]))[..|p| + 1] == [NewNode] + Ids(p)
    ensures (p + [n])[..|p|] == p
  {
  }

  lemma SpokesSnoc(ys: seq<string>, y: string)
    ensures Spokes(ys + [y]) == Spokes(ys) + [Edge(NewNode, y)]
  {
  }

  /** A spoke list holds `Edge(u, v)` exactly for the spokes it was built from. */
  lemma SpokeMembership(ys: seq<string>, u: string, v: string)
    ensures Edge(u, v) in Spokes(ys) <==> u == NewNode && v in ys
  {
    if u == NewNode && v in ys {
      var k :| 0 <= k < |ys| && ys[k] == v;
      assert Spokes(ys)[k] == Edge(u, v);
    }
  }

  /** The node list after one more connection. */
  lemma StepNodes(summary: string, p: seq<Neighbour>, n: Neighbour)
    ensures var g1 := AddNode(Star(summary, p), n.id, Attrs(Some(n.title), None, None));
      g1.nodes == Star(summary, p + [n]).nodes
  {
    var d := Dedup([NewNode] + Ids(p));
    IdsSnoc(p, n);
    DedupElements([NewNode] + Ids(p));
    assert Dedup([NewNode] + Ids(p + [n])) == if n.id in d then d else d + [n.id];
  }

  /** The dictionary of one node after one more connection. */
  lemma StepAttr(summary: string, p: seq<Neighbour>, n: Neighbour, x: string)
    requires x == NewNode || x in Ids(p + [n])
    ensures var g1 := AddNode(Star(summary, p), n.id, Attrs(Some(n.title), None, None));
      x in g1.attrs && g1.attrs[x] == ExpectedAttrs(summary, p + [n], x)
  {
    var ns := p + [n];
    DedupElements([NewNode] + Ids(p));
    IdsSnoc(p, n);
    assert LastTitle(ns, x) == if x == n.id then Some(n.title) else LastTitle(p, x);
  }

  /** The dictionaries after one more connection. */
  lemma StepAttrs(summary: string, p: seq<Neighbour>, n: Neighbour)
    ensures var g1 := AddNode(Star(summary, p), n.id, Attrs(Some(n.title), None, None));
      g1.attrs == Star(summary, p + [n]).attrs
  {
    var ns := p + [n];
    var g1 := AddNode(Star(summary, p), n.id, Attrs(Some(n.title), None, None));
    var h := Star(summary, ns);
    DedupElements([NewNode] + Ids(p));
    DedupElements([NewNode] + Ids(ns));
    IdsSnoc(p, n);
    forall x | x in h.attrs
      ensures x in g1.attrs && g1.attrs[x] == h.attrs[x]
    {
      StepAttr(summary, p, n, x);
    }
    assert g1.attrs.Keys == h.attrs.Keys;
  }

  /** The spokes after one more connection. */
  lemma StepEdges(summary: string, p: seq<Neighbour>, n: Neighbour)
    ensures var g1 := AddNode(Star(summary, p), n.id, Attrs(Some(n.title), None, None));
      NewNode in g1.attrs && n.id in g1.attrs &&
      (if HasEdge(g1, NewNode, n.id) then g1.edges else g1.edges + [Edge(NewNode, n.id)])
        == Star(summary, p + [n]).edges
  {
    var g1 := AddNode(Star(summary, p), n.id, Attrs(Some(n.title), None, None));
    DedupElements([NewNode] + Ids(p));
    DedupElements(Ids(p));
    IdsSnoc(p, n);
    SpokeMembership(Dedup(Ids(p)), NewNode, n.id);
    SpokeMembership(Dedup(Ids(p)), n.id, NewNode);
    assert HasEdge(g1, NewNode, n.id) <==> n.id in Ids(p);
    assert Dedup(Ids(p + [n])) == if n.id in Ids(p) then Dedup(Ids(p)) else Dedup(Ids(p)) + [n.id];
    SpokesSnoc(Dedup(Ids(p)), n.id);
  }

  /** Handling one more connection takes the star of the earlier ones to the
      star of all of them. */
  lemma StarStep(summary: string, p: seq<Neighbour>, n: Neighbour)
    ensures AddNeighbour(Star(summary, p), n) == Star(summary, p + [n])
  {
    StepNodes(summary, p, n);
    StepAttrs(summary, p, n);
    StepEdges(summary, p, n);
  }

  /** Before the loop the graph is the star of no connections. */
  lemma InitialIsStar(summary: string)
    ensures Initial(summary) == Star(summary, [])
  {
    var h := Star(summary, []);
    assert Dedup([NewNode]) == [NewNode];
    assert h.nodes == [NewNode];
    assert h.attrs == map[NewNode := Attrs(Some(Flatten(summary)), Some(NewColor), Some(NewSize))];
  }

  /** The graph the loop builds is the star: the two descriptions agree. */
  lemma {:induction false} BuildIsStar(summary: string, ns: seq<Neighbour>)
    ensures Build(summary, ns) == Star(summary, ns)
  {
    if |ns| == 0 {
      InitialIsStar(summary);
    } else {
      var p, last := ns[..|ns| - 1], ns[|ns| - 1];
      assert p + [last] == ns;
      BuildIsStar(summary, p);
      StarStep(summary, p, last);
      calc {
        Build(summary, ns);
        AddNeighbour(Build(summary, p), last);
        AddNeighbour(Star(summary, p), last);
        Star(summary, p + [last]);
      }
    }
  }

  // ---------------------------------------------------------------------------
  // What the graph looks like.

  /** The loop keeps the graph well formed. */
  lemma {:induction false} BuildValid(summary: string, ns: seq<Neighbour>)
    ensures Valid(Build(summary, ns))
  {
    if |ns| > 0 {
      BuildValid(summary, ns[..|ns| - 1]);
    }
  }

  /** The nodes of the star: "NEW" first, then exactly the connection ids. */
  lemma {:induction false} StarNodes(summary: string, ns: seq<Neighbour>)
    ensures var g := Build(summary, ns);
      && |g.nodes| > 0 && g.nodes[0] == NewNode
      && (forall x :: x in g.attrs <==> x == NewNode || x in Ids(ns))
  {
    BuildIsStar(summary, ns);
    DedupHead([NewNode] + Ids(ns));
    DedupElements([NewNode] + Ids(ns));
  }

  /** The edges of the star: every edge is a spoke from "NEW", and "NEW" is
      joined to exactly the connection ids, so no edge joins two neighbours. */
  lemma {:induction false} StarEdges(summary: string, ns: seq<Neighbour>)
    ensures var g := Build(summary, ns);
      && (forall e :: e in g.edges ==> e.u == NewNode)
      && (forall y :: Edge(NewNode, y) in g.edges <==> y in Ids(ns))
  {
    BuildIsStar(summary, ns);
    DedupElements(Ids(ns));
    var g := Build(summary, ns);
    forall y
      ensures Edge(NewNode, y) in g.edges <==> y in Ids(ns)
    {
      SpokeMembership(Dedup(Ids(ns)), NewNode, y);
    }
  }

  /** There is one edge per distinct connection id: never more edges than
      connections, and exactly as many when no id repeats. */
  lemma {:induction false} EdgeCount(summary: string, ns: seq<Neighbour>)
    ensures var g := Build(summary, ns);
      && |g.edges| == |set x | x in Ids(ns)|
      && |g.edges| <= |ns|
      && (|g.edges| == |ns| <==> Distinct(Ids(ns)))
  {
    BuildIsStar(summary, ns);
    DedupSetSize(Ids(ns));
    DedupLength(Ids(ns));
  }

  /** There is one node per distinct id among "NEW" and the connection ids:
      exactly one more node than connections when the ids are distinct and
      none of them is "NEW". */
  lemma {:induction false} NodeCount(summary: string, ns: seq<Neighbour>)
    ensures var g := Build(summary, ns);
      && |g.nodes| == |set x | x in [NewNode] + Ids(ns)|
      && |g.nodes| <= |ns| + 1
      && (|g.nodes| == |ns| + 1 <==> Distinct(Ids(ns)) && NewNode !in Ids(ns))
  {
    BuildIsStar(summary, ns);
    DedupSetSize([NewNode] + Ids(ns));
    DedupLength([NewNode] + Ids(ns));
    DistinctCons(NewNode, Ids(ns));
  }

  /** The last connection with a given id names it. */
  lemma {:induction false} LastTitleIsLast(ns: seq<Neighbour>, k: nat)
    requires k < |ns|
    requires forall j :: k < j < |ns| ==> ns[j].id != ns[k].id
    ensures LastTitle(ns, ns[k].id) == Some(ns[k].title)
  {
    if k < |ns| - 1 {
      var p := ns[..|ns| - 1];
      LastTitleIsLast(p, k);
    }
  }

  /** No connection carries the id `x`. */
  lemma {:induction false} NoTitleWithoutConnection(ns: seq<Neighbour>, x: string)
    requires x !in Ids(ns)
    ensures LastTitle(ns, x) == None
  {
    if |ns| > 0 {
      var p := ns[..|ns| - 1];
      assert Ids(p) == Ids(ns)[..|ns| - 1];
      NoTitleWithoutConnection(p, x);
    }
  }

  /** "NEW" keeps its colour and size; its title is the flattened summary
      unless a connection has the id "NEW" itself. */
  lemma {:induction false} NewNodeAttrs(summary: string, ns: seq<Neighbour>)
    ensures var g := Build(summary, ns);
      && NewNode in g.attrs
      && g.attrs[NewNode].color == Some(NewColor)
      && g.attrs[NewNode].size == Some(NewSize)
      && (NewNode !in Ids(ns) ==> g.attrs[NewNode].title == Some(Flatten(summary)))
  {
    BuildIsStar(summary, ns);
    DedupElements([NewNode] + Ids(ns));
    if NewNode !in Ids(ns) {
      NoTitleWithoutConnection(ns, NewNode);
    }
  }

  /** A connection's node carries the title of the last connection with that
      id, and no colour or size unless it is "NEW". */
  lemma {:induction false} NeighbourAttrs(summary: string, ns: seq<Neighbour>, k: nat)
    requires k < |ns|
    requires forall j :: k < j < |ns| ==> ns[j].id != ns[k].id
    ensures var g := Build(summary, ns);
      && ns[k].id in g.attrs
      && g.attrs[ns[k].id].title == Some(ns[k].title)
      && (ns[k].id != NewNode ==> g.attrs[ns[k].id].color == None && g.attrs[ns[k].id].size == None)
  {
    BuildIsStar(summary, ns);
    DedupElements([NewNode] + Ids(ns));
    LastTitleIsLast(ns, k);
    assert ns[k].id in [NewNode] + Ids(ns);
  }
}
