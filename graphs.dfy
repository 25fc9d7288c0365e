/**
 * Per-repository dependency graphs and their merge into one global graph
 * (orphaned_models.py, lines 19-26): networkx's compose, folded over the
 * repositories in order.
 */
module Graphs {
  import opened Outcomes
  import opened Seqs

  /** The attribute of a node the script reads from the unpickled graph. */
  datatype NodeAttrs = NodeAttrs(resourceType: string)

  /** A directed edge (from, to); networkx's successors of n are the targets of edges from n. */
  type Edge = (string, string)

  /** A directed graph: nodes in insertion order, their attributes, and edges. */
  datatype Graph = Graph(nodes: seq<string>, attrs: map<string, NodeAttrs>, edges: set<Edge>)

  /** What every networkx graph satisfies: each node once, attributes for exactly the nodes, edges between nodes. */
  ghost predicate Valid(g: Graph) {
    && Distinct(g.nodes)
    && (forall n :: n in g.attrs <==> n in g.nodes)
    && (forall e :: e in g.edges ==> e.0 in g.attrs && e.1 in g.attrs)
  }

  const Empty := Graph([], map[], {})

  /** xs followed by the elements of ys not already present, in the order add_nodes_from meets them. */
  function AppendNew(xs: seq<string>, ys: seq<string>): (r: seq<string>)
    ensures |xs| <= |r| && r[..|xs|] == xs
    ensures forall n :: n in r <==> n in xs || n in ys
    ensures Distinct(xs) ==> Distinct(r)
    decreases |ys|
  {
    if ys == [] then xs
    else AppendNew(if ys[0] in xs then xs else xs + [ys[0]], ys[1..])
  }

  /** When nothing repeats, AppendNew is concatenation. */
  lemma {:induction false} AppendNewDisjoint(xs: seq<string>, ys: seq<string>)
    requires Distinct(xs + ys)
    ensures AppendNew(xs, ys) == xs + ys
    decreases |ys|
  {
    if ys != [] {
      forall i | 0 <= i < |xs|
        ensures xs[i] != ys[0]
      {
        assert (xs + ys)[i] == xs[i] && (xs + ys)[|xs|] == ys[0];
      }
      assert (xs + [ys[0]]) + ys[1..] == xs + ys;
      AppendNewDisjoint(xs + [ys[0]], ys[1..]);
    }
  }

  /** nx.compose(g, h): g's nodes then h's new ones, h's attributes winning, all edges. */
  function Compose(g: Graph, h: Graph): Graph {
    Graph(AppendNew(g.nodes, h.nodes), g.attrs + h.attrs, g.edges + h.edges)
  }

  /** Compose is a union of nodes and edges in which the second graph's attributes prevail. */
  lemma ComposeUnion(g: Graph, h: Graph)
    requires Valid(g) && Valid(h)
    ensures var r := Compose(g, h);
      && Valid(r)
      && r.nodes[..|g.nodes|] == g.nodes
      && (forall n :: n in r.attrs <==> n in g.attrs || n in h.attrs)
      && (forall n :: n in h.attrs ==> r.attrs[n] == h.attrs[n])
      && (forall n :: n in g.attrs && n !in h.attrs ==> r.attrs[n] == g.attrs[n])
      && (forall e :: e in r.edges <==> e in g.edges || e in h.edges)
  {
  }

  /** The empty graph is a unit of Compose on both sides. */
  lemma ComposeEmpty(g: Graph)
    requires Valid(g)
    ensures Compose(Empty, g) == g
    ensures Compose(g, Empty) == g
  {
    assert [] + g.nodes == g.nodes;
    AppendNewDisjoint([], g.nodes);
    assert Empty.attrs + g.attrs == g.attrs;
    assert g.attrs + Empty.attrs == g.attrs;
    assert Empty.edges + g.edges == g.edges;
    assert g.edges + Empty.edges == g.edges;
  }

  /** The left fold of Compose starting from the first graph. */
  function ComposeAll(gs: seq<Graph>): Graph
    requires |gs| > 0
  {
    if |gs| == 1 then gs[0] else Compose(ComposeAll(gs[..|gs| - 1]), gs[|gs| - 1])
  }

  /** Every graph of a non-empty list satisfies Valid. */
  ghost predicate AllValid(gs: seq<Graph>) {
    forall j :: 0 <= j < |gs| ==> Valid(gs[j])
  }

  /** The merged graph holds exactly the nodes of the inputs, and is valid. */
  lemma {:induction false} ComposeAllNodes(gs: seq<Graph>)
    requires |gs| > 0 && AllValid(gs)
    ensures Valid(ComposeAll(gs))
    ensures forall n :: n in ComposeAll(gs).attrs <==> exists j :: 0 <= j < |gs| && n in gs[j].attrs
  {
    if |gs| > 1 {
      var last := |gs| - 1;
      var init := gs[..last];
      assert forall j :: 0 <= j < |init| ==> init[j] == gs[j];
      ComposeAllNodes(init);
      ComposeUnion(ComposeAll(init), gs[last]);
    }
  }

  /** The merged graph holds exactly the edges of the inputs: merging infers none. */
  lemma {:induction false} ComposeAllEdges(gs: seq<Graph>)
    requires |gs| > 0
    ensures forall e :: e in ComposeAll(gs).edges <==> exists j :: 0 <= j < |gs| && e in gs[j].edges
  {
    if |gs| > 1 {
      var last := |gs| - 1;
      var init := gs[..last];
      assert forall j :: 0 <= j < |init| ==> init[j] == gs[j];
      ComposeAllEdges(init);
    }
  }

  /** A node takes its attributes from the last input graph that has it. */
  lemma {:induction false} ComposeAllLastWins(gs: seq<Graph>, j: nat, n: string)
    requires j < |gs| && n in gs[j].attrs
    requires forall k :: j < k < |gs| ==> n !in gs[k].attrs
    ensures n in ComposeAll(gs).attrs && ComposeAll(gs).attrs[n] == gs[j].attrs[n]
  {
    if |gs| > 1 {
      var last := |gs| - 1;
      if j < last {
        var init := gs[..last];
        assert forall k :: j < k < |init| ==> init[k] == gs[k];
        ComposeAllLastWins(init, j, n);
      }
    }
  }

  /**
   * The state of global_graph after the loop of lines 19-26 over the first
   * |repositories| repositories: a repository named "1" (re)binds it to its own
   * graph, any other composes onto it, and composing before anything was bound
   * stops the script with a NameError. An empty list leaves it unbound.
   */
  function MergeSpec(repositories: seq<string>, graphs: seq<Graph>): Result<Graph>
    requires |graphs| == |repositories|
    decreases |repositories|
  {
    if repositories == [] then Err(GlobalGraphUnbound)
    else
      var k := |repositories| - 1;
      var before := MergeSpec(repositories[..k], graphs[..k]);
      if before.Err? && (k > 0 || repositories[k] != "1") then before
      else if repositories[k] == "1" then Ok(graphs[k])
      else Ok(Compose(before.value, graphs[k]))
  }

  /** The last position of a repository named "1". */
  function LastReset(repositories: seq<string>): (k: nat)
    requires "1" in repositories
    ensures k < |repositories| && repositories[k] == "1"
    ensures forall j :: k < j < |repositories| ==> repositories[j] != "1"
  {
    var last := |repositories| - 1;
    if repositories[last] == "1" then last
    else
      assert "1" in repositories[..last] by {
        var i :| 0 <= i < |repositories| && repositories[i] == "1";
        assert repositories[..last][i] == "1";
      }
      LastReset(repositories[..last])
  }

  /**
   * The merge succeeds exactly when the first repository is named "1", and then
   * it is the compose fold of the graphs from the last repository named "1" on.
   */
  lemma {:induction false} MergeClosedForm(repositories: seq<string>, graphs: seq<Graph>)
    requires |graphs| == |repositories|
    ensures MergeSpec(repositories, graphs).Ok? <==> |repositories| > 0 && repositories[0] == "1"
    ensures MergeSpec(repositories, graphs).Ok? ==>
      MergeSpec(repositories, graphs).value == ComposeAll(graphs[LastReset(repositories)..])
  {
    if repositories != [] {
      var k := |repositories| - 1;
      var pre, gpre := repositories[..k], graphs[..k];
      MergeClosedForm(pre, gpre);
      if k > 0 {
        assert pre[0] == repositories[0];
        if repositories[k] != "1" && repositories[0] == "1" {
          assert "1" in pre;
          var l := LastReset(pre);
          assert LastReset(repositories) == l;
          assert graphs[l..][..|graphs[l..]| - 1] == gpre[l..];
          assert graphs[l..][|graphs[l..]| - 1] == graphs[k];
        }
      }
      if repositories[k] == "1" {
        assert graphs[k..] == [graphs[k]];
      }
    }
  }

  /** With "1" first and nowhere else, the merge is the compose fold of all graphs. */
  lemma MergeFromFirst(repositories: seq<string>, graphs: seq<Graph>)
    requires |graphs| == |repositories| && |repositories| > 0
    requires repositories[0] == "1" && forall j :: 0 < j < |repositories| ==> repositories[j] != "1"
    ensures MergeSpec(repositories, graphs) == Ok(ComposeAll(graphs))
  {
    MergeClosedForm(repositories, graphs);
    assert graphs[0..] == graphs;
  }

  /** A successful merge of valid graphs is valid. */
  lemma MergeValid(repositories: seq<string>, graphs: seq<Graph>)
    requires |graphs| == |repositories|
    requires AllValid(graphs)
    ensures MergeSpec(repositories, graphs).Ok? ==> Valid(MergeSpec(repositories, graphs).value)
  {
    MergeClosedForm(repositories, graphs);
    if MergeSpec(repositories, graphs).Ok? {
      var tail := graphs[LastReset(repositories)..];
      assert forall j :: 0 <= j < |tail| ==> tail[j] == graphs[LastReset(repositories) + j];
      ComposeAllNodes(tail);
    }
  }

  /** Once the script has stopped, later repositories do not revive it. */
  lemma {:induction false} MergeStaysFailed(repositories: seq<string>, graphs: seq<Graph>, n: nat)
    requires |graphs| == |repositories| && 1 <= n <= |repositories|
    requires MergeSpec(repositories[..n], graphs[..n]).Err?
    ensures MergeSpec(repositories, graphs) == MergeSpec(repositories[..n], graphs[..n])
  {
    if n < |repositories| {
      var k := |repositories| - 1;
      assert repositories[..k][..n] == repositories[..n] && graphs[..k][..n] == graphs[..n];
      MergeStaysFailed(repositories[..k], graphs[..k], n);
    } else {
      assert repositories[..n] == repositories && graphs[..n] == graphs;
    }
  }

  /** The merge loop of lines 19-26; the fetched graphs are given, one per repository. */
  method MergeGraphs(repositories: seq<string>, graphs: seq<Graph>) returns (r: Result<Graph>)
    requires |graphs| == |repositories|
    ensures r == MergeSpec(repositories, graphs)
  {
    r := Err(GlobalGraphUnbound);
    for i := 0 to |repositories|
      invariant r == MergeSpec(repositories[..i], graphs[..i])
      invariant i > 0 ==> r.Ok?
    {
      assert repositories[..i + 1][..i] == repositories[..i] && graphs[..i + 1][..i] == graphs[..i];
      if repositories[i] == "1" {
        r := Ok(graphs[i]);
      } else if r.Err? {
        MergeStaysFailed(repositories, graphs, i + 1);
        return;
      } else {
        r := Ok(Compose(r.value, graphs[i]));
      }
    }
    assert repositories[..|repositories|] == repositories && graphs[..|graphs|] == graphs;
  }
}
