/**
 * Stitching the merged graph (orphaned_models.py, lines 39-71): every node is
 * annotated with its decoded attributes, then an edge is added from each node to
 * every other node of kind "source" that shares its join key.
 */
module Stitch {
  import opened Outcomes
  import opened NodeIds
  import opened Graphs

  /** attr_dict: the decoded attributes of each node, merged into the graph by set_node_attributes. */
  type NodeTable = map<string, NodeInfo>

  /** The table has an entry for every node of the graph. */
  predicate Covers(g: Graph, table: NodeTable) {
    forall n :: n in g.nodes ==> n in table
  }

  /** The table the annotation loop builds when every node decodes. */
  ghost function DecodeTable(g: Graph, repositories: seq<string>): NodeTable
    requires forall n :: n in g.nodes ==> Decode(n, repositories).Ok?
  {
    map n | n in g.nodes :: Decode(n, repositories).value
  }

  /**
   * The annotation loop of lines 42-63 in node order: the table of decoded nodes,
   * or the failure of the first node that does not decode.
   */
  method Annotate(g: Graph, repositories: seq<string>) returns (r: Result<NodeTable>)
    ensures r.Ok? <==> forall n :: n in g.nodes ==> Decode(n, repositories).Ok?
    ensures r.Ok? ==> forall n :: n in r.value <==> n in g.nodes
    ensures r.Ok? ==> forall n :: n in r.value ==> Decode(n, repositories) == Ok(r.value[n])
    ensures r.Ok? ==> r.value == DecodeTable(g, repositories)
    ensures r.Err? ==> exists i :: 0 <= i < |g.nodes| && Decode(g.nodes[i], repositories) == Err(r.error)
                                   && forall j :: 0 <= j < i ==> Decode(g.nodes[j], repositories).Ok?
  {
    var table: NodeTable := map[];
    for i := 0 to |g.nodes|
      invariant forall n :: n in table <==> n in g.nodes[..i]
      invariant forall n :: n in table ==> Decode(n, repositories) == Ok(table[n])
      invariant forall j :: 0 <= j < i ==> Decode(g.nodes[j], repositories).Ok?
    {
      var d := Decode(g.nodes[i], repositories);
      if d.Err? {
        return Err(d.error);
      }
      assert g.nodes[..i + 1] == g.nodes[..i] + [g.nodes[i]];
      table := table[g.nodes[i] := d.value];
    }
    assert g.nodes[..|g.nodes|] == g.nodes;
    assert table == DecodeTable(g, repositories);
    return Ok(table);
  }

  /** The test of line 69: n and r differ, share a join key, and r is a source. */
  predicate Joins(g: Graph, table: NodeTable, n: string, r: string)
    requires n in table && r in table && r in g.attrs
  {
    n != r && table[n].joinKey == table[r].joinKey && g.attrs[r].resourceType == "source"
  }

  /** The edges the inference adds: from each node n to each source r that Joins it. */
  ghost function Inferred(g: Graph, table: NodeTable): set<Edge>
    requires Valid(g) && Covers(g, table)
  {
    set n, r | n in g.nodes && r in g.nodes && Joins(g, table, n, r) :: (n, r)
  }

  /** The graph after line 70 has run for every pair. */
  ghost function Stitched(g: Graph, table: NodeTable): Graph
    requires Valid(g) && Covers(g, table)
  {
    g.(edges := g.edges + Inferred(g, table))
  }

  /**
   * The nested loop of lines 67-70. It keeps nodes and attributes, adds
   * n -> r for every pair that Joins (soundness) and no edge beyond these
   * (completeness), so in particular no self-loop.
   */
  method InferEdges(g: Graph, table: NodeTable) returns (s: Graph)
    requires Valid(g) && Covers(g, table)
    ensures s.nodes == g.nodes && s.attrs == g.attrs && g.edges <= s.edges
    ensures forall n, r :: n in g.nodes && r in g.nodes && Joins(g, table, n, r) ==> (n, r) in s.edges
    ensures forall e :: e in s.edges ==> e in g.edges || (e.0 in g.nodes && e.1 in g.nodes && Joins(g, table, e.0, e.1))
    ensures forall n :: (n, n) in s.edges ==> (n, n) in g.edges
    ensures Valid(s)
    ensures s == Stitched(g, table)
  {
    var edges := g.edges;
    for i := 0 to |g.nodes|
      invariant forall e :: e in edges <==>
        (e in g.edges || (e.0 in g.nodes && e.1 in g.nodes[..i] && Joins(g, table, e.0, e.1)))
    {
      var nodeR := g.nodes[i];
      for j := 0 to |g.nodes|
        invariant forall e :: e in edges <==>
          (|| e in g.edges
           || (e.0 in g.nodes && e.1 in g.nodes[..i] && Joins(g, table, e.0, e.1))
           || (e.0 in g.nodes[..j] && e.1 == nodeR && Joins(g, table, e.0, e.1)))
      {
        var node := g.nodes[j];
        assert g.nodes[..j + 1] == g.nodes[..j] + [node];
        if Joins(g, table, node, nodeR) {
          edges := edges + {(node, nodeR)};
        }
      }
      assert g.nodes[..|g.nodes|] == g.nodes;
      assert g.nodes[..i + 1] == g.nodes[..i] + [nodeR];
    }
    assert g.nodes[..|g.nodes|] == g.nodes;
    s := g.(edges := edges);
  }

  /** A second inference over the stitched graph, with the same table, adds nothing. */
  lemma StitchIdempotent(g: Graph, table: NodeTable)
    requires Valid(g) && Covers(g, table)
    ensures Valid(Stitched(g, table))
    ensures Stitched(Stitched(g, table), table) == Stitched(g, table)
  {
    var s := Stitched(g, table);
    assert Inferred(s, table) == Inferred(g, table);
  }
}
