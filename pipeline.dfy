/**
 * The whole batch pass of orphaned_models.py: merge the repositories' graphs,
 * annotate and stitch them, pick the leaf models, count their usage and keep
 * the unused ones. Fetched graphs, manifests and the warehouse's counts are given.
 */
module Pipeline {
  import opened Outcomes
  import opened NodeIds
  import opened Seqs
  import opened Graphs
  import opened Stitch
  import opened Leaves
  import opened Usage

  /**
   * The global graph once lines 19-70 have run: merged, annotated and given the
   * inferred cross-repository edges; None when the merge or a decoding fails.
   */
  ghost function StitchedGlobal(repositories: seq<string>, graphs: seq<Graph>): Option<Graph>
    requires |graphs| == |repositories| && AllValid(graphs)
  {
    var merged := MergeSpec(repositories, graphs);
    if merged.Err? then None
    else if !forall n :: n in merged.value.nodes ==> Decode(n, repositories).Ok? then None
    else
      MergeValid(repositories, graphs);
      Some(Stitched(merged.value, DecodeTable(merged.value, repositories)))
  }

  /** attr_dict for the merged graph, when the stitched global graph exists. */
  ghost function GlobalTable(repositories: seq<string>, graphs: seq<Graph>): NodeTable
    requires |graphs| == |repositories| && AllValid(graphs)
    requires StitchedGlobal(repositories, graphs).Some?
  {
    DecodeTable(MergeSpec(repositories, graphs).value, repositories)
  }

  /** The table covers the stitched graph, and so every leaf model of it. */
  lemma GlobalCovers(repositories: seq<string>, graphs: seq<Graph>)
    requires |graphs| == |repositories| && AllValid(graphs)
    requires StitchedGlobal(repositories, graphs).Some?
    ensures Covers(StitchedGlobal(repositories, graphs).value, GlobalTable(repositories, graphs))
    ensures forall n :: n in LeafModels(StitchedGlobal(repositories, graphs).value) ==> n in GlobalTable(repositories, graphs)
  {
  }

  /** The first node of the merged graph that does not decode fails with e. */
  ghost predicate FailsToDecode(repositories: seq<string>, graphs: seq<Graph>, e: Failure)
    requires |graphs| == |repositories| && MergeSpec(repositories, graphs).Ok?
  {
    var nodes := MergeSpec(repositories, graphs).value.nodes;
    exists i :: 0 <= i < |nodes| && Decode(nodes[i], repositories) == Err(e)
             && forall j :: 0 <= j < i ==> Decode(nodes[j], repositories).Ok?
  }

  /** The first leaf model of the stitched graph whose lookup fails fails with e. */
  ghost predicate FailsAtLookup(repositories: seq<string>, graphs: seq<Graph>, documents: seq<Manifest>, e: Failure)
    requires |graphs| == |repositories| && |documents| == |repositories| && AllValid(graphs)
    requires StitchedGlobal(repositories, graphs).Some?
  {
    GlobalCovers(repositories, graphs);
    exists i :: FirstFailure(GlobalTable(repositories, graphs), ManifestMap(repositories, documents),
                             LeafModels(StitchedGlobal(repositories, graphs).value), i, e)
  }

  /** Every stage succeeds: the merge, every decoding, and every leaf model's lookups. */
  ghost predicate Completes(repositories: seq<string>, graphs: seq<Graph>, documents: seq<Manifest>)
    requires |graphs| == |repositories| && |documents| == |repositories| && AllValid(graphs)
  {
    && StitchedGlobal(repositories, graphs).Some?
    && (GlobalCovers(repositories, graphs);
        var leaves := LeafModels(StitchedGlobal(repositories, graphs).value);
        forall k :: 0 <= k < |leaves| ==>
          Resolve(GlobalTable(repositories, graphs), ManifestMap(repositories, documents), leaves[k]).Ok?)
  }

  /**
   * tables_to_delete of a run in which every stage succeeds: the zero-zero rows
   * of the usage table of the leaf models of the stitched global graph.
   */
  ghost function Expected(repositories: seq<string>, graphs: seq<Graph>, documents: seq<Manifest>, usage: Location -> Counts): seq<Orphan>
    requires |graphs| == |repositories| && |documents| == |repositories| && AllValid(graphs)
    requires Completes(repositories, graphs, documents)
  {
    GlobalCovers(repositories, graphs);
    var candidates := ResolvedCandidates(GlobalTable(repositories, graphs), ManifestMap(repositories, documents),
                                         LeafModels(StitchedGlobal(repositories, graphs).value));
    ToDelete(Tabulate(candidates, usage))
  }

  /**
   * A table on the deletion list is a leaf model of the stitched graph the scan
   * ran over, hence also of the graph before stitching (stitching keeps the nodes
   * and their kinds and only adds edges), and its counts are both zero.
   */
  lemma DeletedAreUnusedLeaves(g: Graph, s: Graph, table: NodeTable, manifests: map<string, Manifest>,
                               candidates: seq<Candidate>, rows: seq<Row>, usage: Location -> Counts)
    requires Covers(s, table)
    requires s.attrs == g.attrs && g.edges <= s.edges
    requires ResolvedAll(table, manifests, LeafModels(s), candidates)
    requires Tabulates(candidates, usage, rows)
    ensures forall o :: o in ToDelete(rows) ==>
      && IsLeafModel(s, o.row.nodeName)
      && IsLeafModel(g, o.row.nodeName)
      && o.row.queryCount == 0 && o.row.userCount == 0
      && usage(Location(o.row.database, o.row.schema, o.row.alias)) == Counts(0, 0)
  {
    ToDeleteExact(rows);
    forall o | o in ToDelete(rows)
      ensures IsLeafModel(s, o.row.nodeName)
      ensures IsLeafModel(g, o.row.nodeName)
      ensures o.row.queryCount == 0 && o.row.userCount == 0
      ensures usage(Location(o.row.database, o.row.schema, o.row.alias)) == Counts(0, 0)
    {
      assert Orphan(o.index, o.row) in ToDelete(rows);
      var i := o.index;
      var leaf := LeafModels(s)[i];
      assert leaf in LeafModels(s);
      assert Resolve(table, manifests, leaf) == Ok(candidates[i]);
      assert candidates[i].nodeName == leaf;
      assert Location(o.row.database, o.row.schema, o.row.alias) == candidates[i].location;
    }
  }

  /**
   * The run of the whole script: every table on the deletion list is a model
   * with no successor in the stitched global graph (so none in the merged one
   * either), and the warehouse reports it unused; a failed merge is the run's failure.
   */
  method Run(repositories: seq<string>, graphs: seq<Graph>, documents: seq<Manifest>, usage: Location -> Counts)
    returns (r: Result<seq<Orphan>>)
    requires |graphs| == |repositories| && |documents| == |repositories|
    requires AllValid(graphs)
    ensures MergeSpec(repositories, graphs).Err? ==> r == MergeSpec(repositories, graphs).PropagateFailure()
    ensures r.Ok? ==> MergeSpec(repositories, graphs).Ok?
    ensures MergeSpec(repositories, graphs).Ok? && StitchedGlobal(repositories, graphs).None? ==>
      r.Err? && FailsToDecode(repositories, graphs, r.error)
    ensures StitchedGlobal(repositories, graphs).Some? && !Completes(repositories, graphs, documents) ==>
      r.Err? && FailsAtLookup(repositories, graphs, documents, r.error)
    ensures r.Ok? <==> Completes(repositories, graphs, documents)
    ensures r.Ok? ==> r.value == Expected(repositories, graphs, documents, usage)
    ensures r.Ok? ==> StitchedGlobal(repositories, graphs).Some?
    ensures r.Ok? ==> forall o :: o in r.value ==>
      && IsLeafModel(StitchedGlobal(repositories, graphs).value, o.row.nodeName)
      && IsLeafModel(MergeSpec(repositories, graphs).value, o.row.nodeName)
      && o.row.queryCount == 0 && o.row.userCount == 0
      && usage(Location(o.row.database, o.row.schema, o.row.alias)) == Counts(0, 0)
  {
    var merged :- MergeGraphs(repositories, graphs);
    MergeValid(repositories, graphs);
    var manifests := CollectManifests(repositories, documents);
    var table :- Annotate(merged, repositories);
    var stitched := InferEdges(merged, table);
    var candidates :- FindLeaves(stitched, table, manifests);
    var rows := UsageRows(candidates, usage);
    DeletedAreUnusedLeaves(merged, stitched, table, manifests, candidates, rows, usage);
    return Ok(ToDelete(rows));
  }
}
