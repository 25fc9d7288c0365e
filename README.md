# Orphaned dbt models: a verified model

`orphaned_models.py` is a batch script that finds dbt models nobody reads any more,
across several dbt repositories. For each repository it fetches the pickled
dependency graph and the manifest that dbt produced. It merges the graphs into one
global graph with `networkx.compose`. Then it decodes every node id
(`model.repo.file`, `source.repo.ref.file`, …) into attributes, including a
*source joining key*. It adds the cross-repository edges that those keys reveal:
a source in one repository that reads another repository's model. Next it keeps
the leaf models, which are models with no successor, and looks up each one's
warehouse location in its repository's manifest. It asks BigQuery how many
distinct queries and users touched that table in the last 30 days. Finally it
lists the tables where both counts are zero.

The Dafny modules follow the script's stages:

- `Outcomes` (`outcomes.dfy`): the `Result` type. Each way the script can stop
  with a Python exception is a `Failure` constructor.
- `Seqs` (`seqs.dfy`): `Filter` over sequences and its order and distinctness
  lemmas. These are helpers used by the later stages.
- `NodeIds` (`ids.dfy`): Python's `split(".")`, node-id decoding and the
  join-key rule, both as the script evidently intends it and as written.
- `Graphs` (`graphs.dfy`): graphs as values, `compose`, and the merge loop. The
  loop is `MergeGraphs`, proved against the recursive `MergeSpec`.
- `Stitch` (`stitch.dfy`): the annotation loop (`Annotate`) and the all-pairs
  edge inference (`InferEdges`), both as loops proved against specification
  functions.
- `Leaves` (`leaves.dfy`): the manifest map (`CollectManifests`) and the
  leaf-model scan with its manifest lookups (`FindLeaves`).
- `Usage` (`usage.dfy`): the per-candidate usage rows, the zero-zero filter,
  and the meaning of the usage query over a query log.
- `Pipeline` (`pipeline.dfy`): the whole run chained together, with its
  exact end-to-end contract: when it fails, and what it lists when it succeeds.

The script's Python exceptions become `Err` results:

| exception | failure |
|---|---|
| `IndexError` on a short id | `MalformedId` |
| `NameError` of an unbound graph | `GlobalGraphUnbound` |
| `NameError` of an unbound reference | `UnboundReference` |
| `KeyError` of a missing manifest | `MissingManifest` |
| `KeyError` of a missing manifest entry | `MissingManifestEntry` |
| `KeyError` of a missing column | `MissingColumn` |

## Model

| member | source | states |
|---|---|---|
| NodeIds.Split | orphaned_models.py:44-50 | `split(".")` gives at least one piece, no piece contains a dot, and joining the pieces with dots gives back the id |
| NodeIds.SplitWord | orphaned_models.py:44-50 | a dot-free word splits to itself, and a word followed by a dot is split off as the first piece |
| NodeIds.SplitJoin | orphaned_models.py:44-50 | splitting the dot-join of dot-free pieces gives back exactly those pieces |
| NodeIds.JoinKey | orphaned_models.py:53-58 | the three-branch key rule, tried in order; its meaning per kind of id is stated by NodeIds.DecodeSegments, NodeIds.CrossRepositoryMatch and the key examples |
| NodeIds.Decode | orphaned_models.py:44-58 | the intended node decoding; its contract on every id is NodeIds.DecodeSegments |
| NodeIds.DecodeAsWritten | orphaned_models.py:47-62 | the decoding as written, with the stale reference carried in; related to NodeIds.Decode by NodeIds.AsWrittenAgreement, NodeIds.StaleReferenceInKey and NodeIds.UnboundReferenceAtStart |
| NodeIds.DecodeSegments | orphaned_models.py:42-63 | for every id: segment 0 is the file type and segment 1 the repository; a source takes its reference from segment 2 and its file from segment 3, any other kind its file from segment 2; decoding succeeds iff there are at least 4 (source) or 3 (otherwise) segments; later segments are ignored; a short id is `MalformedId` of that id; the key follows the three-branch rule |
| NodeIds.CrossRepositoryMatch | orphaned_models.py:53-56 | a source `source.A.B.f` whose reference B is a known repository gets the same join key, `B_f`, as the model `model.B.f` |
| NodeIds.ModelKeyExample | orphaned_models.py:55-56 | `model.repoA.orders` decodes to key `repoA_orders` with an empty reference |
| NodeIds.SourceKeyExample | orphaned_models.py:53-54 | `source.a.b.t` with known repository `b` gets key `b_t` |
| NodeIds.UnknownSourceKeyExample | orphaned_models.py:57-58 | a source whose reference is not a repository falls to the third branch: `source.a.raw.t` gets `a_t_source_raw` |
| NodeIds.SeedKeyExample | orphaned_models.py:57-58 | a kind other than source or model takes the third branch with an empty reference: `seed.a.lookup` gets `a_lookup_seed_` |
| NodeIds.ShortModelExample | orphaned_models.py:50 | `model.a` has no file segment and fails as malformed |
| NodeIds.ShortSourceExample | orphaned_models.py:47-48 | `source.a.b` has no file segment and fails as malformed |
| NodeIds.JoinKeysCanCollide | orphaned_models.py:54-58 | the join key is not injective: `model.a_b.c` and `model.a.b_c` are different ids with the same key |
| NodeIds.AsWrittenAgreement | orphaned_models.py:46-62 | the as-written decoding equals the intended one on sources; on other kinds it fails exactly when no reference is carried, and otherwise differs at most in the reference and the non-model key |
| NodeIds.StaleReferenceInKey | orphaned_models.py:50-62 | as written, a seed decoded after a source with reference `b` gets key `a_s_seed_b`; the intended key is `a_s_seed_` |
| NodeIds.UnboundReferenceAtStart | orphaned_models.py:50-62 | as written, a model decoded before any source stops with a NameError, where the intended decoding succeeds |
| Graphs.AppendNew | orphaned_models.py:26 | compose's node order: the first graph's nodes unchanged as a prefix, then the new ones; membership is the union; distinctness is kept |
| Graphs.AppendNewDisjoint | orphaned_models.py:26 | when the second graph's nodes are all new, the node order is plain concatenation |
| Graphs.Compose | orphaned_models.py:26 | `nx.compose`; its contract is Graphs.ComposeUnion and Graphs.ComposeEmpty |
| Graphs.ComposeAll | orphaned_models.py:19-26 | the compose fold over a list of graphs; its contract is Graphs.ComposeAllNodes, Graphs.ComposeAllEdges and Graphs.ComposeAllLastWins |
| Graphs.MergeSpec | orphaned_models.py:19-26 | global_graph after the loop, or the NameError that stops it; its closed form is Graphs.MergeClosedForm |
| Graphs.ComposeUnion | orphaned_models.py:26 | compose of two valid graphs is valid, keeps the first graph's node order as a prefix, has the union of nodes and edges, and takes the second graph's attributes where both have the node |
| Graphs.ComposeEmpty | orphaned_models.py:26 | the empty graph is a unit of compose on both sides |
| Graphs.ComposeAllNodes | orphaned_models.py:19-26 | the compose fold of valid graphs is valid and has exactly the nodes of the inputs |
| Graphs.ComposeAllEdges | orphaned_models.py:19-26 | the compose fold has exactly the edges of the inputs |
| Graphs.ComposeAllLastWins | orphaned_models.py:19-26 | a node's attributes in the fold come from the last graph that has the node |
| Graphs.LastReset | orphaned_models.py:23-24 | the last position of a repository named "1" |
| Graphs.MergeClosedForm | orphaned_models.py:19-26 | the merge loop succeeds iff the first repository is named "1", and then yields the compose fold of the graphs from the last "1" on |
| Graphs.MergeFromFirst | orphaned_models.py:19-26 | when only the first repository is named "1", the merge is the compose fold of all graphs |
| Graphs.MergeValid | orphaned_models.py:19-26 | merging valid graphs gives a valid graph |
| Graphs.MergeStaysFailed | orphaned_models.py:19-26 | once the merge has failed on a prefix, the later repositories do not change that failure |
| Graphs.MergeGraphs | orphaned_models.py:19-26 | the loop computes `MergeSpec`: the graph the loop leaves, or the NameError that stops it |
| Stitch.DecodeTable | orphaned_models.py:42-64 | `attr_dict` when every node decodes: each node mapped to its decoded attributes; Stitch.Annotate computes it |
| Stitch.Annotate | orphaned_models.py:42-64 | succeeds iff every node decodes, and then returns exactly `DecodeTable`: the graph's nodes, each mapped to its decoded attributes; a failure is the failure of the first node, in node order, that does not decode |
| Stitch.Inferred | orphaned_models.py:67-70 | the set of edges the nested loop adds; its contract is Stitch.InferEdges |
| Stitch.Stitched | orphaned_models.py:67-70 | the graph with the inferred edges added; its contract is Stitch.InferEdges and Stitch.StitchIdempotent |
| Stitch.InferEdges | orphaned_models.py:67-70 | nodes and attributes are unchanged and no edge is lost; an edge (n, r) is added for every pair with n ≠ r, equal join keys and r a source; no other edge is added, no self-loop is added, and the result is valid and equals `Stitched` |
| Stitch.StitchIdempotent | orphaned_models.py:67-70 | the inference pass applied twice adds nothing more than once |
| Leaves.ManifestKey | orphaned_models.py:35 | `repo.replace("-", "_")`; its contract is Leaves.ManifestKeyChars and Leaves.ManifestKeyFixes |
| Leaves.ManifestKeyChars | orphaned_models.py:35 | `replace("-", "_")` keeps the length, maps each dash to an underscore and keeps every other character; no dash remains |
| Leaves.ManifestKeyFixes | orphaned_models.py:35 | a name without dashes is its own key, and the key of a key is itself |
| Leaves.ManifestMap | orphaned_models.py:28-36 | `all_manifests` after the loop, each repository in turn setting its key's entry; its contract is Leaves.ManifestMapKeys and Leaves.ManifestMapLastWins |
| Leaves.ManifestMapStep | orphaned_models.py:35-36 | one more repository sets, or overwrites, its key's entry and changes nothing else |
| Leaves.ManifestMapKeys | orphaned_models.py:28-36 | `all_manifests` has exactly one entry per repository key |
| Leaves.ManifestMapLastWins | orphaned_models.py:30-36 | each key of `all_manifests` holds the manifest of the last repository with that key |
| Leaves.CollectManifests | orphaned_models.py:28-36 | the loop computes `ManifestMap`: exactly one entry per repository key, holding the manifest of the last repository with that key |
| Leaves.LeafModels | orphaned_models.py:76-77 | the nodes the scan selects, in node order; its contract is Leaves.LeafModelsExact |
| Leaves.Resolve | orphaned_models.py:78-84 | the manifest lookups for one node: the missing manifest, the missing entry, or the node's location; its contract is Leaves.FindLeaves |
| Leaves.ResolvedCandidates | orphaned_models.py:76-89 | `end_of_line_df` when every lookup succeeds: the lookups of the given names, in order; Leaves.FindLeaves computes it |
| Leaves.FindLeaves | orphaned_models.py:74-89 | succeeds iff every leaf model's lookup succeeds, and then returns exactly `ResolvedCandidates`: one candidate per leaf model in node order, each holding that node's name and its manifest location; on failure, the error of the first leaf model whose manifest or manifest entry is missing |
| Leaves.ScanStep | orphaned_models.py:76-89 | scanning one more node extends the candidates by that node's lookup when it is a leaf model, and leaves them unchanged otherwise |
| Leaves.ScanStopsAt | orphaned_models.py:76-84 | a failing lookup during the scan is the first failure among all leaf models |
| Leaves.LeafModelsExact | orphaned_models.py:76-77 | the selected nodes are exactly the graph's models with no successor, each once |
| Usage.Tabulate | orphaned_models.py:91-132 | `full_tables_df` as one sequence of rows; Usage.TabulatesExact ties it to the field-by-field description |
| Usage.TabulatesExact | orphaned_models.py:91-132 | the field-by-field description of the rows (one per candidate, in order, with its name, location and counts) holds of exactly one row sequence, `Tabulate` |
| Usage.UsageRows | orphaned_models.py:91-132 | one row per candidate, in order, with the candidate's name, database, schema and alias and the query and user counts reported for its location; that is, exactly `Tabulate` |
| Usage.ToDelete | orphaned_models.py:134 | the intended `tables_to_delete`; its contract is Usage.ToDeleteExact |
| Usage.TablesToDeleteAsWritten | orphaned_models.py:134 | `tables_to_delete` as written; its contract is Usage.EmptyCandidatesFail |
| Usage.ToDeleteExact | orphaned_models.py:134 | a row is on the deletion list, with its position as index, iff both its counts are zero; the indexes strictly increase |
| Usage.UsedTableKept | orphaned_models.py:134 | a table with queries but no counted user is kept: the conjunction needs both counts zero |
| Usage.EmptyCandidatesFail | orphaned_models.py:134 | as written, line 134 fails exactly on an empty row list, and otherwise equals the intended deletion list; the intended list for no rows is empty |
| Usage.LogUsage | orphaned_models.py:95-108 | the two counts the usage query reports over a given log; its contract is Usage.LogUsageZero and Usage.NullUserCountsQueryOnly |
| Usage.LogUsageZero | orphaned_models.py:95-108 | over a query log, the query count is zero iff no matching entry has a job id, and the user count is zero iff no matching entry has a user email (COUNT(DISTINCT) skips NULLs); a log with no match, or with only dbt's own queries, gives zero for both |
| Usage.NullUserCountsQueryOnly | orphaned_models.py:97-98 | the counts are not zero together: one matching query with a NULL user email counts one query and no user |
| Pipeline.StitchedGlobal | orphaned_models.py:19-70 | global_graph after merging, annotation and edge inference, when these succeed; Pipeline.Run states what is listed from it |
| Pipeline.GlobalTable | orphaned_models.py:39-64 | `attr_dict` of the merged graph |
| Pipeline.GlobalCovers | orphaned_models.py:39-77 | every node of the stitched graph, and so every leaf model, has an entry in `attr_dict` |
| Pipeline.FailsToDecode | orphaned_models.py:42-62 | the run stops at the first node of the merged graph that does not decode, with that node's error |
| Pipeline.FailsAtLookup | orphaned_models.py:76-84 | the run stops at the first leaf model, in node order, whose manifest or manifest entry is missing |
| Pipeline.Completes | orphaned_models.py:19-134 | every stage succeeds: the merge, every decoding, and every leaf model's lookups |
| Pipeline.Expected | orphaned_models.py:74-134 | `tables_to_delete` of a complete run: the zero-zero rows, with their positions, of the usage rows of the leaf models of the stitched global graph |
| Pipeline.DeletedAreUnusedLeaves | orphaned_models.py:76-134 | every listed table is a model with no successor in the stitched graph the scan ran over, hence also in the graph before stitching, and both its counts are zero |
| Pipeline.Run | orphaned_models.py:19-134 | a failed merge fails the run with the same error; otherwise a node that does not decode fails it with the first such node's error, and then a missing manifest or entry fails it with the first failing leaf model's error; the run succeeds exactly when every stage does (`Completes`), and then lists exactly `Expected`; every listed table is a model with no successor in the stitched global graph (and so in the merged graph), and the warehouse reports zero queries and zero users for its location |

## Left out

- Cloud Storage, unpickling and JSON parsing are left out. The per-repository graphs and parsed manifests are parameters.
- BigQuery execution, the SQL text and the `CURRENT_DATE` 30-day window are left out. The counts per location are the parameter `usage`. `LogUsage` gives the query's meaning over a given log.
- NULL columns of the query log are modelled as `None` for `job_id` and `user_email`. NULLs in the query text are not modelled.
- `CONTAINS_SUBSTR` is modelled as plain substring containment. Its Unicode normalisation and case folding are not modelled.
- The `eval` reflection of lines 61-62 is replaced by building the `NodeInfo` record directly.
- The two whole-column assignments of lines 123-124 are not modelled. They overwrite `end_of_line_df`, which is never read again.
- pandas data frames are sequences of records. Printing and the display options of lines 136-138 are left out.
- The global graph is mutated in place by networkx. Here each stage returns a new graph value, so aliasing is not modelled.
- Node attributes are reduced to `resource_type`, the only attribute of the fetched graphs the script reads. The decoded attributes (`source_repository`, `source_joining_key`, …) live in the table `attr_dict`. Compose's dict update means the later graph wins, which the model keeps. Edge attributes are ignored.
- Graph validity is assumed for the input graphs. Each node appears once, attributes exist for exactly the nodes, and edges join nodes; networkx guarantees this structure.
- Every node is assumed to carry a `resource_type`, as the graph dbt writes gives every node one. Without it, lines 69 and 77 would raise a KeyError; `NodeAttrs` makes the attribute total, so that failure is not modelled.
- The node and edge iteration order of networkx is taken to be insertion order for nodes. Edge order does not affect any result here.
- Pipeline.Run: uses the intended line 134 (`Usage.ToDelete`), not `Usage.TablesToDeleteAsWritten`, so an empty candidate list gives an empty deletion list rather than the KeyError.
- Stitch.Annotate: uses the intended decoding (`NodeIds.Decode`), not the stale-reference behaviour of lines 50-62.

## Findings

| source | as written | input that shows it | evidently intended | confidence | as-written member | corrected member |
|---|---|---|---|---|---|---|
| orphaned_models.py:58-62 | `source_reference` is only assigned for source nodes, so a non-source node reuses the reference of the last source node decoded before it. Before any source node it is unbound, and `eval` raises a NameError | nodes `source.a.b.t` then `seed.a.s`: the seed's key is `a_s_seed_b`; a graph whose first node is `model.a.m` stops with a NameError | a non-source node has no reference; its key ends in an empty reference and decoding never fails for that reason | medium, not executed | NodeIds.DecodeAsWritten (shown by NodeIds.StaleReferenceInKey and NodeIds.UnboundReferenceAtStart) | NodeIds.Decode (proved by NodeIds.DecodeSegments) |
| orphaned_models.py:91,134 | `full_tables_df` starts as an empty data frame and gets columns only from appended rows; with no candidates, `full_tables_df['user_count']` raises a KeyError | a merged graph without any leaf model, so `end_of_line_df` has no rows | an empty deletion list | medium, not executed | Usage.TablesToDeleteAsWritten (shown by Usage.EmptyCandidatesFail) | Usage.ToDelete (proved by Usage.ToDeleteExact) |
