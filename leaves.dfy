/**
 * Terminal models of the stitched graph and their tables (orphaned_models.py,
 * lines 28-36 and 74-89): manifests are stored under the repository name with
 * "-" turned into "_", and every model node without successors is looked up in
 * the manifest of its repository.
 */
module Leaves {
  import opened Outcomes
  import opened Seqs
  import opened NodeIds
  import opened Graphs
  import opened Stitch

  /** Where a model is materialised in the warehouse. */
  datatype Location = Location(database: string, schema: string, alias: string)

  /** The "nodes" section of a manifest, reduced to the three fields the script reads. */
  type Manifest = map<string, Location>

  /** A row of end_of_line_df. */
  datatype Candidate = Candidate(nodeName: string, location: Location)

  /** repo.replace("-", "_") (line 35). */
  function ManifestKey(repo: string): string {
    if repo == [] then []
    else [if repo[0] == '-' then '_' else repo[0]] + ManifestKey(repo[1..])
  }

  /** The key replaces every "-" by "_" and keeps every other character in place. */
  lemma {:induction false} ManifestKeyChars(repo: string)
    ensures |ManifestKey(repo)| == |repo|
    ensures forall i :: 0 <= i < |repo| ==> ManifestKey(repo)[i] == (if repo[i] == '-' then '_' else repo[i])
    ensures '-' !in ManifestKey(repo)
  {
    if repo != [] {
      ManifestKeyChars(repo[1..]);
    }
  }

  /** A name without "-" is its own key, and so is every key. */
  lemma ManifestKeyFixes(repo: string)
    ensures '-' !in repo ==> ManifestKey(repo) == repo
    ensures ManifestKey(ManifestKey(repo)) == ManifestKey(repo)
  {
    ManifestKeyChars(repo);
    ManifestKeyChars(ManifestKey(repo));
  }

  /** No key after the j-th, up to the n-th, equals the j-th. */
  ghost predicate LastWithKey(keys: seq<string>, j: nat, n: nat)
    requires j < n <= |keys|
  {
    forall l :: j < l < n ==> keys[l] != keys[j]
  }

  /** The manifest key of each repository, in order. */
  function ManifestKeys(repositories: seq<string>): seq<string> {
    seq(|repositories|, i requires 0 <= i < |repositories| => ManifestKey(repositories[i]))
  }

  /** all_manifests after the loop of lines 30-36 has run over the given repositories. */
  ghost function ManifestMap(repositories: seq<string>, documents: seq<Manifest>): map<string, Manifest>
    requires |documents| == |repositories|
    decreases |repositories|
  {
    if repositories == [] then map[]
    else
      var k := |repositories| - 1;
      ManifestMap(repositories[..k], documents[..k])[ManifestKey(repositories[k]) := documents[k]]
  }

  /** One more repository adds, or overwrites, its key's entry. */
  lemma ManifestMapStep(repositories: seq<string>, documents: seq<Manifest>, i: nat)
    requires |documents| == |repositories| && i < |repositories|
    ensures ManifestMap(repositories[..i + 1], documents[..i + 1])
         == ManifestMap(repositories[..i], documents[..i])[ManifestKey(repositories[i]) := documents[i]]
  {
    assert repositories[..i + 1][..i] == repositories[..i];
    assert documents[..i + 1][..i] == documents[..i];
  }

  /**
   * The loop of lines 30-36: one entry per key, holding the manifest of the last
   * repository with that key. The fetched documents are given.
   */
  method CollectManifests(repositories: seq<string>, documents: seq<Manifest>) returns (all: map<string, Manifest>)
    requires |documents| == |repositories|
    ensures all == ManifestMap(repositories, documents)
    ensures var keys := ManifestKeys(repositories);
      all.Keys == set i | 0 <= i < |keys| :: keys[i]
    ensures var keys := ManifestKeys(repositories);
      forall i :: 0 <= i < |keys| && LastWithKey(keys, i, |keys|) ==> all[keys[i]] == documents[i]
  {
    all := map[];
    for i := 0 to |repositories|
      invariant all == ManifestMap(repositories[..i], documents[..i])
    {
      ManifestMapStep(repositories, documents, i);
      all := all[ManifestKey(repositories[i]) := documents[i]];
    }
    assert repositories[..|repositories|] == repositories && documents[..|documents|] == documents;
    ManifestMapKeys(repositories, documents);
    ManifestMapLastWins(repositories, documents);
  }

  /** all_manifests has exactly one entry per repository key. */
  lemma {:induction false} ManifestMapKeys(repositories: seq<string>, documents: seq<Manifest>)
    requires |documents| == |repositories|
    decreases |repositories|
    ensures var keys := ManifestKeys(repositories);
      ManifestMap(repositories, documents).Keys == set i | 0 <= i < |keys| :: keys[i]
  {
    if repositories != [] {
      var keys := ManifestKeys(repositories);
      var k := |repositories| - 1;
      var pre, dpre := repositories[..k], documents[..k];
      ManifestMapKeys(pre, dpre);
      var kpre := ManifestKeys(pre);
      assert forall j :: 0 <= j < k ==> kpre[j] == keys[j];
      assert (set i | 0 <= i < |keys| :: keys[i]) == (set i | 0 <= i < k :: kpre[i]) + {keys[k]};
    }
  }

  /** Each key of all_manifests holds the manifest of the last repository with that key. */
  lemma {:induction false} ManifestMapLastWins(repositories: seq<string>, documents: seq<Manifest>)
    requires |documents| == |repositories|
    decreases |repositories|
    ensures var keys := ManifestKeys(repositories);
      forall i :: 0 <= i < |keys| && LastWithKey(keys, i, |keys|) ==>
        keys[i] in ManifestMap(repositories, documents) && ManifestMap(repositories, documents)[keys[i]] == documents[i]
  {
    if repositories != [] {
      var keys := ManifestKeys(repositories);
      var k := |repositories| - 1;
      var pre, dpre := repositories[..k], documents[..k];
      ManifestMapLastWins(pre, dpre);
      var kpre := ManifestKeys(pre);
      var before := ManifestMap(pre, dpre);
      var m := ManifestMap(repositories, documents);
      assert m == before[keys[k] := documents[k]];
      forall i | 0 <= i < |keys| && LastWithKey(keys, i, |keys|)
        ensures keys[i] in m && m[keys[i]] == documents[i]
      {
        if i < k {
          assert keys[k] != keys[i];
          assert kpre[i] == keys[i];
          assert LastWithKey(kpre, i, k) by {
            forall l | i < l < k ensures kpre[l] != kpre[i] {
              assert kpre[l] == keys[l];
            }
          }
          assert before[kpre[i]] == dpre[i];
        }
      }
    }
  }

  /** The test of line 77: a node of kind "model" with no successor. */
  predicate IsLeafModel(g: Graph, n: string) {
    n in g.attrs && g.attrs[n].resourceType == "model" && forall e :: e in g.edges ==> e.0 != n
  }

  function IsLeafOf(g: Graph): string -> bool {
    n => IsLeafModel(g, n)
  }

  /** The nodes the scan of lines 76-89 selects, in node order. */
  function LeafModels(g: Graph): seq<string> {
    Filter(g.nodes, IsLeafOf(g))
  }

  /** The lookups of lines 78-84 for one node: its repository's manifest, then its entry there. */
  function Resolve(table: NodeTable, manifests: map<string, Manifest>, n: string): Result<Candidate>
    requires n in table
  {
    var repo := table[n].sourceRepository;
    if repo !in manifests then Err(MissingManifest(repo))
    else if n !in manifests[repo] then Err(MissingManifestEntry(n))
    else Ok(Candidate(n, manifests[repo][n]))
  }

  /** found holds, position by position, the successful lookups of names. */
  predicate ResolvedAll(table: NodeTable, manifests: map<string, Manifest>, names: seq<string>, found: seq<Candidate>)
    requires forall n :: n in names ==> n in table
  {
    |found| == |names| && forall k :: 0 <= k < |names| ==> Resolve(table, manifests, names[k]) == Ok(found[k])
  }

  /** The candidates the scan collects when every lookup succeeds. */
  ghost function ResolvedCandidates(table: NodeTable, manifests: map<string, Manifest>, names: seq<string>): seq<Candidate>
    requires forall n :: n in names ==> n in table
    requires forall k :: 0 <= k < |names| ==> Resolve(table, manifests, names[k]).Ok?
  {
    seq(|names|, k requires 0 <= k < |names| => Resolve(table, manifests, names[k]).value)
  }

  /** The lookup of names[i] is the first one that fails. */
  predicate FirstFailure(table: NodeTable, manifests: map<string, Manifest>, names: seq<string>, i: nat, e: Failure)
    requires forall n :: n in names ==> n in table
  {
    && i < |names| && Resolve(table, manifests, names[i]) == Err(e)
    && forall j :: 0 <= j < i ==> Resolve(table, manifests, names[j]).Ok?
  }

  /**
   * The scan of lines 76-89: one candidate per leaf model, in node order, carrying
   * the location from its repository's manifest; the first failing lookup stops it.
   */
  method FindLeaves(g: Graph, table: NodeTable, manifests: map<string, Manifest>) returns (r: Result<seq<Candidate>>)
    requires Covers(g, table)
    ensures r.Ok? ==> ResolvedAll(table, manifests, LeafModels(g), r.value)
    ensures r.Err? ==> exists i :: FirstFailure(table, manifests, LeafModels(g), i, r.error)
    ensures r.Ok? <==> forall k :: 0 <= k < |LeafModels(g)| ==> Resolve(table, manifests, LeafModels(g)[k]).Ok?
    ensures r.Ok? ==> r.value == ResolvedCandidates(table, manifests, LeafModels(g))
  {
    var p := IsLeafOf(g);
    var found: seq<Candidate> := [];
    for i := 0 to |g.nodes|
      invariant ResolvedAll(table, manifests, Filter(g.nodes[..i], p), found)
    {
      var node := g.nodes[i];
      ScanStep(g, table, manifests, i, found);
      if IsLeafModel(g, node) {
        var c := Resolve(table, manifests, node);
        if c.Err? {
          ScanStopsAt(g, table, manifests, i, found);
          return Err(c.error);
        }
        found := found + [c.value];
      }
    }
    assert g.nodes[..|g.nodes|] == g.nodes;
    assert found == ResolvedCandidates(table, manifests, LeafModels(g));
    return Ok(found);
  }

  /** Scanning the i-th node keeps ResolvedAll when its lookup, if made, succeeds. */
  lemma ScanStep(g: Graph, table: NodeTable, manifests: map<string, Manifest>, i: nat, found: seq<Candidate>)
    requires Covers(g, table) && i < |g.nodes|
    requires ResolvedAll(table, manifests, Filter(g.nodes[..i], IsLeafOf(g)), found)
    ensures !IsLeafModel(g, g.nodes[i]) ==> ResolvedAll(table, manifests, Filter(g.nodes[..i + 1], IsLeafOf(g)), found)
    ensures IsLeafModel(g, g.nodes[i]) && Resolve(table, manifests, g.nodes[i]).Ok? ==>
      ResolvedAll(table, manifests, Filter(g.nodes[..i + 1], IsLeafOf(g)), found + [Resolve(table, manifests, g.nodes[i]).value])
  {
    FilterStep(g.nodes, i, IsLeafOf(g));
  }

  /** A failing lookup of the i-th node, a leaf model, is the first failure among all leaf models. */
  lemma ScanStopsAt(g: Graph, table: NodeTable, manifests: map<string, Manifest>, i: nat, found: seq<Candidate>)
    requires Covers(g, table) && i < |g.nodes|
    requires ResolvedAll(table, manifests, Filter(g.nodes[..i], IsLeafOf(g)), found)
    requires IsLeafModel(g, g.nodes[i]) && Resolve(table, manifests, g.nodes[i]).Err?
    ensures FirstFailure(table, manifests, LeafModels(g), |found|, Resolve(table, manifests, g.nodes[i]).error)
  {
    FilterPrefix(g.nodes, i, IsLeafOf(g));
  }

  /** The selected nodes are exactly the leaf models, each once, in node order. */
  lemma LeafModelsExact(g: Graph)
    requires Valid(g)
    ensures forall n :: n in LeafModels(g) <==> n in g.nodes && IsLeafModel(g, n)
    ensures Distinct(LeafModels(g))
  {
    FilterDistinct(g.nodes, IsLeafOf(g));
  }
}
