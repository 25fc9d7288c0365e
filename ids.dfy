/**
 * Decoding of dbt node ids ("model.repoA.orders", "source.repoA.repoB.customers")
 * into the five attributes the script attaches to every node, including the
 * cross-repository join key (orphaned_models.py, lines 42-63).
 */
module NodeIds {
  import opened Outcomes

  const Dot := '.'

  /** ".".join(parts) */
  function Join(parts: seq<string>): string {
    if parts == [] then ""
    else if |parts| == 1 then parts[0]
    else parts[0] + [Dot] + Join(parts[1..])
  }

  /** Python's s.split("."): one more piece than there are dots, none containing a dot. */
  function Split(s: string): (parts: seq<string>)
    ensures |parts| >= 1
    ensures forall i :: 0 <= i < |parts| ==> Dot !in parts[i]
    ensures Join(parts) == s
  {
    if s == [] then [""]
    else
      var rest := Split(s[1..]);
      if s[0] == Dot then [""] + rest
      else [[s[0]] + rest[0]] + rest[1..]
  }

  /** A dot-free word splits to itself, and a word followed by a dot splits off first. */
  lemma {:induction false} SplitWord(w: string, t: string)
    requires Dot !in w
    ensures Split(w) == [w]
    ensures Split(w + [Dot] + t) == [w] + Split(t)
  {
    if w != [] {
      SplitWord(w[1..], t);
      assert (w + [Dot] + t)[1..] == w[1..] + [Dot] + t;
      assert [w[0]] + w[1..] == w;
    } else {
      assert w + [Dot] + t == [Dot] + t;
    }
  }

  /** Splitting undoes joining, for pieces that contain no dot. */
  lemma {:induction false} SplitJoin(parts: seq<string>)
    requires |parts| >= 1
    requires forall i :: 0 <= i < |parts| ==> Dot !in parts[i]
    ensures Split(Join(parts)) == parts
  {
    SplitWord(parts[0], "");
    if |parts| > 1 {
      SplitJoin(parts[1..]);
      SplitWord(parts[0], Join(parts[1..]));
    }
  }

  /** The attributes the script assigns to a node: file_type, source_repository, source_reference, file_name, source_joining_key. */
  datatype NodeInfo = NodeInfo(
    fileType: string,
    sourceRepository: string,
    sourceReference: string,
    fileName: string,
    joinKey: string)

  /** The three-branch join-key rule (lines 53-58), tried in this order. */
  function JoinKey(kind: string, repo: string, ref: string, file: string, repositories: seq<string>): string {
    if kind == "source" && ref in repositories then ref + "_" + file
    else if kind == "model" then repo + "_" + file
    else repo + "_" + file + "_" + kind + "_" + ref
  }

  /**
   * Decoding as the script evidently intends it: a non-source node has an empty
   * source reference. Too few segments for the kind is the IndexError of lines 45-50.
   */
  function Decode(id: string, repositories: seq<string>): Result<NodeInfo> {
    var parts := Split(id);
    if |parts| < 2 then Err(MalformedId(id))
    else if parts[0] == "source" then
      if |parts| < 4 then Err(MalformedId(id))
      else Ok(NodeInfo(parts[0], parts[1], parts[2], parts[3], JoinKey(parts[0], parts[1], parts[2], parts[3], repositories)))
    else
      if |parts| < 3 then Err(MalformedId(id))
      else Ok(NodeInfo(parts[0], parts[1], "", parts[2], JoinKey(parts[0], parts[1], "", parts[2], repositories)))
  }

  /**
   * Decoding as written: source_reference is a module-level variable, so for a
   * non-source node it still holds the reference of the last source node decoded
   * before it (carried), and reading it when no source node came first is a NameError.
   */
  function DecodeAsWritten(id: string, repositories: seq<string>, carried: Option<string>): Result<NodeInfo> {
    var parts := Split(id);
    if |parts| < 2 then Err(MalformedId(id))
    else if parts[0] == "source" then
      if |parts| < 4 then Err(MalformedId(id))
      else Ok(NodeInfo(parts[0], parts[1], parts[2], parts[3], JoinKey(parts[0], parts[1], parts[2], parts[3], repositories)))
    else if |parts| < 3 then Err(MalformedId(id))
    else if carried.None? then Err(UnboundReference(id))
    else Ok(NodeInfo(parts[0], parts[1], carried.value, parts[2], JoinKey(parts[0], parts[1], carried.value, parts[2], repositories)))
  }

  /**
   * Decoding in terms of segments: segment 0 is the kind and 1 the repository; a
   * source has its reference in 2 and its file in 3, any other kind its file in 2;
   * further segments are ignored; too few segments is MalformedId.
   */
  lemma DecodeSegments(parts: seq<string>, repositories: seq<string>)
    requires |parts| >= 1
    requires forall i :: 0 <= i < |parts| ==> Dot !in parts[i]
    ensures var r := Decode(Join(parts), repositories);
      && (r.Err? ==> r.error == MalformedId(Join(parts)))
      && (parts[0] == "source" ==>
            (r.Ok? <==> |parts| >= 4)
            && (r.Ok? ==> r.value == NodeInfo(parts[0], parts[1], parts[2], parts[3],
                                               JoinKey(parts[0], parts[1], parts[2], parts[3], repositories))))
      && (parts[0] != "source" ==>
            (r.Ok? <==> |parts| >= 3)
            && (r.Ok? ==> r.value == NodeInfo(parts[0], parts[1], "", parts[2],
                                               JoinKey(parts[0], parts[1], "", parts[2], repositories))))
  {
    SplitJoin(parts);
  }

  /**
   * The point of the join key: a source "source.A.B.f" that refers to a known
   * repository B gets the key of B's own model "model.B.f".
   */
  lemma CrossRepositoryMatch(a: string, b: string, f: string, repositories: seq<string>)
    requires Dot !in a && Dot !in b && Dot !in f
    requires b in repositories
    ensures var src := Decode(Join(["source", a, b, f]), repositories);
            var mdl := Decode(Join(["model", b, f]), repositories);
      src.Ok? && mdl.Ok? && src.value.joinKey == mdl.value.joinKey == b + "_" + f
  {
    DecodeSegments(["source", a, b, f], repositories);
    DecodeSegments(["model", b, f], repositories);
  }

  /** A model's key is its repository and file name. */
  lemma ModelKeyExample(id: string)
    requires id == "model.repoA.orders"
    ensures Decode(id, ["repoA", "repoB"]) == Ok(NodeInfo("model", "repoA", "", "orders", "repoA_orders"))
  {
    assert id == Join(["model", "repoA", "orders"]);
    assert "model" != "source";
    assert JoinKey("model", "repoA", "", "orders", ["repoA", "repoB"]) == "repoA_orders";
    DecodeSegments(["model", "repoA", "orders"], ["repoA", "repoB"]);
  }

  /** A source whose reference is a known repository takes that repository's name. */
  lemma SourceKeyExample(id: string)
    requires id == "source.a.b.t"
    ensures Decode(id, ["a", "b"]) == Ok(NodeInfo("source", "a", "b", "t", "b_t"))
  {
    assert id == Join(["source", "a", "b", "t"]);
    assert JoinKey("source", "a", "b", "t", ["a", "b"]) == "b_t";
    DecodeSegments(["source", "a", "b", "t"], ["a", "b"]);
  }

  /** A source whose reference is not a known repository falls through to the third branch. */
  lemma UnknownSourceKeyExample(id: string)
    requires id == "source.a.raw.t"
    ensures Decode(id, ["a"]) == Ok(NodeInfo("source", "a", "raw", "t", "a_t_source_raw"))
  {
    assert id == Join(["source", "a", "raw", "t"]);
    assert "raw" !in ["a"];
    assert JoinKey("source", "a", "raw", "t", ["a"]) == "a_t_source_raw";
    DecodeSegments(["source", "a", "raw", "t"], ["a"]);
  }

  /** Any other kind also takes the third branch, with an empty reference. */
  lemma SeedKeyExample(id: string)
    requires id == "seed.a.lookup"
    ensures Decode(id, ["a"]) == Ok(NodeInfo("seed", "a", "", "lookup", "a_lookup_seed_"))
  {
    assert id == Join(["seed", "a", "lookup"]);
    assert "seed" != "source" && "seed" != "model";
    assert JoinKey("seed", "a", "", "lookup", ["a"]) == "a_lookup_seed_";
    DecodeSegments(["seed", "a", "lookup"], ["a"]);
  }

  /** A model id with two segments is malformed. */
  lemma ShortModelExample(id: string)
    requires id == "model.a"
    ensures Decode(id, ["a"]) == Err(MalformedId(id))
  {
    assert id == Join(["model", "a"]);
    assert "model" != "source";
    DecodeSegments(["model", "a"], ["a"]);
  }

  /** A source id needs four segments: three are malformed. */
  lemma ShortSourceExample(id: string)
    requires id == "source.a.b"
    ensures Decode(id, ["a"]) == Err(MalformedId(id))
  {
    assert id == Join(["source", "a", "b"]);
    DecodeSegments(["source", "a", "b"], ["a"]);
  }

  /**
   * The join key is not injective: the underscore it inserts may also occur in
   * names, so two different models can share a key.
   */
  lemma JoinKeysCanCollide(a: string, b: string, c: string, repositories: seq<string>)
    requires Dot !in a && Dot !in b && Dot !in c
    ensures var x := Decode(Join(["model", a + "_" + b, c]), repositories);
            var y := Decode(Join(["model", a, b + "_" + c]), repositories);
      x.Ok? && y.Ok? && x.value.joinKey == y.value.joinKey
      && Join(["model", a + "_" + b, c]) != Join(["model", a, b + "_" + c])
  {
    DecodeSegments(["model", a + "_" + b, c], repositories);
    DecodeSegments(["model", a, b + "_" + c], repositories);
    var x, y := Join(["model", a + "_" + b, c]), Join(["model", a, b + "_" + c]);
    assert x[6 + |a|] == '_' && y[6 + |a|] == Dot;
  }

  /**
   * The as-written decoding agrees with Decode on source nodes whatever was
   * carried, and on every other node it fails or differs only in the carried reference.
   */
  lemma AsWrittenAgreement(id: string, repositories: seq<string>, carried: Option<string>)
    ensures var w := DecodeAsWritten(id, repositories, carried);
            var d := Decode(id, repositories);
      && (Split(id)[0] == "source" ==> w == d)
      && (w.Ok? ==> (d.Ok? && w.value.fileName == d.value.fileName
                     && w.value.sourceRepository == d.value.sourceRepository
                     && w.value.fileType == d.value.fileType))
      && (w.Ok? && w.value.fileType == "model" ==> w.value.joinKey == d.value.joinKey)
      && (d.Ok? && Split(id)[0] != "source" ==> (w.Err? <==> carried.None?))
  {
  }

  /**
   * The stale reference, exhibited: a seed decoded after "source.a.b.t" carries
   * b into its join key, where the intended key ends in an empty reference.
   */
  lemma StaleReferenceInKey(seed: string)
    requires seed == "seed.a.s"
    ensures DecodeAsWritten(seed, ["a"], Some("b")) == Ok(NodeInfo("seed", "a", "b", "s", "a_s_seed_b"))
    ensures Decode(seed, ["a"]) == Ok(NodeInfo("seed", "a", "", "s", "a_s_seed_"))
  {
    assert seed == Join(["seed", "a", "s"]);
    assert "seed" != "source" && "seed" != "model";
    assert JoinKey("seed", "a", "b", "s", ["a"]) == "a_s_seed_b";
    assert JoinKey("seed", "a", "", "s", ["a"]) == "a_s_seed_";
    SplitJoin(["seed", "a", "s"]);
  }

  /** A model decoded before any source node stops the as-written run with a NameError. */
  lemma UnboundReferenceAtStart(model: string)
    requires model == "model.a.m"
    ensures DecodeAsWritten(model, ["a"], None) == Err(UnboundReference(model))
    ensures Decode(model, ["a"]) == Ok(NodeInfo("model", "a", "", "m", "a_m"))
  {
    assert model == Join(["model", "a", "m"]);
    assert "model" != "source";
    assert JoinKey("model", "a", "", "m", ["a"]) == "a_m";
    SplitJoin(["model", "a", "m"]);
  }
}
