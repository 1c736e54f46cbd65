/**
 * The reference graph itself: a multigraph whose nodes are keyed
 * `type/id`, each holding its resource, with named edges and the resources'
 * resolution caches; the two-pass build `load_graph`, and `summarize_graph`.
 */
module Graph {
  import opened Wrappers
  import opened FhirModel
  import opened References
  import opened Folds
  import opened BuildSpec
  import opened SummarySpec
  import opened Resources

  /** Why `load_graph` raises instead of returning a graph. */
  datatype BuildError =
    | ReadFailed(error: ReadError)
    | NodeCountMismatch(nodeCount: nat, resourceCount: nat)
    | TooFewResources(resourceCount: nat, expected: int)
    | NoEdges

  /** All records read from `files`, file by file. */
  function ReadRecords(files: seq<Stream<Resource>>): (records: seq<Resource>)
    decreases |files|
  {
    if files == [] then [] else ReadRecords(files[..|files| - 1]) + files[|files| - 1].items
  }

  /** No file's read ended in an error. */
  predicate AllRead(files: seq<Stream<Resource>>) {
    forall j :: 0 <= j < |files| ==> files[j].failure.None?
  }

  /** `files[i]` is the first file whose read ended in an error. */
  predicate FirstFailure(files: seq<Stream<Resource>>, i: int) {
    0 <= i < |files| && files[i].failure.Some? && AllRead(files[..i])
  }

  lemma ReadRecordsStep(files: seq<Stream<Resource>>, i: int)
    requires 0 <= i < |files|
    ensures ReadRecords(files[..i + 1]) == ReadRecords(files[..i]) + files[i].items
  {
    assert files[..i + 1][..i] == files[..i];
  }

  lemma AllReadStep(files: seq<Stream<Resource>>, i: int)
    requires 0 <= i < |files| && AllRead(files[..i]) && files[i].failure.None?
    ensures AllRead(files[..i + 1])
  {
    assert files[..i + 1] == files[..i] + [files[i]];
  }

  /** Only one file can be the first to fail, and then not every file was read. */
  lemma FirstFailureUnique(files: seq<Stream<Resource>>, i: int)
    requires FirstFailure(files, i)
    ensures forall k :: FirstFailure(files, k) ==> k == i
    ensures !AllRead(files)
  {
  }

  class FhirGraph {
    const name: string
    var nodes: map<NodeKey, Resource>
    var edges: seq<Edge>
    var cache: Cache

    /** An empty multigraph named `name`. */
    constructor(name: string)
      ensures this.name == name && nodes == map[] && edges == [] && cache == map[]
    {
      this.name := name;
      nodes := map[];
      edges := [];
      cache := map[];
    }

    /**
     * `_process_fhir_file`: adds each record as a node and appends its
     * pending edges; returns the pending list and the running count.
     */
    method ProcessFile(pending: seq<EdgeInfo>, records: seq<Resource>, resourceCount: nat)
      returns (pending': seq<EdgeInfo>, resourceCount': nat)
      modifies this
      ensures nodes == InsertAll(old(nodes), records, KeyOf)
      ensures edges == old(edges) && cache == old(cache)
      ensures pending' == pending + PendingOf(records)
      ensures resourceCount' == resourceCount + |records|
    {
      pending', resourceCount' := pending, resourceCount;
      var i := 0;
      while i < |records|
        invariant 0 <= i <= |records|
        invariant nodes == InsertAll(old(nodes), records[..i], KeyOf)
        invariant edges == old(edges) && cache == old(cache)
        invariant pending' == pending + PendingOf(records[..i])
        invariant resourceCount' == resourceCount + i
      {
        var r := records[i];
        var key := KeyOf(r);
        nodes := nodes[key := r];
        ghost var before := pending';
        var hasVariableReference, hasExtensionReference;
        pending', hasVariableReference := FindReferencesInVariables(pending', key, r);
        pending', hasExtensionReference := FindReferencesInExtension(pending', key, r);
        resourceCount' := resourceCount' + 1;
        assert records[..i + 1][..i] == records[..i];
        AppendAssoc(before, VariableEdges(key, r.fields), ExtensionEdges(key, r.extension));
        AppendAssoc(pending, PendingOf(records[..i]), RecordEdges(r));
        i := i + 1;
      }
      assert records[..i] == records;
    }

    /**
     * The second pass of `load_graph`: for every pending entry whose
     * destination is a node, cache the destination in the source's
     * resolution cache and add the forward and the reverse edge; skip the
     * others.
     */
    method ResolvePending(pending: seq<EdgeInfo>)
      requires forall p :: p in pending ==> p.source in nodes
      modifies this
      ensures nodes == old(nodes)
      ensures edges == old(edges) + EdgesFor(pending, nodes)
      ensures cache == CacheAfter(old(cache), pending, nodes)
    {
      var i := 0;
      while i < |pending|
        invariant 0 <= i <= |pending|
        invariant nodes == old(nodes)
        invariant edges == old(edges) + EdgesFor(pending[..i], nodes)
        invariant cache == CacheAfter(old(cache), pending[..i], nodes)
      {
        var p := pending[i];
        assert p in pending;
        assert p.source in nodes;
        assert pending[..i + 1][..i] == pending[..i];
        if p.destination in nodes {
          var destination := nodes[p.destination];
          var owned := if p.source in cache then cache[p.source] else map[];
          cache := cache[p.source := owned[p.destination := destination]];
          ghost var before := edges;
          edges := edges + [Edge(p.source, p.destination, p.name)];
          edges := edges + [Edge(p.destination, p.source, p.name + "_")];
          AppendAssoc(old(edges), EdgesFor(pending[..i], nodes), [Forward(p), Reverse(p)]);
          assert edges == before + [Forward(p), Reverse(p)];
        }
        i := i + 1;
      }
      assert pending[..i] == pending;
    }
  }

  /**
   * `load_graph`: reads the files in order into a fresh graph, resolves the
   * pending edges, and checks the node count, the minimum number of
   * resources and that some edge exists, in that order.
   */
  method LoadGraph(name: string, files: seq<Stream<Resource>>, expectedResourceCount: int)
    returns (result: Result<FhirGraph, BuildError>)
    ensures forall i :: FirstFailure(files, i) ==> result == Failure(ReadFailed(files[i].failure.value))
    ensures AllRead(files) ==>
      var records := ReadRecords(files);
      var nodes := NodesOf(records);
      var edges := EdgesFor(PendingOf(records), nodes);
      (|nodes| != |records| ==> result == Failure(NodeCountMismatch(|nodes|, |records|))) &&
      (|nodes| == |records| && |records| < expectedResourceCount ==> result == Failure(TooFewResources(|records|, expectedResourceCount))) &&
      (|nodes| == |records| && |records| >= expectedResourceCount && edges == [] ==> result == Failure(NoEdges)) &&
      (result.Success? <==> DistinctKeys(records) && |records| >= expectedResourceCount && Resolved(PendingOf(records), nodes) != []) &&
      (result.Success? ==>
        result.value.name == name && result.value.nodes == nodes && result.value.edges == edges &&
        result.value.cache == CacheAfter(map[], PendingOf(records), nodes))
  {
    var graph := new FhirGraph(name);
    var resourceCount: nat := 0;
    var pending: seq<EdgeInfo> := [];
    var i := 0;
    while i < |files|
      invariant 0 <= i <= |files|
      invariant AllRead(files[..i])
      invariant graph.name == name && graph.edges == [] && graph.cache == map[]
      invariant graph.nodes == NodesOf(ReadRecords(files[..i]))
      invariant pending == PendingOf(ReadRecords(files[..i]))
      invariant resourceCount == |ReadRecords(files[..i])|
    {
      ghost var read := ReadRecords(files[..i]);
      pending, resourceCount := graph.ProcessFile(pending, files[i].items, resourceCount);
      if files[i].failure.Some? {
        assert FirstFailure(files, i);
        FirstFailureUnique(files, i);
        return Failure(ReadFailed(files[i].failure.value));
      }
      ReadRecordsStep(files, i);
      AllReadStep(files, i);
      InsertAllAppend(map[], read, files[i].items, KeyOf);
      FlatMapAppend(read, files[i].items, RecordEdges);
      i := i + 1;
    }
    assert files[..i] == files;
    ghost var records := ReadRecords(files);
    ghost var nodes := NodesOf(records);
    assert forall k :: !FirstFailure(files, k);
    PendingSourcesAreNodes(records);
    graph.ResolvePending(pending);
    assert graph.nodes == nodes && graph.edges == EdgesFor(PendingOf(records), nodes);
    BuildChecks(records, expectedResourceCount);
    if |graph.nodes| != resourceCount {
      return Failure(NodeCountMismatch(|graph.nodes|, resourceCount));
    }
    if resourceCount < expectedResourceCount {
      return Failure(TooFewResources(resourceCount, expectedResourceCount));
    }
    if |graph.edges| == 0 {
      return Failure(NoEdges);
    }
    return Success(graph);
  }

  /** The node loop of `summarize_graph`: how many nodes hold a resource of each type. */
  method CountNodeTypes(nodes: map<NodeKey, Resource>) returns (counts: map<string, nat>)
    ensures forall t :: t in counts <==> exists k :: k in nodes && nodes[k].resourceType == t
    ensures forall t :: t in counts ==> counts[t] == |OfType(nodes, nodes.Keys, t)|
    ensures Total(counts) == |nodes|
  {
    counts := map[];
    var remaining := nodes.Keys;
    ghost var done: set<NodeKey> := {};
    while remaining != {}
      invariant remaining !! done && remaining + done == nodes.Keys
      invariant forall t :: Count(counts, t) == |OfType(nodes, done, t)|
      invariant forall t :: t in counts ==> counts[t] > 0
      invariant Total(counts) == |done|
      decreases |remaining|
    {
      var k :| k in remaining;
      var resource := nodes[k];
      CountNodeStep(nodes, done, counts, k);
      TotalBump(counts, resource.resourceType);
      counts := Bump(counts, resource.resourceType);
      remaining := remaining - {k};
      done := done + {k};
    }
    forall t ensures t in counts <==> exists k :: k in nodes && nodes[k].resourceType == t {
      OfTypePresent(nodes, t);
      assert Count(counts, t) == |OfType(nodes, nodes.Keys, t)|;
    }
  }

  /** The edge loop of `summarize_graph`: how many edges carry each label. */
  method CountEdgeLabels(edges: seq<Edge>) returns (counts: map<EdgeInfo, nat>)
    ensures forall l :: l in counts <==> exists e :: e in edges && Label(e) == l
    ensures forall l :: l in counts ==> counts[l] == LabelCount(edges, l)
    ensures Total(counts) == |edges|
  {
    counts := map[];
    var i := 0;
    while i < |edges|
      invariant 0 <= i <= |edges|
      invariant forall l :: Count(counts, l) == LabelCount(edges[..i], l)
      invariant forall l :: l in counts ==> counts[l] > 0
      invariant Total(counts) == i
    {
      var e := edges[i];
      var counted := Label(e);
      assert edges[..i + 1][..i] == edges[..i];
      TotalBump(counts, counted);
      counts := Bump(counts, counted);
      i := i + 1;
    }
    assert edges[..i] == edges;
    forall l ensures l in counts <==> exists e :: e in edges && Label(e) == l {
      LabelCountPositive(edges, l);
    }
  }

  /**
   * `summarize_graph`: counts the graph's nodes per resource type and its
   * edges per label; the graph is only read.
   */
  method SummarizeGraph(graph: FhirGraph) returns (s: Summary)
    ensures s.name == graph.name + "-summary"
    ensures forall t :: t in s.nodeCounts <==> exists k :: k in graph.nodes && graph.nodes[k].resourceType == t
    ensures forall t :: t in s.nodeCounts ==> s.nodeCounts[t] == |OfType(graph.nodes, graph.nodes.Keys, t)|
    ensures Total(s.nodeCounts) == |graph.nodes|
    ensures forall l :: l in s.edgeCounts <==> exists e :: e in graph.edges && Label(e) == l
    ensures forall l :: l in s.edgeCounts ==> s.edgeCounts[l] == LabelCount(graph.edges, l)
    ensures Total(s.edgeCounts) == |graph.edges|
  {
    var nodeCounts := CountNodeTypes(graph.nodes);
    var edgeCounts := CountEdgeLabels(graph.edges);
    s := Summary(graph.name + "-summary", nodeCounts, edgeCounts);
  }
}
