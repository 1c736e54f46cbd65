/**
 * What `load_graph` computes, as functions of the resources it reads: the
 * node map after the first pass, the pending edge list, and the edges and
 * resolution caches after the second pass; with the lemmas that give the
 * build its invariants.
 */
module BuildSpec {
  import opened Wrappers
  import opened FhirModel
  import opened References
  import opened Folds

  /** A multigraph edge with its `name` attribute. */
  datatype Edge = Edge(source: NodeKey, destination: NodeKey, name: string)

  /** The per-resource resolution caches, keyed by the owning node's key, each mapping a resolved key to the resource found there. */
  type Cache = map<NodeKey, map<NodeKey, Resource>>

  // ---------------------------------------------------------------------------
  // First pass: nodes and pending edges

  /**
   * The node map after adding each resource as node `KeyOf(r)`, in order;
   * re-adding an existing key replaces its resource.
   */
  function NodesOf(records: seq<Resource>): (nodes: map<NodeKey, Resource>) {
    InsertAll(map[], records, KeyOf)
  }

  /** The pending edge list after scanning `records` in order. */
  function PendingOf(records: seq<Resource>): (pending: seq<EdgeInfo>) {
    FlatMap(records, RecordEdges)
  }

  predicate DistinctKeys(records: seq<Resource>) {
    DistinctBy(records, KeyOf)
  }

  // ---------------------------------------------------------------------------
  // Second pass: edges and resolution caches

  function Forward(p: EdgeInfo): (e: Edge) {
    Edge(p.source, p.destination, p.name)
  }

  /** The reverse link added for every resolved reference, named with a trailing `_`. */
  function Reverse(p: EdgeInfo): (e: Edge) {
    Edge(p.destination, p.source, p.name + "_")
  }

  /** The edges the second pass adds for `pending`: a forward and a reverse edge per resolvable entry. */
  function EdgesFor(pending: seq<EdgeInfo>, nodes: map<NodeKey, Resource>): (edges: seq<Edge>)
    decreases |pending|
  {
    if pending == [] then []
    else
      var p := pending[|pending| - 1];
      EdgesFor(pending[..|pending| - 1], nodes) +
      if p.destination in nodes then [Forward(p), Reverse(p)] else []
  }

  /** The pending entries whose destination is a node, in order. */
  function Resolved(pending: seq<EdgeInfo>, nodes: map<NodeKey, Resource>): (resolved: seq<EdgeInfo>)
    decreases |pending|
  {
    if pending == [] then []
    else
      var p := pending[|pending| - 1];
      Resolved(pending[..|pending| - 1], nodes) + if p.destination in nodes then [p] else []
  }

  /** `didResolveReference`: the owner's cache maps the resolved key to the resource. */
  function Store(cache: Cache, owner: NodeKey, refId: NodeKey, r: Resource): (c: Cache) {
    cache[owner := (if owner in cache then cache[owner] else map[])[refId := r]]
  }

  /** The caches after the second pass has walked `pending`. */
  function CacheAfter(cache: Cache, pending: seq<EdgeInfo>, nodes: map<NodeKey, Resource>): (c: Cache)
    decreases |pending|
  {
    if pending == [] then cache
    else
      var p := pending[|pending| - 1];
      var c := CacheAfter(cache, pending[..|pending| - 1], nodes);
      if p.destination in nodes then Store(c, p.source, p.destination, nodes[p.destination]) else c
  }

  datatype ResolveError = NoOwningResource

  /**
   * `FHIRReference.resolved`, replaced by a lookup in the owning resource's
   * cache: an error without an owner, nothing when the key was never cached.
   */
  function ResolveReference(cache: Cache, owner: Option<NodeKey>, refId: NodeKey): (r: Result<Option<Resource>, ResolveError>)
    ensures r.Failure? <==> owner.None?
    ensures r == Success(None) <==> owner.Some? && (owner.value !in cache || refId !in cache[owner.value])
    ensures owner.Some? && owner.value in cache && refId in cache[owner.value] ==>
      r == Success(Some(cache[owner.value][refId]))
  {
    match owner
    case None => Failure(NoOwningResource)
    case Some(o) =>
      if o in cache && refId in cache[o] then Success(Some(cache[o][refId])) else Success(None)
  }

  // ---------------------------------------------------------------------------
  // First-pass lemmas

  /**
   * The node keys are exactly the keys of the resources read; each node holds
   * the last resource read under its key.
   */
  lemma NodesOfSpec(records: seq<Resource>)
    ensures forall i :: 0 <= i < |records| ==> KeyOf(records[i]) in NodesOf(records)
    ensures forall k :: k in NodesOf(records) ==> KeyOf(NodesOf(records)[k]) == k && NodesOf(records)[k] in records
    ensures forall i :: 0 <= i < |records| && LastWithKey(records, KeyOf, i) ==>
      NodesOf(records)[KeyOf(records[i])] == records[i]
  {
    forall i | 0 <= i < |records| ensures KeyOf(records[i]) in NodesOf(records) {
      InsertedKey(records, KeyOf, i);
    }
    forall k | k in NodesOf(records) ensures KeyOf(NodesOf(records)[k]) == k && NodesOf(records)[k] in records {
      StoredValue(records, KeyOf, k);
    }
    forall i | 0 <= i < |records| && LastWithKey(records, KeyOf, i)
      ensures NodesOf(records)[KeyOf(records[i])] == records[i]
    {
      LastValueWins(records, KeyOf, i);
    }
  }

  /** Every pending edge starts at an existing node, so the "source must exist" assertion of the second pass holds. */
  lemma PendingSourcesAreNodes(records: seq<Resource>)
    ensures forall e :: e in PendingOf(records) ==> e.source in NodesOf(records)
  {
    forall e | e in PendingOf(records) ensures e.source in NodesOf(records) {
      FlatMapMember(records, RecordEdges, e);
      var i :| 0 <= i < |records| && e in RecordEdges(records[i]);
      RecordEdgesSource(records[i]);
      InsertedKey(records, KeyOf, i);
    }
  }

  /**
   * The node count never exceeds the number of resources read, and equals it
   * exactly when no two resources share a key.
   */
  lemma NodeCount(records: seq<Resource>)
    ensures |NodesOf(records)| <= |records|
    ensures |NodesOf(records)| == |records| <==> DistinctKeys(records)
  {
    InsertAllSize(records, KeyOf);
    InsertAllCount(records, KeyOf);
  }

  // ---------------------------------------------------------------------------
  // Second-pass lemmas

  /** Resolved entries are exactly the pending entries whose destination is a node. */
  lemma {:induction false} ResolvedSpec(pending: seq<EdgeInfo>, nodes: map<NodeKey, Resource>)
    ensures |Resolved(pending, nodes)| <= |pending|
    ensures forall p :: p in Resolved(pending, nodes) <==> p in pending && p.destination in nodes
    decreases |pending|
  {
    if pending != [] {
      var n := |pending| - 1;
      ResolvedSpec(pending[..n], nodes);
      assert pending == pending[..n] + [pending[n]];
    }
  }

  /** A pending entry whose destination is not a node adds no edge and no cache entry; the pass goes on. */
  lemma MissingDestinationSkipped(cache: Cache, pending: seq<EdgeInfo>, p: EdgeInfo, nodes: map<NodeKey, Resource>)
    requires p.destination !in nodes
    ensures EdgesFor(pending + [p], nodes) == EdgesFor(pending, nodes)
    ensures CacheAfter(cache, pending + [p], nodes) == CacheAfter(cache, pending, nodes)
  {
    assert (pending + [p])[..|pending|] == pending;
  }

  /**
   * The second pass adds, for the k-th resolvable pending entry and nothing
   * else, its forward edge at position 2k and its reverse edge at 2k+1.
   */
  lemma {:induction false} EdgesForShape(pending: seq<EdgeInfo>, nodes: map<NodeKey, Resource>)
    ensures |EdgesFor(pending, nodes)| == 2 * |Resolved(pending, nodes)|
    ensures forall k :: 0 <= k < |Resolved(pending, nodes)| ==>
      EdgesFor(pending, nodes)[2 * k] == Forward(Resolved(pending, nodes)[k]) &&
      EdgesFor(pending, nodes)[2 * k + 1] == Reverse(Resolved(pending, nodes)[k])
    decreases |pending|
  {
    if pending != [] {
      var n := |pending| - 1;
      EdgesForShape(pending[..n], nodes);
    }
  }

  /**
   * Bidirectionality: an edge exists exactly when it is the forward or the
   * reverse edge of a pending entry whose destination is a node.
   */
  lemma Bidirectional(pending: seq<EdgeInfo>, nodes: map<NodeKey, Resource>)
    ensures forall e :: e in EdgesFor(pending, nodes) <==>
      exists p :: p in pending && p.destination in nodes && (e == Forward(p) || e == Reverse(p))
  {
    var E, R := EdgesFor(pending, nodes), Resolved(pending, nodes);
    EdgesForShape(pending, nodes);
    ResolvedSpec(pending, nodes);
    forall e | e in E
      ensures exists p :: p in pending && p.destination in nodes && (e == Forward(p) || e == Reverse(p))
    {
      var i :| 0 <= i < |E| && E[i] == e;
      var k := i / 2;
      assert i == 2 * k || i == 2 * k + 1;
      assert R[k] in R;
    }
    forall p | p in pending && p.destination in nodes
      ensures Forward(p) in E && Reverse(p) in E
    {
      var k :| 0 <= k < |R| && R[k] == p;
      assert E[2 * k] == Forward(p);
      assert E[2 * k + 1] == Reverse(p);
    }
  }

  /** Edges never add nodes: both ends of every edge are nodes when every pending source is. */
  lemma {:induction false} EdgeEndpoints(pending: seq<EdgeInfo>, nodes: map<NodeKey, Resource>)
    requires forall p :: p in pending ==> p.source in nodes
    ensures forall e :: e in EdgesFor(pending, nodes) ==> e.source in nodes && e.destination in nodes
    decreases |pending|
  {
    if pending != [] {
      var n := |pending| - 1;
      assert forall p :: p in pending[..n] ==> p in pending;
      EdgeEndpoints(pending[..n], nodes);
      assert pending[n] in pending;
    }
  }

  /**
   * After the second pass, the owner of every resolvable pending entry caches
   * the destination's resource under the destination key.
   */
  lemma {:induction false} CacheHit(pending: seq<EdgeInfo>, nodes: map<NodeKey, Resource>, i: int)
    requires 0 <= i < |pending| && pending[i].destination in nodes
    ensures pending[i].source in CacheAfter(map[], pending, nodes)
    ensures pending[i].destination in CacheAfter(map[], pending, nodes)[pending[i].source]
    ensures CacheAfter(map[], pending, nodes)[pending[i].source][pending[i].destination] == nodes[pending[i].destination]
    decreases |pending|
  {
    var n := |pending| - 1;
    if i < n {
      CacheHit(pending[..n], nodes, i);
      assert pending[..n][i] == pending[i];
    }
  }

  /**
   * Every cache entry holds the resource of an existing node and was stored
   * for a pending entry from that owner to that key.
   */
  lemma {:induction false} CacheEntry(pending: seq<EdgeInfo>, nodes: map<NodeKey, Resource>, s: NodeKey, d: NodeKey)
    requires s in CacheAfter(map[], pending, nodes) && d in CacheAfter(map[], pending, nodes)[s]
    ensures d in nodes && CacheAfter(map[], pending, nodes)[s][d] == nodes[d]
    ensures exists i :: 0 <= i < |pending| && pending[i].source == s && pending[i].destination == d
    decreases |pending|
  {
    if pending != [] {
      var n := |pending| - 1;
      var init, p := pending[..n], pending[n];
      if !(p.destination in nodes && p.source == s && p.destination == d) {
        CacheEntry(init, nodes, s, d);
        var i :| 0 <= i < |init| && init[i].source == s && init[i].destination == d;
        assert pending[i] == init[i];
      }
    }
  }

  /**
   * What `resolved()` answers after the build: the destination's resource for
   * every resolvable pending entry, and nothing for a key that is not a node.
   */
  lemma ResolveAfterBuild(pending: seq<EdgeInfo>, nodes: map<NodeKey, Resource>)
    ensures forall p :: p in pending && p.destination in nodes ==>
      ResolveReference(CacheAfter(map[], pending, nodes), Some(p.source), p.destination) == Success(Some(nodes[p.destination]))
    ensures forall s, d :: d !in nodes ==> ResolveReference(CacheAfter(map[], pending, nodes), Some(s), d) == Success(None)
  {
    var c := CacheAfter(map[], pending, nodes);
    forall p | p in pending && p.destination in nodes
      ensures ResolveReference(c, Some(p.source), p.destination) == Success(Some(nodes[p.destination]))
    {
      var i :| 0 <= i < |pending| && pending[i] == p;
      CacheHit(pending, nodes, i);
    }
    forall s, d | d !in nodes
      ensures ResolveReference(c, Some(s), d) == Success(None)
    {
      if s in c && d in c[s] {
        CacheEntry(pending, nodes, s, d);
      }
    }
  }

  /**
   * The three checks at the end of `load_graph` pass exactly when the keys
   * read are distinct, enough resources were read, and at least one pending
   * edge reached an existing node.
   */
  lemma BuildChecks(records: seq<Resource>, expected: int)
    ensures (|NodesOf(records)| == |records| && |records| >= expected && |EdgesFor(PendingOf(records), NodesOf(records))| > 0)
      <==> (DistinctKeys(records) && |records| >= expected && Resolved(PendingOf(records), NodesOf(records)) != [])
  {
    NodeCount(records);
    EdgesForShape(PendingOf(records), NodesOf(records));
  }
}
