/**
 * What `summarize_graph` computes: per-type node counts and per-label edge
 * counts, where an edge's label is (source type, destination type, name) and
 * a type is the part of a node key before its first '/'.
 */
module SummarySpec {
  import opened FhirModel
  import opened References
  import opened BuildSpec

  /** The summary graph: its name, one node per resource type with its count, one edge per label with its count. */
  datatype Summary = Summary(name: string, nodeCounts: map<string, nat>, edgeCounts: map<EdgeInfo, nat>)

  /** `counts[k] += 1` on a `defaultdict(int)`. */
  function Bump<K>(counts: map<K, nat>, k: K): (bumped: map<K, nat>) {
    counts[k := (if k in counts then counts[k] else 0) + 1]
  }

  /** `counts[k]` on a `defaultdict(int)`: zero for a key never counted. */
  function Count<K>(counts: map<K, nat>, k: K): (n: nat) {
    if k in counts then counts[k] else 0
  }

  /** The sum of all counts. */
  ghost function Total<K>(counts: map<K, nat>): (t: nat)
    decreases |counts|
  {
    if counts == map[] then 0
    else
      var k :| k in counts;
      assert |counts - {k}| < |counts| by {
        assert (counts - {k}).Keys == counts.Keys - {k};
      }
      counts[k] + Total(counts - {k})
  }

  /** The label an edge is counted under. */
  function Label(e: Edge): (l: EdgeInfo) {
    EdgeInfo(FirstSegment(e.source), FirstSegment(e.destination), e.name)
  }

  /** How many of `edges` carry label `l`. */
  function LabelCount(edges: seq<Edge>, l: EdgeInfo): (n: nat)
    decreases |edges|
  {
    if edges == [] then 0
    else LabelCount(edges[..|edges| - 1], l) + if Label(edges[|edges| - 1]) == l then 1 else 0
  }

  /** The nodes among `keys` whose resource has type `t`. */
  function OfType(nodes: map<NodeKey, Resource>, keys: set<NodeKey>, t: string): (matching: set<NodeKey>) {
    set k | k in keys && k in nodes && nodes[k].resourceType == t
  }

  // ---------------------------------------------------------------------------
  // Lemmas

  /** Any count can be taken out first. */
  lemma TotalRemove<K>(counts: map<K, nat>, k: K)
    requires k in counts
    ensures Total(counts) == counts[k] + Total(counts - {k})
    decreases |counts|
  {
    var j :| j in counts && Total(counts) == counts[j] + Total(counts - {j});
    if j != k {
      assert (counts - {j}).Keys == counts.Keys - {j};
      assert (counts - {k}).Keys == counts.Keys - {k};
      TotalRemove(counts - {j}, k);
      TotalRemove(counts - {k}, j);
      assert counts - {j} - {k} == counts - {k} - {j};
    }
  }

  /** One increment adds one to the sum of the counts. */
  lemma TotalBump<K>(counts: map<K, nat>, k: K)
    ensures Total(Bump(counts, k)) == Total(counts) + 1
  {
    var b := Bump(counts, k);
    TotalRemove(b, k);
    assert b - {k} == counts - {k};
    if k in counts {
      TotalRemove(counts, k);
    } else {
      assert counts - {k} == counts;
    }
  }

  /** A label is counted at least once exactly when some edge carries it. */
  lemma {:induction false} LabelCountPositive(edges: seq<Edge>, l: EdgeInfo)
    ensures LabelCount(edges, l) > 0 <==> exists e :: e in edges && Label(e) == l
    decreases |edges|
  {
    if edges != [] {
      var n := |edges| - 1;
      LabelCountPositive(edges[..n], l);
      assert edges == edges[..n] + [edges[n]];
    }
  }

  /** Adding one more key to the scanned set adds it to the count of its own type only. */
  lemma OfTypeAdd(nodes: map<NodeKey, Resource>, keys: set<NodeKey>, k: NodeKey, t: string)
    requires k in nodes && k !in keys
    ensures |OfType(nodes, keys + {k}, t)| == |OfType(nodes, keys, t)| + if nodes[k].resourceType == t then 1 else 0
  {
    if nodes[k].resourceType == t {
      assert OfType(nodes, keys + {k}, t) == OfType(nodes, keys, t) + {k};
    } else {
      assert OfType(nodes, keys + {k}, t) == OfType(nodes, keys, t);
    }
  }

  /** Counting one more node keeps every type's count equal to the number of counted nodes of that type. */
  lemma CountNodeStep(nodes: map<NodeKey, Resource>, done: set<NodeKey>, counts: map<string, nat>, k: NodeKey)
    requires k in nodes && k !in done
    requires forall t :: Count(counts, t) == |OfType(nodes, done, t)|
    ensures forall t :: Count(Bump(counts, nodes[k].resourceType), t) == |OfType(nodes, done + {k}, t)|
  {
    forall t ensures Count(Bump(counts, nodes[k].resourceType), t) == |OfType(nodes, done + {k}, t)| {
      OfTypeAdd(nodes, done, k, t);
    }
  }

  /** Some node has type `t` exactly when the set of nodes of type `t` is not empty. */
  lemma OfTypePresent(nodes: map<NodeKey, Resource>, t: string)
    ensures |OfType(nodes, nodes.Keys, t)| > 0 <==> exists k :: k in nodes && nodes[k].resourceType == t
  {
    if exists k :: k in nodes && nodes[k].resourceType == t {
      var k :| k in nodes && nodes[k].resourceType == t;
      assert k in OfType(nodes, nodes.Keys, t);
    } else {
      assert OfType(nodes, nodes.Keys, t) == {};
    }
  }

  /**
   * For a built graph whose resource types hold no '/', every edge label's
   * source and destination types are types of nodes of the graph, so the
   * summary's edges join summary nodes.
   */
  lemma SummaryEdgeTypes(records: seq<Resource>)
    requires forall r :: r in records ==> '/' !in r.resourceType
    ensures forall e :: e in EdgesFor(PendingOf(records), NodesOf(records)) ==>
      var nodes := NodesOf(records);
      e.source in nodes && e.destination in nodes &&
      Label(e).source == nodes[e.source].resourceType &&
      Label(e).destination == nodes[e.destination].resourceType
  {
    var nodes := NodesOf(records);
    PendingSourcesAreNodes(records);
    EdgeEndpoints(PendingOf(records), nodes);
    NodesOfSpec(records);
    forall k | k in nodes ensures FirstSegment(k) == nodes[k].resourceType {
      KeyTypePrefix(nodes[k]);
    }
  }
}
