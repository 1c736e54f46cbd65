# FHIR reference graph, modelled in Dafny

This project models the reference-graph builder of the FHIR workshop
(`fhir_workshop/graph.py`) and the record-shape dispatch that feeds it
(`fhir_workshop/resources.py`). It proves the properties the builder relies on.

- **Reading.** A file parses as one JSON document or, failing that, line by
  line. `_sniff` chooses which raw values come out:
  - a bundle yields its entries' `resource`s (an `entry` that is not a list
    yields nothing, and fails unless it is empty);
  - any other object yields itself;
  - a list yields only its first element, and a string only its first
    character;
  - a null, boolean or number document fails, because it cannot be iterated;
  - a per-line file yields one value per line.

  `read_resources` asserts that each value has a `resourceType`. It then
  derives the model module `fhirclient.models.<lower-cased type>` and the
  class (the type unchanged).
- **First pass** (`load_graph` with `_process_fhir_file`).
  - Every record becomes a node keyed `<resourceType>/<id>`.
  - Its top-level attributes and resource-level extensions are scanned for
    references (`_find_references_in_variables`,
    `_find_references_in_extension`). Each reference found is appended to a
    pending list as `(source, destination, name)`.
- **Second pass.** For every pending entry whose destination is a node:
  - the destination's resource is stored in the source resource's
    resolution cache;
  - a forward edge `(s, d, name)` and a reverse edge `(d, s, name_)` are
    added.

  Entries whose destination is not a node are skipped.
- **Checks.** The build then demands, in this order:
  1. the node count equals the number of records read;
  2. that number is at least the caller's minimum;
  3. some edge exists.
- **Summary.** `summarize_graph` counts nodes per resource type, and edges per
  (source type, destination type, name). A type is the part of a key before
  its first `/`.
- **Resolving a reference.** `FHIRReference.resolved` is patched to a lookup
  in the owning resource's cache.

Modules, leaf first:

- `Wrappers`: `Option` and `Result`.
- `Folds`: two generic folds.
  - `InsertAll` inserts values into a map under a key function, a later value
    replacing an earlier one. It models networkx's `add_node` on a repeated
    key.
  - `FlatMap` concatenates per-element lists.
- `FhirModel`: the record abstraction, the node key and the `/`-segment
  helpers.
- `References`: the pending edges of one record, as functions. The two scanning
  loops are proved against them.
- `BuildSpec`: the two passes as functions of the records read, plus the
  build's invariants.
- `SummarySpec`: counters, sums and labels.
- `Resources`: `_sniff` and `read_resources` over a JSON datatype. A generator
  is modelled as a `Stream`: the values it yields, plus the error that
  stopped it.
- `Graph`: the multigraph as a class with fields `nodes`, `edges` and
  `cache`. The loops `_process_fhir_file`, the second pass, `load_graph` and
  `summarize_graph` are methods proved against `BuildSpec` and `SummarySpec`.

Some documented behaviour of the system is not what `graph.py` does. The model
follows the code:

- A record whose key is already a node replaces that node's resource (last
  write wins). A build with a repeated key then fails the node-count check. It
  does not keep the first record.
- A line that is not JSON, or a record without `resourceType`, aborts reading.
  It is not skipped.
- The code has no identifier-alias index, no type-specific nested "output"
  references and no nearest-node query. None of them is modelled.

## Model

| member | source | states |
|---|---|---|
| FhirModel.KeyOf | fhir_workshop/graph.py:67 | a node key is the resource type, then `/`, then the id |
| FhirModel.KeyTypePrefix | fhir_workshop/graph.py:67 | the part of a key before its first `/` is the resource type, when the type holds no `/` |
| FhirModel.FirstSegment | fhir_workshop/graph.py:120 | `split('/')[0]`: the text before the first `/`, or all of it when there is none (proved in FirstSegmentSpec) |
| FhirModel.LastSegment | fhir_workshop/graph.py:85 | `split('/')[-1]`: the text after the last `/`, or all of it when there is none (proved in LastSegmentSpec) |
| FhirModel.FirstSegmentSpec | fhir_workshop/graph.py:120 | `split('/')[0]` is the longest `/`-free prefix |
| FhirModel.LastSegmentSpec | fhir_workshop/graph.py:85 | `split('/')[-1]` is `/`-free and starts just after the last `/` (or at 0) |
| FhirModel.ItemsOf | fhir_workshop/graph.py:98-101 | a list is scanned as its elements; any other value as a one-element list |
| FhirModel.Truthy | fhir_workshop/graph.py:96 | Python truthiness of an attribute value: a reference is truthy, a list when non-empty, another value as it is |
| References.FindReferencesInVariables | fhir_workshop/graph.py:92-108 | the loop appends exactly the attribute edges in attribute order and returns true iff it appended one |
| References.ScanItems | fhir_workshop/graph.py:102-107 | the inner loop appends one edge per reference item, in list order, and reports whether it found one |
| References.ItemEdges | fhir_workshop/graph.py:102-107 | one pending edge per reference item of an attribute, under the attribute's name, in list order (proved in ItemEdgesSpec) |
| References.FieldEdges | fhir_workshop/graph.py:96-107 | one attribute's pending edges: none when its value is falsy, otherwise those of its items (proved in FieldEdgesSpec) |
| References.VariableEdges | fhir_workshop/graph.py:95-107 | the pending edges of the top-level attributes, attribute by attribute, each truthy attribute's reference items in list order |
| References.ExtEdge | fhir_workshop/graph.py:84-87 | the pending edge of one extension: one, named after the URL's last segment, when it has a `valueReference`, else none |
| References.ExtensionEdges | fhir_workshop/graph.py:83-87 | the pending edges of the extensions, in extension order |
| References.RecordEdges | fhir_workshop/graph.py:71-72 | a record's pending edges: the attribute scan's, then the extension scan's |
| References.FindReferencesInExtension | fhir_workshop/graph.py:79-89 | the loop appends exactly the extension edges and returns true iff some extension has a `valueReference` |
| References.ItemEdgesSpec | fhir_workshop/graph.py:102-107 | an attribute's edges are exactly its reference items, under its name, at most one per item |
| References.FieldEdgesSpec | fhir_workshop/graph.py:96-107 | an attribute contributes an edge iff it directly holds that reference under that name |
| References.VariableEdgesSpec | fhir_workshop/graph.py:95-107 | an edge is found iff some top-level attribute directly holds its reference; deeper references are never found |
| References.VariableEdgesAppend | fhir_workshop/graph.py:95 | scanning attributes keeps their order: the scan of a concatenation is the concatenation of the scans |
| References.FalsyFieldSkipped | fhir_workshop/graph.py:96-97 | a falsy attribute contributes nothing |
| References.ExtensionEdgesCount | fhir_workshop/graph.py:82-87 | one edge per extension carrying a `valueReference` |
| References.ExtensionEdgesNonEmpty | fhir_workshop/graph.py:84-89 | extension edges exist iff some extension carries a reference |
| References.ExtensionEdgesSpec | fhir_workshop/graph.py:83-87 | an extension edge exists iff an extension references its destination under the URL's last segment |
| References.ExtensionEdgeNames | fhir_workshop/graph.py:85 | extension edge names hold no `/` |
| References.RecordEdgesSource | fhir_workshop/graph.py:71-72 | every pending edge of a record has that record's key as source |
| Folds.InsertAllAppend | fhir_workshop/graph.py:40-41 | adding the nodes of several files in turn equals adding all their records at once |
| Folds.InsertedKey | fhir_workshop/graph.py:68 | every record's key is a node |
| Folds.StoredValue | fhir_workshop/graph.py:68 | every node holds a record read under that very key |
| Folds.LastValueWins | fhir_workshop/graph.py:68 | a node holds the last record read with its key |
| Folds.InsertAllSize | fhir_workshop/graph.py:68 | there are never more nodes than records |
| Folds.InsertAllCount | fhir_workshop/graph.py:68 | the node count equals the record count iff no two records share a key |
| Folds.FlatMapAppend | fhir_workshop/graph.py:40-41 | the pending list of several files is the concatenation of their pending lists |
| Folds.FlatMapMember | fhir_workshop/graph.py:71-72 | a pending edge is pending iff some record contributed it |
| BuildSpec.NodesOf | fhir_workshop/graph.py:65-68 | the node map after adding every record read, in order, under its key |
| BuildSpec.PendingOf | fhir_workshop/graph.py:65-72 | the pending list after scanning every record read, in order |
| BuildSpec.NodesOfSpec | fhir_workshop/graph.py:67-68 | node keys are exactly the records' keys; each node holds a record with its key, the last one read |
| BuildSpec.PendingSourcesAreNodes | fhir_workshop/graph.py:44 | every pending edge's source is a node, so the "source must exist" assertion never fails |
| BuildSpec.NodeCount | fhir_workshop/graph.py:56 | node count ≤ records read, with equality iff all keys are distinct |
| BuildSpec.ResolveReference | fhir_workshop/graph.py:16-28 | no owner raises; an uncached key gives None; a cached key gives its resource |
| BuildSpec.Forward | fhir_workshop/graph.py:52 | the forward edge of a pending entry, with its name |
| BuildSpec.Reverse | fhir_workshop/graph.py:54 | the reverse edge of a pending entry, named with a trailing `_` |
| BuildSpec.EdgesFor | fhir_workshop/graph.py:42-54 | the edges the second pass adds: the forward and the reverse edge of each pending entry whose destination is a node, in order |
| BuildSpec.Store | fhir_workshop/graph.py:51 | `didResolveReference`: the owner's cache maps the destination key to the destination's resource, other entries kept |
| BuildSpec.CacheAfter | fhir_workshop/graph.py:42-51 | the caches after the second pass: one store per pending entry whose destination is a node, in order |
| BuildSpec.MissingDestinationSkipped | fhir_workshop/graph.py:46-48 | an entry whose destination is not a node adds no edge and no cache entry |
| BuildSpec.ResolvedSpec | fhir_workshop/graph.py:42-48 | the resolved entries are exactly the pending entries whose destination is a node |
| BuildSpec.EdgesForShape | fhir_workshop/graph.py:52-54 | the k-th resolved entry adds its forward edge at 2k and its reverse edge at 2k+1, and nothing else is added |
| BuildSpec.Bidirectional | fhir_workshop/graph.py:52-54 | an edge exists iff it is the forward or the `_`-named reverse edge of a resolvable pending entry |
| BuildSpec.EdgeEndpoints | fhir_workshop/graph.py:44-54 | both ends of every edge are nodes |
| BuildSpec.CacheHit | fhir_workshop/graph.py:49-51 | after the build the source's cache maps each resolved destination key to the destination's resource |
| BuildSpec.CacheEntry | fhir_workshop/graph.py:49-51 | every cache entry holds a node's resource and comes from a pending entry from that owner |
| BuildSpec.ResolveAfterBuild | fhir_workshop/graph.py:16-28 | after the build, `resolved()` returns the destination's resource for a resolved reference and None for a key that is not a node |
| BuildSpec.BuildChecks | fhir_workshop/graph.py:56-58 | the three checks pass iff keys are distinct, enough records were read and some pending edge resolved |
| SummarySpec.TotalRemove | fhir_workshop/graph.py:114 | the sum of a counter's counts can be taken in any order |
| SummarySpec.TotalBump | fhir_workshop/graph.py:118 | one `+= 1` raises the sum of the counts by one |
| SummarySpec.Bump | fhir_workshop/graph.py:118 | `counts[k] += 1` on a `defaultdict(int)` |
| SummarySpec.Label | fhir_workshop/graph.py:120 | the label an edge is counted under: the key prefixes of its ends before the first `/`, and its name |
| SummarySpec.LabelCountPositive | fhir_workshop/graph.py:120 | a label has a positive count iff some edge carries it |
| SummarySpec.OfTypeAdd | fhir_workshop/graph.py:116-118 | counting one more node adds one to its own type only |
| SummarySpec.CountNodeStep | fhir_workshop/graph.py:116-118 | after each increment, every type's count is the number of nodes counted with that type |
| SummarySpec.OfTypePresent | fhir_workshop/graph.py:116-118 | a type has nodes iff some node has that type |
| SummarySpec.SummaryEdgeTypes | fhir_workshop/graph.py:120-125 | in a built graph with `/`-free types, each summary edge joins the types of its edge's end nodes |
| Graph.FhirGraph.constructor | fhir_workshop/graph.py:37 | a new graph is empty and named |
| Graph.ReadRecords | fhir_workshop/graph.py:40-41 | all records read, file after file |
| Graph.FhirGraph.ProcessFile | fhir_workshop/graph.py:63-76 | adds every record as a node, appends its pending edges, counts one per record, and leaves edges and caches alone |
| Graph.FhirGraph.ResolvePending | fhir_workshop/graph.py:42-55 | adds exactly the forward and reverse edges of the resolvable entries, fills the caches accordingly and leaves the nodes alone |
| Graph.LoadGraph | fhir_workshop/graph.py:34-60 | a read error of the first failing file aborts with that error; otherwise the three checks are made in order, success iff all three hold; on success the graph's nodes, edges and caches are those of the two passes |
| Graph.CountNodeTypes | fhir_workshop/graph.py:114-118 | each type present is counted once, with its number of nodes, and the counts sum to the node count |
| Graph.CountEdgeLabels | fhir_workshop/graph.py:115-120 | each label present is counted once, with its number of edges, and the counts sum to the edge count |
| Graph.SummarizeGraph | fhir_workshop/graph.py:111-128 | the summary is named `<name>-summary` and holds both sets of counts; the graph is only read |
| Resources.Drain | fhir_workshop/resources.py:40-50 | a generator loop yields each step's value in order and stops with the first step's error |
| Resources.EntryResource | fhir_workshop/resources.py:21 | `entry['resource']` succeeds iff the entry is an object with a `resource` member |
| Resources.BundleEntries | fhir_workshop/resources.py:20-21 | the loop over a bundle's `entry`: a list yields each entry's `resource`; an empty object or string yields nothing; a non-empty one fails at `['resource']`; a scalar cannot be iterated |
| Resources.LineValue | fhir_workshop/resources.py:34-35 | one line of a per-line file: its value, or the parse error |
| Resources.Sniff | fhir_workshop/resources.py:12-35 | a whole-file document other than a bundle yields at most one value |
| Resources.BundleYieldsResources | fhir_workshop/resources.py:18-22 | a bundle yields its entries' resources in order and nothing else; it reads them all iff every entry has one |
| Resources.SingleObject | fhir_workshop/resources.py:23-26 | an object without `entry` is yielded once as it is |
| Resources.ListFirstOnly | fhir_workshop/resources.py:27-30 | a list yields only its first element; an empty list yields nothing |
| Resources.StringFirstCharOnly | fhir_workshop/resources.py:27-30 | a string document yields only its first character, as a one-character string; an empty one yields nothing |
| Resources.ScalarDocumentFails | fhir_workshop/resources.py:27 | a null, boolean or number document yields nothing and fails as not iterable |
| Resources.BundleEntryNotList | fhir_workshop/resources.py:20-21 | a bundle whose `entry` is not a list yields nothing; it ends cleanly only for an empty object or string, and otherwise fails as not subscriptable or not iterable |
| Resources.PerLineInOrder | fhir_workshop/resources.py:31-35 | a per-line file yields its lines in order, all of them iff every line parses |
| Resources.IsSubstring | fhir_workshop/resources.py:42 | Python's `in` on two strings: the needle occurs at some position of the haystack |
| Resources.Marshal | fhir_workshop/resources.py:42-47 | a value is accepted iff it is an object with a string `resourceType`; the class is the type, the module is the package plus the lower-cased type |
| Resources.ReadResources | fhir_workshop/resources.py:38-50 | records are the accepted sniffed values in order; reading stops at the first rejected value with its error, or ends as sniffing ended |
| Resources.EveryRecordTyped | fhir_workshop/resources.py:42-47 | every record read has a string `resourceType` that names its class and, lower-cased, its module |
| Resources.UntypedRecordFails | fhir_workshop/resources.py:42 | the first value without `resourceType` ends reading with the assertion error |
| Resources.Lower | fhir_workshop/resources.py:44 | lower-casing keeps the length |
| Resources.LowerSpec | fhir_workshop/resources.py:44 | lower-casing leaves no ASCII capital, changes nothing else and is idempotent |

## Left out

- `draw_graph`: matplotlib rendering and floating-point layout.
- The HTTP client in `anvil/clients/kf_curl.py`, the manifest and fixture path lists, and the integration tests.
- File opening, `json.load`/`json.loads` and `seek`. The outcome of parsing is an input (`FileParse`).
- `importlib.import_module`, `getattr` and fhirclient's class construction and strict-mode validation. Reading yields the module and class names (`ModelRef`). The graph takes the constructed records as input (`Resource`), so failures of the import or of construction are not modelled.
- fhirclient's `processedReferenceIdentifier` and `owningResource`. A reference carries its identifier as an opaque string, and the owner is an optional node key.
- Logging, including the "no references found" and "no destination" warnings. The booleans the scans return are computed but only feed logging.
- networkx internals. The multigraph is a node map plus an edge sequence, and edge keys are not modelled.
- The resolution caches live on the resource objects. Here they are one map on the graph, keyed by the owning node's key. That is the same thing, because a node's resource object is fixed once the first pass ends.
- Resources.Lower: does not model Unicode case mapping; only ASCII `A`–`Z` are lower-cased.
- Resources.Sniff: its own contract states only the at-most-one-value bound; each shape is covered by its own lemma (BundleYieldsResources, BundleEntryNotList, SingleObject, ListFirstOnly, StringFirstCharOnly, ScalarDocumentFails, PerLineInOrder).
- FhirModel.KeyTypePrefix and SummarySpec.SummaryEdgeTypes: they assume resource types hold no `/`. The code does not check this.
- FhirModel.KeyOf: `Resource.id` is the id as the f-string prints it, so a resource without an `id` carries the text `None`. Several such records of one type share the key `<type>/None`, collapse to one node and make the node-count check fail, which the model reproduces without treating absence separately.
- References.ItemEdges: a reference that has an `identifier` but no `reference` text makes `processedReferenceIdentifier()` return `None`. This holds in both scans. The model represents it by a `refId` that is no node key (any text without `/` will do, since every key holds one), so its pending entry is kept and then skipped in the second pass like any other missing destination.
- The typed-record abstraction covers top-level attributes and resource-level extensions only. References nested inside other values are represented only by their truthiness, which is exactly what the scan sees.
