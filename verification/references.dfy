/**
 * Reference discovery for one resource (`_find_references_in_variables` and
 * `_find_references_in_extension`): the pending edges a resource contributes,
 * defined as functions, and the loops that append them to the shared pending
 * list, proved against those functions.
 */
module References {
  import opened Wrappers
  import opened FhirModel

  /** A discovered reference not yet inserted into the graph. */
  datatype EdgeInfo = EdgeInfo(source: NodeKey, destination: NodeKey, name: string)

  /** The pending edges found among one attribute's items, in list order. */
  function ItemEdges(key: NodeKey, name: string, items: seq<Item>): (edges: seq<EdgeInfo>)
    decreases |items|
  {
    if items == [] then []
    else
      ItemEdges(key, name, items[..|items| - 1]) +
      match items[|items| - 1]
      case Reference(refId) => [EdgeInfo(key, refId, name)]
      case Other(_) => []
  }

  /** The pending edges one attribute contributes: none when its value is falsy. */
  function FieldEdges(key: NodeKey, f: Field): (edges: seq<EdgeInfo>) {
    if Truthy(f.value) then ItemEdges(key, f.name, ItemsOf(f.value)) else []
  }

  /** The pending edges found in the top-level attributes, in attribute order. */
  function VariableEdges(key: NodeKey, fields: seq<Field>): (edges: seq<EdgeInfo>)
    decreases |fields|
  {
    if fields == [] then []
    else VariableEdges(key, fields[..|fields| - 1]) + FieldEdges(key, fields[|fields| - 1])
  }

  /** The pending edge one extension contributes: one when it carries a `valueReference`. */
  function ExtEdge(key: NodeKey, e: Extension): (edges: seq<EdgeInfo>) {
    match e.valueReference
    case Some(refId) => [EdgeInfo(key, refId, LastSegment(e.url))]
    case None => []
  }

  /** The pending edges found in the resource-level extensions, in extension order. */
  function ExtensionEdges(key: NodeKey, exts: seq<Extension>): (edges: seq<EdgeInfo>)
    decreases |exts|
  {
    if exts == [] then []
    else ExtensionEdges(key, exts[..|exts| - 1]) + ExtEdge(key, exts[|exts| - 1])
  }

  /** Everything one resource contributes: attributes first, then extensions. */
  function RecordEdges(r: Resource): (edges: seq<EdgeInfo>) {
    VariableEdges(KeyOf(r), r.fields) + ExtensionEdges(KeyOf(r), r.extension)
  }

  /** Whether some extension carries a reference. */
  predicate HasExtensionReference(exts: seq<Extension>) {
    exists i :: 0 <= i < |exts| && exts[i].valueReference.Some?
  }

  // ---------------------------------------------------------------------------
  // The scanning loops

  /** `_find_references_in_variables`: appends one edge per reference item of each truthy attribute. */
  method FindReferencesInVariables(edges: seq<EdgeInfo>, key: NodeKey, resource: Resource)
    returns (edges': seq<EdgeInfo>, hasReference: bool)
    ensures edges' == edges + VariableEdges(key, resource.fields)
    ensures hasReference <==> VariableEdges(key, resource.fields) != []
  {
    var fields := resource.fields;
    edges', hasReference := edges, false;
    var i := 0;
    while i < |fields|
      invariant 0 <= i <= |fields|
      invariant edges' == edges + VariableEdges(key, fields[..i])
      invariant hasReference <==> VariableEdges(key, fields[..i]) != []
    {
      var f := fields[i];
      assert fields[..i + 1][..i] == fields[..i];
      if Truthy(f.value) {
        var found;
        AppendAssoc(edges, VariableEdges(key, fields[..i]), ItemEdges(key, f.name, ItemsOf(f.value)));
        edges', found := ScanItems(edges', key, f.name, ItemsOf(f.value));
        hasReference := hasReference || found;
      }
      i := i + 1;
    }
    assert fields[..|fields|] == fields;
  }

  /** The inner loop of `_find_references_in_variables`: the reference items of one attribute, in list order. */
  method ScanItems(edges: seq<EdgeInfo>, key: NodeKey, name: string, items: seq<Item>)
    returns (edges': seq<EdgeInfo>, hasReference: bool)
    ensures edges' == edges + ItemEdges(key, name, items)
    ensures hasReference <==> ItemEdges(key, name, items) != []
  {
    edges', hasReference := edges, false;
    var j := 0;
    while j < |items|
      invariant 0 <= j <= |items|
      invariant edges' == edges + ItemEdges(key, name, items[..j])
      invariant hasReference <==> ItemEdges(key, name, items[..j]) != []
    {
      assert items[..j + 1][..j] == items[..j];
      if items[j].Reference? {
        AppendAssoc(edges, ItemEdges(key, name, items[..j]), [EdgeInfo(key, items[j].refId, name)]);
        edges' := edges' + [EdgeInfo(key, items[j].refId, name)];
        hasReference := true;
      }
      j := j + 1;
    }
    assert items[..|items|] == items;
  }

  /** `_find_references_in_extension`: appends one edge per extension holding a `valueReference`, named after the URL's last segment. */
  method FindReferencesInExtension(edges: seq<EdgeInfo>, key: NodeKey, resource: Resource)
    returns (edges': seq<EdgeInfo>, hasReference: bool)
    ensures edges' == edges + ExtensionEdges(key, resource.extension)
    ensures hasReference <==> HasExtensionReference(resource.extension)
  {
    var exts := resource.extension;
    edges', hasReference := edges, false;
    var i := 0;
    while i < |exts|
      invariant 0 <= i <= |exts|
      invariant edges' == edges + ExtensionEdges(key, exts[..i])
      invariant hasReference <==> ExtensionEdges(key, exts[..i]) != []
    {
      assert exts[..i + 1][..i] == exts[..i];
      var e := exts[i];
      if e.valueReference.Some? {
        AppendAssoc(edges, ExtensionEdges(key, exts[..i]), [EdgeInfo(key, e.valueReference.value, LastSegment(e.url))]);
        edges' := edges' + [EdgeInfo(key, e.valueReference.value, LastSegment(e.url))];
        hasReference := true;
      }
      i := i + 1;
    }
    assert exts[..|exts|] == exts;
    ExtensionEdgesNonEmpty(key, exts);
  }

  lemma AppendAssoc<T>(a: seq<T>, b: seq<T>, c: seq<T>)
    ensures a + b + c == a + (b + c)
  {
  }

  // ---------------------------------------------------------------------------
  // What the scans find

  /** An attribute's items yield exactly their references, each once, under the attribute's name. */
  lemma {:induction false} ItemEdgesSpec(key: NodeKey, name: string, items: seq<Item>)
    ensures |ItemEdges(key, name, items)| <= |items|
    ensures forall e :: e in ItemEdges(key, name, items) <==>
      e.source == key && e.name == name && Reference(e.destination) in items
    decreases |items|
  {
    if items != [] {
      var init := items[..|items| - 1];
      ItemEdgesSpec(key, name, init);
      assert items == init + [items[|items| - 1]];
    }
  }

  /** Attribute `f` holds, directly, the reference that pending edge `e` records, under `e`'s name. */
  predicate FieldDeclares(f: Field, e: EdgeInfo) {
    f.name == e.name && Reference(e.destination) in ItemsOf(f.value)
  }

  lemma FieldEdgesSpec(key: NodeKey, f: Field, e: EdgeInfo)
    ensures e in FieldEdges(key, f) <==> e.source == key && FieldDeclares(f, e)
  {
    ItemEdgesSpec(key, f.name, ItemsOf(f.value));
  }

  /**
   * The attribute scan finds exactly the reference items held directly by a
   * top-level attribute (in a list or alone), each named after its attribute,
   * all with the scanned node as source.
   */
  lemma {:induction false} VariableEdgesSpec(key: NodeKey, fields: seq<Field>, e: EdgeInfo)
    ensures e in VariableEdges(key, fields) <==>
      e.source == key && exists i :: 0 <= i < |fields| && FieldDeclares(fields[i], e)
    decreases |fields|
  {
    if fields != [] {
      var n := |fields| - 1;
      var init, last := fields[..n], fields[n];
      assert VariableEdges(key, fields) == VariableEdges(key, init) + FieldEdges(key, last);
      VariableEdgesSpec(key, init, e);
      FieldEdgesSpec(key, last, e);
      if e in VariableEdges(key, init) {
        var i :| 0 <= i < |init| && FieldDeclares(init[i], e);
        assert fields[i] == init[i];
      }
      if e.source == key && exists i :: 0 <= i < |fields| && FieldDeclares(fields[i], e) {
        var i :| 0 <= i < |fields| && FieldDeclares(fields[i], e);
        if i < n {
          assert init[i] == fields[i];
        }
      }
    }
  }

  /** The attribute scan keeps attribute order: scanning a concatenation concatenates the scans. */
  lemma {:induction false} VariableEdgesAppend(key: NodeKey, a: seq<Field>, b: seq<Field>)
    ensures VariableEdges(key, a + b) == VariableEdges(key, a) + VariableEdges(key, b)
    decreases |b|
  {
    if b != [] {
      var n := |b| - 1;
      assert (a + b)[..|a + b| - 1] == a + b[..n];
      VariableEdgesAppend(key, a, b[..n]);
    } else {
      assert a + b == a;
    }
  }

  /** A falsy attribute contributes nothing, whatever it would hold. */
  lemma FalsyFieldSkipped(key: NodeKey, fields: seq<Field>, f: Field)
    requires !Truthy(f.value)
    ensures VariableEdges(key, fields + [f]) == VariableEdges(key, fields)
  {
    assert (fields + [f])[..|fields|] == fields;
  }

  /** The extension scan emits one edge per extension carrying a reference. */
  lemma {:induction false} ExtensionEdgesCount(key: NodeKey, exts: seq<Extension>)
    ensures |ExtensionEdges(key, exts)| == |set i | 0 <= i < |exts| && exts[i].valueReference.Some?|
    decreases |exts|
  {
    if exts != [] {
      var n := |exts| - 1;
      var init := exts[..n];
      ExtensionEdgesCount(key, init);
      var s := set i | 0 <= i < |exts| && exts[i].valueReference.Some?;
      var s0 := set i | 0 <= i < |init| && init[i].valueReference.Some?;
      if exts[n].valueReference.Some? {
        assert s == s0 + {n};
      } else {
        assert s == s0;
      }
    }
  }

  /** The extension scan emits something exactly when some extension carries a reference. */
  lemma {:induction false} ExtensionEdgesNonEmpty(key: NodeKey, exts: seq<Extension>)
    ensures ExtensionEdges(key, exts) != [] <==> HasExtensionReference(exts)
    decreases |exts|
  {
    if exts != [] {
      var n := |exts| - 1;
      var init := exts[..n];
      ExtensionEdgesNonEmpty(key, init);
      if HasExtensionReference(exts) && !exts[n].valueReference.Some? {
        var k :| 0 <= k < |exts| && exts[k].valueReference.Some?;
        assert init[k] == exts[k];
      }
      if HasExtensionReference(init) {
        var k :| 0 <= k < |init| && init[k].valueReference.Some?;
        assert exts[k] == init[k];
      }
    }
  }

  /** Extension `x` carries the reference that pending edge `e` records, under the last segment of its URL. */
  predicate ExtensionDeclares(x: Extension, e: EdgeInfo) {
    x.valueReference == Some(e.destination) && e.name == LastSegment(x.url)
  }

  /**
   * The extension scan finds exactly the references carried by resource-level
   * extensions, each named after the last '/'-segment of the extension URL,
   * all with the scanned node as source.
   */
  lemma {:induction false} ExtensionEdgesSpec(key: NodeKey, exts: seq<Extension>)
    ensures forall e :: e in ExtensionEdges(key, exts) <==>
      e.source == key && exists i :: 0 <= i < |exts| && ExtensionDeclares(exts[i], e)
    decreases |exts|
  {
    if exts != [] {
      var n := |exts| - 1;
      var init := exts[..n];
      ExtensionEdgesSpec(key, init);
      forall e: EdgeInfo | e.source == key && exists i :: 0 <= i < |exts| && ExtensionDeclares(exts[i], e)
        ensures e in ExtensionEdges(key, exts)
      {
        var i :| 0 <= i < |exts| && ExtensionDeclares(exts[i], e);
        if i < n {
          assert ExtensionDeclares(init[i], e);
        }
      }
      forall e | e in ExtensionEdges(key, init)
        ensures exists i :: 0 <= i < |exts| && ExtensionDeclares(exts[i], e)
      {
        var i :| 0 <= i < |init| && ExtensionDeclares(init[i], e);
        assert ExtensionDeclares(exts[i], e);
      }
    }
  }

  /** Extension edge names are URL segments: none holds a '/'. */
  lemma ExtensionEdgeNames(key: NodeKey, exts: seq<Extension>)
    ensures forall e :: e in ExtensionEdges(key, exts) ==> '/' !in e.name
  {
    ExtensionEdgesSpec(key, exts);
    forall e | e in ExtensionEdges(key, exts)
      ensures '/' !in e.name
    {
      var i :| 0 <= i < |exts| && ExtensionDeclares(exts[i], e);
      LastSegmentSpec(exts[i].url);
    }
  }

  /** Every pending edge a resource contributes has that resource's node key as its source. */
  lemma RecordEdgesSource(r: Resource)
    ensures forall e :: e in RecordEdges(r) ==> e.source == KeyOf(r)
  {
    ExtensionEdgesSpec(KeyOf(r), r.extension);
    forall e | e in VariableEdges(KeyOf(r), r.fields) ensures e.source == KeyOf(r) {
      VariableEdgesSpec(KeyOf(r), r.fields, e);
    }
  }
}
