/**
 * The slice of a FHIR resource that the reference-graph builder looks at.
 * The concrete resource classes are generated by a client library; here a
 * resource is a value exposing its type, its id, its public attributes in
 * declaration order and its resource-level extensions.
 */
module FhirModel {
  import opened Wrappers

  /** Key of a graph node: `<resourceType>/<id>`. */
  type NodeKey = string

  /**
   * One value held by an attribute: a reference (carrying its processed
   * reference identifier, which is opaque here) or any other value, of
   * which only its truthiness matters. References nested inside such other
   * values are invisible to the builder.
   */
  datatype Item = Reference(refId: string) | Other(truthy: bool)

  /** An attribute value: a single item or a list of items. */
  datatype Value = Single(item: Item) | List(items: seq<Item>)

  datatype Field = Field(name: string, value: Value)

  /** A resource-level extension: a URL and an optional `valueReference`. */
  datatype Extension = Extension(url: string, valueReference: Option<string>)

  datatype Resource = Resource(
    resourceType: string,
    id: string,
    fields: seq<Field>,
    extension: seq<Extension>)

  /** Python truthiness of an attribute value: references are always truthy, lists when non-empty. */
  predicate Truthy(v: Value) {
    match v
    case Single(Reference(_)) => true
    case Single(Other(t)) => t
    case List(items) => |items| > 0
  }

  /** The items an attribute is scanned for: a list element by element, anything else as a one-element list. */
  function ItemsOf(v: Value): (items: seq<Item>)
    ensures v.List? ==> items == v.items
    ensures v.Single? ==> |items| == 1 && items[0] == v.item
  {
    match v
    case Single(x) => [x]
    case List(xs) => xs
  }

  /** The node key of a resource. */
  function KeyOf(r: Resource): (k: NodeKey)
    ensures |k| == |r.resourceType| + 1 + |r.id|
    ensures k[..|r.resourceType|] == r.resourceType && k[|r.resourceType|] == '/'
    ensures k[|r.resourceType| + 1..] == r.id
  {
    r.resourceType + "/" + r.id
  }

  /** `s.split('/')[0]`: everything before the first '/'. */
  function FirstSegment(s: string): (first: string)
    decreases |s|
  {
    if s == [] || s[0] == '/' then [] else [s[0]] + FirstSegment(s[1..])
  }

  /** Where the text after the last '/' of `s` starts (0 when `s` holds no '/'). */
  function SegmentStart(s: string): (start: nat)
    ensures start <= |s|
    decreases |s|
  {
    if s == [] then 0 else if s[|s| - 1] == '/' then |s| else SegmentStart(s[..|s| - 1])
  }

  /** `s.split('/')[-1]`: everything after the last '/'. */
  function LastSegment(s: string): (last: string) {
    s[SegmentStart(s)..]
  }

  /** The first segment is the longest prefix free of '/'. */
  lemma {:induction false} FirstSegmentSpec(s: string)
    ensures FirstSegment(s) <= s && '/' !in FirstSegment(s)
    ensures |FirstSegment(s)| == |s| || s[|FirstSegment(s)|] == '/'
    decreases |s|
  {
    if s != [] && s[0] != '/' {
      FirstSegmentSpec(s[1..]);
    }
  }

  /** The last segment is the longest suffix free of '/'. */
  lemma {:induction false} LastSegmentSpec(s: string)
    ensures '/' !in LastSegment(s)
    ensures SegmentStart(s) == 0 || s[SegmentStart(s) - 1] == '/'
    decreases |s|
  {
    if s != [] && s[|s| - 1] != '/' {
      var init := s[..|s| - 1];
      LastSegmentSpec(init);
      assert LastSegment(s) == LastSegment(init) + [s[|s| - 1]];
    }
  }

  /** The type part of a node key is the resource's type, as long as the type holds no '/'. */
  lemma KeyTypePrefix(r: Resource)
    requires '/' !in r.resourceType
    ensures FirstSegment(KeyOf(r)) == r.resourceType
  {
    var k, t := KeyOf(r), r.resourceType;
    FirstSegmentSpec(k);
    var f := FirstSegment(k);
    assert f == k[..|f|];
  }
}
