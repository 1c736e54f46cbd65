/**
 * Reading FHIR records from a file: `_sniff` decides from the shape of the
 * parsed file which raw JSON values come out, and `read_resources` checks
 * each for a `resourceType` and derives the fhirclient model module and
 * class it is built with. Both are generators; a generator is modelled as
 * the values it yields before it stops, plus the error that stopped it.
 */
module Resources {
  import opened Wrappers

  /** A parsed JSON value. Numbers are kept as their literal text. */
  datatype Json =
    | JNull
    | JBool(b: bool)
    | JNumber(literal: string)
    | JString(s: string)
    | JArray(elements: seq<Json>)
    | JObject(members: map<string, Json>)

  /**
   * How a file parses: as one JSON document, or (when it is not one) line by
   * line, each line either a JSON document or not.
   */
  datatype FileParse = WholeFile(value: Json) | PerLine(lines: seq<Option<Json>>)

  /** The exceptions reading can raise. */
  datatype ReadError =
    | NotIterable          // iterating, or testing `in` on, null, a boolean or a number
    | NotSubscriptable     // indexing a list, a string or a scalar with a string key
    | MissingKey(key: string)
    | LineNotJson          // a line of a per-line file that does not parse
    | MissingResourceType  // the `resourceType` assertion fails
    | ResourceTypeNotString // `.lower()` on a `resourceType` that is not a string

  /** The values a generator yields, in order, and the error that ended it early, if any. */
  datatype Stream<T> = Stream(items: seq<T>, failure: Option<ReadError>)

  /** The fhirclient model a record is built with: module name, class name, and the raw record. */
  datatype ModelRef = ModelRef(moduleName: string, className: string, record: Json)

  const ModelPackage: string := "fhirclient.models."

  /**
   * A loop that yields `step(x)` for each `x` in turn and stops at the first
   * `x` whose step raises.
   */
  function Drain<A, B>(xs: seq<A>, step: A -> Result<B, ReadError>): (s: Stream<B>)
    ensures |s.items| <= |xs|
    ensures forall i :: 0 <= i < |s.items| ==> step(xs[i]) == Success(s.items[i])
    ensures s.failure.None? ==> |s.items| == |xs|
    ensures s.failure.Some? ==> |s.items| < |xs| && step(xs[|s.items|]) == Failure(s.failure.value)
    decreases |xs|
  {
    if xs == [] then Stream([], None)
    else
      match step(xs[0])
      case Failure(e) => Stream([], Some(e))
      case Success(b) =>
        var rest := Drain(xs[1..], step);
        Stream([b] + rest.items, rest.failure)
  }

  // ---------------------------------------------------------------------------
  // _sniff

  /** `entry['resource']` for one bundle entry. */
  function EntryResource(entry: Json): (r: Result<Json, ReadError>)
    ensures r.Success? <==> entry.JObject? && "resource" in entry.members
    ensures r.Success? ==> r.value == entry.members["resource"]
  {
    match entry
    case JObject(m) => if "resource" in m then Success(m["resource"]) else Failure(MissingKey("resource"))
    case _ => Failure(NotSubscriptable)
  }

  /**
   * `for entry in bundle['entry']: yield entry['resource']`. Iterating an
   * object yields its keys and iterating a string its characters; either
   * fails at `['resource']` unless empty.
   */
  function BundleEntries(entries: Json): (s: Stream<Json>) {
    match entries
    case JArray(es) => Drain(es, EntryResource)
    case JObject(m) => if m == map[] then Stream([], None) else Stream([], Some(NotSubscriptable))
    case JString(s) => if s == [] then Stream([], None) else Stream([], Some(NotSubscriptable))
    case _ => Stream([], Some(NotIterable))
  }

  function LineValue(line: Option<Json>): (v: Result<Json, ReadError>) {
    match line
    case Some(v) => Success(v)
    case None => Failure(LineNotJson)
  }

  /**
   * `_sniff`: a bundle yields its entries' resources; any other object yields
   * itself; a list or string yields its first element only (the loop returns
   * after one iteration); a file that is not one JSON document yields one
   * value per line.
   */
  function Sniff(parse: FileParse): (s: Stream<Json>)
    ensures parse.WholeFile? ==> |s.items| <= 1 || (parse.value.JObject? && "entry" in parse.value.members)
  {
    match parse
    case WholeFile(v) =>
      (match v
       case JObject(m) => if "entry" in m then BundleEntries(m["entry"]) else Stream([v], None)
       case JArray(es) => if es == [] then Stream([], None) else Stream([es[0]], None)
       case JString(s) => if s == [] then Stream([], None) else Stream([JString([s[0]])], None)
       case _ => Stream([], Some(NotIterable)))
    case PerLine(lines) => Drain(lines, LineValue)
  }

  // ---------------------------------------------------------------------------
  // read_resources

  /** Python's `needle in haystack` on two strings. */
  predicate IsSubstring(needle: string, haystack: string) {
    exists i | 0 <= i <= |haystack| :: needle <= haystack[i..]
  }

  /** ASCII `str.lower()` on one character. */
  function LowerChar(c: char): (d: char) {
    if 'A' <= c <= 'Z' then (c - 'A' + 'a') as char else c
  }

  function Lower(s: string): (r: string)
    ensures |r| == |s|
  {
    seq(|s|, i requires 0 <= i < |s| => LowerChar(s[i]))
  }

  /**
   * The body of the `read_resources` loop for one raw value: the
   * `resourceType` assertion, then the module and class names. For a list
   * `in` tests the elements and for a string it tests substrings; either
   * then fails when indexed by `'resourceType'`.
   */
  function Marshal(v: Json): (r: Result<ModelRef, ReadError>)
    ensures r.Success? <==> v.JObject? && "resourceType" in v.members && v.members["resourceType"].JString?
    ensures r.Success? ==> r.value.record == v && JString(r.value.className) == v.members["resourceType"]
    ensures r.Success? ==> r.value.moduleName == ModelPackage + Lower(r.value.className)
    ensures v.JObject? && "resourceType" !in v.members ==> r == Failure(MissingResourceType)
  {
    match v
    case JObject(m) =>
      if "resourceType" !in m then Failure(MissingResourceType)
      else (match m["resourceType"]
            case JString(t) => Success(ModelRef(ModelPackage + Lower(t), t, v))
            case _ => Failure(ResourceTypeNotString))
    case JArray(es) => if JString("resourceType") in es then Failure(NotSubscriptable) else Failure(MissingResourceType)
    case JString(s) => if IsSubstring("resourceType", s) then Failure(NotSubscriptable) else Failure(MissingResourceType)
    case _ => Failure(NotIterable)
  }

  /**
   * `read_resources`: every sniffed value in turn is checked and marshalled;
   * reading stops at the first value that fails, or else ends as the sniffing
   * ended.
   */
  function ReadResources(parse: FileParse): (s: Stream<ModelRef>)
    ensures |s.items| <= |Sniff(parse).items|
    ensures forall i :: 0 <= i < |s.items| ==> Marshal(Sniff(parse).items[i]) == Success(s.items[i])
    ensures |s.items| < |Sniff(parse).items| ==>
      s.failure.Some? && Marshal(Sniff(parse).items[|s.items|]) == Failure(s.failure.value)
    ensures |s.items| == |Sniff(parse).items| ==> s.failure == Sniff(parse).failure
  {
    var sniffed := Sniff(parse);
    var read := Drain(sniffed.items, Marshal);
    if read.failure.Some? then read else Stream(read.items, sniffed.failure)
  }

  // ---------------------------------------------------------------------------
  // Lemmas

  /** A bundle yields `entry['resource']` for its entries in order, all of them exactly when every entry has one. */
  lemma BundleYieldsResources(m: map<string, Json>, es: seq<Json>)
    requires "entry" in m && m["entry"] == JArray(es)
    ensures var s := Sniff(WholeFile(JObject(m)));
      |s.items| <= |es| &&
      (forall i :: 0 <= i < |s.items| ==> es[i].JObject? && s.items[i] == es[i].members["resource"]) &&
      (s.failure.None? <==> forall i :: 0 <= i < |es| ==> es[i].JObject? && "resource" in es[i].members)
  {
    var s := Sniff(WholeFile(JObject(m)));
    assert s == Drain(es, EntryResource);
    if s.failure.Some? {
      var k := |s.items|;
      assert EntryResource(es[k]).Failure?;
    }
  }

  /** An object without `entry` is yielded once, as it is. */
  lemma SingleObject(m: map<string, Json>)
    requires "entry" !in m
    ensures Sniff(WholeFile(JObject(m))) == Stream([JObject(m)], None)
  {
  }

  /** A list yields its first element and nothing else; an empty list yields nothing. */
  lemma ListFirstOnly(es: seq<Json>)
    ensures Sniff(WholeFile(JArray(es))) == if es == [] then Stream([], None) else Stream([es[0]], None)
  {
  }

  /** A string document yields its first character as a one-character string; an empty one yields nothing. */
  lemma StringFirstCharOnly(s: string)
    ensures Sniff(WholeFile(JString(s))) == if s == [] then Stream([], None) else Stream([JString([s[0]])], None)
  {
  }

  /** A null, boolean or number document cannot be iterated: nothing is yielded and reading fails. */
  lemma ScalarDocumentFails(v: Json)
    requires v.JNull? || v.JBool? || v.JNumber?
    ensures Sniff(WholeFile(v)) == Stream([], Some(NotIterable))
  {
  }

  /**
   * A bundle whose `entry` is not a list yields nothing: an empty object or
   * string ends the loop at once, a non-empty one fails at `['resource']`,
   * and a scalar cannot be iterated.
   */
  lemma BundleEntryNotList(m: map<string, Json>)
    requires "entry" in m && !m["entry"].JArray?
    ensures Sniff(WholeFile(JObject(m))).items == []
    ensures Sniff(WholeFile(JObject(m))).failure.None? <==>
      m["entry"] == JObject(map[]) || m["entry"] == JString([])
    ensures m["entry"].JObject? && m["entry"].members != map[] ==> Sniff(WholeFile(JObject(m))).failure == Some(NotSubscriptable)
    ensures m["entry"].JString? && m["entry"].s != [] ==> Sniff(WholeFile(JObject(m))).failure == Some(NotSubscriptable)
    ensures m["entry"].JNull? || m["entry"].JBool? || m["entry"].JNumber? ==>
      Sniff(WholeFile(JObject(m))).failure == Some(NotIterable)
  {
  }

  /** A file that is not one JSON document yields its lines' values in file order, all of them exactly when every line parses. */
  lemma PerLineInOrder(lines: seq<Option<Json>>)
    ensures var s := Sniff(PerLine(lines));
      |s.items| <= |lines| &&
      (forall i :: 0 <= i < |s.items| ==> lines[i] == Some(s.items[i])) &&
      (s.failure.None? <==> forall i :: 0 <= i < |lines| ==> lines[i].Some?)
  {
    var s := Sniff(PerLine(lines));
    if s.failure.Some? {
      assert LineValue(lines[|s.items|]).Failure?;
    }
  }

  /**
   * Every record read carries a string `resourceType`; its class is that
   * type and its module is the package joined with the lower-cased type.
   */
  lemma EveryRecordTyped(parse: FileParse)
    ensures forall r :: r in ReadResources(parse).items ==>
      r.record.JObject? && "resourceType" in r.record.members &&
      r.record.members["resourceType"] == JString(r.className) &&
      r.moduleName == ModelPackage + Lower(r.className)
  {
    var s := ReadResources(parse);
    forall r | r in s.items
      ensures r.record.JObject? && "resourceType" in r.record.members
      ensures r.record.members["resourceType"] == JString(r.className)
    {
      var i :| 0 <= i < |s.items| && s.items[i] == r;
      assert Marshal(Sniff(parse).items[i]) == Success(r);
    }
  }

  /** Reading fails at the first sniffed value that has no `resourceType`, if everything before it is a typed object. */
  lemma UntypedRecordFails(parse: FileParse, k: int)
    requires 0 <= k < |Sniff(parse).items|
    requires forall i :: 0 <= i < k ==> Marshal(Sniff(parse).items[i]).Success?
    requires Sniff(parse).items[k].JObject? && "resourceType" !in Sniff(parse).items[k].members
    ensures ReadResources(parse) == Stream(ReadResources(parse).items, Some(MissingResourceType))
    ensures |ReadResources(parse).items| == k
  {
  }

  /** Lower-casing leaves no upper-case ASCII letter and changes nothing else. */
  lemma LowerSpec(s: string)
    ensures forall i :: 0 <= i < |s| ==> !('A' <= Lower(s)[i] <= 'Z')
    ensures forall i :: 0 <= i < |s| && !('A' <= s[i] <= 'Z') ==> Lower(s)[i] == s[i]
    ensures Lower(Lower(s)) == Lower(s)
  {
  }
}
