/**
 * The schema type resolver (VkLibrary.Codegen/Tools/TypeParser.cs): it turns
 * one JSON schema type node into a case title, which is an array title
 * wrapping another title, a camel-case title rendered from a schema name, or
 * an undefined title rendered verbatim. Nodes it cannot classify degrade to
 * the undefined title "object" together with one diagnostic message.
 */
module TypeParser {
  import opened Wrappers
  import opened Json

  /** ICustomCaseTitle as produced by the resolver. */
  datatype Title =
    | Undefined(name: string)        // UndefinedCaseTitle: rendered verbatim
    | CamelCase(name: string)        // CamelCaseTitle: rendered in camel case
    | CamelCaseArray(element: Title) // CamelCaseArrayTitle: an array of `element`

  /** A message written to the diagnostics log. */
  datatype Diagnostic =
    | CannotParse(node: Json)        // a type node that is itself a JSON array
    | TypeComposition(tag: Json)     // a "type" that is a list (a type union)

  /** The ways a call ends without a title. The first three are exceptions the
      C# code raises. The last two are faults of this model only: the C# code
      resolves the value's text there, except for an object "type", which throws. */
  datatype Fault =
    | NotAnObject(node: Json)        // indexing a JValue throws
    | MissingItems                   // "items" absent under "type": "array": null dereference
    | MissingRef                     // neither "type" nor "$ref": null dereference
    | RefNotString(reference: Json)  // a "$ref" that is not a JSON string; C# splits its text
    | TypeNotString(tag: Json)       // a "type" that is neither a list nor a string

  /** The outcome of ParseType: a title and the diagnostics logged on the way,
      or the exception that ended the call. */
  datatype Resolution = Resolved(title: Title, log: seq<Diagnostic>) | Failed(fault: Fault)

  /** Type names that become nullable when used as a call-site parameter type. */
  const NullableScalars: set<string> := {"int", "Boolean", "double"}

  /** The alias table of MatchDefaultType, as a map. */
  const AliasTable: map<string, string> :=
    map["base" := "bool", "integer" := "int", "base_bool_int" := "int",
        "number" := "double", "String" := "string"]

  /** AddNullabilityIfNeed: "int", "Boolean" and "double" get one "?" appended;
      every other type name is returned unchanged. */
  function AddNullabilityIfNeed(t: string): (r: string)
    ensures t in NullableScalars ==> r == t + "?"
    ensures t !in NullableScalars ==> r == t
  {
    if t == "int" || t == "Boolean" || t == "double" then t + "?" else t
  }

  /** Applying AddNullabilityIfNeed twice is the same as applying it once. */
  lemma AddNullabilityIdempotent(t: string)
    ensures AddNullabilityIfNeed(AddNullabilityIfNeed(t)) == AddNullabilityIfNeed(t)
  {
    if t in NullableScalars {
      var r := t + "?";
      assert r[|r| - 1] == '?';
      assert r !in NullableScalars;
    }
  }

  /** `Split('/').Last()`: the part of `s` after its last '/', or all of `s`
      when it has none. */
  function LastSegment(s: string): (r: string)
    ensures '/' !in r
    ensures |r| <= |s| && r == s[|s| - |r|..]
    ensures '/' !in s ==> r == s
    ensures '/' in s ==> |r| < |s| && s[|s| - |r| - 1] == '/'
  {
    if s == [] then []
    else if s[|s| - 1] == '/' then []
    else
      var rest := LastSegment(s[..|s| - 1]);
      assert s[..|s| - 1] + [s[|s| - 1]] == s;
      rest + [s[|s| - 1]]
  }

  /** For a reference `p/n` whose last segment `n` has no '/', the extracted
      name is exactly `n`, whatever `p` is. */
  lemma {:induction false} LastSegmentOfPath(p: string, n: string)
    requires '/' !in n
    ensures LastSegment(p + "/" + n) == n
  {
    if n == [] {
      assert (p + "/" + n)[|p + "/" + n| - 1] == '/';
    } else {
      var s := p + "/" + n;
      assert s[..|s| - 1] == p + "/" + n[..|n| - 1];
      LastSegmentOfPath(p, n[..|n| - 1]);
      assert n[..|n| - 1] + [n[|n| - 1]] == n;
    }
  }

  /** GetTypeFromRef: the last path segment of the node's "$ref". Indexing a
      node that is not an object throws; a missing "$ref" is a null
      dereference; a "$ref" that is not a string is a fault of this model. */
  function GetTypeFromRef(body: Json): (r: Result<string, Fault>)
    ensures r.Success? <==>
      body.JObject? && IndexOf(body.members, "$ref").Some?
      && body.members[IndexOf(body.members, "$ref").value].value.JString?
    ensures !body.JObject? ==> r == Failure(NotAnObject(body))
    ensures body.JObject? && IndexOf(body.members, "$ref").None? ==> r == Failure(MissingRef)
    ensures body.JObject? && IndexOf(body.members, "$ref").Some? ==>
      var reference := body.members[IndexOf(body.members, "$ref").value].value;
      !reference.JString? ==> r == Failure(RefNotString(reference))
    ensures r.Success? ==>
      var reference := body.members[IndexOf(body.members, "$ref").value].value.s;
      && '/' !in r.value
      && |r.value| <= |reference|
      && r.value == reference[|reference| - |r.value|..]
      && ('/' in reference ==> reference[|reference| - |r.value| - 1] == '/')
      && ('/' !in reference ==> r.value == reference)
  {
    match body
    case JObject(members) =>
      (match IndexOf(members, "$ref")
       case None => Failure(MissingRef)
       case Some(i) =>
         if members[i].value.JString? then Success(LastSegment(members[i].value.s))
         else Failure(RefNotString(members[i].value)))
    case _ => Failure(NotAnObject(body))
  }

  /** MatchDefaultType: the five aliases give an undefined (verbatim) title of
      their target; every other name gives a camel-case title of itself. */
  function MatchDefaultType(t: string): (r: Title)
    ensures r.Undefined? <==> t in AliasTable
    ensures r.Undefined? ==> r.name == AliasTable[t]
    ensures r.Undefined? ==> r.name in {"bool", "int", "double", "string"}
    ensures r.CamelCase? ==> r.name == t
    ensures !r.CamelCaseArray?
  {
    var result := match t
      case "base" => "bool"
      case "integer" => "int"
      case "base_bool_int" => "int"
      case "number" => "double"
      case "String" => "string"
      case _ => t;
    if result != t then Undefined(result) else CamelCase(result)
  }

  /** The element title under all array wrappers. */
  function Innermost(t: Title): Title
  {
    match t
    case CamelCaseArray(e) => Innermost(e)
    case _ => t
  }

  /** The number of array wrappers around the element title. */
  function ArrayDepth(t: Title): nat
  {
    match t
    case CamelCaseArray(e) => 1 + ArrayDepth(e)
    case _ => 0
  }

  /** Wraps a successful resolution in one array title. */
  function WrapArray(inner: Resolution): Resolution
  {
    match inner
    case Resolved(t, log) => Resolved(CamelCaseArray(t), log)
    case Failed(f) => Failed(f)
  }

  /** ParseType. The rules apply in the order of the source: a node that is a
      JSON array, a node without "type" (resolved from "$ref"), a "type" that
      is a list, "type": "array" (recursing into "items"), the alias table.
      At most one diagnostic is logged, and one is logged exactly when the
      node degraded to the undefined title "object". */
  function ParseType(body: Json): (r: Resolution)
    ensures r.Resolved? ==> |r.log| <= 1
    ensures r.Resolved? ==> (|r.log| == 1 <==> Innermost(r.title) == Undefined("object"))
    decreases body
  {
    match body
    case JArray(_) => Resolved(Undefined("object"), [CannotParse(body)])
    case JObject(members) =>
      (match IndexOf(members, "type")
       case None =>
         (match GetTypeFromRef(body)
          case Success(name) => Resolved(MatchDefaultType(name), [])
          case Failure(f) => Failed(f))
       case Some(i) =>
         var tag := members[i].value;
         if tag.JArray? then Resolved(Undefined("object"), [TypeComposition(tag)])
         else if !tag.JString? then Failed(TypeNotString(tag))
         else if tag.s == "array" then
           (match IndexOf(members, "items")
            case None => Failed(MissingItems)
            case Some(j) => WrapArray(ParseType(members[j].value)))
         else Resolved(MatchDefaultType(tag.s), []))
    case _ => Failed(NotAnObject(body))
  }

  /** A schema node `{"type": "array", "items": items}`. */
  function ArrayNode(items: Json): Json
  {
    JObject([Member("type", JString("array")), Member("items", items)])
  }

  /** `k` array nodes nested around `leaf`. */
  function NestArrays(k: nat, leaf: Json): Json
  {
    if k == 0 then leaf else ArrayNode(NestArrays(k - 1, leaf))
  }

  /** The number of `"type": "array"` levels reached by following "items",
      read off the JSON tree independently of ParseType. */
  function ArrayLevels(j: Json): nat
  {
    match j
    case JObject(members) =>
      (match IndexOf(members, "type")
       case Some(i) =>
         if members[i].value == JString("array") then
           (match IndexOf(members, "items")
            case Some(k) => 1 + ArrayLevels(members[k].value)
            case None => 0)
         else 0
       case None => 0)
    case _ => 0
  }

  /** A node that is itself a JSON array degrades to undefined "object" with
      one diagnostic that carries the node. */
  lemma DegenerateArrayNode(elements: seq<Json>)
    ensures ParseType(JArray(elements)) == Resolved(Undefined("object"), [CannotParse(JArray(elements))])
  {
  }

  /** A "type" that is a list (a type union) degrades to undefined "object"
      with one diagnostic that carries the list. */
  lemma TypeUnion(members: seq<Member>, alternatives: seq<Json>)
    requires IndexOf(members, "type").Some?
    requires members[IndexOf(members, "type").value].value == JArray(alternatives)
    ensures ParseType(JObject(members)) == Resolved(Undefined("object"), [TypeComposition(JArray(alternatives))])
  {
  }

  /** `"type": "array"` resolves to an array title wrapping the resolution of
      "items"; a failure inside "items" is the failure of the whole node. */
  lemma ArrayWrapsItems(items: Json)
    ensures ParseType(ArrayNode(items)) == WrapArray(ParseType(items))
  {
    assert IndexOf(ArrayNode(items).members, "type") == Some(0);
    assert IndexOf(ArrayNode(items).members, "items") == Some(1);
  }

  /** The "array" rule for every object node: when its "type" is the string
      "array" and it has "items", whatever other members it carries, the
      result is the resolution of "items" wrapped in one array title. */
  lemma ArrayRule(members: seq<Member>, items: Json)
    requires IndexOf(members, "type").Some?
    requires members[IndexOf(members, "type").value].value == JString("array")
    requires IndexOf(members, "items").Some?
    requires members[IndexOf(members, "items").value].value == items
    ensures ParseType(JObject(members)) == WrapArray(ParseType(items))
  {
  }

  /** `"type": "array"` without "items": ParseType(null) dereferences null. */
  lemma ArrayWithoutItems(members: seq<Member>)
    requires IndexOf(members, "type").Some?
    requires members[IndexOf(members, "type").value].value == JString("array")
    requires IndexOf(members, "items").None?
    ensures ParseType(JObject(members)) == Failed(MissingItems)
  {
  }

  /** The alias rule for every object node: a string "type" other than
      "array" is passed through the alias table, with nothing logged. */
  lemma AliasRule(members: seq<Member>, name: string)
    requires IndexOf(members, "type").Some?
    requires members[IndexOf(members, "type").value].value == JString(name)
    requires name != "array"
    ensures ParseType(JObject(members)) == Resolved(MatchDefaultType(name), [])
  {
  }

  /** A "type" that is neither a list nor a string (an object, a number, a
      boolean or null) is a fault. */
  lemma TypeNeitherListNorString(members: seq<Member>)
    requires IndexOf(members, "type").Some?
    requires !members[IndexOf(members, "type").value].value.JArray?
    requires !members[IndexOf(members, "type").value].value.JString?
    ensures ParseType(JObject(members)) == Failed(TypeNotString(members[IndexOf(members, "type").value].value))
  {
  }

  /** A node that is neither an object nor a JSON array: indexing it throws. */
  lemma ScalarNode(body: Json)
    requires !body.JObject? && !body.JArray?
    ensures ParseType(body) == Failed(NotAnObject(body))
  {
  }

  /** `k` array wrappers around a resolution. */
  function WrapArrays(k: nat, r: Resolution): Resolution
  {
    if k == 0 then r else WrapArray(WrapArrays(k - 1, r))
  }

  /** `k` nested array nodes give `k` array wrappers around the leaf's title,
      with the leaf's diagnostics and faults unchanged. */
  lemma NestedArrays(k: nat, leaf: Json)
    ensures ParseType(NestArrays(k, leaf)).Resolved? <==> ParseType(leaf).Resolved?
    ensures ParseType(leaf).Failed? ==> ParseType(NestArrays(k, leaf)) == ParseType(leaf)
    ensures ParseType(leaf).Resolved? ==>
      && ParseType(NestArrays(k, leaf)).log == ParseType(leaf).log
      && ArrayDepth(ParseType(NestArrays(k, leaf)).title) == k + ArrayDepth(ParseType(leaf).title)
      && Innermost(ParseType(NestArrays(k, leaf)).title) == Innermost(ParseType(leaf).title)
  {
    NestedArraysWrap(k, leaf);
    WrapArraysKeeps(k, ParseType(leaf));
  }

  /** Parsing `k` nested array nodes is wrapping the leaf's resolution `k` times. */
  lemma {:induction false} NestedArraysWrap(k: nat, leaf: Json)
    ensures ParseType(NestArrays(k, leaf)) == WrapArrays(k, ParseType(leaf))
  {
    if k > 0 {
      var inner := NestArrays(k - 1, leaf);
      NestedArraysWrap(k - 1, leaf);
      ArrayWrapsItems(inner);
      assert NestArrays(k, leaf) == ArrayNode(inner);
    }
  }

  /** `k` wrappers: `k` more levels, everything else unchanged. */
  lemma {:induction false} WrapArraysKeeps(k: nat, r: Resolution)
    ensures WrapArrays(k, r).Resolved? <==> r.Resolved?
    ensures r.Failed? ==> WrapArrays(k, r) == r
    ensures r.Resolved? ==>
      && WrapArrays(k, r).log == r.log
      && ArrayDepth(WrapArrays(k, r).title) == k + ArrayDepth(r.title)
      && Innermost(WrapArrays(k, r).title) == Innermost(r.title)
  {
    if k > 0 {
      WrapArraysKeeps(k - 1, r);
      OneMoreArray(WrapArrays(k - 1, r));
    }
  }

  /** One array wrapper: one more level, everything else unchanged. */
  lemma OneMoreArray(r: Resolution)
    ensures WrapArray(r).Resolved? <==> r.Resolved?
    ensures r.Failed? ==> WrapArray(r) == r
    ensures r.Resolved? ==>
      && WrapArray(r).log == r.log
      && ArrayDepth(WrapArray(r).title) == 1 + ArrayDepth(r.title)
      && Innermost(WrapArray(r).title) == Innermost(r.title)
  {
  }

  /** The array depth of every resolved title equals the number of nested
      `"type": "array"` levels of the node. */
  lemma {:induction false} ArrayDepthMatchesLevels(j: Json)
    ensures ParseType(j).Resolved? ==> ArrayDepth(ParseType(j).title) == ArrayLevels(j)
    decreases j
  {
    if j.JObject? {
      var t := IndexOf(j.members, "type");
      var items := IndexOf(j.members, "items");
      if t.Some? && j.members[t.value].value == JString("array") && items.Some? {
        ArrayDepthMatchesLevels(j.members[items.value].value);
      }
    }
  }

  /** A node without "type" whose "$ref" is `p/n`, with `n` free of '/', is
      resolved as the schema name `n` passed through the alias table. */
  lemma ReferenceResolution(members: seq<Member>, p: string, n: string)
    requires IndexOf(members, "type").None?
    requires IndexOf(members, "$ref").Some?
    requires members[IndexOf(members, "$ref").value].value == JString(p + "/" + n)
    requires '/' !in n
    ensures ParseType(JObject(members)) == Resolved(MatchDefaultType(n), [])
  {
    LastSegmentOfPath(p, n);
  }

  /** The "$ref" rule for every object node without "type": the name
      GetTypeFromRef extracts, passed through the alias table, or the fault
      GetTypeFromRef meets. */
  lemma RefRule(members: seq<Member>)
    requires IndexOf(members, "type").None?
    ensures ParseType(JObject(members)) ==
      match GetTypeFromRef(JObject(members))
      case Success(n) => Resolved(MatchDefaultType(n), [])
      case Failure(f) => Failed(f)
  {
  }

  /** A slash-free "$ref" is resolved whole through the alias table. */
  lemma SlashFreeReference(members: seq<Member>, n: string)
    requires IndexOf(members, "type").None?
    requires IndexOf(members, "$ref").Some?
    requires members[IndexOf(members, "$ref").value].value == JString(n)
    requires '/' !in n
    ensures ParseType(JObject(members)) == Resolved(MatchDefaultType(n), [])
  {
  }

  /** A "$ref" that is not a string, in a node without "type". */
  lemma ReferenceNotString(members: seq<Member>)
    requires IndexOf(members, "type").None?
    requires IndexOf(members, "$ref").Some?
    requires !members[IndexOf(members, "$ref").value].value.JString?
    ensures ParseType(JObject(members)) == Failed(RefNotString(members[IndexOf(members, "$ref").value].value))
  {
  }

  /** A node with neither "type" nor "$ref" makes the source dereference null. */
  lemma NeitherTypeNorRef(members: seq<Member>)
    requires IndexOf(members, "type").None?
    requires IndexOf(members, "$ref").None?
    ensures ParseType(JObject(members)) == Failed(MissingRef)
  {
  }

  /** Worked resolutions of typical schema nodes. */
  lemma IntegerExample()
    ensures ParseType(JObject([Member("type", JString("integer"))])) == Resolved(Undefined("int"), [])
  {
    assert IndexOf([Member("type", JString("integer"))], "type") == Some(0);
  }

  lemma NamedTypeExample()
    ensures ParseType(JObject([Member("type", JString("groups_group"))])) == Resolved(CamelCase("groups_group"), [])
  {
    assert IndexOf([Member("type", JString("groups_group"))], "type") == Some(0);
  }

  lemma ArrayOfStringExample()
    ensures ParseType(ArrayNode(JObject([Member("type", JString("String"))])))
         == Resolved(CamelCaseArray(Undefined("string")), [])
  {
    ArrayWrapsItems(JObject([Member("type", JString("String"))]));
    assert IndexOf([Member("type", JString("String"))], "type") == Some(0);
  }

  lemma ReferenceExample()
    ensures ParseType(JObject([Member("$ref", JString("objects.json#/definitions/base_bool_int"))]))
         == Resolved(Undefined("int"), [])
  {
    var members := [Member("$ref", JString("objects.json#/definitions/base_bool_int"))];
    assert IndexOf(members, "type") == None;
    assert IndexOf(members, "$ref") == Some(0);
    assert "objects.json#/definitions/base_bool_int" == "objects.json#/definitions" + "/" + "base_bool_int";
    ReferenceResolution(members, "objects.json#/definitions", "base_bool_int");
  }

  lemma EmptyItemsExample()
    ensures ParseType(ArrayNode(JArray([]))) == Resolved(CamelCaseArray(Undefined("object")), [CannotParse(JArray([]))])
  {
    ArrayWrapsItems(JArray([]));
  }
}
