# VkLibrary.Codegen: the code generator's core, modelled in Dafny

VkLibrary.Codegen reads the VK API JSON schema and emits the C# sources of the
wrapper library. This project models its three logic-bearing pieces and proves
what they promise.

- **Schema type resolver** (`TypeParser`, `type_parser.dfy` over the JSON tree
  of `json.dfy`). `ParseType` classifies a schema type node as one of three
  titles: an array title, a camel-case title, or an undefined (verbatim)
  title. It follows the source's rules in order: a degenerate array node, a
  node without `"type"` resolved from the last segment of its `$ref`, a type
  union, and `"array"` recursing into `"items"`. Everything else goes through
  the five-entry alias table. Exceptions the C# raises on unexpected shapes
  are `Fault` values, and the log lines are returned as a diagnostic list.
- **Method-group emitter** (`MethodGenerator`, `method_generator.dfy`). It
  builds, as a C# syntax tree (`csharp_syntax.dfy`), the class of one API
  scope: the `_vkontakte` field, the constructor, and one method per
  descriptor. A small evaluator of the emitted statements
  (`interpreter.dfy`) gives the method bodies a meaning. With it, "only the
  supplied arguments go on the wire, under their wire names" is a theorem.
- **Orchestrator** (`FileGenerator`, `file_generator.dfy`, using the
  `GroupBy` of `grouping.dfy`). The class `OutputTree` holds the output file
  system as a map from path to content, plus a journal of deletions, writes
  and log messages. `Process` and its stages are methods on it, with the same
  loops as the source. Each method is proved against a write plan, and the
  plan's properties are proved as lemmas:
  - destructive regeneration of the directory;
  - the path layout;
  - one file per method scope;
  - later writes winning;
  - the file count;
  - diagnostics coming last.

Unseen collaborators are function-typed parameters:
- `TypeProvider.Instance.Resolve` is `resolve`;
- `ClassDescriptor.MergePropertiesFromBaseClasses` is `merge`.

A naming title carries both of its renderings: `wire` (`ToOriginalString()`)
and `sharp` (`ToSharpString()`). The case conversion between them is not part
of this model.

## Model

| member | source | states |
|---|---|---|
| `Json.IndexOf` | VkLibrary.Codegen/Tools/TypeParser.cs:31 | `None` exactly when no member has the key; otherwise the index of the first member with that key |
| `Json.IndexOfUnique` | VkLibrary.Codegen/Tools/TypeParser.cs:31 | for an object whose keys are distinct, as a loaded JObject's are, the lookup finds the one member with the key |
| `TypeParser.AddNullabilityIfNeed` | VkLibrary.Codegen/Tools/TypeParser.cs:9-16 | `"int"`, `"Boolean"` and `"double"` get exactly one `"?"` appended; every other name (e.g. `"bool"`, `"string"`) is returned unchanged |
| `TypeParser.AddNullabilityIdempotent` | VkLibrary.Codegen/Tools/TypeParser.cs:12-15 | applying the nullability rule twice equals applying it once |
| `TypeParser.LastSegment` | VkLibrary.Codegen/Tools/TypeParser.cs:46-49 | `Split('/').Last()`: the result has no `'/'` and is a suffix of the input; when the input has a `'/'`, a `'/'` directly precedes the result; a slash-free input is returned whole |
| `TypeParser.LastSegmentOfPath` | VkLibrary.Codegen/Tools/TypeParser.cs:44-50 | for `p + "/" + n` with `n` slash-free, the extracted name is exactly `n`, whatever `p` is |
| `TypeParser.GetTypeFromRef` | VkLibrary.Codegen/Tools/TypeParser.cs:44-50 | succeeds exactly on an object whose `"$ref"` is a string, and then yields that reference's last segment. Otherwise: <br>• `NotAnObject` for a node that is not an object; <br>• `MissingRef` when there is no `"$ref"` (the null dereference at line 46); <br>• `RefNotString` for a `"$ref"` that is not a string (see Left out) |
| `TypeParser.MatchDefaultType` | VkLibrary.Codegen/Tools/TypeParser.cs:52-68 | exactly the five alias-table keys give an undefined title, of their table value; every other name gives a camel-case title of itself; never an array title |
| `TypeParser.ParseType` | VkLibrary.Codegen/Tools/TypeParser.cs:18-42 | a resolved node logs at most one diagnostic, and logs one exactly when its innermost title is undefined `"object"` |
| `TypeParser.DegenerateArrayNode` | VkLibrary.Codegen/Tools/TypeParser.cs:20-29 | a node that is a JSON array gives undefined `"object"` and one "can't parse" diagnostic carrying the node |
| `TypeParser.TypeUnion` | VkLibrary.Codegen/Tools/TypeParser.cs:33-37 | a `"type"` that is a list gives undefined `"object"` and one "type composition" diagnostic carrying the list |
| `TypeParser.ArrayWrapsItems` | VkLibrary.Codegen/Tools/TypeParser.cs:39 | for the two-member node `{"type": "array", "items": x}`: an array title around the resolution of `x`; a fault inside `x` is the node's fault |
| `TypeParser.ArrayRule` | VkLibrary.Codegen/Tools/TypeParser.cs:39 | for every object node whose `"type"` is the string `"array"` and which has `"items"`, whatever other members it carries: the resolution of `"items"` wrapped in one array title |
| `TypeParser.ArrayWithoutItems` | VkLibrary.Codegen/Tools/TypeParser.cs:39 | `"type": "array"` without `"items"` fails with `MissingItems`: `ParseType(null)` dereferences null at line 20 |
| `TypeParser.AliasRule` | VkLibrary.Codegen/Tools/TypeParser.cs:41 | for every object node whose `"type"` is a string other than `"array"`: the alias-table title of that string, with nothing logged |
| `TypeParser.TypeNeitherListNorString` | VkLibrary.Codegen/Tools/TypeParser.cs:33-39 | a `"type"` that is neither a list nor a string fails with `TypeNotString` carrying it (see Left out) |
| `TypeParser.ScalarNode` | VkLibrary.Codegen/Tools/TypeParser.cs:31 | a node that is neither an object nor a JSON array fails with `NotAnObject`: indexing a JValue throws |
| `TypeParser.NestedArrays` | VkLibrary.Codegen/Tools/TypeParser.cs:39 | `k` nested array nodes: <br>• add exactly `k` array wrappers; <br>• keep the leaf's innermost title, diagnostics and faults |
| `TypeParser.NestedArraysWrap` | VkLibrary.Codegen/Tools/TypeParser.cs:39 | parsing `k` nested array nodes is wrapping the leaf's resolution in `k` array titles |
| `TypeParser.ArrayDepthMatchesLevels` | VkLibrary.Codegen/Tools/TypeParser.cs:39 | the array depth of every resolved title equals the number of nested `"array"` levels, counted on the JSON tree independently of `ParseType` |
| `TypeParser.ReferenceResolution` | VkLibrary.Codegen/Tools/TypeParser.cs:31 | a node without `"type"` and with `"$ref": p/n` resolves to `MatchDefaultType(n)`, with no diagnostic, so the reference name also passes the alias table |
| `TypeParser.RefRule` | VkLibrary.Codegen/Tools/TypeParser.cs:31 | for every object node without `"type"`: the name `GetTypeFromRef` extracts, passed through the alias table with nothing logged, or the fault `GetTypeFromRef` meets |
| `TypeParser.SlashFreeReference` | VkLibrary.Codegen/Tools/TypeParser.cs:31 | a slash-free string `"$ref"` is resolved whole through the alias table |
| `TypeParser.ReferenceNotString` | VkLibrary.Codegen/Tools/TypeParser.cs:31 | a `"$ref"` that is not a string fails with `RefNotString` carrying it (see Left out) |
| `TypeParser.NeitherTypeNorRef` | VkLibrary.Codegen/Tools/TypeParser.cs:31 | a node with neither `"type"` nor `"$ref"` fails with the null dereference of the source |
| `TypeParser.IntegerExample` | VkLibrary.Codegen/Tools/TypeParser.cs:41 | `{"type": "integer"}` resolves to undefined `"int"` |
| `TypeParser.NamedTypeExample` | VkLibrary.Codegen/Tools/TypeParser.cs:41 | `{"type": "groups_group"}` resolves to the camel-case title `groups_group` |
| `TypeParser.ArrayOfStringExample` | VkLibrary.Codegen/Tools/TypeParser.cs:39 | an array of `"String"` resolves to an array of undefined `"string"` |
| `TypeParser.ReferenceExample` | VkLibrary.Codegen/Tools/TypeParser.cs:31 | a `$ref` to `.../base_bool_int` resolves through the alias table to undefined `"int"` |
| `TypeParser.EmptyItemsExample` | VkLibrary.Codegen/Tools/TypeParser.cs:20-29 | the known `"items": []` case gives an array of undefined `"object"` and logs the diagnostic |
| `MethodGenerator.Inserts` | VkLibrary.Codegen/Generators/MethodGenerator.cs:129-132 | one argument-insert statement per parameter descriptor, in declaration order |
| `MethodGenerator.GenerateParameters` | VkLibrary.Codegen/Generators/MethodGenerator.cs:166-180 | the parameter: <br>• is named by the C# form of its title; <br>• defaults to `null`; <br>• has as its type the type's C# name, with `"?"` exactly for `int`/`Boolean`/`double` |
| `MethodGenerator.ArgumentInsertStatement` | VkLibrary.Codegen/Generators/MethodGenerator.cs:182-217 | no contract of its own: `ArgumentInsertSemantics` states what the statement does and `InsertNames` which literal and identifiers it holds |
| `MethodGenerator.GenerateMethod` | VkLibrary.Codegen/Generators/MethodGenerator.cs:70-164 | a `public` method named by the C# title and declared `Task<T>`, with one parameter per descriptor in order. The body is: <br>• the dictionary declaration; <br>• one insert per parameter, in order; <br>• the `RequestAsync<T>` return with the same `T`. <br>Its length is the parameter count plus 2 |
| `MethodGenerator.GenerateMainModel` | VkLibrary.Codegen/Generators/MethodGenerator.cs:24-68 | a public class named `title` whose members are, in order: <br>• the private readonly `_vkontakte` field; <br>• the internal constructor named `title`; <br>• one method per descriptor, in input order. <br>So it has two more members than there are methods |
| `MethodGenerator.Generate` | VkLibrary.Codegen/Generators/MethodGenerator.cs:15-22 | the unit carries the given namespace and entity type. Its class is public and named `title`, and its members are, in order: <br>• the `_vkontakte` field; <br>• the constructor named `title`; <br>• `GenerateMethod` of each descriptor, in input order |
| `MethodGenerator.ArgumentInsertSemantics` | VkLibrary.Codegen/Generators/MethodGenerator.cs:182-217 | one insert statement: <br>• an omitted argument changes nothing; <br>• a supplied argument adds `wire -> ToApiString()` to `parameters`; <br>• a key already present throws |
| `MethodGenerator.ExecInserts` | VkLibrary.Codegen/Generators/MethodGenerator.cs:134-137 | running the inserts and then the return yields the request built from the supplied arguments' `Add` calls in order, or the first duplicate key |
| `MethodGenerator.DeclarationThen` | VkLibrary.Codegen/Generators/MethodGenerator.cs:75-102 | the first statement binds `parameters` to an empty `Dictionary<string, string>` |
| `MethodGenerator.BodySemantics` | VkLibrary.Codegen/Generators/MethodGenerator.cs:134-137 | a generated body, run on the bound arguments, behaves as the in-order `Add` of the supplied arguments followed by the request |
| `MethodGenerator.GeneratedMethodSemantics` | VkLibrary.Codegen/Generators/MethodGenerator.cs:70-164 | the same, for the body of `GenerateMethod` with the resolved response type and the method's wire name |
| `MethodGenerator.CollectDistinct` | VkLibrary.Codegen/Generators/MethodGenerator.cs:196-206 | with distinct wire names the `Add` calls never throw. The keys are exactly the supplied arguments' wire names, each mapped to its argument |
| `MethodGenerator.CollectDuplicate` | VkLibrary.Codegen/Generators/MethodGenerator.cs:196-206 | a supplied argument whose wire name was already added makes the `Add` sequence throw |
| `MethodGenerator.OnlySuppliedParametersSent` | VkLibrary.Codegen/Generators/MethodGenerator.cs:182-217 | a generated method with distinct wire names returns `RequestAsync<T>` with: <br>• the resolved `T`; <br>• the method's wire name; <br>• a dictionary whose keys are exactly the wire names of the supplied arguments, each mapped to its argument's `ToApiString()`. <br>An omitted argument's wire name is never sent |
| `MethodGenerator.DuplicateWireNameThrows` | VkLibrary.Codegen/Generators/MethodGenerator.cs:196-206 | two supplied arguments sharing a wire name make the generated method throw instead of sending a request |
| `MethodGenerator.GeneratedLiterals` | VkLibrary.Codegen/Generators/MethodGenerator.cs:123-206 | the string literals of a generated body are exactly the parameters' wire forms (`ToOriginalString()`) in order, then the method's wire form |
| `MethodGenerator.GeneratedIdentifiers` | VkLibrary.Codegen/Generators/MethodGenerator.cs:75-214 | the identifiers of a generated body are exactly `parameters`, `_vkontakte` and the C# forms (`ToSharpString()`) of the parameter titles |
| `MethodGenerator.SuppliedRequest` | VkLibrary.Codegen/Generators/MethodGenerator.cs:129-137 | any body of the emitted shape, with distinct wire names, returns `RequestAsync<T>` for the given `T` and wire name. Its dictionary keys are exactly the supplied arguments' wire names, each mapped to its argument; an omitted argument's wire name is absent |
| `MethodGenerator.InsertNames` | VkLibrary.Codegen/Generators/MethodGenerator.cs:182-214 | an insert statement has the parameter's wire name as its only literal, and names only `parameters` and the C# form of the title |
| `MethodGenerator.RequestNames` | VkLibrary.Codegen/Generators/MethodGenerator.cs:104-127 | the return statement has the method's wire name as its only literal, and names only `_vkontakte` and `parameters` |
| `Grouping.FirstKeys` | VkLibrary.Codegen/Generators/FileGenerator.cs:59-63 | the keys of the input without repetition: a key is listed exactly when some element has it |
| `Grouping.Filter` | VkLibrary.Codegen/Generators/FileGenerator.cs:59-63 | the elements with a given key, in input order: every kept element has the key, and the result is empty when no element has it |
| `Grouping.GroupByIsReference` | VkLibrary.Codegen/Generators/FileGenerator.cs:59-63 | the one-pass `GroupBy` equals the reference grouping, which is one group per key in first-occurrence order holding that key's elements in input order |
| `Grouping.GroupBy` | VkLibrary.Codegen/Generators/FileGenerator.cs:59-63 | no contract of its own: `GroupByIsReference` proves it equal to the reference grouping, and the lemmas below state the grouping's properties |
| `Grouping.GroupKeysDistinct` | VkLibrary.Codegen/Generators/FileGenerator.cs:59-63 | no two groups share a key |
| `Grouping.ElementsInTheirGroup` | VkLibrary.Codegen/Generators/FileGenerator.cs:59-63 | every element's key has a group, and every member of a group has the group's key |
| `Grouping.GroupsCoverInput` | VkLibrary.Codegen/Generators/FileGenerator.cs:59-63 | the groups hold as many elements in all as the input |
| `Grouping.FilterKeeps` | VkLibrary.Codegen/Generators/FileGenerator.cs:59-63 | every element is kept by the filter of its own key |
| `Grouping.EveryElementInItsGroup` | VkLibrary.Codegen/Generators/FileGenerator.cs:59-63 | every element is among the items of the group of its key, and any group holding it has its key. With `GroupKeysDistinct`, every method lands in exactly one group |
| `Grouping.OneGroupPerKey` | VkLibrary.Codegen/Generators/FileGenerator.cs:59-63 | the number of groups is the number of distinct keys |
| `Grouping.KeysInFirstOccurrenceOrder` | VkLibrary.Codegen/Generators/FileGenerator.cs:59-63 | a key listed later first occurs after every earlier-listed key first occurs |
| `Grouping.GroupsInFirstOccurrenceOrder` | VkLibrary.Codegen/Generators/FileGenerator.cs:59-63 | groups appear in the order in which their keys first occur in the input |
| `FileGenerator.MergedPrefix` | VkLibrary.Codegen/Generators/FileGenerator.cs:33-35 | merging the first `k` classes in place keeps the list's length and leaves classes `k..` untouched |
| `FileGenerator.MergeSeesEarlierEmitted` | VkLibrary.Codegen/Generators/FileGenerator.cs:33-37 | when class `i` is merged, every earlier class holds exactly the descriptor emitted for it, and `i` and the later classes are still unmerged |
| `FileGenerator.OutputTree.DeleteDirectory` | VkLibrary.Codegen/Generators/FileGenerator.cs:17-18 | removes every file under the directory, keeps all others, and journals the deletion |
| `FileGenerator.OutputTree.WriteToFile` | VkLibrary.Codegen/Generators/FileGenerator.cs:73-82 | creates or replaces (`FileMode.Create`) exactly the file at `path`, and journals the write |
| `FileGenerator.OutputTree.LogMessage` | VkLibrary.Codegen/Generators/FileGenerator.cs:25 | appends one log message to the journal and leaves the files alone |
| `FileGenerator.OutputTree.GenerateFromObject` | VkLibrary.Codegen/Generators/FileGenerator.cs:28-45 | for each object class in order: merge it against the list as it then stands, and write it to `<base><Scope>/<SharpTitle>.cs`. Then write each enum the same way. Files and journal are exactly those writes, in that order |
| `FileGenerator.OutputTree.WriteEnums` | VkLibrary.Codegen/Generators/FileGenerator.cs:40-44 | each enum, in order, is written to `<base><Scope>/<SharpTitle>.cs` with no merge. Files and journal are exactly those writes |
| `FileGenerator.OutputTree.GenerateFromResponses` | VkLibrary.Codegen/Generators/FileGenerator.cs:47-55 | writes each response class, unmerged, to `<base><Scope>/<SharpTitle>.cs`, in order |
| `FileGenerator.OutputTree.GenerateFromMethods` | VkLibrary.Codegen/Generators/FileGenerator.cs:57-71 | for each scope group, in first-occurrence order, writes the generated class of that scope's methods to `<base>Methods/<key>.cs` |
| `FileGenerator.OutputTree.Process` | VkLibrary.Codegen/Generators/FileGenerator.cs:15-26 | the files become the old tree cleared of `dir` (only when the directory exists, never for the empty path), then the object, enum, response and method writes applied in that order. The journal is: <br>• the deletion, only if `dir` existed; <br>• every write in plan order; <br>• one message per undefined type |
| `FileGenerator.Plan` | VkLibrary.Codegen/Generators/FileGenerator.cs:21-23 | no contract of its own: `Process` states that a run performs exactly these writes, and `PlanUnderDirectory` that they all lie inside `dir` |
| `FileGenerator.ClearedRemovesTree` | VkLibrary.Codegen/Generators/FileGenerator.cs:17-18 | for a non-empty path, clearing removes exactly the files under the directory, whether or not it existed |
| `FileGenerator.EmptyPathKeepsFiles` | VkLibrary.Codegen/Generators/FileGenerator.cs:17-18 | `Directory.Exists("")` is false, so clearing the empty path keeps every file |
| `FileGenerator.PlanUnderDirectory` | VkLibrary.Codegen/Generators/FileGenerator.cs:21-23 | every path a run writes lies inside the output directory |
| `FileGenerator.MethodFilesDistinct` | VkLibrary.Codegen/Generators/FileGenerator.cs:59-70 | the method files of a run have pairwise distinct paths, one per distinct scope |
| `FileGenerator.ApplyWritesDomain` | VkLibrary.Codegen/Generators/FileGenerator.cs:73-78 | after a sequence of writes, a path exists exactly when it existed before or some write named it |
| `FileGenerator.UnwrittenUnchanged` | VkLibrary.Codegen/Generators/FileGenerator.cs:73-78 | a file no write names keeps its content |
| `FileGenerator.LastWriteWins` | VkLibrary.Codegen/Generators/FileGenerator.cs:78 | two entities mapped to the same path: the file holds the later write's content |
| `FileGenerator.WrittenIgnoresBefore` | VkLibrary.Codegen/Generators/FileGenerator.cs:78 | a written file's content does not depend on what was there before |
| `FileGenerator.ApplyWritesTwice` | VkLibrary.Codegen/Generators/FileGenerator.cs:73-78 | performing the same writes twice leaves the same files as performing them once |
| `FileGenerator.FreshWritesCount` | VkLibrary.Codegen/Generators/FileGenerator.cs:73-78 | writes to pairwise distinct paths into an empty tree create one file each |
| `FileGenerator.RunReplacesDirectory` | VkLibrary.Codegen/Generators/FileGenerator.cs:15-23 | after a run into a non-empty directory path: <br>• a path inside the directory exists exactly when this run wrote it; <br>• every path outside it exists and holds content exactly as before |
| `FileGenerator.InsideAfterRun` | VkLibrary.Codegen/Generators/FileGenerator.cs:15-23 | for a non-empty directory path, the directory's contents after a run are the run's writes applied to an empty tree, whatever was there before |
| `FileGenerator.RerunIsIdempotent` | VkLibrary.Codegen/Generators/FileGenerator.cs:15-23 | running again over a run's output leaves the same files, for every directory path including the empty one |
| `FileGenerator.FileCountWithoutCollisions` | VkLibrary.Codegen/Generators/FileGenerator.cs:33-70 | for a non-empty directory path with no colliding paths, the directory holds one file per object class, enum and response class, plus one per distinct method scope |
| `FileGenerator.RunEventAt` | VkLibrary.Codegen/Generators/FileGenerator.cs:15-25 | the run's journal, event by event: <br>• the deletion, if any; <br>• one write per planned file, in plan order; <br>• one message per undefined type |
| `FileGenerator.DiagnosticsLoggedLast` | VkLibrary.Codegen/Generators/FileGenerator.cs:21-25 | no undefined-type message precedes a write, and a deletion can only be the first event |

## Left out

- The title-case classes (`CamelCaseTitle`, `UndefinedCaseTitle`, `CamelCaseArrayTitle`) and their `ToSharpString`/`ToOriginalString` conversions are not modelled. The resolver returns which title it built; descriptors carry both renderings as given data.
- `TypeProvider.Instance.Resolve` and `ClassDescriptor.MergePropertiesFromBaseClasses` have no visible internals. They are uninterpreted function parameters.
- The merge is assumed to change only its receiver. A descriptor object that appears twice in the class list (aliasing) is not modelled.
- The file contents are not modelled as text. `ClassGenerator`, `EnumGenerator` and `CommonGenerator` are not part of this model, so a written file holds the emitter call with its arguments. The method files hold the modelled syntax tree.
- Roslyn formatting, `AdhocWorkspace` and the text layout of the emitted code are not modelled; emitted code is an abstract syntax tree.
- The file system is a map from path to content. Directories exist only through the files under them. `Directory.CreateDirectory` and an empty but existing output directory are not modelled, and neither are path normalisation, permissions, I/O failures or stream disposal. The empty directory path is modelled only as far as `Directory.Exists("")` being false; the lemmas about what a run leaves inside the directory assume a non-empty path.
- `JsonSchemaProvider` is not part of this model. Its descriptor lists and undefined nodes are the `Schema` parameter, and each undefined node appears as the text it is logged with.
- `Log.Instance.Message` is modelled as an appended list: diagnostics of the resolver in `Resolution.log`, messages of the orchestrator in the journal.
- `TypeParser.GetTypeFromRef`: a `"$ref"` that is not a string (a number, boolean, null, object or array) is modelled as the fault `RefNotString`. The source does not throw there: it renders the value with `JToken.ToString()` and splits that text, whose exact form is a library detail.
- `TypeParser.ParseType`: a `"type"` that is a number, boolean or null is modelled as the fault `TypeNotString` (stated by `TypeParser.TypeNeitherListNorString`). The source converts it with `Value<string>()` to library-defined text (null for a JSON null) and resolves that; only an object `"type"` makes it throw.
- `TypeParser.TypeNeitherListNorString`: states that a number, boolean or null `"type"` fails with `TypeNotString`. The source does not fail there: it converts the value with `Value<string>()` and resolves that text. Only an object `"type"` throws in the source.
- `TypeParser.ReferenceNotString`: states that a `"$ref"` that is not a string fails with `RefNotString`. The source does not fail there: it splits the value's `JToken.ToString()` text on `/` and resolves the last segment.
- `TypeParser.ParseType` states no postcondition about faults itself. The fault cases are stated one by one by `ScalarNode`, `NeitherTypeNorRef`, `ReferenceNotString`, `ArrayWithoutItems` and `TypeNeitherListNorString`; `RefRule` states the whole `"$ref"` rule through `GetTypeFromRef`.
- Objects with a repeated key are not modelled faithfully. A default Newtonsoft load keeps the last value of a repeated key, while `Json.IndexOf` finds the first; the two agree on objects with distinct keys (`Json.IndexOfUnique`), which is every object a load produces.
- `MethodGenerator.OnlySuppliedParametersSent`: assumes parameter identifiers that are pairwise distinct and differ from `parameters` and `_vkontakte`. Otherwise the emitted C# does not compile, so there is no behaviour to state.
- The evaluator covers only the statements and expressions that generated method bodies contain. `ToApiString()` of an argument is its given API text, and the transport call is observed as the request it receives, not performed.
- VkLibrary.Core/LongPolling/Bot/BotLongPollClient.cs is not part of this model. It is an asynchronous HTTP long-poll loop with events and JSON deserialisation, whose point is network I/O.
- The generated property-bag and enum files are data without behaviour and are not modelled.
