/**
 * The orchestrator (VkLibrary.Codegen/Generators/FileGenerator.cs). A run
 * deletes the output directory, writes one file per object class (each
 * merged with its base classes just before it is emitted), per enum and per
 * response class under `<dir>/Objects/<scope>/` and `<dir>/Responses/<scope>/`,
 * one file per method scope under `<dir>/Methods/`, and then logs the
 * schema nodes whose type stayed undefined.
 *
 * The file system is a map from path to file content; a file's content is
 * the emitter call that produced it, since the emitters are deterministic
 * functions of their arguments. The journal records deletions, writes and
 * log messages in the order they happen.
 */
module FileGenerator {
  import opened Descriptors
  import CSharp
  import MethodGenerator
  import Grouping

  /** What a generated file holds: the emitter and the arguments it was given. */
  datatype Content =
    | ClassFile(ns: Namespace, cls: ClassDescriptor, entity: EntityType)  // ClassGenerator.Generate
    | EnumFile(ns: Namespace, en: EnumDescriptor, entity: EntityType)     // EnumGenerator.Generate
    | MethodsFile(unit: CSharp.CompilationUnit)                           // MethodGenerator.Generate

  datatype Write = Write(path: string, content: Content)

  datatype Event = DirectoryDeleted(path: string) | FileWritten(path: string) | Logged(message: string)

  /** What the schema provider hands the orchestrator. */
  datatype Schema = Schema(
    classes: seq<ClassDescriptor>,
    enums: seq<EnumDescriptor>,
    responses: seq<ClassDescriptor>,
    methods: seq<MethodDescriptor>,
    undefined: seq<string>)

  /** ClassDescriptor.MergePropertiesFromBaseClasses: the receiver after
      merging, given the list of all object classes as it stands. */
  type Merge = (ClassDescriptor, seq<ClassDescriptor>) -> ClassDescriptor

  /** `<base><scope>/<SharpTitle>.cs` */
  function EntityPath(base: string, scope: string, title: NamingTitle): string
  {
    base + scope + "/" + title.sharp + ".cs"
  }

  /** `<base>Methods/<key>.cs` */
  function MethodsPath(base: string, key: string): string
  {
    base + "Methods/" + key + ".cs"
  }

  /** The grouping key of a method: its scope's C# name. */
  function ScopeKey(m: MethodDescriptor): string
  {
    m.scope.sharp
  }

  /** The object list after the first `k` classes were merged in place, in
      list order, each merge seeing the list as it stood. */
  function MergedPrefix(cs: seq<ClassDescriptor>, k: nat, merge: Merge): (r: seq<ClassDescriptor>)
    requires k <= |cs|
    ensures |r| == |cs|
    ensures forall j :: k <= j < |cs| ==> r[j] == cs[j]
  {
    if k == 0 then cs else MergeAt(MergedPrefix(cs, k - 1, merge), k - 1, merge)
  }

  /** `classes[i].MergePropertiesFromBaseClasses(classes)`: class i of the
      list is replaced by its merge against the list; the others stay. */
  function MergeAt(classes: seq<ClassDescriptor>, i: nat, merge: Merge): seq<ClassDescriptor>
    requires i < |classes|
  {
    classes[i := merge(classes[i], classes)]
  }

  /** The descriptor written for object class i: merged against the list in
      which the classes before it are already merged and it is still not. */
  function Emitted(cs: seq<ClassDescriptor>, i: nat, merge: Merge): ClassDescriptor
    requires i < |cs|
  {
    merge(cs[i], MergedPrefix(cs, i, merge))
  }

  /** The object classes' writes, each under its scope and C# title. */
  function ObjectWrites(base: string, cs: seq<ClassDescriptor>, merge: Merge): (r: seq<Write>)
    ensures |r| == |cs|
  {
    seq(|cs|, i requires 0 <= i < |cs| => ClassWrite(base, ObjectNamespace, Emitted(cs, i, merge), ObjectClass))
  }

  function ClassWrite(base: string, ns: Namespace, c: ClassDescriptor, entity: EntityType): Write
  {
    Write(EntityPath(base, c.scope, c.title), ClassFile(ns, c, entity))
  }

  function EnumWrites(base: string, es: seq<EnumDescriptor>): (r: seq<Write>)
    ensures |r| == |es|
  {
    seq(|es|, i requires 0 <= i < |es| =>
      Write(EntityPath(base, es[i].scope, es[i].title), EnumFile(ObjectNamespace, es[i], ObjectEnum)))
  }

  function ResponseWrites(base: string, rs: seq<ClassDescriptor>): (r: seq<Write>)
    ensures |r| == |rs|
  {
    seq(|rs|, i requires 0 <= i < |rs| => ClassWrite(base, ResponseNamespace, rs[i], Response))
  }

  /** One write per method scope, in first-occurrence order of the scopes. */
  function MethodWrites(base: string, ms: seq<MethodDescriptor>, resolve: string -> string): (r: seq<Write>)
    ensures |r| == |Grouping.GroupBy(ms, ScopeKey)|
  {
    var gs := Grouping.GroupBy(ms, ScopeKey);
    seq(|gs|, i requires 0 <= i < |gs| =>
      Write(MethodsPath(base, gs[i].key),
            MethodsFile(MethodGenerator.Generate(MethodNamespace, gs[i].key, gs[i].items, EntityType.Method, resolve))))
  }

  /** Every write of a run, in order: objects, enums, responses, methods. */
  function Plan(dir: string, schema: Schema, merge: Merge, resolve: string -> string): seq<Write>
  {
    ObjectWrites(dir + "/Objects/", schema.classes, merge)
    + EnumWrites(dir + "/Objects/", schema.enums)
    + ResponseWrites(dir + "/Responses/", schema.responses)
    + MethodWrites(dir + "/", schema.methods, resolve)
  }

  /** The file map after the writes `ws`, applied in order (FileMode.Create
      replaces an existing file). */
  function ApplyWrites(files: map<string, Content>, ws: seq<Write>): map<string, Content>
  {
    if ws == [] then files
    else ApplyWrites(files, ws[..|ws| - 1])[ws[|ws| - 1].path := ws[|ws| - 1].content]
  }

  function WrittenEvents(ws: seq<Write>): (r: seq<Event>)
    ensures |r| == |ws|
  {
    seq(|ws|, i requires 0 <= i < |ws| => FileWritten(ws[i].path))
  }

  function LoggedEvents(messages: seq<string>): (r: seq<Event>)
    ensures |r| == |messages|
  {
    seq(|messages|, i requires 0 <= i < |messages| => Logged(messages[i]))
  }

  /** The journal of one run. */
  function RunEvents(deleted: bool, dir: string, plan: seq<Write>, undefined: seq<string>): seq<Event>
  {
    (if deleted then [DirectoryDeleted(dir)] else []) + WrittenEvents(plan) + LoggedEvents(undefined)
  }

  /** `p` lies inside directory `dir`. */
  predicate Under(p: string, dir: string)
  {
    |dir| + 1 <= |p| && p[..|dir| + 1] == dir + "/"
  }

  /** Directory.Exists: some file lies inside `dir`; never for the empty path. */
  predicate DirectoryExists(files: map<string, Content>, dir: string)
  {
    dir != "" && exists p :: p in files && Under(p, dir)
  }

  /** The file map after a recursive Directory.Delete. */
  function WithoutTree(files: map<string, Content>, dir: string): map<string, Content>
  {
    map p | p in files && !Under(p, dir) :: files[p]
  }

  /** The file map after `if (Directory.Exists(dir)) Directory.Delete(dir, true)`. */
  function Cleared(files: map<string, Content>, dir: string): map<string, Content>
  {
    if DirectoryExists(files, dir) then WithoutTree(files, dir) else files
  }

  /** The files inside `dir`. */
  function Inside(files: map<string, Content>, dir: string): map<string, Content>
  {
    map p | p in files && Under(p, dir) :: files[p]
  }

  /** The output tree: the files on disk and the journal of the run. */
  class OutputTree {
    var files: map<string, Content>
    var journal: seq<Event>

    constructor (initial: map<string, Content>)
      ensures files == initial && journal == []
    {
      files := initial;
      journal := [];
    }

    /** Directory.Delete(dir, true) */
    method DeleteDirectory(dir: string)
      modifies this
      ensures files == WithoutTree(old(files), dir)
      ensures journal == old(journal) + [DirectoryDeleted(dir)]
    {
      files := WithoutTree(files, dir);
      journal := journal + [DirectoryDeleted(dir)];
    }

    /** WriteToFile: creates or replaces the file at `path`. */
    method WriteToFile(path: string, content: Content)
      modifies this
      ensures files == old(files)[path := content]
      ensures journal == old(journal) + [FileWritten(path)]
    {
      files := files[path := content];
      journal := journal + [FileWritten(path)];
    }

    /** Log.Instance.Message */
    method LogMessage(message: string)
      modifies this
      ensures files == old(files)
      ensures journal == old(journal) + [Logged(message)]
    {
      journal := journal + [Logged(message)];
    }

    /** GenerateFromObject: merge and write each object class, then write
        each enum. */
    method GenerateFromObject(schema: Schema, base: string, merge: Merge)
      modifies this
      ensures files == ApplyWrites(old(files), ObjectWrites(base, schema.classes, merge) + EnumWrites(base, schema.enums))
      ensures journal == old(journal) + WrittenEvents(ObjectWrites(base, schema.classes, merge) + EnumWrites(base, schema.enums))
    {
      ghost var plan := ObjectWrites(base, schema.classes, merge);
      var classes := schema.classes;
      var i := 0;
      while i < |classes|
        invariant 0 <= i <= |schema.classes| == |classes|
        invariant classes == MergedPrefix(schema.classes, i, merge)
        invariant files == ApplyWrites(old(files), plan[..i])
        invariant journal == old(journal) + WrittenEvents(plan[..i])
      {
        MergeStep(schema.classes, i, merge);
        classes := MergeAt(classes, i, merge);
        var c := classes[i];
        WriteStep(old(files), plan, i);
        WriteToFile(EntityPath(base, c.scope, c.title), ClassFile(ObjectNamespace, c, ObjectClass));
        i := i + 1;
      }
      assert plan[..i] == plan;
      ghost var middle, logged := files, journal;
      WriteEnums(schema.enums, base);
      ComposeFiles(old(files), plan, EnumWrites(base, schema.enums), middle, files);
      ComposeJournal(old(journal), plan, EnumWrites(base, schema.enums), logged, journal);
    }

    /** The second loop of GenerateFromObject: write each enum. */
    method WriteEnums(enums: seq<EnumDescriptor>, base: string)
      modifies this
      ensures files == ApplyWrites(old(files), EnumWrites(base, enums))
      ensures journal == old(journal) + WrittenEvents(EnumWrites(base, enums))
    {
      ghost var plan := EnumWrites(base, enums);
      var j := 0;
      while j < |enums|
        invariant 0 <= j <= |enums|
        invariant files == ApplyWrites(old(files), plan[..j])
        invariant journal == old(journal) + WrittenEvents(plan[..j])
      {
        var e := enums[j];
        WriteStep(old(files), plan, j);
        WriteToFile(EntityPath(base, e.scope, e.title), EnumFile(ObjectNamespace, e, ObjectEnum));
        j := j + 1;
      }
      assert plan[..j] == plan;
    }

    /** GenerateFromResponses: write each response class, unmerged. */
    method GenerateFromResponses(schema: Schema, base: string)
      modifies this
      ensures files == ApplyWrites(old(files), ResponseWrites(base, schema.responses))
      ensures journal == old(journal) + WrittenEvents(ResponseWrites(base, schema.responses))
    {
      ghost var plan := ResponseWrites(base, schema.responses);
      var i := 0;
      while i < |schema.responses|
        invariant 0 <= i <= |schema.responses|
        invariant files == ApplyWrites(old(files), plan[..i])
        invariant journal == old(journal) + WrittenEvents(plan[..i])
      {
        var c := schema.responses[i];
        WriteStep(old(files), plan, i);
        WriteToFile(EntityPath(base, c.scope, c.title), ClassFile(ResponseNamespace, c, Response));
        i := i + 1;
      }
      assert plan[..i] == plan;
    }

    /** GenerateFromMethods: one file per scope group. */
    method GenerateFromMethods(schema: Schema, base: string, resolve: string -> string)
      modifies this
      ensures files == ApplyWrites(old(files), MethodWrites(base, schema.methods, resolve))
      ensures journal == old(journal) + WrittenEvents(MethodWrites(base, schema.methods, resolve))
    {
      var grouped := Grouping.GroupBy(schema.methods, ScopeKey);
      ghost var plan := MethodWrites(base, schema.methods, resolve);
      var i := 0;
      while i < |grouped|
        invariant 0 <= i <= |grouped|
        invariant files == ApplyWrites(old(files), plan[..i])
        invariant journal == old(journal) + WrittenEvents(plan[..i])
      {
        var title := grouped[i].key;
        var unit := MethodGenerator.Generate(MethodNamespace, title, grouped[i].items, EntityType.Method, resolve);
        WriteStep(old(files), plan, i);
        WriteToFile(MethodsPath(base, title), MethodsFile(unit));
        i := i + 1;
      }
      assert plan[..i] == plan;
    }

    /** Process: delete the output directory if it exists, run the three
        stages, then log the undefined types. */
    method Process(dir: string, schema: Schema, merge: Merge, resolve: string -> string)
      modifies this
      ensures files == ApplyWrites(Cleared(old(files), dir), Plan(dir, schema, merge, resolve))
      ensures journal == old(journal)
        + RunEvents(DirectoryExists(old(files), dir), dir, Plan(dir, schema, merge, resolve), schema.undefined)
    {
      ghost var existed := DirectoryExists(files, dir);
      if DirectoryExists(files, dir) {
        DeleteDirectory(dir);
      }
      assert journal == old(journal) + (if existed then [DirectoryDeleted(dir)] else []);
      ghost var start := files;
      ghost var head := journal;
      GenerateFromObject(schema, dir + "/Objects/", merge);
      ghost var files1, journal1 := files, journal;
      GenerateFromResponses(schema, dir + "/Responses/");
      ghost var files2, journal2 := files, journal;
      GenerateFromMethods(schema, dir + "/", resolve);
      ghost var objects := ObjectWrites(dir + "/Objects/", schema.classes, merge) + EnumWrites(dir + "/Objects/", schema.enums);
      ghost var responses := ResponseWrites(dir + "/Responses/", schema.responses);
      ghost var methods := MethodWrites(dir + "/", schema.methods, resolve);
      ComposeFiles(start, objects, responses, files1, files2);
      ComposeJournal(head, objects, responses, journal1, journal2);
      ComposeFiles(start, objects + responses, methods, files2, files);
      ComposeJournal(head, objects + responses, methods, journal2, journal);
      ghost var written := journal;
      ghost var done := files;
      var k := 0;
      while k < |schema.undefined|
        invariant 0 <= k <= |schema.undefined|
        invariant files == done
        invariant journal == written + LoggedEvents(schema.undefined[..k])
      {
        LogMessage(schema.undefined[k]);
        assert LoggedEvents(schema.undefined[..k + 1]) == LoggedEvents(schema.undefined[..k]) + [Logged(schema.undefined[k])];
        k := k + 1;
      }
      RunJournal(old(journal), existed, dir, head, Plan(dir, schema, merge, resolve), written, schema.undefined, journal);
    }
  }

  /** The journal of a run, assembled from its phases. */
  lemma RunJournal(before: seq<Event>, deleted: bool, dir: string, head: seq<Event>, plan: seq<Write>,
                   written: seq<Event>, undefined: seq<string>, after: seq<Event>)
    requires head == before + (if deleted then [DirectoryDeleted(dir)] else [])
    requires written == head + WrittenEvents(plan)
    requires after == written + LoggedEvents(undefined[..|undefined|])
    ensures after == before + RunEvents(deleted, dir, plan, undefined)
  {
    assert undefined[..|undefined|] == undefined;
  }

  /** Two batches of writes performed one after the other: the files. */
  lemma ComposeFiles(start: map<string, Content>, a: seq<Write>, b: seq<Write>,
                     files1: map<string, Content>, files2: map<string, Content>)
    requires files1 == ApplyWrites(start, a)
    requires files2 == ApplyWrites(files1, b)
    ensures files2 == ApplyWrites(start, a + b)
  {
    ApplyWritesConcat(start, a, b);
  }

  /** Two batches of writes performed one after the other: the journal. */
  lemma ComposeJournal(head: seq<Event>, a: seq<Write>, b: seq<Write>, journal1: seq<Event>, journal2: seq<Event>)
    requires journal1 == head + WrittenEvents(a)
    requires journal2 == journal1 + WrittenEvents(b)
    ensures journal2 == head + WrittenEvents(a + b)
  {
    WrittenEventsConcat(a, b);
  }

  lemma MergeStep(cs: seq<ClassDescriptor>, i: nat, merge: Merge)
    requires i < |cs|
    ensures MergedPrefix(cs, i + 1, merge) == MergedPrefix(cs, i, merge)[i := Emitted(cs, i, merge)]
  {
  }

  /** For a non-empty path, clearing removes exactly the tree under it:
      when the directory does not exist there is nothing under it. */
  lemma ClearedRemovesTree(files: map<string, Content>, dir: string)
    requires dir != ""
    ensures Cleared(files, dir) == WithoutTree(files, dir)
  {
    if !DirectoryExists(files, dir) {
      assert forall p :: p in files ==> !Under(p, dir);
      assert WithoutTree(files, dir) == files;
    }
  }

  /** The empty path names no directory: clearing it keeps every file. */
  lemma EmptyPathKeepsFiles(files: map<string, Content>)
    ensures Cleared(files, "") == files
  {
  }

  /** One more write of a plan. */
  lemma WriteStep(files: map<string, Content>, ws: seq<Write>, i: nat)
    requires i < |ws|
    ensures ApplyWrites(files, ws[..i + 1]) == ApplyWrites(files, ws[..i])[ws[i].path := ws[i].content]
    ensures WrittenEvents(ws[..i + 1]) == WrittenEvents(ws[..i]) + [FileWritten(ws[i].path)]
  {
    assert ws[..i + 1][..i] == ws[..i];
  }

  lemma WrittenEventsConcat(a: seq<Write>, b: seq<Write>)
    ensures WrittenEvents(a + b) == WrittenEvents(a) + WrittenEvents(b)
  {
  }

  lemma {:induction false} ApplyWritesConcat(files: map<string, Content>, a: seq<Write>, b: seq<Write>)
    ensures ApplyWrites(ApplyWrites(files, a), b) == ApplyWrites(files, a + b)
    decreases |b|
  {
    if b != [] {
      assert (a + b)[..|a + b| - 1] == a + b[..|b| - 1];
      ApplyWritesConcat(files, a, b[..|b| - 1]);
    } else {
      assert a + b == a;
    }
  }

  // ----- Merging order -------------------------------------------------------

  /** Classes are merged in list order: while class i is merged, the classes
      before it hold exactly what was emitted for them, and it and the classes
      after it are still as the schema provider gave them. */
  lemma {:induction false} MergeSeesEarlierEmitted(cs: seq<ClassDescriptor>, merge: Merge, i: nat, j: nat)
    requires i <= |cs| && j < |cs|
    ensures MergedPrefix(cs, i, merge)[j] == if j < i then Emitted(cs, j, merge) else cs[j]
    decreases i
  {
    if 0 < i && j < i - 1 {
      MergeSeesEarlierEmitted(cs, merge, i - 1, j);
    }
  }

  // ----- Paths ---------------------------------------------------------------

  lemma UnderSlashPrefix(dir: string, rest: string)
    ensures Under(dir + "/" + rest, dir)
  {
    assert (dir + "/" + rest)[..|dir| + 1] == dir + "/";
  }

  lemma EntityPathUnder(dir: string, sub: string, scope: string, title: NamingTitle)
    ensures Under(EntityPath(dir + "/" + sub, scope, title), dir)
  {
    assert EntityPath(dir + "/" + sub, scope, title) == dir + "/" + (sub + scope + "/" + title.sharp + ".cs");
    UnderSlashPrefix(dir, sub + scope + "/" + title.sharp + ".cs");
  }

  lemma MethodsPathUnder(dir: string, key: string)
    ensures Under(MethodsPath(dir + "/", key), dir)
  {
    assert MethodsPath(dir + "/", key) == dir + "/" + ("Methods/" + key + ".cs");
    UnderSlashPrefix(dir, "Methods/" + key + ".cs");
  }

  /** Every file of a run lies inside the output directory. */
  lemma PlanUnderDirectory(dir: string, schema: Schema, merge: Merge, resolve: string -> string)
    ensures forall i :: 0 <= i < |Plan(dir, schema, merge, resolve)| ==> Under(Plan(dir, schema, merge, resolve)[i].path, dir)
  {
    var objects := ObjectWrites(dir + "/Objects/", schema.classes, merge);
    var enums := EnumWrites(dir + "/Objects/", schema.enums);
    var responses := ResponseWrites(dir + "/Responses/", schema.responses);
    var methods := MethodWrites(dir + "/", schema.methods, resolve);
    var plan := Plan(dir, schema, merge, resolve);
    var gs := Grouping.GroupBy(schema.methods, ScopeKey);
    assert dir + "/Objects/" == dir + "/" + "Objects/";
    assert dir + "/Responses/" == dir + "/" + "Responses/";
    forall i | 0 <= i < |plan| ensures Under(plan[i].path, dir) {
      if i < |objects| {
        var c := Emitted(schema.classes, i, merge);
        EntityPathUnder(dir, "Objects/", c.scope, c.title);
      } else if i < |objects| + |enums| {
        var e := schema.enums[i - |objects|];
        EntityPathUnder(dir, "Objects/", e.scope, e.title);
      } else if i < |objects| + |enums| + |responses| {
        var c := schema.responses[i - |objects| - |enums|];
        EntityPathUnder(dir, "Responses/", c.scope, c.title);
      } else {
        MethodsPathUnder(dir, gs[i - |objects| - |enums| - |responses|].key);
      }
    }
  }

  /** Distinct scope keys give distinct method files. */
  lemma MethodsPathInjective(base: string, k1: string, k2: string)
    requires MethodsPath(base, k1) == MethodsPath(base, k2)
    ensures k1 == k2
  {
    var n := |base| + 8;
    assert |k1| == |k2|;
    assert MethodsPath(base, k1)[n..n + |k1|] == k1;
    assert MethodsPath(base, k2)[n..n + |k2|] == k2;
  }

  predicate DistinctPaths(ws: seq<Write>)
  {
    forall i, j :: 0 <= i < j < |ws| ==> ws[i].path != ws[j].path
  }

  /** The method files of a run never collide: one file per distinct scope. */
  lemma MethodFilesDistinct(base: string, ms: seq<MethodDescriptor>, resolve: string -> string)
    ensures DistinctPaths(MethodWrites(base, ms, resolve))
  {
    var gs := Grouping.GroupBy(ms, ScopeKey);
    var ws := MethodWrites(base, ms, resolve);
    Grouping.GroupKeysDistinct(ms, ScopeKey);
    forall i, j | 0 <= i < j < |ws| ensures ws[i].path != ws[j].path {
      if ws[i].path == ws[j].path {
        MethodsPathInjective(base, gs[i].key, gs[j].key);
      }
    }
  }

  // ----- Writes --------------------------------------------------------------

  predicate WrittenTo(ws: seq<Write>, p: string)
  {
    exists i :: 0 <= i < |ws| && ws[i].path == p
  }

  /** A path exists after the writes iff it existed before or was written. */
  lemma {:induction false} ApplyWritesDomain(files: map<string, Content>, ws: seq<Write>, p: string)
    ensures p in ApplyWrites(files, ws) <==> p in files || WrittenTo(ws, p)
    decreases |ws|
  {
    if ws != [] {
      var init := ws[..|ws| - 1];
      ApplyWritesDomain(files, init, p);
      if WrittenTo(ws, p) && ws[|ws| - 1].path != p {
        var i :| 0 <= i < |ws| && ws[i].path == p;
        assert init[i].path == p;
      }
      if WrittenTo(init, p) {
        var i :| 0 <= i < |init| && init[i].path == p;
        assert ws[i].path == p;
      }
    }
  }

  /** A path no write names keeps its old content. */
  lemma {:induction false} UnwrittenUnchanged(files: map<string, Content>, ws: seq<Write>, p: string)
    requires p in files && !WrittenTo(ws, p)
    ensures p in ApplyWrites(files, ws) && ApplyWrites(files, ws)[p] == files[p]
    decreases |ws|
  {
    if ws != [] {
      UnwrittenUnchanged(files, ws[..|ws| - 1], p);
    }
  }

  /** Two writes to the same path: the later one wins (FileMode.Create). */
  lemma {:induction false} LastWriteWins(files: map<string, Content>, ws: seq<Write>, j: nat)
    requires j < |ws|
    requires forall k :: j < k < |ws| ==> ws[k].path != ws[j].path
    ensures ws[j].path in ApplyWrites(files, ws) && ApplyWrites(files, ws)[ws[j].path] == ws[j].content
    decreases |ws|
  {
    if j < |ws| - 1 {
      LastWriteWins(files, ws[..|ws| - 1], j);
    }
  }

  /** What a written path holds does not depend on what was there before. */
  lemma {:induction false} WrittenIgnoresBefore(f1: map<string, Content>, f2: map<string, Content>, ws: seq<Write>, p: string)
    requires WrittenTo(ws, p)
    ensures p in ApplyWrites(f1, ws) && p in ApplyWrites(f2, ws)
    ensures ApplyWrites(f1, ws)[p] == ApplyWrites(f2, ws)[p]
    decreases |ws|
  {
    ApplyWritesDomain(f1, ws, p);
    ApplyWritesDomain(f2, ws, p);
    var init := ws[..|ws| - 1];
    if ws[|ws| - 1].path != p {
      var i :| 0 <= i < |ws| && ws[i].path == p;
      assert init[i].path == p;
      WrittenIgnoresBefore(f1, f2, init, p);
    }
  }

  /** Performing the same writes twice is performing them once. */
  lemma ApplyWritesTwice(files: map<string, Content>, ws: seq<Write>)
    ensures ApplyWrites(ApplyWrites(files, ws), ws) == ApplyWrites(files, ws)
  {
    var once := ApplyWrites(files, ws);
    var twice := ApplyWrites(once, ws);
    forall p | true
      ensures p in twice <==> p in once
      ensures p in once ==> twice[p] == once[p]
    {
      ApplyWritesDomain(once, ws, p);
      ApplyWritesDomain(files, ws, p);
      if WrittenTo(ws, p) {
        WrittenIgnoresBefore(once, files, ws, p);
      } else if p in once {
        UnwrittenUnchanged(once, ws, p);
      }
    }
    assert twice == once;
  }

  /** Writing distinct paths into an empty tree creates one file per write. */
  lemma {:induction false} FreshWritesCount(ws: seq<Write>)
    requires DistinctPaths(ws)
    ensures |ApplyWrites(map[], ws)| == |ws|
    decreases |ws|
  {
    if ws != [] {
      var init := ws[..|ws| - 1];
      var last := ws[|ws| - 1];
      FreshWritesCount(init);
      ApplyWritesDomain(map[], init, last.path);
    }
  }

  // ----- A whole run ---------------------------------------------------------

  /** After a run the output directory holds exactly the files the run wrote,
      and every file outside it is as it was. */
  lemma RunReplacesDirectory(before: map<string, Content>, dir: string, schema: Schema,
                             merge: Merge, resolve: string -> string, p: string)
    requires dir != ""
    ensures
      var plan := Plan(dir, schema, merge, resolve);
      var after := ApplyWrites(Cleared(before, dir), plan);
      (Under(p, dir) ==> (p in after <==> WrittenTo(plan, p)))
      && (!Under(p, dir) ==> (p in after <==> p in before) && (p in before ==> after[p] == before[p]))
  {
    var plan := Plan(dir, schema, merge, resolve);
    var cleared := WithoutTree(before, dir);
    ClearedRemovesTree(before, dir);
    ApplyWritesDomain(cleared, plan, p);
    if !Under(p, dir) {
      PlanUnderDirectory(dir, schema, merge, resolve);
      if p in before {
        UnwrittenUnchanged(cleared, plan, p);
      }
    }
  }

  /** Running again over the output of a run leaves the same files. */
  lemma RerunIsIdempotent(before: map<string, Content>, dir: string, schema: Schema,
                          merge: Merge, resolve: string -> string)
    ensures
      var plan := Plan(dir, schema, merge, resolve);
      var once := ApplyWrites(Cleared(before, dir), plan);
      ApplyWrites(Cleared(once, dir), plan) == once
  {
    var plan := Plan(dir, schema, merge, resolve);
    var once := ApplyWrites(Cleared(before, dir), plan);
    if dir == "" {
      EmptyPathKeepsFiles(once);
      ApplyWritesTwice(Cleared(before, dir), plan);
    } else {
      ClearedRemovesTree(before, dir);
      ClearedRemovesTree(once, dir);
      forall p | true
        ensures (p in WithoutTree(once, dir) <==> p in WithoutTree(before, dir))
        ensures p in WithoutTree(once, dir) ==> WithoutTree(once, dir)[p] == WithoutTree(before, dir)[p]
      {
        RunReplacesDirectory(before, dir, schema, merge, resolve, p);
      }
      assert WithoutTree(once, dir) == WithoutTree(before, dir);
    }
  }

  /** The files inside the directory after a run are the run's writes alone. */
  lemma InsideAfterRun(before: map<string, Content>, dir: string, schema: Schema,
                       merge: Merge, resolve: string -> string)
    requires dir != ""
    ensures
      var plan := Plan(dir, schema, merge, resolve);
      Inside(ApplyWrites(Cleared(before, dir), plan), dir) == ApplyWrites(map[], plan)
  {
    var plan := Plan(dir, schema, merge, resolve);
    ClearedRemovesTree(before, dir);
    var after := ApplyWrites(WithoutTree(before, dir), plan);
    var created := ApplyWrites(map[], plan);
    PlanUnderDirectory(dir, schema, merge, resolve);
    forall p | true
      ensures p in Inside(after, dir) <==> p in created
      ensures p in created ==> Inside(after, dir)[p] == created[p]
    {
      RunReplacesDirectory(before, dir, schema, merge, resolve, p);
      ApplyWritesDomain(map[], plan, p);
      if WrittenTo(plan, p) {
        WrittenIgnoresBefore(WithoutTree(before, dir), map[], plan, p);
        var i :| 0 <= i < |plan| && plan[i].path == p;
        assert Under(p, dir);
      }
    }
    assert Inside(after, dir) == created;
  }

  /** Without path collisions a run leaves one file per object class, enum and
      response class, and one per distinct method scope. */
  lemma FileCountWithoutCollisions(before: map<string, Content>, dir: string, schema: Schema,
                                   merge: Merge, resolve: string -> string)
    requires dir != "" && DistinctPaths(Plan(dir, schema, merge, resolve))
    ensures |Inside(ApplyWrites(Cleared(before, dir), Plan(dir, schema, merge, resolve)), dir)|
         == |schema.classes| + |schema.enums| + |schema.responses| + |Grouping.KeySet(schema.methods, ScopeKey)|
  {
    InsideAfterRun(before, dir, schema, merge, resolve);
    FreshWritesCount(Plan(dir, schema, merge, resolve));
    Grouping.OneGroupPerKey(schema.methods, ScopeKey);
  }

  // ----- The journal ---------------------------------------------------------

  /** The journal of a run, event by event: the deletion (when the directory
      existed), then one write per planned file in plan order, then one
      message per undefined type. */
  lemma RunEventAt(deleted: bool, dir: string, plan: seq<Write>, undefined: seq<string>, i: nat)
    requires i < |RunEvents(deleted, dir, plan, undefined)|
    ensures |RunEvents(deleted, dir, plan, undefined)| == (if deleted then 1 else 0) + |plan| + |undefined|
    ensures
      var o := if deleted then 1 else 0;
      RunEvents(deleted, dir, plan, undefined)[i]
        == if i < o then DirectoryDeleted(dir)
           else if i < o + |plan| then FileWritten(plan[i - o].path)
           else Logged(undefined[i - o - |plan|])
  {
  }

  /** Diagnostics never precede a write, and the deletion comes first. */
  lemma DiagnosticsLoggedLast(deleted: bool, dir: string, plan: seq<Write>, undefined: seq<string>, i: nat, j: nat)
    requires i < j < |RunEvents(deleted, dir, plan, undefined)|
    ensures RunEvents(deleted, dir, plan, undefined)[i].Logged? ==> RunEvents(deleted, dir, plan, undefined)[j].Logged?
    ensures !RunEvents(deleted, dir, plan, undefined)[j].DirectoryDeleted?
  {
    RunEventAt(deleted, dir, plan, undefined, i);
    RunEventAt(deleted, dir, plan, undefined, j);
  }
}
