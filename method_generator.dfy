/**
 * The method-group emitter (VkLibrary.Codegen/Generators/MethodGenerator.cs).
 * For one scope it builds a public class holding the transport field, an
 * internal constructor and one method per descriptor. Every method fills a
 * `parameters` dictionary with the arguments that were supplied and hands it
 * to `_vkontakte.RequestAsync<T>` together with the method's wire name.
 */
module MethodGenerator {
  import opened Wrappers
  import opened Descriptors
  import opened CSharp
  import opened Interpreter
  import TypeParser

  const TransportField: string := "_vkontakte"
  const ParametersLocal: string := "parameters"

  /** T: TypeProvider.Instance.Resolve applied to the C# name of the response type. */
  function ResponseTypeOf(m: MethodDescriptor, resolve: string -> string): TypeSyntax
  {
    Named(resolve(m.responseType.sharp))
  }

  /** `private readonly Vkontakte _vkontakte;` */
  function VkontakteField(): MemberDecl
  {
    Field([Private, ReadOnly], Named("Vkontakte"), TransportField)
  }

  /** `internal <title>(Vkontakte vkontakte) => _vkontakte = vkontakte;` */
  function MainConstructor(title: string): MemberDecl
  {
    Constructor([Internal], title, [Parameter("vkontakte", Named("Vkontakte"), None)],
                Assign(TransportField, Ident("vkontakte")))
  }

  /** `var parameters = new Dictionary<string, string>();` */
  function DictionaryDeclaration(): Stmt
  {
    LocalVar(Named("var"), ParametersLocal, NewObject(DictionaryOfStrings))
  }

  /** `return _vkontakte.RequestAsync<T>("<wire name>", parameters);` */
  function RequestStatement(t: TypeSyntax, wireName: string): Stmt
  {
    Return(Invoke(Ident(TransportField), "RequestAsync", [t], [StringLit(wireName), Ident(ParametersLocal)]))
  }

  /** ArgumentInsertStatement:
      `if (<sharp> != null) parameters.Add("<wire>", <sharp>.ToApiString());` */
  function ArgumentInsertStatement(p: ParameterDescriptor): Stmt
  {
    If(NotEquals(Ident(p.title.sharp), NullLit),
       ExprStmt(Invoke(Ident(ParametersLocal), "Add", [],
                       [StringLit(p.title.wire), Invoke(Ident(p.title.sharp), "ToApiString", [], [])])))
  }

  /** One insert statement per parameter, in declaration order. */
  function Inserts(ps: seq<ParameterDescriptor>): (r: seq<Stmt>)
    ensures |r| == |ps|
    ensures forall i :: 0 <= i < |ps| ==> r[i] == ArgumentInsertStatement(ps[i])
  {
    seq(|ps|, i requires 0 <= i < |ps| => ArgumentInsertStatement(ps[i]))
  }

  /** GenerateParameters: named by the C# form of the title, typed by the
      nullable form of the type's C# name, defaulting to null. */
  function GenerateParameters(p: ParameterDescriptor): (r: Parameter)
    ensures r.name == p.title.sharp
    ensures r.defaultValue == Some(NullLit)
    ensures p.typeTitle.sharp in TypeParser.NullableScalars ==> r.paramType == Named(p.typeTitle.sharp + "?")
    ensures p.typeTitle.sharp !in TypeParser.NullableScalars ==> r.paramType == Named(p.typeTitle.sharp)
  {
    Parameter(p.title.sharp, Named(TypeParser.AddNullabilityIfNeed(p.typeTitle.sharp)), Some(NullLit))
  }

  /** GenerateMethod: `public Task<T> <sharp>(<parameters>) { <dictionary>
      <one insert per parameter> <return request> }`, with the same T in the
      return type and in the request. */
  function GenerateMethod(m: MethodDescriptor, resolve: string -> string): (d: MemberDecl)
    ensures d.MethodDecl? && d.modifiers == [Public] && d.name == m.title.sharp
    ensures d.returnType == Generic("Task", [ResponseTypeOf(m, resolve)])
    ensures |d.parameters| == |m.parameters|
    ensures forall i :: 0 <= i < |m.parameters| ==> d.parameters[i] == GenerateParameters(m.parameters[i])
    ensures d.body == MethodBody(m.parameters, ResponseTypeOf(m, resolve), m.title.wire)
    ensures |d.body| == |m.parameters| + 2
    ensures d.body[0] == DictionaryDeclaration()
    ensures forall i :: 0 <= i < |m.parameters| ==> d.body[1 + i] == ArgumentInsertStatement(m.parameters[i])
    ensures d.body[|d.body| - 1] == RequestStatement(ResponseTypeOf(m, resolve), m.title.wire)
  {
    var t := ResponseTypeOf(m, resolve);
    MethodDecl(m.description, [Public], Generic("Task", [t]), m.title.sharp,
           seq(|m.parameters|, i requires 0 <= i < |m.parameters| => GenerateParameters(m.parameters[i])),
           MethodBody(m.parameters, t, m.title.wire))
  }

  /** The statements of a generated method. */
  function MethodBody(ps: seq<ParameterDescriptor>, t: TypeSyntax, wireName: string): seq<Stmt>
  {
    [DictionaryDeclaration()] + (Inserts(ps) + [RequestStatement(t, wireName)])
  }

  /** GenerateMainModel: the field, the constructor named `title`, then one
      method per descriptor in input order. */
  function GenerateMainModel(title: string, methods: seq<MethodDescriptor>, resolve: string -> string): (c: ClassDecl)
    ensures c.name == title && c.modifiers == [Public]
    ensures |c.members| == 2 + |methods|
    ensures c.members[0] == VkontakteField()
    ensures c.members[1] == MainConstructor(title)
    ensures forall i :: 0 <= i < |methods| ==> c.members[2 + i] == GenerateMethod(methods[i], resolve)
  {
    ClassDecl([Public], title,
              [VkontakteField(), MainConstructor(title)]
              + seq(|methods|, i requires 0 <= i < |methods| => GenerateMethod(methods[i], resolve)))
  }

  /** Generate: the class of one scope, wrapped by the shared scaffolding. */
  function Generate(ns: Namespace, title: string, methods: seq<MethodDescriptor>, entity: EntityType,
                    resolve: string -> string): (u: CompilationUnit)
    ensures u.ns == ns && u.entity == entity
    ensures u.decl.name == title && u.decl.modifiers == [Public] && |u.decl.members| == 2 + |methods|
    ensures u.decl.members[0] == VkontakteField()
    ensures u.decl.members[1] == MainConstructor(title)
    ensures forall i :: 0 <= i < |methods| ==> u.decl.members[2 + i] == GenerateMethod(methods[i], resolve)
  {
    CompilationUnit(ns, entity, GenerateMainModel(title, methods, resolve))
  }

  // ---------------------------------------------------------------------
  // Meaning of a generated method body

  function WireNames(ps: seq<ParameterDescriptor>): (r: seq<string>)
    ensures |r| == |ps| && forall i :: 0 <= i < |ps| ==> r[i] == ps[i].title.wire
  {
    seq(|ps|, i requires 0 <= i < |ps| => ps[i].title.wire)
  }

  function SharpNames(ps: seq<ParameterDescriptor>): set<string>
  {
    set i | 0 <= i < |ps| :: ps[i].title.sharp
  }

  /** The generated method compiles as intended: parameter identifiers are
      pairwise distinct and clash with neither the local nor the field. */
  predicate WellNamed(ps: seq<ParameterDescriptor>)
  {
    && (forall i, j :: 0 <= i < j < |ps| ==> ps[i].title.sharp != ps[j].title.sharp)
    && (forall i :: 0 <= i < |ps| ==> ps[i].title.sharp != ParametersLocal && ps[i].title.sharp != TransportField)
  }

  predicate DistinctWireNames(ps: seq<ParameterDescriptor>)
  {
    forall i, j :: 0 <= i < j < |ps| ==> ps[i].title.wire != ps[j].title.wire
  }

  /** The value a caller passes: an argument, or the default null. */
  function ArgValue(a: Option<string>): Value
  {
    if a.Some? then Argument(a.value) else NullValue
  }

  /** The environment at method entry: the transport field and the arguments. */
  function Bind(ps: seq<ParameterDescriptor>, args: seq<Option<string>>): Env
    requires |ps| == |args|
  {
    if ps == [] then map[TransportField := Transport]
    else Bind(ps[1..], args[1..])[ps[0].title.sharp := ArgValue(args[0])]
  }

  /** Dictionary.Add applied in order to every supplied argument: the final
      dictionary, or the first key added twice. */
  datatype Collected = Collected(entries: map<string, string>) | Duplicate(key: string)

  function CollectSupplied(d: map<string, string>, ps: seq<ParameterDescriptor>, args: seq<Option<string>>): Collected
    requires |ps| == |args|
    decreases |ps|
  {
    if ps == [] then Collected(d)
    else if args[0].None? then CollectSupplied(d, ps[1..], args[1..])
    else if ps[0].title.wire in d then Duplicate(ps[0].title.wire)
    else CollectSupplied(d[ps[0].title.wire := args[0].value], ps[1..], args[1..])
  }

  /** What a body that collected `c` and then requests `wireName` yields. */
  function OutcomeOf(c: Collected, t: TypeSyntax, wireName: string): Outcome
  {
    match c
    case Collected(e) => Returned(Request(t, wireName, e))
    case Duplicate(k) => Threw(k)
  }

  lemma {:induction false} BindLookup(ps: seq<ParameterDescriptor>, args: seq<Option<string>>)
    requires |ps| == |args| && WellNamed(ps)
    ensures TransportField in Bind(ps, args) && Bind(ps, args)[TransportField] == Transport
    ensures ParametersLocal !in Bind(ps, args)
    ensures forall i :: 0 <= i < |ps| ==>
      ps[i].title.sharp in Bind(ps, args) && Bind(ps, args)[ps[i].title.sharp] == ArgValue(args[i])
  {
    if ps != [] {
      assert WellNamed(ps[1..]) by {
        forall i, j | 0 <= i < j < |ps[1..]| ensures ps[1..][i].title.sharp != ps[1..][j].title.sharp {
          assert ps[1..][i] == ps[i + 1] && ps[1..][j] == ps[j + 1];
        }
      }
      BindLookup(ps[1..], args[1..]);
      forall i | 0 < i < |ps|
        ensures Bind(ps, args)[ps[i].title.sharp] == ArgValue(args[i])
      {
        assert ps[1..][i - 1] == ps[i];
      }
    }
  }

  /** One insert statement: nothing happens for a null argument; a supplied
      one is added under the wire name, or Dictionary.Add throws when that key
      is already present. */
  lemma ArgumentInsertSemantics(p: ParameterDescriptor, a: Option<string>, env: Env, d: map<string, string>)
    requires p.title.sharp in env && env[p.title.sharp] == ArgValue(a)
    requires ParametersLocal in env && env[ParametersLocal] == Dictionary(d)
    ensures a.None? ==> Step(ArgumentInsertStatement(p), env) == Next(env)
    ensures a.Some? && p.title.wire in d ==> Step(ArgumentInsertStatement(p), env) == Raised(p.title.wire)
    ensures a.Some? && p.title.wire !in d ==>
      Step(ArgumentInsertStatement(p), env) == Next(env[ParametersLocal := Dictionary(d[p.title.wire := a.value])])
  {
    var x := p.title.sharp;
    assert Eval(NotEquals(Ident(x), NullLit), env) == Some(Boolean(a.Some?));
    var add := ExprStmt(Invoke(Ident(ParametersLocal), "Add", [],
                               [StringLit(p.title.wire), Invoke(Ident(x), "ToApiString", [], [])]));
    assert ArgumentInsertStatement(p) == If(NotEquals(Ident(x), NullLit), add);
    if a.Some? {
      assert Eval(StringLit(p.title.wire), env) == Some(Str(p.title.wire));
      assert Eval(Invoke(Ident(x), "ToApiString", [], []), env) == Some(Str(a.value));
      assert Step(ArgumentInsertStatement(p), env) == Step(add, env);
    }
  }

  /** Running the insert statements and the return from any dictionary `d`
      performs CollectSupplied starting from `d`. */
  lemma {:induction false} ExecInserts(ps: seq<ParameterDescriptor>, args: seq<Option<string>>, env: Env,
                                       d: map<string, string>, t: TypeSyntax, wireName: string)
    requires |ps| == |args|
    requires ParametersLocal in env && env[ParametersLocal] == Dictionary(d)
    requires TransportField in env && env[TransportField] == Transport
    requires forall i :: 0 <= i < |ps| ==> ps[i].title.sharp != ParametersLocal
    requires forall i :: 0 <= i < |ps| ==> ps[i].title.sharp in env && env[ps[i].title.sharp] == ArgValue(args[i])
    ensures Exec(Inserts(ps) + [RequestStatement(t, wireName)], env) == OutcomeOf(CollectSupplied(d, ps, args), t, wireName)
  {
    var body := Inserts(ps) + [RequestStatement(t, wireName)];
    if ps == [] {
      assert body == [RequestStatement(t, wireName)];
    } else {
      assert body[0] == ArgumentInsertStatement(ps[0]);
      assert body[1..] == Inserts(ps[1..]) + [RequestStatement(t, wireName)];
      ArgumentInsertSemantics(ps[0], args[0], env, d);
      forall i | 0 <= i < |ps[1..]|
        ensures ps[1..][i].title.sharp != ParametersLocal
      {
        assert ps[1..][i] == ps[i + 1];
      }
      if args[0].None? {
        forall i | 0 <= i < |ps[1..]|
          ensures ps[1..][i].title.sharp in env && env[ps[1..][i].title.sharp] == ArgValue(args[1..][i])
        {
          assert ps[1..][i] == ps[i + 1];
        }
        ExecInserts(ps[1..], args[1..], env, d, t, wireName);
      } else if ps[0].title.wire !in d {
        var d' := d[ps[0].title.wire := args[0].value];
        var env' := env[ParametersLocal := Dictionary(d')];
        forall i | 0 <= i < |ps[1..]|
          ensures ps[1..][i].title.sharp in env' && env'[ps[1..][i].title.sharp] == ArgValue(args[1..][i])
        {
          assert ps[1..][i] == ps[i + 1];
        }
        ExecInserts(ps[1..], args[1..], env', d', t, wireName);
      }
    }
  }

  /** The meaning of every generated method: calling it with arguments
      `args` (None for an omitted, null argument) adds the supplied arguments
      in declaration order and then requests the method's wire name with the
      resulting dictionary, or throws on the first wire name added twice. */
  lemma GeneratedMethodSemantics(m: MethodDescriptor, resolve: string -> string, args: seq<Option<string>>)
    requires |args| == |m.parameters| && WellNamed(m.parameters)
    ensures Exec(GenerateMethod(m, resolve).body, Bind(m.parameters, args)) ==
      OutcomeOf(CollectSupplied(map[], m.parameters, args), ResponseTypeOf(m, resolve), m.title.wire)
  {
    BodySemantics(m.parameters, args, ResponseTypeOf(m, resolve), m.title.wire);
  }

  lemma BodySemantics(ps: seq<ParameterDescriptor>, args: seq<Option<string>>, t: TypeSyntax, wireName: string)
    requires |args| == |ps| && WellNamed(ps)
    ensures Exec(MethodBody(ps, t, wireName), Bind(ps, args)) == OutcomeOf(CollectSupplied(map[], ps, args), t, wireName)
  {
    var env := Bind(ps, args);
    BindLookup(ps, args);
    DeclarationThen(env, Inserts(ps) + [RequestStatement(t, wireName)]);
    ExecInserts(ps, args, env[ParametersLocal := Dictionary(map[])], map[], t, wireName);
  }

  /** Running the dictionary declaration binds `parameters` to an empty dictionary. */
  lemma DeclarationThen(env: Env, rest: seq<Stmt>)
    requires ParametersLocal !in env
    ensures Exec([DictionaryDeclaration()] + rest, env) == Exec(rest, env[ParametersLocal := Dictionary(map[])])
  {
    var body := [DictionaryDeclaration()] + rest;
    assert body[0] == DictionaryDeclaration() && body[1..] == rest;
    assert Eval(NewObject(DictionaryOfStrings), env) == Some(Dictionary(map[]));
    assert Step(body[0], env) == Next(env[ParametersLocal := Dictionary(map[])]);
  }

  /** With distinct wire names no Add throws, and the keys of the collected
      dictionary are `d`'s keys plus exactly the wire names of the supplied
      arguments, each holding its argument's ToApiString(). */
  lemma {:induction false} CollectDistinct(d: map<string, string>, ps: seq<ParameterDescriptor>, args: seq<Option<string>>)
    requires |ps| == |args| && DistinctWireNames(ps)
    requires forall i :: 0 <= i < |ps| ==> ps[i].title.wire !in d
    ensures CollectSupplied(d, ps, args).Collected?
    ensures forall k :: k in CollectSupplied(d, ps, args).entries <==>
      k in d || exists i :: 0 <= i < |ps| && args[i].Some? && ps[i].title.wire == k
    ensures forall k :: k in d ==> CollectSupplied(d, ps, args).entries[k] == d[k]
    ensures forall i :: 0 <= i < |ps| && args[i].Some? ==>
      CollectSupplied(d, ps, args).entries[ps[i].title.wire] == args[i].value
    decreases |ps|
  {
    if ps != [] {
      var d' := if args[0].Some? then d[ps[0].title.wire := args[0].value] else d;
      assert DistinctWireNames(ps[1..]) by {
        forall i, j | 0 <= i < j < |ps[1..]| ensures ps[1..][i].title.wire != ps[1..][j].title.wire {
          assert ps[1..][i] == ps[i + 1] && ps[1..][j] == ps[j + 1];
        }
      }
      forall i | 0 <= i < |ps[1..]| ensures ps[1..][i].title.wire !in d' {
        assert ps[1..][i] == ps[i + 1];
      }
      CollectDistinct(d', ps[1..], args[1..]);
      var e := CollectSupplied(d, ps, args).entries;
      forall k ensures k in e <==> k in d || exists i :: 0 <= i < |ps| && args[i].Some? && ps[i].title.wire == k {
        if exists i :: 0 <= i < |ps| && args[i].Some? && ps[i].title.wire == k {
          var i :| 0 <= i < |ps| && args[i].Some? && ps[i].title.wire == k;
          if i > 0 { assert ps[1..][i - 1] == ps[i] && args[1..][i - 1] == args[i]; }
        }
        if exists i :: 0 <= i < |ps[1..]| && args[1..][i].Some? && ps[1..][i].title.wire == k {
          var i :| 0 <= i < |ps[1..]| && args[1..][i].Some? && ps[1..][i].title.wire == k;
          assert ps[1..][i] == ps[i + 1] && args[1..][i] == args[i + 1];
        }
      }
      forall i | 0 <= i < |ps| && args[i].Some? ensures e[ps[i].title.wire] == args[i].value {
        if i > 0 { assert ps[1..][i - 1] == ps[i] && args[1..][i - 1] == args[i]; }
      }
    }
  }

  /** A supplied argument whose wire name is already a key, or repeats the
      wire name of an earlier supplied argument, makes some Add throw. */
  lemma {:induction false} CollectDuplicate(d: map<string, string>, ps: seq<ParameterDescriptor>,
                                            args: seq<Option<string>>, j: nat)
    requires |ps| == |args| && j < |ps| && args[j].Some?
    requires ps[j].title.wire in d || exists i :: 0 <= i < j && args[i].Some? && ps[i].title.wire == ps[j].title.wire
    ensures CollectSupplied(d, ps, args).Duplicate?
    decreases |ps|
  {
    if args[0].None? {
      assert j > 0;
      assert ps[1..][j - 1] == ps[j] && args[1..][j - 1] == args[j];
      if ps[j].title.wire !in d {
        var i :| 0 <= i < j && args[i].Some? && ps[i].title.wire == ps[j].title.wire;
        assert ps[1..][i - 1] == ps[i] && args[1..][i - 1] == args[i];
      }
      CollectDuplicate(d, ps[1..], args[1..], j - 1);
    } else if ps[0].title.wire !in d {
      assert j > 0;
      var d' := d[ps[0].title.wire := args[0].value];
      assert ps[1..][j - 1] == ps[j] && args[1..][j - 1] == args[j];
      if ps[j].title.wire !in d' {
        var i :| 0 <= i < j && args[i].Some? && ps[i].title.wire == ps[j].title.wire;
        assert i > 0;
        assert ps[1..][i - 1] == ps[i] && args[1..][i - 1] == args[i];
      }
      CollectDuplicate(d', ps[1..], args[1..], j - 1);
    }
  }

  /** The hard contract of the emitted client: with distinct wire names, the
      request carries exactly the wire names of the supplied arguments, each
      with its argument's ToApiString(); an omitted argument's wire name is
      never sent. */
  lemma OnlySuppliedParametersSent(m: MethodDescriptor, resolve: string -> string, args: seq<Option<string>>)
    requires |args| == |m.parameters| && WellNamed(m.parameters) && DistinctWireNames(m.parameters)
    ensures var o := Exec(GenerateMethod(m, resolve).body, Bind(m.parameters, args));
      && o.Returned?
      && o.request.responseType == ResponseTypeOf(m, resolve)
      && o.request.methodName == m.title.wire
      && (forall k :: k in o.request.parameters <==>
            exists i :: 0 <= i < |args| && args[i].Some? && m.parameters[i].title.wire == k)
      && (forall i :: 0 <= i < |args| && args[i].Some? ==>
            o.request.parameters[m.parameters[i].title.wire] == args[i].value)
      && (forall i :: 0 <= i < |args| && args[i].None? ==> m.parameters[i].title.wire !in o.request.parameters)
  {
    SuppliedRequest(m.parameters, args, ResponseTypeOf(m, resolve), m.title.wire);
  }

  /** The same for any body built by MethodBody. */
  lemma SuppliedRequest(ps: seq<ParameterDescriptor>, args: seq<Option<string>>, t: TypeSyntax, wireName: string)
    requires |args| == |ps| && WellNamed(ps) && DistinctWireNames(ps)
    ensures var o := Exec(MethodBody(ps, t, wireName), Bind(ps, args));
      && o.Returned? && o.request.responseType == t && o.request.methodName == wireName
      && (forall k :: k in o.request.parameters <==>
            exists i :: 0 <= i < |args| && args[i].Some? && ps[i].title.wire == k)
      && (forall i :: 0 <= i < |args| && args[i].Some? ==>
            o.request.parameters[ps[i].title.wire] == args[i].value)
      && (forall i :: 0 <= i < |args| && args[i].None? ==> ps[i].title.wire !in o.request.parameters)
  {
    CollectDistinct(map[], ps, args);
    var c := CollectSupplied(map[], ps, args);
    assert OutcomeOf(c, t, wireName) == Returned(Request(t, wireName, c.entries));
    BodySemantics(ps, args, t, wireName);
  }

  /** Two supplied arguments sharing a wire name make the generated method
      throw instead of sending a request. */
  lemma DuplicateWireNameThrows(m: MethodDescriptor, resolve: string -> string, args: seq<Option<string>>, i: nat, j: nat)
    requires |args| == |m.parameters| && WellNamed(m.parameters)
    requires i < j < |args| && args[i].Some? && args[j].Some?
    requires m.parameters[i].title.wire == m.parameters[j].title.wire
    ensures Exec(GenerateMethod(m, resolve).body, Bind(m.parameters, args)).Threw?
  {
    var ps := m.parameters;
    assert 0 <= i < j && args[i].Some? && ps[i].title.wire == ps[j].title.wire;
    CollectDuplicate(map[], ps, args, j);
    var c := CollectSupplied(map[], ps, args);
    assert OutcomeOf(c, ResponseTypeOf(m, resolve), m.title.wire) == Threw(c.key);
    GeneratedMethodSemantics(m, resolve, args);
  }

  // ---------------------------------------------------------------------
  // Naming: literals are exactly the wire forms, identifiers exactly the C# forms

  /** The only string literals in a generated body are the parameters' wire
      names in declaration order, then the method's wire name. */
  lemma GeneratedLiterals(m: MethodDescriptor, resolve: string -> string)
    ensures BodyLiterals(GenerateMethod(m, resolve).body) == WireNames(m.parameters) + [m.title.wire]
  {
    MethodBodyLiterals(m.parameters, ResponseTypeOf(m, resolve), m.title.wire);
  }

  lemma MethodBodyLiterals(ps: seq<ParameterDescriptor>, t: TypeSyntax, wireName: string)
    ensures BodyLiterals(MethodBody(ps, t, wireName)) == WireNames(ps) + [wireName]
  {
    var body := MethodBody(ps, t, wireName);
    assert body[0] == DictionaryDeclaration();
    assert body[1..] == Inserts(ps) + [RequestStatement(t, wireName)];
    InsertsAndReturnLiterals(ps, t, wireName);
  }

  lemma {:induction false} InsertsAndReturnLiterals(ps: seq<ParameterDescriptor>, t: TypeSyntax, wireName: string)
    ensures BodyLiterals(Inserts(ps) + [RequestStatement(t, wireName)]) == WireNames(ps) + [wireName]
  {
    var body := Inserts(ps) + [RequestStatement(t, wireName)];
    if ps == [] {
      assert body == [RequestStatement(t, wireName)];
      assert body[1..] == [];
      RequestNames(t, wireName);
    } else {
      assert body[0] == ArgumentInsertStatement(ps[0]);
      assert body[1..] == Inserts(ps[1..]) + [RequestStatement(t, wireName)];
      InsertsAndReturnLiterals(ps[1..], t, wireName);
      InsertNames(ps[0]);
      assert WireNames(ps) == [ps[0].title.wire] + WireNames(ps[1..]);
    }
  }

  /** The literals and identifiers of one insert statement. */
  lemma InsertNames(p: ParameterDescriptor)
    ensures StmtLiterals(ArgumentInsertStatement(p)) == [p.title.wire]
    ensures StmtIdentifiers(ArgumentInsertStatement(p)) == {p.title.sharp, ParametersLocal}
  {
    var x := p.title.sharp;
    CallWithoutArguments(Ident(x), "ToApiString", []);
    CallWithTwoArguments(Ident(ParametersLocal), "Add", [], StringLit(p.title.wire),
                         Invoke(Ident(x), "ToApiString", [], []));
    assert ExprIdentifiers(NotEquals(Ident(x), NullLit)) == {x};
  }

  /** The literals and identifiers of the return statement. */
  lemma RequestNames(t: TypeSyntax, wireName: string)
    ensures StmtLiterals(RequestStatement(t, wireName)) == [wireName]
    ensures StmtIdentifiers(RequestStatement(t, wireName)) == {TransportField, ParametersLocal}
  {
    CallWithTwoArguments(Ident(TransportField), "RequestAsync", [t], StringLit(wireName), Ident(ParametersLocal));
  }

  /** The identifiers a generated body declares or names are the local
      `parameters`, the field `_vkontakte` and the C# forms of the parameter
      titles. */
  lemma GeneratedIdentifiers(m: MethodDescriptor, resolve: string -> string)
    ensures BodyIdentifiers(GenerateMethod(m, resolve).body) ==
      {ParametersLocal, TransportField} + SharpNames(m.parameters)
  {
    MethodBodyIdentifiers(m.parameters, ResponseTypeOf(m, resolve), m.title.wire);
  }

  lemma MethodBodyIdentifiers(ps: seq<ParameterDescriptor>, t: TypeSyntax, wireName: string)
    ensures BodyIdentifiers(MethodBody(ps, t, wireName)) == {ParametersLocal, TransportField} + SharpNames(ps)
  {
    var body := MethodBody(ps, t, wireName);
    assert body[0] == DictionaryDeclaration();
    assert body[1..] == Inserts(ps) + [RequestStatement(t, wireName)];
    InsertsAndReturnIdentifiers(ps, t, wireName);
    assert StmtIdentifiers(body[0]) == {ParametersLocal};
  }

  lemma {:induction false} InsertsAndReturnIdentifiers(ps: seq<ParameterDescriptor>, t: TypeSyntax, wireName: string)
    ensures BodyIdentifiers(Inserts(ps) + [RequestStatement(t, wireName)]) ==
      {ParametersLocal, TransportField} + SharpNames(ps)
  {
    var body := Inserts(ps) + [RequestStatement(t, wireName)];
    if ps == [] {
      assert body == [RequestStatement(t, wireName)];
      assert body[1..] == [];
      RequestNames(t, wireName);
      assert SharpNames(ps) == {};
    } else {
      var p := ps[0];
      assert body[0] == ArgumentInsertStatement(p);
      assert body[1..] == Inserts(ps[1..]) + [RequestStatement(t, wireName)];
      InsertsAndReturnIdentifiers(ps[1..], t, wireName);
      InsertNames(p);
      SharpNamesCons(ps);
    }
  }

  lemma SharpNamesCons(ps: seq<ParameterDescriptor>)
    requires ps != []
    ensures SharpNames(ps) == {ps[0].title.sharp} + SharpNames(ps[1..])
  {
    forall x | x in SharpNames(ps) ensures x in {ps[0].title.sharp} + SharpNames(ps[1..]) {
      var i :| 0 <= i < |ps| && ps[i].title.sharp == x;
      if i > 0 { assert ps[1..][i - 1] == ps[i]; }
    }
    forall x | x in SharpNames(ps[1..]) ensures x in SharpNames(ps) {
      var i :| 0 <= i < |ps[1..]| && ps[1..][i].title.sharp == x;
      assert ps[1..][i] == ps[i + 1];
    }
  }
}
