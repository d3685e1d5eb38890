/**
 * The subset of C# syntax the method emitter builds, as an abstract syntax
 * tree in place of Roslyn's syntax nodes. Layout and formatting are not part
 * of it.
 */
module CSharp {
  import opened Wrappers
  import opened Descriptors

  datatype TypeSyntax = Named(name: string) | Generic(name: string, arguments: seq<TypeSyntax>)

  datatype Modifier = Public | Private | Internal | ReadOnly

  datatype Expr =
    | Ident(name: string)
    | StringLit(text: string)
    | NullLit
    | NotEquals(left: Expr, right: Expr)
    | NewObject(objectType: TypeSyntax)
    | Invoke(target: Expr, member: string, typeArguments: seq<TypeSyntax>, arguments: seq<Expr>)
    | Assign(assignee: string, source: Expr)

  datatype Stmt =
    | LocalVar(varType: TypeSyntax, name: string, init: Expr)
    | If(condition: Expr, thenBranch: Stmt)
    | ExprStmt(expr: Expr)
    | Return(value: Expr)

  datatype Parameter = Parameter(name: string, paramType: TypeSyntax, defaultValue: Option<Expr>)

  datatype MemberDecl =
    | Field(modifiers: seq<Modifier>, fieldType: TypeSyntax, name: string)
    | Constructor(modifiers: seq<Modifier>, name: string, parameters: seq<Parameter>, expressionBody: Expr)
    | MethodDecl(comment: string, modifiers: seq<Modifier>, returnType: TypeSyntax, name: string,
                 parameters: seq<Parameter>, body: seq<Stmt>)

  datatype ClassDecl = ClassDecl(modifiers: seq<Modifier>, name: string, members: seq<MemberDecl>)

  /** What CommonGenerator.CreateWithUsingAndNamespace wraps around a class. */
  datatype CompilationUnit = CompilationUnit(ns: Namespace, entity: EntityType, decl: ClassDecl)

  /** The string literals of an expression, left to right. */
  function ExprLiterals(e: Expr): seq<string>
  {
    match e
    case StringLit(t) => [t]
    case NotEquals(a, b) => ExprLiterals(a) + ExprLiterals(b)
    case Invoke(t, _, _, args) => ExprLiterals(t) + ArgumentsLiterals(args)
    case Assign(_, v) => ExprLiterals(v)
    case _ => []
  }

  function ArgumentsLiterals(args: seq<Expr>): seq<string>
  {
    if args == [] then [] else ExprLiterals(args[0]) + ArgumentsLiterals(args[1..])
  }

  function StmtLiterals(s: Stmt): seq<string>
  {
    match s
    case LocalVar(_, _, init) => ExprLiterals(init)
    case If(c, t) => ExprLiterals(c) + StmtLiterals(t)
    case ExprStmt(e) => ExprLiterals(e)
    case Return(e) => ExprLiterals(e)
  }

  function BodyLiterals(body: seq<Stmt>): seq<string>
  {
    if body == [] then [] else StmtLiterals(body[0]) + BodyLiterals(body[1..])
  }

  /** The identifiers an expression names (member names after a dot excluded). */
  function ExprIdentifiers(e: Expr): set<string>
  {
    match e
    case Ident(x) => {x}
    case NotEquals(a, b) => ExprIdentifiers(a) + ExprIdentifiers(b)
    case Invoke(t, _, _, args) => ExprIdentifiers(t) + ArgumentsIdentifiers(args)
    case Assign(x, v) => {x} + ExprIdentifiers(v)
    case _ => {}
  }

  function ArgumentsIdentifiers(args: seq<Expr>): set<string>
  {
    if args == [] then {} else ExprIdentifiers(args[0]) + ArgumentsIdentifiers(args[1..])
  }

  /** The identifiers a statement declares or names. */
  function StmtIdentifiers(s: Stmt): set<string>
  {
    match s
    case LocalVar(_, x, init) => {x} + ExprIdentifiers(init)
    case If(c, t) => ExprIdentifiers(c) + StmtIdentifiers(t)
    case ExprStmt(e) => ExprIdentifiers(e)
    case Return(e) => ExprIdentifiers(e)
  }

  function BodyIdentifiers(body: seq<Stmt>): set<string>
  {
    if body == [] then {} else StmtIdentifiers(body[0]) + BodyIdentifiers(body[1..])
  }

  /** Literals and identifiers of the call shapes `t.m<...>()` and `t.m<...>(a, b)`. */
  lemma CallWithoutArguments(t: Expr, member: string, typeArgs: seq<TypeSyntax>)
    ensures ExprLiterals(Invoke(t, member, typeArgs, [])) == ExprLiterals(t)
    ensures ExprIdentifiers(Invoke(t, member, typeArgs, [])) == ExprIdentifiers(t)
  {
  }

  lemma CallWithTwoArguments(t: Expr, member: string, typeArgs: seq<TypeSyntax>, a: Expr, b: Expr)
    ensures ExprLiterals(Invoke(t, member, typeArgs, [a, b])) == ExprLiterals(t) + ExprLiterals(a) + ExprLiterals(b)
    ensures ExprIdentifiers(Invoke(t, member, typeArgs, [a, b])) == ExprIdentifiers(t) + ExprIdentifiers(a) + ExprIdentifiers(b)
  {
    PairLiterals(a, b);
    PairIdentifiers(a, b);
  }

  lemma PairLiterals(a: Expr, b: Expr)
    ensures ArgumentsLiterals([a, b]) == ExprLiterals(a) + ExprLiterals(b)
  {
    assert [a, b][1..] == [b] && [b][1..] == [];
    assert ArgumentsLiterals([b]) == ExprLiterals(b) + ArgumentsLiterals([]);
    assert ExprLiterals(b) + [] == ExprLiterals(b);
  }

  lemma PairIdentifiers(a: Expr, b: Expr)
    ensures ArgumentsIdentifiers([a, b]) == ExprIdentifiers(a) + ExprIdentifiers(b)
  {
    assert [a, b][1..] == [b] && [b][1..] == [];
    assert ArgumentsIdentifiers([b]) == ExprIdentifiers(b) + ArgumentsIdentifiers([]);
  }
}
