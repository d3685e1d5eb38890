/**
 * A small evaluator for the statements the method emitter produces, so that
 * what a generated API method sends can be stated as a theorem. It gives the
 * C# meaning of exactly the constructs that occur in generated method bodies;
 * anything else is Stuck.
 */
module Interpreter {
  import opened Wrappers
  import opened CSharp

  datatype Value =
    | NullValue
    | Argument(api: string)                   // a supplied argument; `api` is its ToApiString()
    | Str(s: string)
    | Boolean(b: bool)
    | Dictionary(entries: map<string, string>)
    | Transport                               // the Vkontakte instance in `_vkontakte`

  type Env = map<string, Value>

  /** A call of `RequestAsync<T>(method, parameters)` on the transport. */
  datatype Request = Request(responseType: TypeSyntax, methodName: string, parameters: map<string, string>)

  /** Running a method body: it returns a request, throws because
      Dictionary.Add met a key twice, or leaves the modelled subset. */
  datatype Outcome = Returned(request: Request) | Threw(duplicateKey: string) | Stuck

  datatype StepOutcome = Next(env: Env) | Raised(duplicateKey: string) | Blocked

  /** The type `Dictionary<string, string>`. */
  const DictionaryOfStrings: TypeSyntax := Generic("Dictionary", [Named("string"), Named("string")])

  function Eval(e: Expr, env: Env): Option<Value>
  {
    match e
    case Ident(x) => if x in env then Some(env[x]) else None
    case StringLit(t) => Some(Str(t))
    case NullLit => Some(NullValue)
    case NotEquals(a, b) =>
      (match (Eval(a, env), Eval(b, env))
       case (Some(x), Some(y)) => Some(Boolean(x != y))
       case _ => None)
    case NewObject(t) => if t == DictionaryOfStrings then Some(Dictionary(map[])) else None
    case Invoke(target, member, typeArgs, args) =>
      if member == "ToApiString" && typeArgs == [] && args == [] then
        (match Eval(target, env)
         case Some(Argument(a)) => Some(Str(a))
         case _ => None)
      else None
    case Assign(_, _) => None
  }

  /** One statement other than `return`. */
  function Step(s: Stmt, env: Env): StepOutcome
  {
    match s
    case LocalVar(_, x, init) =>
      if x in env then Blocked
      else (match Eval(init, env)
            case Some(v) => Next(env[x := v])
            case None => Blocked)
    case If(c, t) =>
      (match Eval(c, env)
       case Some(Boolean(b)) => if b then Step(t, env) else Next(env)
       case _ => Blocked)
    case ExprStmt(Invoke(Ident(d), member, typeArgs, args)) =>
      if member == "Add" && typeArgs == [] && |args| == 2 && d in env && env[d].Dictionary? then
        (match (Eval(args[0], env), Eval(args[1], env))
         case (Some(Str(k)), Some(Str(v))) =>
           if k in env[d].entries then Raised(k)
           else Next(env[d := Dictionary(env[d].entries[k := v])])
         case _ => Blocked)
      else Blocked
    case _ => Blocked
  }

  /** The value a `return` statement hands back. */
  function ReturnOf(e: Expr, env: Env): Outcome
  {
    match e
    case Invoke(target, member, typeArgs, args) =>
      if member == "RequestAsync" && |typeArgs| == 1 && |args| == 2 && Eval(target, env) == Some(Transport) then
        (match (Eval(args[0], env), Eval(args[1], env))
         case (Some(Str(name)), Some(Dictionary(d))) => Returned(Request(typeArgs[0], name, d))
         case _ => Stuck)
      else Stuck
    case _ => Stuck
  }

  /** Runs a method body from its first statement to its `return`. */
  function Exec(body: seq<Stmt>, env: Env): Outcome
  {
    if body == [] then Stuck
    else match body[0]
      case Return(e) => ReturnOf(e, env)
      case _ =>
        (match Step(body[0], env)
         case Next(env') => Exec(body[1..], env')
         case Raised(k) => Threw(k)
         case Blocked => Stuck)
  }
}
