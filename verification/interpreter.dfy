/** The tree-walking evaluator of src/interpreter.rs. The interpreter's
    only state is its environment, which `eval` mutates in place; here the
    environment is threaded through explicitly and returned next to the
    result, on success and on failure alike, because a failing evaluation
    keeps the bindings made before the failure. */
module Interpreter {
  import opened Results
  import Ast

  /** Variable bindings (a `HashMap` in src/interpreter.rs; only lookups matter). */
  type Env = map<string, Value>

  datatype Value =
    | Word(text: string)
    | Closure(params: seq<string>, body: Ast.Expr, env: Env)

  datatype Interpreter = Interpreter(env: Env)

  /** What one call of `eval` produces: its result and the environment the
      interpreter is left with. */
  datatype Outcome = Outcome(result: Result<Value>, env: Env)

  const EmptySequence: string := "Empty sequence"

  function UnboundMessage(name: string): (msg: string)
  {
    "Unbound variable: " + name
  }

  /** A fresh interpreter has an empty environment. */
  function New(): (it: Interpreter)
    ensures it.env.Keys == {}
  {
    Interpreter(map[])
  }

  /** Every bound value is a closure: true of a fresh interpreter, and kept
      by every evaluation. */
  predicate OnlyClosures(env: Env)
  {
    forall k :: k in env ==> env[k].Closure?
  }

  /** `env'` differs from `env` at most on the names in `names`. */
  predicate AgreeOutside(env: Env, env': Env, names: set<string>)
  {
    && (forall k :: k in env && k !in names ==> k in env' && env'[k] == env[k])
    && (forall k :: k in env' && k !in names ==> k in env)
  }

  /** `Interpreter::eval`. Bindings are never removed (there is no scope
      restoration), only names defined by `e` itself can change, and a
      closure-only environment yields only closures. */
  function Eval(e: Ast.Expr, env: Env): (o: Outcome)
    decreases Ast.Size(e), 1
    ensures env.Keys <= o.env.Keys
    ensures AgreeOutside(env, o.env, Ast.DefinedNames(e))
    ensures OnlyClosures(env) ==>
              OnlyClosures(o.env) && (o.result.Ok? ==> o.result.value.Closure?)
  {
    match e
    case Word(name) =>
      if name in env then Outcome(Ok(env[name]), env)
      else Outcome(Err(UnboundMessage(name)), env)
    case Function(params, body) =>
      Outcome(Ok(Closure(params, body, env)), env)
    case Define(name, body) =>
      var o := Eval(body, env);
      if o.result.Err? then o
      else Outcome(o.result, o.env[name := o.result.value])
    case Sequence(exprs) =>
      EvalSeq(exprs, env, None)
  }

  /** The loop over the elements of a sequence; `last` holds the value of
      the element evaluated most recently, if any. */
  function EvalSeq(es: seq<Ast.Expr>, env: Env, last: Option<Value>): (o: Outcome)
    decreases Ast.SizeSeq(es), 2
    ensures env.Keys <= o.env.Keys
    ensures AgreeOutside(env, o.env, Ast.DefinedNamesSeq(es))
    ensures OnlyClosures(env) && (last.Some? ==> last.value.Closure?) ==>
              OnlyClosures(o.env) && (o.result.Ok? ==> o.result.value.Closure?)
  {
    if |es| == 0 then
      if last.Some? then Outcome(Ok(last.value), env) else Outcome(Err(EmptySequence), env)
    else
      var o := Eval(es[0], env);
      if o.result.Err? then o
      else EvalSeq(es[1..], o.env, Some(o.result.value))
  }
}
