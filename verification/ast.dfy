/** The expression tree the interpreter evaluates (src/ast.rs). It is a
    different tree from the one the parser builds; see module Parser. */
module Ast {

  datatype Expr =
    | Word(name: string)
    | Function(params: seq<string>, body: Expr)
    | Define(name: string, body: Expr)
    | Sequence(exprs: seq<Expr>)

  /** Number of nodes; the termination measure of evaluation. */
  function Size(e: Expr): (n: nat)
    ensures n >= 1
  {
    match e
    case Word(_) => 1
    case Function(_, body) => 1 + Size(body)
    case Define(_, body) => 1 + Size(body)
    case Sequence(exprs) => 1 + SizeSeq(exprs)
  }

  function SizeSeq(es: seq<Expr>): (n: nat)
    ensures |es| > 0 ==> n > SizeSeq(es[1..]) && n >= Size(es[0])
  {
    if |es| == 0 then 0 else Size(es[0]) + SizeSeq(es[1..])
  }

  /** The names some `Define` evaluated as part of `e` may bind. Bodies of
      `Function` nodes are not evaluated, so their defines do not count. */
  function DefinedNames(e: Expr): (names: set<string>)
  {
    match e
    case Word(_) => {}
    case Function(_, _) => {}
    case Define(name, body) => {name} + DefinedNames(body)
    case Sequence(exprs) => DefinedNamesSeq(exprs)
  }

  /** The names the elements of `es` may bind, as `DefinedNames` says. */
  function DefinedNamesSeq(es: seq<Expr>): (names: set<string>)
  {
    if |es| == 0 then {} else DefinedNames(es[0]) + DefinedNamesSeq(es[1..])
  }
}
