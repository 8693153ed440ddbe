/** The predicate expression trees of the Go kernel and their evaluation (prismpath-go/predicates.go). */
module Predicates {
  import opened Wrappers
  import opened Values

  datatype CmpOp = Eq | Ne | Lt | Le | Gt | Ge | In | NotIn

  datatype BoolOp = And | Or

  datatype Link = Link(op: CmpOp, operand: Expr)

  datatype Expr =
    | Const(v: Value)
    | Var(name: string)
    | Not(child: Expr)
    | Logic(lop: BoolOp, left: Expr, right: Expr)
    | Compare(cop: CmpOp, left: Expr, right: Expr)
    | Chained(first: Expr, links: seq<Link>)
    | ListOf(elems: seq<Expr>)
    | TupleOf(elems: seq<Expr>)

  datatype EvalError = TooDeep

  type Context = map<string, Value>

  const MAX_PREDICATE_DEPTH: nat := 50

  function Lookup(ctx: Context, name: string): Value {
    if name in ctx then ctx[name] else Nil
  }

  predicate Compares(op: CmpOp, l: Value, r: Value) {
    match op
    case Eq => PyEq(l, r)
    case Ne => !PyEq(l, r)
    case Lt => PyOrder(l, r).Some? && PyOrder(l, r).value < 0
    case Le => PyOrder(l, r).Some? && PyOrder(l, r).value <= 0
    case Gt => PyOrder(l, r).Some? && PyOrder(l, r).value > 0
    case Ge => PyOrder(l, r).Some? && PyOrder(l, r).value >= 0
    case In => PyIn(l, r) == Some(true)
    case NotIn => PyIn(l, r) != Some(true)
  }

  /** Both operands of `and` and `or` are evaluated, so an error in either is an error of the whole. */
  function Eval(e: Expr, ctx: Context, depth: nat): Result<Value, EvalError>
    decreases e, 1
  {
    if depth > MAX_PREDICATE_DEPTH then Failure(TooDeep)
    else
      match e
      case Const(v) => Success(v)
      case Var(name) => Success(Lookup(ctx, name))
      case Not(child) =>
        var v :- Eval(child, ctx, depth + 1);
        Success(Bool(!PyTruthy(v)))
      case Logic(op, left, right) =>
        var l :- Eval(left, ctx, depth + 1);
        var r :- Eval(right, ctx, depth + 1);
        Success(Bool(if op == And then PyTruthy(l) && PyTruthy(r) else PyTruthy(l) || PyTruthy(r)))
      case Compare(op, left, right) =>
        var l :- Eval(left, ctx, depth + 1);
        var r :- Eval(right, ctx, depth + 1);
        Success(Bool(Compares(op, l, r)))
      case Chained(first, links) =>
        var l :- Eval(first, ctx, depth + 1);
        EvalLinks(l, links, ctx, depth)
      case ListOf(elems) =>
        var vs :- EvalAll(elems, ctx, depth + 1);
        Success(List(vs))
      case TupleOf(elems) =>
        var vs :- EvalAll(elems, ctx, depth + 1);
        Success(List(vs))
  }

  /** A chain stops at its first failed comparison, without evaluating what follows it. */
  function EvalLinks(left: Value, links: seq<Link>, ctx: Context, depth: nat): Result<Value, EvalError>
    decreases links, 0
  {
    if links == [] then Success(Bool(true))
    else
      var r :- EvalOperand(links[0], ctx, depth + 1);
      if Compares(links[0].op, left, r) then EvalLinks(r, links[1..], ctx, depth) else Success(Bool(false))
  }

  function EvalOperand(link: Link, ctx: Context, depth: nat): Result<Value, EvalError>
    decreases link, 0
  {
    Eval(link.operand, ctx, depth)
  }

  function EvalAll(es: seq<Expr>, ctx: Context, depth: nat): (r: Result<seq<Value>, EvalError>)
    ensures r.Success? ==> |r.value| == |es|
    decreases es, 0
  {
    if es == [] then Success([])
    else
      var v :- Eval(es[0], ctx, depth);
      var vs :- EvalAll(es[1..], ctx, depth);
      Success([v] + vs)
  }

  /** What a condition decides: an evaluation error is never a match. */
  predicate Holds(e: Expr, ctx: Context) {
    var r := Eval(e, ctx, 0);
    r.Success? && PyTruthy(r.value)
  }
}
