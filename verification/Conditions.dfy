/**
 Level M conditions: the decidable fragment the table compiler accepts, what each one decides, and the
 expression tree the Go kernel evaluates for it.
 */
module Conditions {
  import opened Wrappers
  import opened Values
  import opened Predicates

  datatype Cond =
    | Truthy(field: string)
    | FieldCmp(field: string, op: CmpOp, k: Value)
    | ConstCmp(k: Value, op: CmpOp, field: string)
    | Member(field: string, elems: seq<Value>, negated: bool)
    | Negation(inner: Cond)
    | Junction(lop: BoolOp, parts: seq<Cond>)

  predicate Ordering(op: CmpOp) {
    op in {Lt, Le, Gt, Ge}
  }

  predicate Scalar(v: Value) {
    v.Nil? || v.Bool? || v.Int? || v.Str?
  }

  /** Scalar constants, no string ordering, and junctions of at least two parts. */
  predicate LevelM(c: Cond) {
    match c
    case Truthy(_) => true
    case FieldCmp(_, op, k) => op != In && op != NotIn && Scalar(k) && !(Ordering(op) && k.Str?)
    case ConstCmp(k, op, _) => op != In && op != NotIn && Scalar(k) && !(Ordering(op) && k.Str?)
    case Member(_, ks, _) => forall i | 0 <= i < |ks| :: Scalar(ks[i])
    case Negation(inner) => LevelM(inner)
    case Junction(_, parts) => |parts| >= 2 && forall i | 0 <= i < |parts| :: LevelM(parts[i])
  }

  function Joined(op: BoolOp, a: bool, b: bool): bool {
    if op == And then a && b else a || b
  }

  /** What the condition decides, under the kernel's own equality, order, membership and truthiness. */
  function Truth(c: Cond, ctx: Context): bool
    decreases c, 1
  {
    match c
    case Truthy(f) => PyTruthy(Lookup(ctx, f))
    case FieldCmp(f, op, k) => Compares(op, Lookup(ctx, f), k)
    case ConstCmp(k, op, f) => Compares(op, k, Lookup(ctx, f))
    case Member(f, ks, negated) => Compares(if negated then NotIn else In, Lookup(ctx, f), List(ks))
    case Negation(inner) => !Truth(inner, ctx)
    case Junction(op, parts) => TruthOfParts(op, parts, ctx)
  }

  /** All of the parts for `and`, any of them for `or`. */
  function TruthOfParts(op: BoolOp, parts: seq<Cond>, ctx: Context): bool
    decreases parts, 0
  {
    if parts == [] then op == And
    else Joined(op, Truth(parts[0], ctx), TruthOfParts(op, parts[1..], ctx))
  }

  // ----- The same condition as a kernel expression -----

  /** The tree the kernel's parser builds: operators nest to the left. */
  function ExprOf(c: Cond): Expr
    requires LevelM(c)
    decreases c, 1
  {
    match c
    case Truthy(f) => Var(f)
    case FieldCmp(f, op, k) => Compare(op, Var(f), Const(k))
    case ConstCmp(k, op, f) => Compare(op, Const(k), Var(f))
    case Member(f, ks, negated) => Compare(if negated then NotIn else In, Var(f), ListOf(ConstsOf(ks)))
    case Negation(inner) => Not(ExprOf(inner))
    case Junction(op, parts) => FoldParts(op, ExprOf(parts[0]), parts[1..])
  }

  function FoldParts(op: BoolOp, left: Expr, parts: seq<Cond>): Expr
    requires forall i | 0 <= i < |parts| :: LevelM(parts[i])
    decreases parts, 0
  {
    if parts == [] then left else FoldParts(op, Logic(op, left, ExprOf(parts[0])), parts[1..])
  }

  function ConstsOf(ks: seq<Value>): (es: seq<Expr>)
    ensures |es| == |ks| && forall i | 0 <= i < |ks| :: es[i] == Const(ks[i])
  {
    if ks == [] then [] else [Const(ks[0])] + ConstsOf(ks[1..])
  }

  function Max(a: nat, b: nat): nat {
    if a < b then b else a
  }

  /** How many levels below its root the deepest operand of an expression sits. */
  function Height(e: Expr): nat
    decreases e, 1
  {
    match e
    case Const(_) => 0
    case Var(_) => 0
    case Not(child) => 1 + Height(child)
    case Logic(_, l, r) => 1 + Max(Height(l), Height(r))
    case Compare(_, l, r) => 1 + Max(Height(l), Height(r))
    case Chained(first, links) => 1 + Max(Height(first), HeightOfLinks(links))
    case ListOf(es) => if es == [] then 0 else 1 + HeightOfAll(es)
    case TupleOf(es) => if es == [] then 0 else 1 + HeightOfAll(es)
  }

  function HeightOfAll(es: seq<Expr>): nat
    decreases es, 0
  {
    if es == [] then 0 else Max(Height(es[0]), HeightOfAll(es[1..]))
  }

  function HeightOfLinks(links: seq<Link>): nat
    decreases links, 0
  {
    if links == [] then 0 else Max(HeightOfLink(links[0]), HeightOfLinks(links[1..]))
  }

  function HeightOfLink(k: Link): nat
    decreases k, 0
  {
    Height(k.operand)
  }

  /**
   The kernel's evaluation of a Level M condition is its truth exactly when the tree fits the depth
   bound; past it the evaluation is an error.
   */
  lemma KernelEvalIsTruth(c: Cond, ctx: Context)
    requires LevelM(c)
    ensures Eval(ExprOf(c), ctx, 0).Success? <==> Height(ExprOf(c)) <= MAX_PREDICATE_DEPTH
    ensures Holds(ExprOf(c), ctx) <==> Height(ExprOf(c)) <= MAX_PREDICATE_DEPTH && Truth(c, ctx)
  {
    EvalAt(c, ctx, 0);
  }

  /** Evaluated at any depth: an error exactly past the bound, otherwise a value with the condition's truth. */
  ghost predicate EvaluatesTo(e: Expr, ctx: Context, depth: nat, truth: bool) {
    var r := Eval(e, ctx, depth);
    if depth + Height(e) <= MAX_PREDICATE_DEPTH then r.Success? && PyTruthy(r.value) == truth else r.Failure?
  }

  lemma {:induction false} EvalAt(c: Cond, ctx: Context, depth: nat)
    requires LevelM(c)
    ensures EvaluatesTo(ExprOf(c), ctx, depth, Truth(c, ctx))
    decreases c, 1
  {
    match c
    case Truthy(_) =>
    case FieldCmp(f, op, k) => EvalCompare(op, Var(f), Const(k), Lookup(ctx, f), k, ctx, depth);
    case ConstCmp(k, op, f) => EvalCompare(op, Const(k), Var(f), k, Lookup(ctx, f), ctx, depth);
    case Member(f, ks, negated) =>
      EvalList(ks, ctx, depth + 1);
      EvalCompare(if negated then NotIn else In, Var(f), ListOf(ConstsOf(ks)), Lookup(ctx, f), List(ks), ctx, depth);
    case Negation(inner) => EvalAt(inner, ctx, depth + 1);
    case Junction(op, parts) =>
      forall d: nat ensures EvaluatesTo(ExprOf(parts[0]), ctx, d, Truth(parts[0], ctx)) {
        EvalAt(parts[0], ctx, d);
      }
      EvalFold(op, ExprOf(parts[0]), Truth(parts[0], ctx), parts[1..], ctx, depth);
  }

  /** One comparison, once both its operands are known to evaluate wherever the depth bound lets them. */
  lemma EvalCompare(op: CmpOp, l: Expr, r: Expr, vl: Value, vr: Value, ctx: Context, depth: nat)
    requires EvaluatesToValue(l, ctx, depth + 1, vl) && EvaluatesToValue(r, ctx, depth + 1, vr)
    ensures EvaluatesTo(Compare(op, l, r), ctx, depth, Compares(op, vl, vr))
  {
  }

  ghost predicate EvaluatesToValue(e: Expr, ctx: Context, depth: nat, v: Value) {
    if depth + Height(e) <= MAX_PREDICATE_DEPTH then Eval(e, ctx, depth) == Success(v) else Eval(e, ctx, depth).Failure?
  }

  lemma EvalList(ks: seq<Value>, ctx: Context, depth: nat)
    ensures EvaluatesToValue(ListOf(ConstsOf(ks)), ctx, depth, List(ks))
  {
    ConstsAreFlat(ks);
    EvalConsts(ks, ctx, depth + 1);
  }

  lemma {:induction false} EvalFold(op: BoolOp, left: Expr, truth: bool, parts: seq<Cond>, ctx: Context, depth: nat)
    requires forall i | 0 <= i < |parts| :: LevelM(parts[i])
    requires forall d: nat :: EvaluatesTo(left, ctx, d, truth)
    ensures EvaluatesTo(FoldParts(op, left, parts), ctx, depth, Joined(op, truth, TruthOfParts(op, parts, ctx)))
    decreases parts, 0
  {
    if parts != [] {
      var right, both := parts[0], Logic(op, left, ExprOf(parts[0]));
      forall d: nat ensures EvaluatesTo(both, ctx, d, Joined(op, truth, Truth(right, ctx))) {
        EvalAt(right, ctx, d + 1);
        assert EvaluatesTo(left, ctx, d + 1, truth);
      }
      EvalFold(op, both, Joined(op, truth, Truth(right, ctx)), parts[1..], ctx, depth);
    }
  }

  lemma {:induction false} EvalConsts(ks: seq<Value>, ctx: Context, depth: nat)
    ensures depth <= MAX_PREDICATE_DEPTH ==> EvalAll(ConstsOf(ks), ctx, depth) == Success(ks)
    ensures depth > MAX_PREDICATE_DEPTH && ks != [] ==> EvalAll(ConstsOf(ks), ctx, depth).Failure?
  {
    if ks != [] {
      EvalConsts(ks[1..], ctx, depth);
      assert ConstsOf(ks)[1..] == ConstsOf(ks[1..]);
      assert [ks[0]] + ks[1..] == ks;
    }
  }

  lemma {:induction false} ConstsAreFlat(ks: seq<Value>)
    ensures HeightOfAll(ConstsOf(ks)) == 0
  {
    if ks != [] {
      ConstsAreFlat(ks[1..]);
      assert ConstsOf(ks)[1..] == ConstsOf(ks[1..]);
    }
  }
}
