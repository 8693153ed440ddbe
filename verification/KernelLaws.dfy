/**
 What the kernel's comparisons mean (prismpath-go/predicates.go), said without the functions that compute them:
 equality as equality of normal forms, order as a sign or a first difference, membership as a place, a chain as the
 conjunction of its neighbours, and how deep an expression may nest.
 */
module KernelLaws {
  import opened Wrappers
  import opened Values
  import opened Predicates
  import opened Conditions

  // ----- Equality -----

  /** The value with every number in it as the float it compares as. */
  function Normal(v: Value): Value {
    match v
    case Bool(b) => Num(Fin(if b then 1.0 else 0.0))
    case Int(i) => Num(Fin(RoundToDouble(i) as real))
    case List(xs) => List(seq(|xs|, i requires 0 <= i < |xs| => Normal(xs[i])))
    case Dict(m) => Dict(map k | k in m :: Normal(m[k]))
    case _ => v
  }

  /** There is no NaN in it and no `...`, the two that are not even equal to themselves. */
  predicate Reflexive(v: Value) {
    match v
    case Num(f) => f != NaN
    case Ellipsis => false
    case List(xs) => forall i | 0 <= i < |xs| :: Reflexive(xs[i])
    case Dict(m) => forall k | k in m :: Reflexive(m[k])
    case _ => true
  }

  lemma {:induction false} EqIsNormalEquality(a: Value, b: Value)
    ensures PyEq(a, b) <==> Normal(a) == Normal(b) && Reflexive(a)
    decreases a, b
  {
    match (a, b)
    case (List(xs), List(ys)) =>
      var ns, ms := Normal(a).elems, Normal(b).elems;
      forall i | 0 <= i < |xs| && |xs| == |ys| ensures PyEq(xs[i], ys[i]) <==> ns[i] == ms[i] && Reflexive(xs[i]) {
        EqIsNormalEquality(xs[i], ys[i]);
      }
      if |xs| == |ys| && (forall i | 0 <= i < |xs| :: ns[i] == ms[i]) { assert ns == ms; }
    case (Dict(m), Dict(n)) => DictsAreNormal(m, n);
    case _ =>
  }

  lemma {:induction false} DictsAreNormal(m: map<string, Value>, n: map<string, Value>)
    ensures PyEq(Dict(m), Dict(n)) <==> Normal(Dict(m)) == Normal(Dict(n)) && Reflexive(Dict(m))
    decreases Dict(m), Dict(n), 0
  {
    var ns, ms := Normal(Dict(m)).entries, Normal(Dict(n)).entries;
    assert ns.Keys == m.Keys && ms.Keys == n.Keys;
    forall k | k in m && k in n ensures PyEq(m[k], n[k]) <==> ns[k] == ms[k] && Reflexive(m[k]) {
      EqIsNormalEquality(m[k], n[k]);
    }
    DictEqIsKeywise(m, n);
    SameEntries(ns, ms);
  }

  lemma DictEqIsKeywise(m: map<string, Value>, n: map<string, Value>)
    ensures PyEq(Dict(m), Dict(n)) <==> m.Keys == n.Keys && forall k | k in m && k in n :: PyEq(m[k], n[k])
  {
    if PyEq(Dict(m), Dict(n)) { DictEqFlips(m, n); }
    if m.Keys == n.Keys { assert |m| == |m.Keys| == |n.Keys| == |n|; }
  }

  lemma SameEntries(m: map<string, Value>, n: map<string, Value>)
    ensures m == n <==> m.Keys == n.Keys && forall k | k in m && k in n :: m[k] == n[k]
  {
  }

  // ----- Numbers -----

  /** Converting an integer to a float64 takes a nearest multiple of its unit, and of two the even one. */
  lemma RoundsToNearest(n: nat) returns (unit: nat, m: nat)
    ensures unit == Pow2(ExcessBits(n)) && RoundNat(n) == m * unit
    ensures n < TWO_TO_53 * unit && (unit > 1 ==> TWO_TO_53 * unit <= 2 * n)
    ensures -(unit as int) <= 2 * (RoundNat(n) - n) <= unit
    ensures 2 * (RoundNat(n) - n) == unit || 2 * (n - RoundNat(n)) == unit ==> m % 2 == 0
  {
    UnitIsLast(n);
    unit := Pow2(ExcessBits(n));
    var q, rem := n / unit, n % unit;
    m := if 2 * rem > unit || (2 * rem == unit && q % 2 == 1) then q + 1 else q;
    Lands(n, unit, q, rem, m);
  }

  lemma Lands(n: nat, unit: nat, q: nat, rem: nat, m: nat)
    requires unit > 0 && q == n / unit && rem == n % unit && (m == q || m == q + 1)
    ensures rem < unit && m * unit == n - rem + if m == q then 0 else unit
  {
    assert n == q * unit + rem;
    assert (q + 1) * unit == q * unit + unit;
  }

  /** The unit is the least power of two that leaves no more than 53 bits. */
  lemma {:induction false} UnitIsLast(n: nat)
    ensures n < TWO_TO_53 * Pow2(ExcessBits(n))
    ensures ExcessBits(n) > 0 ==> TWO_TO_53 * Pow2(ExcessBits(n)) <= 2 * n
  {
    if n >= TWO_TO_53 { UnitIsLast(n / 2); }
  }

  /** Where a float lies on a line on which every finite one is between `-big` and `big`. */
  function OnLine(x: Float, big: real): real {
    match x
    case Fin(r) => r
    case NegInf => -big
    case PosInf => big
    case NaN => 0.0
  }

  predicate Within(x: Float, big: real) {
    x.Fin? ==> -big < x.r < big
  }

  function Sign(d: real): int {
    if d < 0.0 then -1 else if d > 0.0 then 1 else 0
  }

  /** Two values that compare as numbers are ordered by where they lie, unless one is NaN. */
  lemma NumbersOrder(a: Value, b: Value, big: real)
    requires Normal(a).Num? && Normal(b).Num? && big > 0.0 && Within(Normal(a).f, big) && Within(Normal(b).f, big)
    ensures var x, y := Normal(a).f, Normal(b).f;
            PyOrder(a, b) == if x == NaN || y == NaN then None else Some(Sign(OnLine(x, big) - OnLine(y, big)))
  {
  }

  // ----- Strings and lists -----

  /** They agree before `k`, and there the first has ended or has the smaller character. */
  predicate FirstDifference(s: string, t: string, k: nat) {
    k <= |s| && k < |t| && s[..k] == t[..k] && (k == |s| || s[k] < t[k])
  }

  lemma {:induction false} StringsOrder(s: string, t: string)
    ensures StrLess(s, t) <==> exists k: nat :: FirstDifference(s, t, k)
    decreases |s|
  {
    forall k: nat | 0 < k && FirstDifference(s, t, k) ensures s[0] == t[0] { SameStart(s, t, k); }
    if s == [] {
      if t != [] { assert FirstDifference(s, t, 0); }
    } else if t != [] && s[0] == t[0] {
      StringsOrder(s[1..], t[1..]);
      if StrLess(s, t) {
        var k: nat :| FirstDifference(s[1..], t[1..], k);
        assert s[..k + 1] == [s[0]] + s[1..][..k] && t[..k + 1] == [t[0]] + t[1..][..k];
        assert FirstDifference(s, t, k + 1);
      }
      if k: nat :| FirstDifference(s, t, k) { DifferenceLater(s, t, k); }
    } else if t != [] {
      if s[0] < t[0] { assert FirstDifference(s, t, 0); }
    }
  }

  lemma DifferenceLater(s: string, t: string, k: nat)
    requires s != [] && FirstDifference(s, t, k) && s[0] == t[0]
    ensures k > 0 && FirstDifference(s[1..], t[1..], k - 1)
  {
    assert s[1..][..k - 1] == s[..k][1..] && t[1..][..k - 1] == t[..k][1..];
  }

  lemma SameStart(s: string, t: string, k: nat)
    requires 0 < k && FirstDifference(s, t, k)
    ensures s[0] == t[0]
  {
    assert s[..k][0] == s[0] && t[..k][0] == t[0];
  }

  /** Strings are ordered by their first difference, and lists by the first elements that are not equal. */
  lemma StringVerdict(s: string, t: string)
    ensures PyOrder(Str(s), Str(t)) ==
            Some(if exists k: nat :: FirstDifference(s, t, k) then -1 else if s == t then 0 else 1)
  {
    StringsOrder(s, t);
    StrLessIrreflexive(s);
    StrLessTotal(s, t);
  }

  lemma {:induction false} ListVerdict(xs: seq<Value>, ys: seq<Value>, k: nat)
    requires k <= |xs| && k <= |ys| && forall i | 0 <= i < k :: PyEq(xs[i], ys[i])
    ensures k == |xs| || k == |ys| ==>
              PyOrder(List(xs), List(ys)) == Some(if |xs| < |ys| then -1 else if |xs| > |ys| then 1 else 0)
    ensures k < |xs| && k < |ys| && !PyEq(xs[k], ys[k]) ==> PyOrder(List(xs), List(ys)) == PyOrder(xs[k], ys[k])
  {
    if k > 0 {
      forall i | 0 <= i < k - 1 ensures PyEq(xs[1..][i], ys[1..][i]) { assert PyEq(xs[i + 1], ys[i + 1]); }
      ListVerdict(xs[1..], ys[1..], k - 1);
      assert PyEq(xs[0], ys[0]);
      assert PyOrder(List(xs), List(ys)) == PyOrder(List(xs[1..]), List(ys[1..]));
    }
  }

  /** Nothing else can be ordered. */
  lemma OnlyAlikeOrder(a: Value, b: Value)
    ensures PyOrder(a, b).Some? ==>
              (Normal(a).Num? && Normal(b).Num?) || (a.Str? && b.Str?) || (a.List? && b.List?)
  {
  }

  // ----- Membership and truthiness -----

  /** A string is in a string as a piece of it, a value in a list as an element equal to it, a string in a dictionary as a key. */
  lemma MembershipMeans(a: Value, b: Value)
    ensures PyIn(a, b) == Some(true) <==>
            match b
            case Str(t) => a.Str? && exists pre, post :: t == pre + a.s + post
            case List(ys) => exists y <- ys :: PyEq(a, y)
            case Dict(m) => a.Str? && a.s in m.Keys
            case _ => false
    ensures Compares(In, a, b) == (PyIn(a, b) == Some(true)) != Compares(NotIn, a, b)
  {
    match b
    case Str(t) => if a.Str? { ContainsPiece(t, a.s); }
    case List(ys) =>
      if i :| 0 <= i < |ys| && PyEq(a, ys[i]) { assert ys[i] in ys; }
      if y :| y in ys && PyEq(a, y) { var i :| 0 <= i < |ys| && ys[i] == y; }
    case _ =>
  }

  lemma ContainsPiece(t: string, s: string)
    ensures Contains(t, s) <==> exists pre, post :: t == pre + s + post
  {
    if Contains(t, s) {
      var i :| 0 <= i <= |t| && s <= t[i..];
      assert t == t[..i] + s + t[i + |s|..];
    }
    if pre, post :| t == pre + s + post {
      assert 0 <= |pre| <= |t| && s <= t[|pre|..];
    }
  }

  /** What counts as false: nothing, zero, and whatever is empty. */
  lemma FalsyMeans(v: Value)
    ensures !PyTruthy(v) <==>
            v == Nil || v == Str("") || v == List([]) || v == Dict(map[]) || PyEq(v, Int(0))
  {
    FalsyNumber(v);
  }

  lemma FalsyNumber(v: Value)
    ensures PyEq(v, Int(0)) <==> Normal(v).Num? && !PyTruthy(v)
  {
    SmallIntsAreExact(0);
    if v.Int? { ZeroOnly(v.i); }
  }

  /** No other integer rounds to zero. */
  lemma ZeroOnly(i: int)
    ensures RoundToDouble(i) == 0 <==> i == 0
  {
    var n := if i < 0 then -i else i;
    SmallIntsAreExact(0);
    if n <= TWO_TO_53 { SmallIntsAreExact(i); } else { NotToZero(n); }
  }

  lemma NotToZero(n: nat)
    requires n > TWO_TO_53
    ensures RoundNat(n) > 0
  {
    var unit, m := RoundsToNearest(n);
  }

  // ----- Chains and nesting -----

  /** The operand of a chain before link `i`, as evaluated. */
  function Before(first: Value, operands: seq<Value>, i: nat): Value
    requires i <= |operands|
  {
    if i == 0 then first else operands[i - 1]
  }

  /** The first `n` operands of the links evaluate to these values. */
  predicate Operands(links: seq<Link>, operands: seq<Value>, ctx: Context, depth: nat) {
    |operands| <= |links| && forall i | 0 <= i < |operands| :: Eval(links[i].operand, ctx, depth) == Success(operands[i])
  }

  predicate Neighbours(first: Value, links: seq<Link>, operands: seq<Value>, i: nat)
    requires i < |operands| <= |links|
  {
    Compares(links[i].op, Before(first, operands, i), operands[i])
  }

  /** A chain whose operands evaluate holds exactly when each compares with the next. */
  lemma {:induction false} ChainIsConjunction(first: Value, links: seq<Link>, operands: seq<Value>, ctx: Context, depth: nat)
    requires Operands(links, operands, ctx, depth + 1) && |operands| == |links|
    ensures EvalLinks(first, links, ctx, depth) ==
            Success(Bool(forall i | 0 <= i < |links| :: Neighbours(first, links, operands, i)))
    decreases links
  {
    if links != [] {
      OperandsShift(links, operands, ctx, depth + 1);
      NeighboursShift(first, links, operands);
      assert Eval(links[0].operand, ctx, depth + 1) == Success(operands[0]);
      ChainIsConjunction(operands[0], links[1..], operands[1..], ctx, depth);
      assert Neighbours(first, links, operands, 0) == Compares(links[0].op, first, operands[0]);
      forall i | 0 <= i < |links| - 1
        ensures Neighbours(operands[0], links[1..], operands[1..], i) == Neighbours(first, links, operands, i + 1)
      {
      }
    }
  }

  lemma OperandsShift(links: seq<Link>, operands: seq<Value>, ctx: Context, depth: nat)
    requires Operands(links, operands, ctx, depth) && operands != []
    ensures Operands(links[1..], operands[1..], ctx, depth)
  {
    forall i | 0 <= i < |operands| - 1 ensures Eval(links[1..][i].operand, ctx, depth) == Success(operands[1..][i]) {
      assert Eval(links[i + 1].operand, ctx, depth) == Success(operands[i + 1]);
    }
  }

  lemma NeighboursShift(first: Value, links: seq<Link>, operands: seq<Value>)
    requires operands != [] && |operands| <= |links|
    ensures forall i | 0 < i < |operands| ::
              Neighbours(first, links, operands, i) == Neighbours(operands[0], links[1..], operands[1..], i - 1)
  {
  }

  /** And it stops at the first pair that does not compare, whatever the operands after it would do. */
  lemma {:induction false} ChainStops(first: Value, links: seq<Link>, operands: seq<Value>, ctx: Context, depth: nat)
    requires Operands(links, operands, ctx, depth + 1) && operands != []
    requires !Neighbours(first, links, operands, |operands| - 1)
    ensures EvalLinks(first, links, ctx, depth) == Success(Bool(false))
    decreases links
  {
    assert Eval(links[0].operand, ctx, depth + 1) == Success(operands[0]);
    if |operands| > 1 {
      OperandsShift(links, operands, ctx, depth + 1);
      NeighboursShift(first, links, operands);
      ChainStops(operands[0], links[1..], operands[1..], ctx, depth);
    }
  }

  /** An expression no deeper than the bound always evaluates. */
  lemma {:induction false} ShallowEvaluates(e: Expr, ctx: Context, depth: nat)
    requires depth + Height(e) <= MAX_PREDICATE_DEPTH
    ensures Eval(e, ctx, depth).Success?
    decreases e, 1
  {
    match e
    case Const(_) =>
    case Var(_) =>
    case Not(child) => ShallowEvaluates(child, ctx, depth + 1);
    case Logic(_, l, r) => ShallowEvaluates(l, ctx, depth + 1); ShallowEvaluates(r, ctx, depth + 1);
    case Compare(_, l, r) => ShallowEvaluates(l, ctx, depth + 1); ShallowEvaluates(r, ctx, depth + 1);
    case Chained(first, links) =>
      ShallowEvaluates(first, ctx, depth + 1);
      ShallowLinks(Eval(first, ctx, depth + 1).value, links, ctx, depth);
    case ListOf(es) => if es != [] { ShallowElems(es, ctx, depth + 1); }
    case TupleOf(es) => if es != [] { ShallowElems(es, ctx, depth + 1); }
  }

  lemma {:induction false} ShallowElems(es: seq<Expr>, ctx: Context, depth: nat)
    requires depth + HeightOfAll(es) <= MAX_PREDICATE_DEPTH
    ensures EvalAll(es, ctx, depth).Success?
    decreases es, 0
  {
    if es != [] {
      ShallowEvaluates(es[0], ctx, depth);
      ShallowElems(es[1..], ctx, depth);
    }
  }

  lemma {:induction false} ShallowLinks(left: Value, links: seq<Link>, ctx: Context, depth: nat)
    requires depth + 1 + HeightOfLinks(links) <= MAX_PREDICATE_DEPTH
    ensures EvalLinks(left, links, ctx, depth).Success?
    decreases links, 0
  {
    if links != [] {
      ShallowLink(links[0], ctx, depth + 1);
      ShallowLinks(EvalOperand(links[0], ctx, depth + 1).value, links[1..], ctx, depth);
    }
  }

  lemma {:induction false} ShallowLink(k: Link, ctx: Context, depth: nat)
    requires depth + HeightOfLink(k) <= MAX_PREDICATE_DEPTH
    ensures EvalOperand(k, ctx, depth).Success?
    decreases k, 0
  {
    ShallowEvaluates(k.operand, ctx, depth);
  }
}
