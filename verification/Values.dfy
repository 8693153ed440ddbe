/**
 The dynamically typed values a predicate compares, and the Python-like equality, ordering,
 membership and truthiness the Go kernel computes over them (prismpath-go/predicates.go).
 */
module Values {
  import opened Wrappers

  /** A 64-bit float as far as comparison can see it; the two zeros are one value. */
  datatype Float = NaN | NegInf | Fin(r: real) | PosInf

  datatype Value =
    | Nil
    | Bool(b: bool)
    | Int(i: int)
    | Num(f: Float)
    | Str(s: string)
    | List(elems: seq<Value>)
    | Dict(entries: map<string, Value>)
    | Ellipsis

  const TWO_TO_53: nat := 9007199254740992

  /** How many low bits of `n` a 53-bit significand cannot hold. */
  function ExcessBits(n: nat): nat {
    if n < TWO_TO_53 then 0 else 1 + ExcessBits(n / 2)
  }

  /** Nearest multiple of the unit in the last place, ties to even: what converting an int64 to a float64 does. */
  function RoundNat(n: nat): nat {
    var unit := Pow2(ExcessBits(n));
    var q, rem := n / unit, n % unit;
    if 2 * rem > unit || (2 * rem == unit && q % 2 == 1) then (q + 1) * unit else q * unit
  }

  function RoundToDouble(n: int): int {
    if n < 0 then -(RoundNat(-n) as int) else RoundNat(n) as int
  }

  function ToFloat(v: Value): Option<Float> {
    match v
    case Bool(b) => Some(Fin(if b then 1.0 else 0.0))
    case Int(i) => Some(Fin(RoundToDouble(i) as real))
    case Num(f) => Some(f)
    case _ => None
  }

  predicate FloatEq(x: Float, y: Float) {
    x != NaN && x == y
  }

  /** Strict order on the floats that are numbers. */
  predicate FloatLt(x: Float, y: Float) {
    match (x, y)
    case (Fin(a), Fin(b)) => a < b
    case (NegInf, Fin(_)) => true
    case (NegInf, PosInf) => true
    case (Fin(_), PosInf) => true
    case _ => false
  }

  predicate PyTruthy(v: Value) {
    match v
    case Nil => false
    case Bool(b) => b
    case Int(i) => i != 0
    case Num(f) => f != Fin(0.0)
    case Str(s) => s != ""
    case List(xs) => xs != []
    case Dict(m) => m != map[]
    case Ellipsis => true
  }

  predicate PyEq(left: Value, right: Value)
    decreases left, right
  {
    if left == Ellipsis || right == Ellipsis then false
    else if left == Nil || right == Nil then left == right
    else
      match (ToFloat(left), ToFloat(right))
      case (Some(x), Some(y)) => FloatEq(x, y)
      case _ =>
        match (left, right)
        case (Str(s), Str(t)) => s == t
        case (List(xs), List(ys)) =>
          |xs| == |ys| && forall i | 0 <= i < |xs| :: PyEq(xs[i], ys[i])
        case (Dict(m), Dict(n)) =>
          |m| == |n| && forall k | k in m :: k in n && PyEq(m[k], n[k])
        case _ => false
  }

  predicate StrLess(s: string, t: string) {
    t != [] && (s == [] || s[0] < t[0] || (s[0] == t[0] && StrLess(s[1..], t[1..])))
  }

  /** -1, 0 or 1 when the operands can be ordered; `None` when they cannot. */
  function PyOrder(left: Value, right: Value): Option<int>
    decreases left, right, 0
  {
    match (ToFloat(left), ToFloat(right))
    case (Some(x), Some(y)) =>
      if x == NaN || y == NaN then None
      else if FloatLt(x, y) then Some(-1)
      else if FloatLt(y, x) then Some(1)
      else Some(0)
    case _ =>
      match (left, right)
      case (Str(s), Str(t)) =>
        if StrLess(s, t) then Some(-1) else if StrLess(t, s) then Some(1) else Some(0)
      case (List(xs), List(ys)) => OrderSeqs(xs, ys)
      case _ => None
  }

  /** The first position where the lists differ under `PyEq` decides; a proper prefix comes first. */
  function OrderSeqs(xs: seq<Value>, ys: seq<Value>): Option<int>
    decreases xs, ys, 1
  {
    if xs == [] || ys == [] then
      Some(if |xs| < |ys| then -1 else if |xs| > |ys| then 1 else 0)
    else if PyEq(xs[0], ys[0]) then OrderSeqs(xs[1..], ys[1..])
    else PyOrder(xs[0], ys[0])
  }

  predicate Contains(s: string, t: string) {
    exists i | 0 <= i <= |s| :: t <= s[i..]
  }

  /** `None` when the right operand is no container the left one can be looked up in. */
  function PyIn(left: Value, right: Value): Option<bool> {
    match right
    case Str(t) => if left.Str? then Some(Contains(t, left.s)) else None
    case List(ys) => Some(exists i | 0 <= i < |ys| :: PyEq(left, ys[i]))
    case Dict(m) => if left.Str? then Some(left.s in m) else None
    case _ => None
  }

  // ----- Laws of equality -----

  lemma {:induction false} EqSymmetric(a: Value, b: Value)
    ensures PyEq(a, b) == PyEq(b, a)
    decreases a, b
  {
    match (a, b)
    case (List(xs), List(ys)) =>
      if |xs| == |ys| {
        forall i | 0 <= i < |xs| ensures PyEq(xs[i], ys[i]) == PyEq(ys[i], xs[i]) {
          EqSymmetric(xs[i], ys[i]);
        }
      }
    case (Dict(m), Dict(n)) =>
      if PyEq(a, b) { DictEqFlips(m, n); }
      if PyEq(b, a) { DictEqFlips(n, m); }
      forall k | k in m && k in n ensures PyEq(m[k], n[k]) == PyEq(n[k], m[k]) {
        EqSymmetric(m[k], n[k]);
      }
    case _ =>
  }

  lemma DictEqFlips(m: map<string, Value>, n: map<string, Value>)
    requires PyEq(Dict(m), Dict(n))
    ensures m.Keys == n.Keys
  {
    SubsetOfSameSize(m.Keys, n.Keys);
  }

  lemma SubsetOfSameSize<T>(a: set<T>, b: set<T>)
    requires a <= b && |a| == |b|
    ensures a == b
  {
    assert b == a + (b - a);
  }

  lemma {:induction false} EqTransitive(a: Value, b: Value, c: Value)
    requires PyEq(a, b) && PyEq(b, c)
    ensures PyEq(a, c)
    decreases a, b, c
  {
    match (a, b, c)
    case (List(xs), List(ys), List(zs)) =>
      forall i | 0 <= i < |xs| ensures PyEq(xs[i], zs[i]) {
        EqTransitive(xs[i], ys[i], zs[i]);
      }
    case (Dict(m), Dict(n), Dict(o)) =>
      forall k | k in m ensures k in o && PyEq(m[k], o[k]) {
        EqTransitive(m[k], n[k], o[k]);
      }
    case _ =>
  }

  // ----- Laws of order -----

  lemma StrLessIrreflexive(s: string)
    ensures !StrLess(s, s)
  {
  }

  lemma StrLessTransitive(s: string, t: string, u: string)
    requires StrLess(s, t) && StrLess(t, u)
    ensures StrLess(s, u)
  {
  }

  lemma StrLessTotal(s: string, t: string)
    ensures s == t || StrLess(s, t) || StrLess(t, s)
  {
    if s != [] && t != [] && s[0] == t[0] {
      StrLessTotal(s[1..], t[1..]);
      assert s == [s[0]] + s[1..] && t == [t[0]] + t[1..];
    }
  }

  lemma StrLessAsymmetric(s: string, t: string)
    requires StrLess(s, t)
    ensures !StrLess(t, s)
  {
    if StrLess(t, s) {
      StrLessTransitive(s, t, s);
      StrLessIrreflexive(s);
    }
  }

  /** Swapping the operands negates the verdict and never changes whether there is one. */
  lemma {:induction false} OrderSwap(a: Value, b: Value)
    ensures PyOrder(a, b).Some? == PyOrder(b, a).Some?
    ensures PyOrder(a, b).Some? ==> PyOrder(a, b).value == -PyOrder(b, a).value
    ensures PyOrder(a, b).Some? ==> -1 <= PyOrder(a, b).value <= 1
    decreases a, b, 0
  {
    match (a, b)
    case (Str(s), Str(t)) =>
      if StrLess(s, t) { StrLessAsymmetric(s, t); }
      if StrLess(t, s) { StrLessAsymmetric(t, s); }
    case (List(xs), List(ys)) => OrderSeqsSwap(xs, ys);
    case _ =>
  }

  lemma {:induction false} OrderSeqsSwap(xs: seq<Value>, ys: seq<Value>)
    ensures OrderSeqs(xs, ys).Some? == OrderSeqs(ys, xs).Some?
    ensures OrderSeqs(xs, ys).Some? ==> OrderSeqs(xs, ys).value == -OrderSeqs(ys, xs).value
    ensures OrderSeqs(xs, ys).Some? ==> -1 <= OrderSeqs(xs, ys).value <= 1
    decreases xs, ys, 1
  {
    if xs != [] && ys != [] {
      EqSymmetric(xs[0], ys[0]);
      if PyEq(xs[0], ys[0]) {
        OrderSeqsSwap(xs[1..], ys[1..]);
      } else {
        OrderSwap(xs[0], ys[0]);
      }
    }
  }

  /** A verdict of 0 is equality. */
  lemma {:induction false} OrderZeroIsEq(a: Value, b: Value)
    requires PyOrder(a, b) == Some(0)
    ensures PyEq(a, b)
    decreases a, b, 0
  {
    match (a, b)
    case (Str(s), Str(t)) => StrLessTotal(s, t);
    case (List(xs), List(ys)) => OrderSeqsZeroIsEq(xs, ys);
    case _ =>
  }

  /** Conversely equal values, where they can be ordered at all, get the verdict 0. */
  lemma EqOrdersAsZero(a: Value, b: Value)
    requires PyEq(a, b) && PyOrder(a, b).Some?
    ensures PyOrder(a, b) == Some(0)
  {
    OrderRespectsEq(a, b, b);
    OrderSwap(b, b);
  }

  lemma {:induction false} OrderSeqsZeroIsEq(xs: seq<Value>, ys: seq<Value>)
    requires OrderSeqs(xs, ys) == Some(0)
    ensures |xs| == |ys| && forall i | 0 <= i < |xs| :: PyEq(xs[i], ys[i])
    decreases xs, ys, 1
  {
    if xs != [] && ys != [] {
      if PyEq(xs[0], ys[0]) {
        OrderSeqsZeroIsEq(xs[1..], ys[1..]);
        forall i | 0 <= i < |xs| ensures PyEq(xs[i], ys[i]) {
          if i > 0 { assert xs[i] == xs[1..][i - 1] && ys[i] == ys[1..][i - 1]; }
        }
      } else {
        OrderZeroIsEq(xs[0], ys[0]);
      }
    }
  }

  /** Equal values order alike against every third value. */
  lemma {:induction false} OrderRespectsEq(a: Value, a': Value, b: Value)
    requires PyEq(a, a')
    ensures PyOrder(a, b) == PyOrder(a', b)
    ensures PyOrder(b, a) == PyOrder(b, a')
    decreases a, a', b
  {
    assert PyOrder(a, b) == PyOrder(a', b) by {
      match (a, a', b)
      case (List(xs), List(xs'), List(ys)) => OrderSeqsRespectEq(xs, xs', ys);
      case _ =>
    }
    OrderSwap(a, b);
    OrderSwap(a', b);
  }

  lemma {:induction false} OrderSeqsRespectEq(xs: seq<Value>, xs': seq<Value>, ys: seq<Value>)
    requires |xs| == |xs'| && forall i | 0 <= i < |xs| :: PyEq(xs[i], xs'[i])
    ensures OrderSeqs(xs, ys) == OrderSeqs(xs', ys)
    decreases xs, xs', ys
  {
    if xs != [] && ys != [] {
      var x, x', y := xs[0], xs'[0], ys[0];
      assert PyEq(x, x');
      EqSymmetric(x, x');
      if PyEq(x, y) { EqTransitive(x', x, y); }
      if PyEq(x', y) { EqTransitive(x, x', y); }
      if PyEq(x, y) {
        OrderSeqsRespectEq(xs[1..], xs'[1..], ys[1..]);
      } else {
        OrderRespectsEq(x, x', y);
      }
    }
  }

  /** Wherever both comparisons have a verdict, "not after" is transitive and strict if either step is. */
  lemma {:induction false} OrderTransitive(a: Value, b: Value, c: Value)
    requires PyOrder(a, b).Some? && PyOrder(b, c).Some?
    requires PyOrder(a, b).value <= 0 && PyOrder(b, c).value <= 0
    ensures PyOrder(a, c).Some?
    ensures PyOrder(a, c).value == if PyOrder(a, b).value < 0 then PyOrder(a, b).value else PyOrder(b, c).value
    decreases a, b, c
  {
    if PyOrder(a, b) == Some(0) {
      OrderZeroIsEq(a, b);
      OrderRespectsEq(a, b, c);
    } else if PyOrder(b, c) == Some(0) {
      OrderZeroIsEq(b, c);
      OrderRespectsEq(b, c, a);
    } else {
      OrderSwap(a, b);
      OrderSwap(b, c);
      match (a, b, c)
      case (Str(s), Str(t), Str(u)) => StrLessTransitive(s, t, u);
      case (List(xs), List(ys), List(zs)) => OrderSeqsTransitive(xs, ys, zs);
      case _ =>
    }
  }

  lemma {:induction false} OrderSeqsTransitive(xs: seq<Value>, ys: seq<Value>, zs: seq<Value>)
    requires OrderSeqs(xs, ys) == Some(-1) && OrderSeqs(ys, zs) == Some(-1)
    ensures OrderSeqs(xs, zs) == Some(-1)
    decreases xs, ys, zs
  {
    if xs != [] && ys != [] && zs != [] {
      var x, y, z := xs[0], ys[0], zs[0];
      EqSymmetric(x, y);
      EqSymmetric(y, z);
      if PyEq(x, y) && PyEq(y, z) {
        EqTransitive(x, y, z);
        OrderSeqsTransitive(xs[1..], ys[1..], zs[1..]);
      } else if PyEq(x, y) {
        if PyEq(x, z) { EqTransitive(y, x, z); }
        OrderRespectsEq(x, y, z);
      } else if PyEq(y, z) {
        if PyEq(x, z) { EqSymmetric(x, z); EqTransitive(y, z, x); }
        OrderRespectsEq(y, z, x);
      } else {
        OrderTransitive(x, y, z);
        if PyEq(x, z) {
          OrderRespectsEq(x, z, y);
          OrderSwap(z, y);
        }
      }
    }
  }

  // ----- Integers as floats -----

  /** An integer survives the conversion exactly when its unit in the last place divides it. */
  lemma ExactIffUnitDivides(n: int)
    ensures RoundToDouble(n) == n <==> (if n < 0 then -n else n) % Pow2(ExcessBits(if n < 0 then -n else n)) == 0
  {
    RoundingIsExact(if n < 0 then -n else n);
  }

  lemma RoundingIsExact(n: nat)
    ensures RoundNat(n) == n <==> n % Pow2(ExcessBits(n)) == 0
  {
    var unit := Pow2(ExcessBits(n));
    var q, rem := n / unit, n % unit;
    assert n == q * unit + rem;
    assert (q + 1) * unit == q * unit + unit;
  }

  /** So do all that a 53-bit significand holds. */
  lemma SmallIntsAreExact(n: int)
    requires -(TWO_TO_53 as int) <= n <= TWO_TO_53
    ensures RoundToDouble(n) == n
  {
    if n == TWO_TO_53 || -n == TWO_TO_53 {
      assert ExcessBits(TWO_TO_53) == 1 && Pow2(1) == 2;
      ExactIffUnitDivides(n);
    }
  }

  /** The first integer that does not: equality of larger integers goes through float64 and conflates them. */
  lemma LargeIntsConflate()
    ensures PyEq(Int(TWO_TO_53 + 1), Int(TWO_TO_53))
  {
    assert ExcessBits(TWO_TO_53 + 1) == 1 && ExcessBits(TWO_TO_53) == 1;
    assert Pow2(1) == 2;
  }

  /** Equality tells apart the integers between -b and b. */
  ghost predicate IntsDiffer(b: nat) {
    forall m: int, n: int | -(b as int) <= m <= b && -(b as int) <= n <= b :: PyEq(Int(m), Int(n)) <==> m == n
  }

  /** 2^53 is the exact bound to which equality of integers is equality of numbers. */
  lemma EqualityIsExactTo(b: nat)
    ensures IntsDiffer(b) <==> b <= TWO_TO_53
  {
    if b <= TWO_TO_53 {
      forall m: int, n: int | -(b as int) <= m <= b && -(b as int) <= n <= b ensures PyEq(Int(m), Int(n)) <==> m == n {
        SmallIntsAreExact(m);
        SmallIntsAreExact(n);
      }
    } else {
      LargeIntsConflate();
    }
  }
}
