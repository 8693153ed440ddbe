/**
 Fibonacci codes. Every positive number is a sum of non-adjacent Fibonacci numbers in one way only (Zeckendorf), and
 its code is those digits, least first, closed by a second one.
 */
module Zeckendorf {

  /** 1, 2, 3, 5, 8, ... */
  function G(i: nat): (g: nat)
    ensures g >= 1
  {
    if i == 0 then 1 else if i == 1 then 2 else G(i - 1) + G(i - 2)
  }

  lemma {:induction false} GGrows(i: nat, j: nat)
    requires i < j
    ensures G(i) < G(j)
  {
    if i + 1 < j { GGrows(i, j - 1); }
  }

  lemma AtMostDoubles(k: nat)
    requires k >= 1
    ensures G(k) <= 2 * G(k - 1)
  {
    if k >= 2 { GGrows(k - 2, k - 1); }
  }

  /** Which Fibonacci numbers a digit string adds up. */
  function Value(digits: seq<bool>): nat {
    if digits == [] then 0
    else Value(digits[..|digits| - 1]) + (if digits[|digits| - 1] then G(|digits| - 1) else 0)
  }

  predicate NoAdjacent(digits: seq<bool>) {
    forall i | 0 <= i < |digits| - 1 :: !(digits[i] && digits[i + 1])
  }

  predicate EndsInOne(digits: seq<bool>) {
    digits != [] && digits[|digits| - 1]
  }

  lemma ValueOfOneMore(digits: seq<bool>, bit: bool)
    ensures Value(digits + [bit]) == Value(digits) + (if bit then G(|digits|) else 0)
  {
    assert (digits + [bit])[..|digits|] == digits;
  }

  /** Non-adjacent digits stay below the next Fibonacci number, and one below that if the last digit is zero. */
  lemma {:induction false} ValueBound(digits: seq<bool>)
    requires NoAdjacent(digits)
    ensures Value(digits) < G(|digits|)
    ensures digits != [] && !EndsInOne(digits) ==> Value(digits) < G(|digits| - 1)
    ensures EndsInOne(digits) ==> Value(digits) >= G(|digits| - 1)
  {
    if digits != [] {
      var init := digits[..|digits| - 1];
      ValueBound(init);
      if EndsInOne(digits) && |digits| >= 2 { assert !digits[|digits| - 2]; }
      if |digits| >= 2 { GGrows(|digits| - 1, |digits|); }
    }
  }

  lemma LastApart(digits: seq<bool>)
    requires digits != []
    ensures digits == digits[..|digits| - 1] + [digits[|digits| - 1]]
  {
  }

  lemma StillApart(digits: seq<bool>, bit: bool)
    requires NoAdjacent(digits) && !(bit && EndsInOne(digits))
    ensures NoAdjacent(digits + [bit])
  {
  }

  /** The greedy digits of a number below `G(k)`, one per place. */
  function Digits(v: nat, k: nat): (digits: seq<bool>)
    requires v < G(k)
    ensures |digits| == k && Value(digits) == v && NoAdjacent(digits)
    ensures k > 0 ==> (digits[k - 1] <==> v >= G(k - 1))
  {
    if k == 0 then []
    else if v >= G(k - 1) then
      AtMostDoubles(k);
      var init := Digits(v - G(k - 1), k - 1);
      ValueOfOneMore(init, true);
      StillApart(init, true);
      init + [true]
    else
      var init := Digits(v, k - 1);
      ValueOfOneMore(init, false);
      StillApart(init, false);
      init + [false]
  }

  lemma {:induction false} SameValueSameDigits(a: seq<bool>, b: seq<bool>)
    requires NoAdjacent(a) && NoAdjacent(b) && |a| == |b| && Value(a) == Value(b)
    ensures a == b
  {
    if a != [] {
      var k := |a| - 1;
      ValueBound(a);
      ValueBound(b);
      assert a[k] == b[k];
      SameValueSameDigits(a[..k], b[..k]);
      LastApart(a);
      LastApart(b);
    }
  }

  /** Zeckendorf's uniqueness: non-adjacent digits are the greedy digits of their value. */
  lemma DigitsAreUnique(digits: seq<bool>)
    requires NoAdjacent(digits)
    ensures Value(digits) < G(|digits|) && Digits(Value(digits), |digits|) == digits
  {
    ValueBound(digits);
    SameValueSameDigits(Digits(Value(digits), |digits|), digits);
  }

  /** The number of places of a positive number: the least `k` past `from` with `v < G(k)`. */
  function PlacesFrom(v: nat, from: nat): (k: nat)
    requires from >= 1 && G(from - 1) <= v
    ensures k >= 1 && G(k - 1) <= v < G(k)
    decreases v - from
  {
    AtLeastIndex(from);
    if v < G(from) then from else PlacesFrom(v, from + 1)
  }

  lemma {:induction false} AtLeastIndex(i: nat)
    ensures G(i) >= i + 1
  {
    if i >= 2 {
      AtLeastIndex(i - 1);
      AtLeastIndex(i - 2);
    }
  }

  function Places(v: nat): (k: nat)
    requires v >= 1
    ensures k >= 1 && G(k - 1) <= v < G(k)
  {
    PlacesFrom(v, 1)
  }

  lemma PlacesAreUnique(v: nat, k: nat)
    requires v >= 1 && k >= 1 && G(k - 1) <= v < G(k)
    ensures Places(v) == k
  {
    var p := Places(v);
    if p < k { if p < k - 1 { GGrows(p, k - 1); } }
    if k < p { if k < p - 1 { GGrows(k, p - 1); } }
  }

  function Code(v: nat): (code: seq<bool>)
    requires v >= 1
    ensures |code| >= 2
  {
    Digits(v, Places(v)) + [true]
  }

  /** Digits that end in a one, closed by another, are the code of their value. */
  lemma ClosedDigitsAreCode(digits: seq<bool>)
    requires NoAdjacent(digits) && EndsInOne(digits)
    ensures Value(digits) >= 1 && digits + [true] == Code(Value(digits))
  {
    ValueBound(digits);
    PlacesAreUnique(Value(digits), |digits|);
    DigitsAreUnique(digits);
  }

  predicate Positive(vs: seq<nat>) {
    forall i | 0 <= i < |vs| :: vs[i] >= 1
  }

  function Codes(vs: seq<nat>): seq<bool>
    requires Positive(vs)
  {
    if vs == [] then [] else Code(vs[0]) + Codes(vs[1..])
  }

  predicate AllZero(bits: seq<bool>) {
    forall i | 0 <= i < |bits| :: !bits[i]
  }

  lemma {:induction false} ZeroValue(digits: seq<bool>)
    ensures Value(digits) == 0 <==> AllZero(digits)
  {
    if digits != [] {
      ZeroValue(digits[..|digits| - 1]);
      assert digits == digits[..|digits| - 1] + [digits[|digits| - 1]];
    }
  }

  /** A prefix is worth no more than the whole. */
  lemma {:induction false} PrefixValue(digits: seq<bool>, j: nat)
    requires j <= |digits|
    ensures Value(digits[..j]) <= Value(digits)
  {
    if j < |digits| {
      PrefixValue(digits[..|digits| - 1], j);
      assert digits[..|digits| - 1][..j] == digits[..j];
    } else {
      assert digits[..j] == digits;
    }
  }
}
