/**
 The firmware's end of the wire (prismpath-hw/walker-demo/bridge-fw/main/zeck.h): Fibonacci codes packed into bytes,
 most significant bit first. What it writes is what the kernel's decoder reads.
 */
module FacetWire {
  import opened Wrappers
  import opened ByteRows
  import opened Zeckendorf
  import opened FacetTerms
  import opened FacetDecoder

  // ----- One bit of one byte -----

  /** The bits of one byte, most significant first. */
  function BitsOf(b: Byte): (bits: seq<bool>)
    ensures |bits| == 8 && forall k: nat | k < 8 :: bits[k] == BitOf(b, k)
  {
    seq(8, k requires 0 <= k < 8 => BitOf(b, k))
  }

  lemma ByteIsNumber(b: Byte)
    ensures Number(BitsOf(b)) == b as nat
  {
    TopBits(b, BitsOf(b), 8);
    assert BitsOf(b)[..8] == BitsOf(b);
  }

  lemma {:induction false} NumberFits(bits: seq<bool>)
    ensures Number(bits) < Pow2(|bits|)
  {
    if bits != [] { NumberFits(bits[..|bits| - 1]); }
  }

  /** Shifting a number right leaves its first bits. */
  lemma {:induction false} ShrOfNumber(bits: seq<bool>, n: nat)
    requires n <= |bits|
    ensures Shr(Number(bits), n) == Number(bits[..|bits| - n])
  {
    if n == 0 {
      assert bits[..|bits|] == bits;
    } else {
      ShrOfNumber(bits, n - 1);
      assert bits[..|bits| - n + 1][..|bits| - n] == bits[..|bits| - n];
    }
  }

  /** A byte made of bits has those bits. */
  lemma NumberHasBits(b: Byte, bits: seq<bool>)
    requires |bits| == 8 && Number(bits) == b as nat
    ensures BitsOf(b) == bits
  {
    forall k: nat | k < 8 ensures BitOf(b, k) == bits[k] {
      ShrOfNumber(bits, 7 - k);
      assert bits[..k + 1][..k] == bits[..k] && bits[..k + 1][k] == bits[k];
    }
  }

  /** Setting a clear bit adds its weight. */
  lemma {:induction false} NumberWithBit(bits: seq<bool>, k: nat)
    requires k < |bits| && !bits[k]
    ensures Number(bits[k := true]) == Number(bits) + Pow2(|bits| - 1 - k)
  {
    var init, last := bits[..|bits| - 1], |bits| - 1;
    if k < last {
      NumberWithBit(init, k);
      assert bits[k := true][..last] == init[k := true];
    } else {
      assert bits[k := true][..last] == init;
    }
  }

  lemma {:induction false} ShrOfPower(n: nat, k: nat)
    requires k <= n
    ensures Shr(Pow2(n), k) == Pow2(n - k)
  {
    if k > 0 { ShrOfPower(n, k - 1); }
  }

  /** The byte with bit `k` set, as or-ing the shifted mask makes it. */
  function WithBit(b: Byte, k: nat): nat
    requires k < 8
  {
    if BitOf(b, k) then b else b + Shr(0x80, k)
  }

  lemma WithBitSets(b: Byte, k: nat)
    requires k < 8
    ensures WithBit(b, k) < 0x100 && BitsOf(WithBit(b, k)) == BitsOf(b)[k := true]
  {
    if BitOf(b, k) {
      assert BitsOf(b)[k := true] == BitsOf(b);
    } else {
      var bits := BitsOf(b)[k := true];
      assert Pow2(4) == 16 && Pow2(7) == 128 && Pow2(8) == 256;
      ShrOfPower(7, k);
      ByteIsNumber(b);
      NumberWithBit(BitsOf(b), k);
      NumberFits(bits);
      NumberHasBits(WithBit(b, k), bits);
    }
  }

  // ----- The bit accumulator -----

  /** The buffer holds the bits and then only zeros. */
  predicate Written(buf: Bytes, bits: seq<bool>) {
    |bits| <= 8 * |buf| && forall i | 0 <= i < 8 * |buf| :: PayloadBits(buf)[i] == (i < |bits| && bits[i])
  }

  lemma ClearIsWritten(buf: Bytes)
    requires forall j | 0 <= j < |buf| :: buf[j] == 0
    ensures Written(buf, [])
  {
    forall i | 0 <= i < 8 * |buf| ensures !PayloadBits(buf)[i] { ZeroHasNoBit(i % 8); }
  }

  lemma ZeroHasNoBit(k: nat)
    requires k < 8
    ensures !BitOf(0, k)
  {
    ShrOfZero(7 - k);
  }

  lemma {:induction false} ShrOfZero(n: nat)
    ensures Shr(0, n) == 0
  {
    if n > 0 { ShrOfZero(n - 1); }
  }

  lemma OneBitWritten(buf: Bytes, bits: seq<bool>)
    requires Written(buf, bits) && |bits| < 8 * |buf|
    ensures WithBit(buf[|bits| / 8], |bits| % 8) < 0x100
    ensures Written(buf[|bits| / 8 := WithBit(buf[|bits| / 8], |bits| % 8)], bits + [true])
    ensures Written(buf, bits + [false])
  {
    var j, k := |bits| / 8, |bits| % 8;
    WithBitSets(buf[j], k);
    var after := buf[j := WithBit(buf[j], k)];
    forall i | 0 <= i < 8 * |buf| ensures PayloadBits(after)[i] == (PayloadBits(buf)[i] || i == |bits|) {
      assert PayloadBits(after)[i] == BitsOf(after[i / 8])[i % 8] && PayloadBits(buf)[i] == BitsOf(buf[i / 8])[i % 8];
    }
  }

  /** `places` is how many Fibonacci numbers the encoder's table has; the firmware's has 78. */
  class BitAcc {
    const buf: array<Byte>
    const places: nat
    var bitpos: nat

    ghost predicate Holds(bits: seq<bool>)
      reads this, buf
    {
      bitpos == |bits| && Written(buf[..], bits)
    }

    constructor (length: nat, places: nat)
      ensures Holds([]) && fresh(buf) && buf.Length == length && this.places == places
    {
      buf := new Byte[length](_ => 0);
      this.places := places;
      bitpos := 0;
      new;
      ClearIsWritten(buf[..]);
    }

    method PutBit(bit: bool, ghost bits: seq<bool>)
      requires Holds(bits) && |bits| < 8 * buf.Length
      modifies this, buf
      ensures Holds(bits + [bit])
    {
      OneBitWritten(buf[..], bits);
      if bit { buf[bitpos / 8] := WithBit(buf[bitpos / 8], bitpos % 8); }
      bitpos := bitpos + 1;
    }

    /** The greedy digits of the value, least first, and the one that closes them. */
    method Encode(value: nat, ghost bits: seq<bool>) returns (ok: bool)
      requires Holds(bits) && value < G(places) && (value > 0 ==> |bits| + |Code(value)| <= 8 * buf.Length)
      modifies this, buf
      ensures ok == (value > 0) && Holds(if value > 0 then bits + Code(value) else bits)
    {
      if value == 0 { return false; }
      var code := Greedy(value, places);
      PutCode(code, bits);
      ok := true;
    }

    /** The digits, and the one that closes them. */
    method PutCode(code: seq<bool>, ghost bits: seq<bool>)
      requires Holds(bits) && |bits| + |code| < 8 * buf.Length
      modifies this, buf
      ensures Holds(bits + (code + [true]))
    {
      ghost var upto := bits;
      for i := 0 to |code|
        invariant upto == bits + code[..i] && Holds(upto)
      {
        PutBit(code[i], upto);
        upto := upto + [code[i]];
      }
      PutBit(true, upto);
      assert upto == bits + code;
      Reassociates(bits, code, [true]);
    }

    /** Every positive symbol's code, then zeros to the end of the byte. */
    method EncodeEvent(syms: seq<nat>) returns (length: nat)
      requires Holds([]) && (forall i | 0 <= i < |syms| :: syms[i] <= CAP) && 24 * |syms| <= 8 * buf.Length && places >= 23
      modifies this, buf
      ensures Positive(Sent(syms)) && Holds(Codes(Sent(syms))) && length == (|Codes(Sent(syms))| + 7) / 8 <= buf.Length
    {
      ghost var sent: seq<nat> := [];
      assert syms[..0] == [];
      for i := 0 to |syms|
        invariant sent == Sent(syms[..i]) && Positive(sent) && |Codes(sent)| <= 24 * i && Holds(Codes(sent))
      {
        var v := syms[i];
        SentOneMore(syms, i);
        CapIsShort(v, places);
        var ok := Encode(v, Codes(sent));
        if v > 0 {
          CodesOneMore(sent, v);
          sent := sent + [v];
        }
      }
      assert syms[..|syms|] == syms;
      length := (bitpos + 7) / 8;
    }
  }

  /** The largest Fibonacci number of the table first. */
  method Greedy(value: nat, places: nat) returns (code: seq<bool>)
    requires 0 < value < G(places)
    ensures code + [true] == Code(value)
  {
    var top := TopPlace(value, places);
    code := [];
    var rem: nat, i: nat := value, top + 1;
    ghost var whole := WholeCode(value, top + 1);
    while i > 0
      invariant Leaves(whole, rem, i, code)
    {
      var k := i - 1;
      var one := G(k) <= rem;
      var rest := if one then rem - G(k) else rem;
      GreedyDigit(whole, rem, k, code, one, rest);
      rem, i, code := rest, k, [one] + code;
    }
    NoDigitsLeft(whole, rem, code);
  }

  lemma NoDigitsLeft(whole: seq<bool>, rem: nat, code: seq<bool>)
    requires Leaves(whole, rem, 0, code)
    ensures whole == code
  {
  }

  /** The place of the largest Fibonacci number of the table that is not past the value. */
  method TopPlace(value: nat, places: nat) returns (top: nat)
    requires 0 < value < G(places)
    ensures G(top) <= value < G(top + 1)
  {
    top := 0;
    while top + 1 < places && G(top + 1) <= value
      invariant G(top) <= value && (top + 1 <= places || top == 0)
    {
      top := top + 1;
    }
  }

  lemma WholeCode(value: nat, k: nat) returns (whole: seq<bool>)
    requires value > 0 && k > 0 && G(k - 1) <= value < G(k)
    ensures Leaves(whole, value, k, []) && whole + [true] == Code(value)
  {
    PlacesAreUnique(value, k);
    whole := Digits(value, k);
  }

  /** With the digits from place `i` on already found, those of `rem` are left to find. */
  predicate Leaves(whole: seq<bool>, rem: nat, i: nat, code: seq<bool>) {
    rem < G(i) && whole == Digits(rem, i) + code
  }

  lemma GreedyDigit(whole: seq<bool>, rem: nat, k: nat, code: seq<bool>, one: bool, rest: nat)
    requires Leaves(whole, rem, k + 1, code) && one == (G(k) <= rem) && rest == if one then rem - G(k) else rem
    ensures Leaves(whole, rest, k, [one] + code)
  {
    AtMostDoubles(k + 1);
    Reassociates(Digits(rest, k), [one], code);
  }

  /** The symbols that are sent: zero has no code and is passed over. */
  function Sent(syms: seq<nat>): (sent: seq<nat>)
    ensures Positive(sent)
  {
    if syms == [] then []
    else
      var init := Sent(syms[..|syms| - 1]);
      if syms[|syms| - 1] > 0 then init + [syms[|syms| - 1]] else init
  }

  lemma SentOneMore(syms: seq<nat>, i: nat)
    requires i < |syms|
    ensures Sent(syms[..i + 1]) == if syms[i] > 0 then Sent(syms[..i]) + [syms[i]] else Sent(syms[..i])
  {
    assert syms[..i + 1][..i] == syms[..i];
  }

  lemma {:induction false} AllSent(syms: seq<nat>)
    requires Positive(syms)
    ensures Sent(syms) == syms
  {
    if syms != [] {
      AllSent(syms[..|syms| - 1]);
      assert syms == syms[..|syms| - 1] + [syms[|syms| - 1]];
    }
  }

  lemma {:induction false} PastTheCap(i: nat)
    requires i >= 23
    ensures G(i) > CAP
  {
    if i < 256 {
      LargePlace(i);
    } else {
      PastTheCap(i - 1);
      GGrows(i - 1, i);
    }
  }

  /** A sixteen-bit value has at most twenty-three digits. */
  lemma CapIsShort(v: nat, places: nat)
    requires v <= CAP && places >= 23
    ensures v < G(places) && (v > 0 ==> |Code(v)| <= 24)
  {
    PastTheCap(places);
    if v > 0 && Places(v) > 23 { PastTheCap(Places(v) - 1); }
  }

  lemma {:induction false} CodesOneMore(vs: seq<nat>, v: nat)
    requires Positive(vs) && v > 0
    ensures Positive(vs + [v]) && Codes(vs + [v]) == Codes(vs) + Code(v)
  {
    if vs == [] {
      CodesOfOne(vs + [v], v);
    } else {
      var head, tail := Code(vs[0]), Codes(vs[1..]);
      CodesOneMore(vs[1..], v);
      HeadFirst(vs, [v]);
      CodesFirst(vs + [v], vs[0], vs[1..] + [v]);
      Reassociates(head, tail, Code(v));
    }
  }

  lemma HeadFirst(vs: seq<nat>, more: seq<nat>)
    requires vs != []
    ensures vs + more == [vs[0]] + (vs[1..] + more)
  {
    assert vs == [vs[0]] + vs[1..];
  }

  lemma CodesOfOne(vs: seq<nat>, v: nat)
    requires v > 0 && vs == [v]
    ensures Codes(vs) == Code(v)
  {
    assert vs[1..] == [] && Codes([]) == [];
  }

  lemma CodesFirst(all: seq<nat>, v: nat, vs: seq<nat>)
    requires v > 0 && Positive(vs) && all == [v] + vs
    ensures Positive(all) && Codes(all) == Code(v) + Codes(vs)
  {
    assert all[1..] == vs;
  }

  // ----- What one end writes the other reads -----

  lemma PrefixIsWritten(buf: Bytes, bits: seq<bool>, length: nat)
    requires Written(buf, bits) && (|bits| + 7) / 8 <= length <= |buf|
    ensures Written(buf[..length], bits)
  {
  }

  /**
   The round trip, from values to bytes and back: of one to sixteen values, each from 1 to 65535, whose codes fit the
   payload, the bytes the firmware packs are bytes the kernel's decoder reads as exactly those values.
   */
  lemma SentIsReceived(buf: Bytes, vs: seq<nat>, length: nat)
    requires 1 <= |vs| <= MAX_SYMS && InRange(vs) && Written(buf, Codes(vs))
    requires (|Codes(vs)| + 7) / 8 <= length <= |buf| && length <= MAX_PAYLOAD
    ensures Accepted(BitRun(START, PayloadBits(buf[..length]))) == Some(vs)
  {
    PrefixIsWritten(buf, Codes(vs), length);
    var bits, code := PayloadBits(buf[..length]), Codes(vs);
    assert bits[..|code|] == code;
    DecoderIsExact(buf[..length], vs);
  }
}
