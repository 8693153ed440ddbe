/**
 The kernel's Facet decoder (prismpath-ebpf/facet_decode.bpf.c, bit_cb and what accepts its result): a bit-at-a-time
 machine on 32-bit registers. It accepts a payload exactly when it is the codes of 1 to 16 numbers, then zeros.
 */
module FacetDecoder {
  import opened Wrappers
  import opened ByteRows
  import opened Zeckendorf
  import opened FacetTerms

  const MAX_PAYLOAD: nat := 32
  const MAX_SYMS: nat := 16

  // ----- The machine -----

  datatype Ctx = Ctx(val: nat, fa: nat, fb: nat, prev: bool, bad: bool, out: seq<nat>)

  const START := Ctx(0, 1, 2, false, false, [])

  function BitStep(c: Ctx, bit: bool): Ctx {
    if bit && c.prev then
      if |c.out| >= MAX_SYMS || c.val == 0 || c.val > CAP then c.(bad := true)
      else Ctx(0, 1, 2, false, false, c.out + [c.val])
    else if bit && (c.fa > CAP || c.val > CAP - c.fa) then c.(bad := true)
    else c.(val := if bit then (c.val + c.fa) % WORD else c.val, fa := c.fb, fb := (c.fa + c.fb) % WORD, prev := bit)
  }

  function BitRun(c: Ctx, bits: seq<bool>): Ctx
    decreases |bits|
  {
    if bits == [] || c.bad then c else BitRun(BitStep(c, bits[0]), bits[1..])
  }

  /** An unfinished codeword, an empty frame and a refused one are all malformed. */
  function Accepted(c: Ctx): Option<seq<nat>> {
    if c.bad || c.val != 0 || c.out == [] then None else Some(c.out)
  }

  // ----- The bits of a payload, most significant first -----

  function Shr(b: nat, n: nat): nat {
    if n == 0 then b else Shr(b, n - 1) / 2
  }

  function BitOf(b: Byte, k: nat): bool
    requires k < 8
  {
    Shr(b, 7 - k) % 2 == 1
  }

  function PayloadBits(payload: Bytes): (bits: seq<bool>)
    ensures |bits| == 8 * |payload|
  {
    seq(8 * |payload|, i requires 0 <= i < 8 * |payload| => BitOf(payload[i / 8], i % 8))
  }

  /** The binary number the bits write, most significant first. */
  function Number(bits: seq<bool>): nat {
    if bits == [] then 0 else 2 * Number(bits[..|bits| - 1]) + if bits[|bits| - 1] then 1 else 0
  }

  /** Every byte of the payload is the binary number its own eight bits write. */
  lemma BytesAreNumbers(payload: Bytes, j: nat)
    requires j < |payload|
    ensures Number(PayloadBits(payload)[8 * j..8 * j + 8]) == payload[j] as nat
  {
    var bits := PayloadBits(payload)[8 * j..8 * j + 8];
    forall k: nat | k < 8 ensures bits[k] == BitOf(payload[j], k) {
      assert (8 * j + k) / 8 == j && (8 * j + k) % 8 == k;
    }
    TopBits(payload[j], bits, 8);
    assert bits[..8] == bits;
  }

  lemma {:induction false} ShrFits(b: nat, n: nat, m: nat)
    requires b < Pow2(n + m)
    ensures Shr(b, n) < Pow2(m)
  {
    if n > 0 { ShrFits(b, n - 1, m + 1); }
  }

  /** The first `k` bits write the byte without its low ones. */
  lemma {:induction false} TopBits(b: Byte, bits: seq<bool>, k: nat)
    requires |bits| == 8 && k <= 8 && forall i: nat | i < 8 :: bits[i] == BitOf(b, i)
    ensures Number(bits[..k]) == Shr(b, 8 - k)
  {
    if k == 0 {
      assert Pow2(4) == 16 && Pow2(8) == 256;
      ShrFits(b, 8, 0);
    } else {
      TopBits(b, bits, k - 1);
      assert bits[..k][..k - 1] == bits[..k - 1] && bits[..k][k - 1] == BitOf(b, k - 1);
    }
  }

  class DecodeCtx {
    var n: nat
    var val: nat
    var fa: nat
    var fb: nat
    var prev: bool
    var bad: bool
    const out: array<nat>

    ghost predicate Valid()
      reads this, out
    {
      out.Length == MAX_SYMS && n <= MAX_SYMS
    }

    ghost function Value(): Ctx
      requires Valid()
      reads this, out
    {
      Ctx(val, fa, fb, prev, bad, out[..n])
    }

    constructor ()
      ensures Valid() && Value() == START && fresh(out)
    {
      n, val, fa, fb, prev, bad := 0, 0, 1, 2, false, false;
      out := new nat[MAX_SYMS](_ => 0);
    }

    /** One bit; stops past the payload and at the first thing that cannot be part of a frame. */
    method BitCb(payload: Bytes, bi: nat) returns (stop: bool)
      requires Valid() && !bad
      modifies this, out
      ensures Valid() && stop == (bi / 8 >= |payload| || bad)
      ensures Value() == if bi / 8 >= |payload| then old(Value()) else BitStep(old(Value()), PayloadBits(payload)[bi])
    {
      if bi / 8 >= |payload| { return true; }
      var bit := BitOf(payload[bi / 8], bi % 8);
      if bit && prev {
        if n >= MAX_SYMS || val == 0 || val > CAP { bad := true; return true; }
        out[n] := val;
        n := n + 1;
        val, fa, fb, prev := 0, 1, 2, false;
      } else {
        if bit {
          if fa > CAP || val > CAP - fa { bad := true; return true; }
          val := (val + fa) % WORD;
        }
        fa, fb := fb, (fa + fb) % WORD;
        prev := bit;
      }
      stop := false;
    }

    /** The bounded loop over every bit a payload can have. */
    method Decode(payload: Bytes) returns (values: Option<seq<nat>>)
      requires Valid() && Value() == START && |payload| <= MAX_PAYLOAD
      modifies this, out
      ensures values == Accepted(BitRun(START, PayloadBits(payload)))
    {
      ghost var bits := PayloadBits(payload);
      var bi := 0;
      while bi < MAX_PAYLOAD * 8
        invariant Valid() && 0 <= bi <= |bits| && !bad
        invariant BitRun(Value(), bits[bi..]) == BitRun(START, bits)
      {
        ghost var before := Value();
        var stop := BitCb(payload, bi);
        if stop { break; }
        assert bits[bi..][0] == bits[bi] && bits[bi..][1..] == bits[bi + 1..];
        bi := bi + 1;
      }
      values := if bad || val != 0 || n == 0 then None else Some(out[..n]);
    }
  }

  // ----- The same machine on digits instead of registers -----

  /** `digits` of the codeword so far; a codeword over the cap, or a seventeenth, refuses the frame. */
  function Parse(bits: seq<bool>, digits: seq<bool>, out: seq<nat>): Option<seq<nat>>
    decreases |bits|
  {
    if bits == [] then if Value(digits) == 0 && out != [] then Some(out) else None
    else if bits[0] && EndsInOne(digits) then
      if |out| >= MAX_SYMS then None else Parse(bits[1..], [], out + [Value(digits)])
    else if bits[0] && Value(digits) + G(|digits|) > CAP then None
    else Parse(bits[1..], digits + [bits[0]], out)
  }

  /** The registers hold the digits' value, exactly, and the next two terms, wrapped. */
  predicate Tracks(c: Ctx, digits: seq<bool>) {
    && !c.bad && NoAdjacent(digits) && c.val == Value(digits) <= CAP && c.prev == EndsInOne(digits)
    && c.fa == G(|digits|) % WORD && c.fb == G(|digits| + 1) % WORD
  }

  lemma NextRegisters(n: nat, fa: nat, fb: nat)
    requires fa == G(n) % WORD && fb == G(n + 1) % WORD
    ensures (fa + fb) % WORD == G(n + 2) % WORD
  {
    SumWraps(G(n), G(n + 1));
  }

  lemma SumFits(val: nat, term: nat)
    requires val + term <= CAP
    ensures (val + term) % WORD == val + term
  {
  }

  lemma TracksOne(c: Ctx, digits: seq<bool>)
    requires Tracks(c, digits) && |digits| < 256 && !c.prev && Value(digits) + G(|digits|) <= CAP
    ensures Tracks(BitStep(c, true), digits + [true]) && BitStep(c, true).out == c.out
  {
    OneIsAdded(c, |digits|, Value(digits));
    NextRegisters(|digits|, c.fa, c.fb);
    ValueOfOneMore(digits, true);
    StillApart(digits, true);
  }

  lemma OneIsAdded(c: Ctx, k: nat, v: nat)
    requires k < 256 && c.fa == G(k) % WORD && c.val == v && !c.prev && v + G(k) <= CAP
    ensures BitStep(c, true) == Ctx(v + G(k), c.fb, (c.fa + c.fb) % WORD, true, c.bad, c.out)
  {
    RegisterIsFaithful(k);
    SumFits(v, c.fa);
  }

  lemma RefusesOne(c: Ctx, digits: seq<bool>)
    requires Tracks(c, digits) && |digits| < 256 && !c.prev && Value(digits) + G(|digits|) > CAP
    ensures BitStep(c, true).bad
  {
    RegisterIsFaithful(|digits|);
  }

  lemma TracksZero(c: Ctx, digits: seq<bool>)
    requires Tracks(c, digits)
    ensures Tracks(BitStep(c, false), digits + [false]) && BitStep(c, false).out == c.out
  {
    ValueOfOneMore(digits, false);
    NextRegisters(|digits|, c.fa, c.fb);
  }

  lemma TracksClosed(c: Ctx, digits: seq<bool>)
    requires Tracks(c, digits) && EndsInOne(digits)
    ensures |c.out| >= MAX_SYMS ==> BitStep(c, true).bad
    ensures |c.out| < MAX_SYMS ==> Tracks(BitStep(c, true), []) && BitStep(c, true).out == c.out + [Value(digits)]
  {
    ClosedDigitsAreCode(digits);
    assert G(0) % WORD == 1 && G(1) % WORD == 2;
  }

  /** On any payload the registers compute what the digits do: 256 bits are too few for a wrapped term to matter. */
  lemma {:induction false} RegistersParse(c: Ctx, bits: seq<bool>, digits: seq<bool>)
    requires Tracks(c, digits) && |digits| + |bits| <= 256
    ensures Accepted(BitRun(c, bits)) == Parse(bits, digits, c.out)
    decreases |bits|
  {
    if bits != [] {
      if bits[0] && EndsInOne(digits) {
        TracksClosed(c, digits);
        if |c.out| < MAX_SYMS { RegistersParse(BitStep(c, true), bits[1..], []); }
      } else {
        if !bits[0] { TracksZero(c, digits); }
        else if Value(digits) + G(|digits|) > CAP { RefusesOne(c, digits); }
        else { TracksOne(c, digits); }
        if !(bits[0] && Value(digits) + G(|digits|) > CAP) {
          RegistersParse(BitStep(c, bits[0]), bits[1..], digits + [bits[0]]);
        }
      }
    }
  }

  // ----- What a frame is -----

  predicate InRange(vs: seq<nat>) {
    forall i | 0 <= i < |vs| :: 1 <= vs[i] <= CAP
  }

  /** The codes of the values, then only zeros. */
  predicate Frames(bits: seq<bool>, vs: seq<nat>)
    requires Positive(vs)
  {
    |Codes(vs)| <= |bits| && bits[..|Codes(vs)|] == Codes(vs) && AllZero(bits[|Codes(vs)|..])
  }

  lemma FramesNothing(bits: seq<bool>)
    ensures Frames(bits, []) <==> AllZero(bits)
  {
    assert bits[0..] == bits;
  }

  lemma FramesOneMore(code: seq<bool>, rest: seq<bool>, v: nat, vs: seq<nat>)
    requires v >= 1 && Positive(vs) && code == Code(v) && Frames(rest, vs)
    ensures Positive([v] + vs) && Frames(code + rest, [v] + vs)
  {
    assert ([v] + vs)[1..] == vs;
    var all := Codes([v] + vs);
    assert all == code + Codes(vs);
    assert (code + rest)[..|all|] == code + rest[..|Codes(vs)|];
    assert (code + rest)[|all|..] == rest[|Codes(vs)|..];
  }

  /** Soundness: what is parsed is a frame of exactly those values. */
  lemma {:induction false} ParsedIsFrame(bits: seq<bool>, digits: seq<bool>, out: seq<nat>)
    requires NoAdjacent(digits) && Value(digits) <= CAP && |out| <= MAX_SYMS
    requires Parse(bits, digits, out).Some?
    ensures IsFrameOf(digits + bits, out, Parse(bits, digits, out).value)
    decreases |bits|
  {
    if bits == [] {
      ZeroValue(digits);
      FramesNothing(digits);
      assert digits + bits == digits && out[|out|..] == [];
    } else if bits[0] && EndsInOne(digits) {
      ParsedIsFrame(bits[1..], [], out + [Value(digits)]);
      ClosedIsFrame(bits, digits, out, Parse(bits, digits, out).value);
    } else {
      ValueOfOneMore(digits, bits[0]);
      assert NoAdjacent(digits + [bits[0]]);
      ParsedIsFrame(bits[1..], digits + [bits[0]], out);
      Rejoin(digits, bits);
    }
  }

  /** The values after those of `out` are what the bits frame. */
  predicate IsFrameOf(bits: seq<bool>, out: seq<nat>, vs: seq<nat>) {
    out <= vs && 1 <= |vs| <= MAX_SYMS && InRange(vs[|out|..]) && Frames(bits, vs[|out|..])
  }

  lemma ClosedIsFrame(bits: seq<bool>, digits: seq<bool>, out: seq<nat>, vs: seq<nat>)
    requires bits != [] && bits[0] && EndsInOne(digits) && NoAdjacent(digits) && Value(digits) <= CAP
    requires IsFrameOf([] + bits[1..], out + [Value(digits)], vs)
    ensures IsFrameOf(digits + bits, out, vs)
  {
    var v := Value(digits);
    ClosedDigitsAreCode(digits);
    assert [] + bits[1..] == bits[1..];
    assert vs[|out|] == (out + [v])[|out|] == v;
    assert vs[|out|..] == [v] + vs[|out| + 1..];
    FramesOneMore(digits + [true], bits[1..], v, vs[|out| + 1..]);
    Rejoin(digits, bits);
  }

  lemma Rejoin(digits: seq<bool>, bits: seq<bool>)
    requires bits != []
    ensures digits + bits == digits + [bits[0]] + bits[1..]
  {
  }

  /** The rest of one code, with the digits before it already read. */
  lemma {:induction false} CodeParses(all: seq<bool>, j: nat, rest: seq<bool>, out: seq<nat>)
    requires NoAdjacent(all) && EndsInOne(all) && j <= |all| && Value(all) <= CAP && |out| < MAX_SYMS
    ensures Parse(all[j..] + [true] + rest, all[..j], out) == Parse(rest, [], out + [Value(all)])
    decreases |all| - j
  {
    var bits := all[j..] + [true] + rest;
    if j == |all| {
      assert all[..j] == all && bits[0] && bits[1..] == rest;
    } else {
      assert bits[0] == all[j] && bits[1..] == all[j + 1..] + [true] + rest;
      assert all[..j] + [all[j]] == all[..j + 1];
      ValueOfOneMore(all[..j], all[j]);
      PrefixValue(all, j + 1);
      if all[j] && j > 0 { assert !all[j - 1]; }
      CodeParses(all, j + 1, rest, out);
    }
  }

  lemma {:induction false} ZerosParse(bits: seq<bool>, digits: seq<bool>, out: seq<nat>)
    requires AllZero(bits) && AllZero(digits) && out != []
    ensures Parse(bits, digits, out) == Some(out)
    decreases |bits|
  {
    if bits == [] { ZeroValue(digits); } else { ZerosParse(bits[1..], digits + [bits[0]], out); }
  }

  /** Completeness: every frame of in-range values, at most sixteen with those before, is parsed to them. */
  lemma {:induction false} FrameParses(bits: seq<bool>, vs: seq<nat>, out: seq<nat>)
    requires InRange(vs) && Frames(bits, vs) && |out| + |vs| <= MAX_SYMS && out + vs != []
    ensures Parse(bits, [], out) == Some(out + vs)
    decreases |vs|
  {
    if vs == [] {
      FramesNothing(bits);
      ZerosParse(bits, [], out);
      assert out + vs == out;
    } else {
      var v := vs[0];
      var all := Digits(v, Places(v));
      var rest := bits[|Code(v)|..];
      FrameSplits(bits, vs);
      CodeParses(all, 0, rest, out);
      assert all[0..] + [true] + rest == bits && all[..0] == [];
      FrameParses(rest, vs[1..], out + [v]);
      assert out + [v] + vs[1..] == out + vs;
    }
  }

  lemma FrameSplits(bits: seq<bool>, vs: seq<nat>)
    requires vs != [] && Positive(vs) && Frames(bits, vs)
    ensures |Code(vs[0])| <= |bits| && Code(vs[0]) + bits[|Code(vs[0])|..] == bits
    ensures Frames(bits[|Code(vs[0])|..], vs[1..])
  {
    var code, tail := Code(vs[0]), Codes(vs[1..]);
    assert Codes(vs) == code + tail;
    assert bits[..|code + tail|] == code + tail;
    assert bits[..|code|] == bits[..|code + tail|][..|code|] == code;
    assert bits[|code|..][..|tail|] == bits[..|code + tail|][|code|..] == tail;
    assert bits[|code|..][|tail|..] == bits[|code + tail|..];
  }

  /**
   The decoder is exact. A payload of at most 32 bytes is accepted with values `vs` if and only if there are 1 to 16
   of them, each from 1 to 65535, and the payload's bits are their Fibonacci codes in order and then only zeros.
   */
  lemma DecoderIsExact(payload: Bytes, vs: seq<nat>)
    requires |payload| <= MAX_PAYLOAD
    ensures Accepted(BitRun(START, PayloadBits(payload))) == Some(vs) <==>
            1 <= |vs| <= MAX_SYMS && InRange(vs) && Frames(PayloadBits(payload), vs)
  {
    var bits := PayloadBits(payload);
    assert G(0) % WORD == 1 && G(1) % WORD == 2;
    RegistersParse(START, bits, []);
    assert [] + bits == bits;
    if Parse(bits, [], []) == Some(vs) {
      ParsedIsFrame(bits, [], []);
      assert vs[0..] == vs;
    }
    if 1 <= |vs| <= MAX_SYMS && InRange(vs) && Frames(bits, vs) {
      FrameParses(bits, vs, []);
      assert [] + vs == vs;
    }
  }

  /** So no payload is the frame of two different value lists. */
  lemma FramesAreUnambiguous(payload: Bytes, vs: seq<nat>, ws: seq<nat>)
    requires |payload| <= MAX_PAYLOAD
    requires 1 <= |vs| <= MAX_SYMS && InRange(vs) && Frames(PayloadBits(payload), vs)
    requires 1 <= |ws| <= MAX_SYMS && InRange(ws) && Frames(PayloadBits(payload), ws)
    ensures vs == ws
  {
    DecoderIsExact(payload, vs);
    DecoderIsExact(payload, ws);
  }
}
