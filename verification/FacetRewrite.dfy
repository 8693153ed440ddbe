/**
 What the Facet program does to a frame (prismpath-ebpf/facet_decode.bpf.c, facet_decode): decode, rewrite the payload
 in place as plain little-endian words, and leave lengths and the IPv4 header checksum right.
 */
module FacetRewrite {
  import opened Wrappers
  import opened ByteRows
  import opened FacetDecoder

  const IP: nat := 14
  const UDP: nat := 34
  const L4_PAYLOAD_OFF: nat := 42
  const FACET_PORT: nat := 4711
  const ETH_P_IP: nat := 0x0800
  const IPPROTO_UDP: nat := 17

  datatype Stat = Decoded | Malformed | BadLength | NotOurs

  datatype Action = Pass | Drop

  function Be16(b: Bytes, at: nat): nat
    requires at + 2 <= |b|
  {
    b[at] as nat * 0x100 + b[at + 1] as nat
  }

  /** Is this a UDP datagram in an IPv4 header without options? */
  predicate Datagram(f: Bytes) {
    |f| >= L4_PAYLOAD_OFF && Be16(f, 12) == ETH_P_IP && f[IP] % 16 == 5 && f[IP + 9] == IPPROTO_UDP
  }

  /** One to the Facet port? */
  predicate Ours(f: Bytes) {
    Datagram(f) && Be16(f, UDP + 2) == FACET_PORT
  }

  /** Byte by byte: EtherType IPv4, a five-word header, protocol 17, destination port 4711. */
  lemma OursMeans(f: Bytes)
    ensures Ours(f) <==>
            && |f| >= 42 && f[12] == 0x08 && f[13] == 0x00 && f[14] % 0x10 == 5 && f[23] == 17
            && f[36] == 0x12 && f[37] == 0x67
  {
  }

  predicate LengthFits(f: Bytes)
    requires |f| >= L4_PAYLOAD_OFF
  {
    8 < Be16(f, UDP + 4) <= 8 + MAX_PAYLOAD
  }

  function Payload(f: Bytes): Bytes
    requires |f| >= L4_PAYLOAD_OFF && LengthFits(f) && L4_PAYLOAD_OFF + Be16(f, UDP + 4) - 8 <= |f|
  {
    f[L4_PAYLOAD_OFF..L4_PAYLOAD_OFF + Be16(f, UDP + 4) - 8]
  }

  // ----- The header checksum -----

  function LeWord(b: Bytes, at: nat): nat
    requires at + 2 <= |b|
  {
    b[at] as nat + b[at + 1] as nat * 0x100
  }

  /** The ten words of an IPv4 header, added up as this machine loads them. */
  function LeHeaderSum(b: Bytes): nat
    requires |b| >= IP + 20
  {
    LeWord(b, 14) + LeWord(b, 16) + LeWord(b, 18) + LeWord(b, 20) + LeWord(b, 22)
    + LeWord(b, 24) + LeWord(b, 26) + LeWord(b, 28) + LeWord(b, 30) + LeWord(b, 32)
  }

  /** The same ten words as the network reads them. */
  function BeHeaderSum(b: Bytes): nat
    requires |b| >= IP + 20
  {
    Be16(b, 14) + Be16(b, 16) + Be16(b, 18) + Be16(b, 20) + Be16(b, 22)
    + Be16(b, 24) + Be16(b, 26) + Be16(b, 28) + Be16(b, 30) + Be16(b, 32)
  }

  function Fold(sum: nat): nat {
    sum % 0x1_0000 + sum / 0x1_0000
  }

  lemma FoldKeepsResidue(sum: nat)
    ensures Fold(sum) % 0xFFFF == sum % 0xFFFF
  {
    assert sum == sum / 0x1_0000 * 0xFFFF + Fold(sum);
  }

  /** Two folds bring ten words into sixteen bits, and the complement of what is left makes the sum come out. */
  lemma ComplementCloses(sum: nat)
    requires sum <= 10 * 0xFFFF
    ensures Fold(Fold(sum)) <= 0xFFFF
    ensures (sum + (0xFFFF - Fold(Fold(sum)))) % 0xFFFF == 0
  {
    FoldKeepsResidue(sum);
    FoldKeepsResidue(Fold(sum));
    var folded := Fold(Fold(sum));
    assert folded <= 0xFFFF;
    SameResidue(sum, folded);
  }

  lemma SameResidue(a: nat, b: nat)
    requires a % 0xFFFF == b % 0xFFFF && b <= 0xFFFF
    ensures (a + (0xFFFF - b)) % 0xFFFF == 0
  {
    assert a + (0xFFFF - b) == a / 0xFFFF * 0xFFFF + a % 0xFFFF + (0xFFFF - b);
    if b < 0xFFFF { assert a + (0xFFFF - b) == (a / 0xFFFF + 1) * 0xFFFF; }
    else { assert a + (0xFFFF - b) == a / 0xFFFF * 0xFFFF; }
  }

  /** A sum that closes for one byte order closes for the other: swapping the bytes multiplies by 256. */
  lemma EitherByteOrder(b: Bytes)
    requires |b| >= IP + 20 && LeHeaderSum(b) % 0xFFFF == 0
    ensures BeHeaderSum(b) % 0xFFFF == 0
  {
    var high := b[15] as nat + b[17] as nat + b[19] as nat + b[21] as nat + b[23] as nat
                + b[25] as nat + b[27] as nat + b[29] as nat + b[31] as nat + b[33] as nat;
    assert BeHeaderSum(b) == 0x100 * LeHeaderSum(b) - 0xFFFF * high;
    MultipleMinusMultiple(LeHeaderSum(b), high, BeHeaderSum(b));
  }

  lemma MultipleMinusMultiple(sum: nat, high: nat, other: nat)
    requires sum % 0xFFFF == 0 && other == 0x100 * sum - 0xFFFF * high
    ensures other % 0xFFFF == 0
  {
    var k := sum / 0xFFFF;
    assert other == (0x100 * k - high) * 0xFFFF;
  }

  // ----- The rewritten frame -----

  /** The payload an ordinary socket reads: a mark, a count, the values as little-endian words. */
  predicate Carries(f: Bytes, vs: seq<nat>) {
    && |f| >= L4_PAYLOAD_OFF + 2 + 2 * |vs| && f[L4_PAYLOAD_OFF] == 0x46 && f[L4_PAYLOAD_OFF + 1] == |vs|
    && forall i | 0 <= i < |vs| :: LeWord(f, L4_PAYLOAD_OFF + 2 + 2 * i) == vs[i]
  }

  /** Lengths are those of the new payload, the UDP checksum is off, the header checksum closes. */
  predicate Consistent(f: Bytes, n: nat) {
    && |f| >= L4_PAYLOAD_OFF + 2 + 2 * n
    && Be16(f, IP + 2) == 20 + 8 + 2 + 2 * n && Be16(f, UDP + 4) == 8 + 2 + 2 * n && Be16(f, UDP + 6) == 0
    && LeHeaderSum(f) % 0xFFFF == 0
  }

  /** A byte before the payload that is no length and no checksum. */
  predicate Kept(k: nat) {
    k < L4_PAYLOAD_OFF && k != 16 && k != 17 && k != 24 && k != 25 && !(38 <= k < 42)
  }

  /** Everything else stays: addresses, ports, and what lay past the payload at the same place. */
  predicate OnlyRewritten(old_: Bytes, f: Bytes, n: nat) {
    |old_| >= L4_PAYLOAD_OFF &&
    forall k | 0 <= k < |f| && (Kept(k) || k >= L4_PAYLOAD_OFF + 2 + 2 * n) ::
      f[k] == if k < |old_| then old_[k] else 0
  }

  /** `room` is whether the driver let the packet change length. */
  method FacetDecode(f: Bytes, room: bool) returns (action: Action, stat: Option<Stat>, f': Bytes)
    ensures !Ours(f) ==> action == Pass && f' == f && stat == if Datagram(f) then Some(NotOurs) else None
    ensures action == Drop ==> f' == f
    ensures Ours(f) && !LengthFits(f) ==> action == Drop && stat == Some(BadLength)
    ensures Ours(f) && LengthFits(f) && L4_PAYLOAD_OFF + Be16(f, UDP + 4) - 8 > |f| ==> action == Drop && stat == Some(Malformed)
    ensures Ours(f) && LengthFits(f) && L4_PAYLOAD_OFF + Be16(f, UDP + 4) - 8 <= |f| ==>
              match Accepted(BitRun(START, PayloadBits(Payload(f))))
              case None => action == Drop && stat == Some(Malformed)
              case Some(vs) =>
                if !room then action == Drop && stat == Some(Malformed)
                else
                  && action == Pass && stat == Some(Decoded)
                  && |f'| == |f| + 2 + 2 * |vs| - |Payload(f)|
                  && Carries(f', vs) && Consistent(f', |vs|) && OnlyRewritten(f, f', |vs|)
  {
    f' := f;
    if |f| < IP || Be16(f, 12) != ETH_P_IP { return Pass, None, f; }
    if |f| < IP + 20 || f[IP] % 16 != 5 || f[IP + 9] != IPPROTO_UDP { return Pass, None, f; }
    if |f| < L4_PAYLOAD_OFF { return Pass, None, f; }
    if Be16(f, UDP + 2) != FACET_PORT { return Pass, Some(NotOurs), f; }
    var total := Be16(f, UDP + 4);
    if total < 8 { return Drop, Some(BadLength), f; }
    var plen := total - 8;
    if plen == 0 || plen > MAX_PAYLOAD { return Drop, Some(BadLength), f; }
    if L4_PAYLOAD_OFF + plen > |f| { return Drop, Some(Malformed), f; }
    var c := new DecodeCtx();
    var values := c.Decode(f[L4_PAYLOAD_OFF..L4_PAYLOAD_OFF + plen]);
    if values == None { return Drop, Some(Malformed), f; }
    if !room { return Drop, Some(Malformed), f; }
    DecoderIsExact(Payload(f), values.value);
    f' := Rewrite(f, plen, values.value);
    action, stat := Pass, Some(Decoded);
  }

  method Rewrite(f: Bytes, plen: nat, vs: seq<nat>) returns (f': Bytes)
    requires |f| >= L4_PAYLOAD_OFF + plen && 1 <= |vs| <= MAX_SYMS && InRange(vs)
    ensures |f'| == |f| + 2 + 2 * |vs| - plen
    ensures Carries(f', vs) && Consistent(f', |vs|) && OnlyRewritten(f, f', |vs|)
  {
    var frame := new Byte[|f| + 2 + 2 * |vs| - plen](k => if 0 <= k < |f| then f[k] else 0);
    WritePayload(frame, vs);
    WriteHeaders(frame, |vs|);
    f' := frame[..];
  }

  method WritePayload(frame: array<Byte>, vs: seq<nat>)
    requires frame.Length >= L4_PAYLOAD_OFF + 2 + 2 * |vs| && |vs| <= MAX_SYMS && InRange(vs)
    modifies frame
    ensures Carries(frame[..], vs)
    ensures forall k | 0 <= k < frame.Length && (k < L4_PAYLOAD_OFF || k >= L4_PAYLOAD_OFF + 2 + 2 * |vs|) :: frame[k] == old(frame[k])
  {
    frame[L4_PAYLOAD_OFF] := 0x46;
    frame[L4_PAYLOAD_OFF + 1] := |vs|;
    for i := 0 to |vs|
      invariant frame[L4_PAYLOAD_OFF] == 0x46 && frame[L4_PAYLOAD_OFF + 1] as int == |vs|
      invariant forall j | 0 <= j < i ::
                  frame[L4_PAYLOAD_OFF + 2 + 2 * j] as int + frame[L4_PAYLOAD_OFF + 3 + 2 * j] as int * 0x100 == vs[j]
      invariant forall k | 0 <= k < frame.Length && (k < L4_PAYLOAD_OFF || k >= L4_PAYLOAD_OFF + 2 + 2 * |vs|) ::
                  frame[k] == old(frame[k])
    {
      frame[L4_PAYLOAD_OFF + 2 + 2 * i] := vs[i] % 0x100;
      frame[L4_PAYLOAD_OFF + 3 + 2 * i] := vs[i] / 0x100;
    }
  }

  method WriteHeaders(frame: array<Byte>, n: nat)
    requires frame.Length >= L4_PAYLOAD_OFF + 2 + 2 * n && n <= MAX_SYMS
    modifies frame
    ensures Consistent(frame[..], n)
    ensures forall k | 0 <= k < frame.Length && (Kept(k) || k >= L4_PAYLOAD_OFF) :: frame[k] == old(frame[k])
  {
    var udpLen := 8 + 2 + 2 * n;
    var totLen := 20 + udpLen;
    frame[IP + 2], frame[IP + 3] := totLen / 0x100, totLen % 0x100;
    frame[UDP + 4], frame[UDP + 5] := udpLen / 0x100, udpLen % 0x100;
    frame[UDP + 6], frame[UDP + 7] := 0, 0;
    frame[IP + 10], frame[IP + 11] := 0, 0;
    WriteChecksum(frame);
  }

  method WriteChecksum(frame: array<Byte>)
    requires frame.Length >= IP + 20 && frame[IP + 10] == 0 && frame[IP + 11] == 0
    modifies frame
    ensures LeHeaderSum(frame[..]) % 0xFFFF == 0
    ensures forall k | 0 <= k < frame.Length && k != IP + 10 && k != IP + 11 :: frame[k] == old(frame[k])
  {
    ghost var before := frame[..];
    var sum := LeHeaderSum(frame[..]);
    ComplementCloses(sum);
    var check := 0xFFFF - Fold(Fold(sum));
    frame[IP + 10], frame[IP + 11] := check % 0x100, check / 0x100;
    SumWithCheck(before, frame[..], check);
  }

  lemma SumWithCheck(before: Bytes, after: Bytes, check: nat)
    requires |before| == |after| >= IP + 20 && before[24] == 0 && before[25] == 0
    requires after[24] as nat + after[25] as nat * 0x100 == check
    requires forall k | 0 <= k < |after| && k != 24 && k != 25 :: after[k] == before[k]
    ensures LeHeaderSum(after) == LeHeaderSum(before) + check
  {
  }
}
