/**
 Frames put together field by field, as prismpath-ebpf/net_cert.py does to certify the packet front end, and what the
 front end reads back from them, however short they are cut. Layouts: section 3.1 of RFC 791 (IPv4), section 3.1 of
 RFC 9293 (TCP), RFC 768 (UDP).
 */
module NetFrames {
  import opened Wrappers
  import opened Values
  import opened Predicates
  import opened ByteRows
  import opened NetFrontEnd

  datatype Ip = Ip(src: nat, dst: nat, proto: nat, fragOff: nat, ttl: nat, total: nat, options: Bytes)

  predicate Fits(ip: Ip) {
    && ip.src < TWO_32 && ip.dst < TWO_32 && ip.proto < 0x100 && ip.fragOff < 0x1_0000 && ip.ttl < 0x100
    && ip.total < 0x1_0000 && |ip.options| % 4 == 0 && |ip.options| <= 40
  }

  // ----- Writing -----

  /** Byte `k` of the number, counted from the least significant. */
  function ByteOf(v: nat, k: nat): Byte {
    if k == 0 then v % 0x100 else ByteOf(v / 0x100, k - 1)
  }

  function Ethernet(): Bytes {
    [0xFF, 0xFF, 0xFF, 0xFF, 0xFF, 0xFF, 2, 2, 2, 2, 2, 2, 0x08, 0x00]
  }

  /** The fixed part of the header; the length in its first byte counts the options too, in words. */
  function Fixed(ip: Ip): (b: Bytes)
    requires Fits(ip)
    ensures |b| == 20
  {
    [0x40 + 5 + |ip.options| / 4, 0, ByteOf(ip.total, 1), ByteOf(ip.total, 0), 0x12, 0x34,
     ByteOf(ip.fragOff, 1), ByteOf(ip.fragOff, 0), ip.ttl, ip.proto, 0, 0,
     ByteOf(ip.src, 3), ByteOf(ip.src, 2), ByteOf(ip.src, 1), ByteOf(ip.src, 0),
     ByteOf(ip.dst, 3), ByteOf(ip.dst, 2), ByteOf(ip.dst, 1), ByteOf(ip.dst, 0)]
  }

  function Frame(ip: Ip, l4: Bytes): Bytes
    requires Fits(ip)
  {
    Ethernet() + Fixed(ip) + ip.options + l4
  }

  function Ports(sport: nat, dport: nat): Bytes {
    [ByteOf(sport, 1), ByteOf(sport, 0), ByteOf(dport, 1), ByteOf(dport, 0)]
  }

  function Tcp(sport: nat, dport: nat, flags: Byte, payload: Bytes): Bytes {
    Ports(sport, dport) + [0, 0, 0, 0, 0, 0, 0, 0, 0x50, flags, 0xFF, 0xFF, 0, 0, 0, 0] + payload
  }

  function Udp(sport: nat, dport: nat, payload: Bytes): Bytes {
    Ports(sport, dport) + [ByteOf(8 + |payload|, 1), ByteOf(8 + |payload|, 0), 0, 0] + payload
  }

  // ----- Reading back -----

  lemma HalfReads(v: nat)
    requires v < 0x1_0000
    ensures ByteOf(v, 1) * 0x100 + ByteOf(v, 0) == v
  {
    assert ByteOf(v, 1) == ByteOf(v / 0x100, 0);
  }

  lemma WordReads(v: nat)
    requires v < TWO_32
    ensures (ByteOf(v, 3) * 0x100 + ByteOf(v, 2)) * 0x1_0000 + (ByteOf(v, 1) * 0x100 + ByteOf(v, 0)) == v
  {
    var v1 := v / 0x100;
    var v2 := v1 / 0x100;
    assert ByteOf(v, 1) == ByteOf(v1, 0);
    assert ByteOf(v, 2) == ByteOf(v1, 1) == ByteOf(v2, 0);
    assert ByteOf(v, 3) == ByteOf(v1, 2) == ByteOf(v2, 1);
    HalfReads(v2);
  }

  /** The fields every IPv4 packet carries. */
  function IpFields(ip: Ip): Context {
    map["src_ip" := Int(ip.src), "dst_ip" := Int(ip.dst), "protocol" := Int(ip.proto), "pkt_len" := Int(ip.total),
        "ttl" := Int(ip.ttl)]
  }

  /** A frame as it arrives: cut after `cut` bytes. */
  function Arriving(ip: Ip, l4: Bytes, cut: nat): Bytes
    requires Fits(ip) && cut <= |Frame(ip, l4)|
  {
    Frame(ip, l4)[..cut]
  }

  lemma HeaderBytesAre(ip: Ip, l4: Bytes, cut: nat) returns (f: Bytes)
    requires Fits(ip) && 34 <= cut <= |Frame(ip, l4)|
    ensures f == Arriving(ip, l4, cut) && |f| == cut
    ensures f[12] == 0x08 && f[13] == 0x00
    ensures forall k | 0 <= k < 20 :: f[14 + k] == Fixed(ip)[k]
    ensures forall k | 0 <= k < |l4| && 34 + |ip.options| + k < cut :: f[34 + |ip.options| + k] == l4[k]
  {
    f := Arriving(ip, l4, cut);
  }

  lemma HeaderReads(ip: Ip, l4: Bytes, cut: nat) returns (f: Bytes)
    requires Fits(ip) && 34 <= cut <= |Frame(ip, l4)|
    ensures f == Arriving(ip, l4, cut) && |f| == cut && Evaluated(f)
    ensures HeaderBytes(f) == 20 + |ip.options| && f[23] == ip.proto && f[22] == ip.ttl
    ensures Be16(f, 16) == ip.total && Be16(f, 20) == ip.fragOff && Be32(f, 26) == ip.src && Be32(f, 30) == ip.dst
  {
    f := HeaderBytesAre(ip, l4, cut);
    HeaderFields(ip, f, Fixed(ip));
  }

  lemma HeaderFields(ip: Ip, f: Bytes, h: Bytes)
    requires Fits(ip) && h == Fixed(ip) && |f| >= 34 && f[12] == 0x08 && f[13] == 0x00 && forall i | 0 <= i < 20 :: f[14 + i] == h[i]
    ensures Evaluated(f) && HeaderBytes(f) == 20 + |ip.options| && f[23] == ip.proto && f[22] == ip.ttl
    ensures Be16(f, 16) == ip.total && Be16(f, 20) == ip.fragOff && Be32(f, 26) == ip.src && Be32(f, 30) == ip.dst
  {
    assert f[14 + 0] == h[0] && f[14 + 8] == h[8] && f[14 + 9] == h[9];
    FirstByte(|ip.options|);
    HalfAt(f, h, 2, ip.total);
    HalfAt(f, h, 6, ip.fragOff);
    WordAt(f, h, 12, ip.src);
    WordAt(f, h, 16, ip.dst);
  }

  lemma FirstByte(options: nat)
    requires options % 4 == 0 && options <= 40
    ensures (0x40 + 5 + options / 4) % 16 * 4 == 20 + options
  {
  }

  /** The two bytes at `k` of the header `h` are those of `v`. */
  lemma HalfAt(f: Bytes, h: Bytes, k: nat, v: nat)
    requires |h| == 20 && |f| >= 34 && k < 19 && v < 0x1_0000 && forall i | 0 <= i < 20 :: f[14 + i] == h[i]
    requires h[k] == ByteOf(v, 1) && h[k + 1] == ByteOf(v, 0)
    ensures Be16(f, 14 + k) == v
  {
    HalfReads(v);
    assert f[14 + k] == h[k] && f[14 + (k + 1)] == h[k + 1];
  }

  lemma WordAt(f: Bytes, h: Bytes, k: nat, v: nat)
    requires |h| == 20 && |f| >= 34 && k < 17 && v < TWO_32 && forall i | 0 <= i < 20 :: f[14 + i] == h[i]
    requires h[k] == ByteOf(v, 3) && h[k + 1] == ByteOf(v, 2) && h[k + 2] == ByteOf(v, 1) && h[k + 3] == ByteOf(v, 0)
    ensures Be32(f, 14 + k) == v
  {
    WordReads(v);
    assert f[14 + k] == h[k] && f[14 + (k + 1)] == h[k + 1] && f[14 + (k + 2)] == h[k + 2] && f[14 + (k + 3)] == h[k + 3];
  }

  /** The transport header is in the frame, and this is the fragment that starts with it. */
  predicate Carried(ip: Ip, cut: nat, headerBytes: nat) {
    ip.fragOff % 0x2000 == 0 && 34 + |ip.options| + headerBytes <= cut
  }

  lemma PortsRead(ip: Ip, sport: nat, dport: nat, rest: Bytes, cut: nat)
    requires Fits(ip) && sport < 0x1_0000 && dport < 0x1_0000
    requires 38 + |ip.options| <= cut <= |Frame(ip, Ports(sport, dport) + rest)|
    ensures var f := Arriving(ip, Ports(sport, dport) + rest, cut);
            Be16(f, 34 + |ip.options|) == sport && Be16(f, 36 + |ip.options|) == dport
  {
    var l4 := Ports(sport, dport) + rest;
    var f := HeaderBytesAre(ip, l4, cut);
    var at := 34 + |ip.options|;
    assert f[at + 0] == l4[0] && f[at + 1] == l4[1] && f[at + 2] == l4[2] && f[at + 3] == l4[3];
    HalfReads(sport);
    HalfReads(dport);
  }

  /**
   A TCP packet, with any options and payload and cut anywhere past the fixed header, reads as the fields it was built
   from; ports and flags are there exactly when it is no later fragment and its whole header is in the frame.
   */
  lemma TcpReads(ip: Ip, sport: nat, dport: nat, flags: Byte, payload: Bytes, cut: nat)
    requires Fits(ip) && ip.proto == 6 && sport < 0x1_0000 && dport < 0x1_0000
    requires 34 <= cut <= |Frame(ip, Tcp(sport, dport, flags, payload))|
    ensures Evaluated(Arriving(ip, Tcp(sport, dport, flags, payload), cut))
    ensures Reading(Arriving(ip, Tcp(sport, dport, flags, payload), cut)) ==
            if Carried(ip, cut, 20) then
              IpFields(ip)["src_port" := Int(sport)]["dst_port" := Int(dport)]["tcp_flags" := Int(flags)]
            else IpFields(ip)
  {
    var l4 := Tcp(sport, dport, flags, payload);
    var f := HeaderReads(ip, l4, cut);
    if Carried(ip, cut, 20) {
      var rest := [0, 0, 0, 0, 0, 0, 0, 0, 0x50, flags, 0xFF, 0xFF, 0, 0, 0, 0] + payload;
      assert l4 == Ports(sport, dport) + rest;
      PortsRead(ip, sport, dport, rest, cut);
      var g := HeaderBytesAre(ip, l4, cut);
      assert g[34 + |ip.options| + 13] == l4[13] == flags;
    }
  }

  lemma UdpReads(ip: Ip, sport: nat, dport: nat, payload: Bytes, cut: nat)
    requires Fits(ip) && ip.proto == 17 && sport < 0x1_0000 && dport < 0x1_0000
    requires 34 <= cut <= |Frame(ip, Udp(sport, dport, payload))|
    ensures Evaluated(Arriving(ip, Udp(sport, dport, payload), cut))
    ensures Reading(Arriving(ip, Udp(sport, dport, payload), cut)) ==
            if Carried(ip, cut, 8) then IpFields(ip)["src_port" := Int(sport)]["dst_port" := Int(dport)] else IpFields(ip)
  {
    var l4 := Udp(sport, dport, payload);
    var f := HeaderReads(ip, l4, cut);
    if Carried(ip, cut, 8) {
      var rest := [ByteOf(8 + |payload|, 1), ByteOf(8 + |payload|, 0), 0, 0] + payload;
      assert l4 == Ports(sport, dport) + rest;
      PortsRead(ip, sport, dport, rest, cut);
    }
  }

  /** Any other protocol has no ports, whatever its bytes look like. */
  lemma OtherReads(ip: Ip, l4: Bytes, cut: nat)
    requires Fits(ip) && ip.proto != 6 && ip.proto != 17 && 34 <= cut <= |Frame(ip, l4)|
    ensures Evaluated(Arriving(ip, l4, cut)) && Reading(Arriving(ip, l4, cut)) == IpFields(ip)
  {
    var f := HeaderReads(ip, l4, cut);
  }

  /** What is not evaluated: a frame that ends in its fixed headers, is not IPv4, or gives a header length below twenty bytes. */
  lemma EvaluatedMeans(f: Bytes)
    ensures Evaluated(f) <==> |f| >= 34 && f[12] == 0x08 && f[13] == 0x00 && f[14] % 0x10 >= 5
  {
  }
}
