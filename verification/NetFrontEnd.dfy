/**
 The packet front end (prismpath-ebpf/ppt_net.bpf.c) against its independent specification, the canonical reading of
 a frame (prismpath-ebpf/net_cert.py), with what the compiler must refuse for them to agree
 (prismpath-ebpf/net_compile.py). Header layouts are in section 3.1 of RFC 791 and section 3.1 of RFC 9293.
 */
module NetFrontEnd {
  import opened Wrappers
  import opened Values
  import opened Predicates
  import opened Conditions
  import opened Table
  import opened ByteRows
  import opened Compiler
  import opened CompilerCorrectness
  import opened Flatten
  import opened KernelEval
  import Admission
  import Engine
  import FlowCompiler
  import FlowStability
  import FlowRefinement

  const ETH_P_IP: nat := 0x0800
  const TCP: nat := 6
  const UDP: nat := 17
  const NET_FIELDS: nat := 8
  const SLOTS: nat := 32
  const TWO_32: nat := 0x1_0000_0000

  const SCHEMA: seq<string> := ["src_ip", "dst_ip", "src_port", "dst_port", "protocol", "pkt_len", "tcp_flags", "ttl"]

  // ----- The frame -----

  function Be16(b: Bytes, at: nat): (v: nat)
    requires at + 2 <= |b|
    ensures v < 0x1_0000
  {
    b[at] as nat * 0x100 + b[at + 1] as nat
  }

  function Be32(b: Bytes, at: nat): (v: nat)
    requires at + 4 <= |b|
    ensures v < TWO_32
  {
    Be16(b, at) * 0x1_0000 + Be16(b, at + 2)
  }

  function HeaderBytes(f: Bytes): nat
    requires |f| >= 34
  {
    f[14] as nat % 16 * 4
  }

  /** The frames the program evaluates: IPv4, the fixed header whole, its length field at least that. */
  predicate Evaluated(f: Bytes) {
    |f| >= 34 && Be16(f, 12) == ETH_P_IP && HeaderBytes(f) >= 20
  }

  predicate FirstFragment(f: Bytes)
    requires |f| >= 34
  {
    Be16(f, 20) % 0x2000 == 0
  }

  predicate HasTcp(f: Bytes)
    requires |f| >= 34
  {
    FirstFragment(f) && f[23] as nat == TCP && 14 + HeaderBytes(f) + 20 <= |f|
  }

  predicate HasPorts(f: Bytes)
    requires |f| >= 34
  {
    HasTcp(f) || (FirstFragment(f) && f[23] as nat == UDP && 14 + HeaderBytes(f) + 8 <= |f|)
  }

  // ----- The canonical reading: fields present only when carried, addresses unsigned -----

  function Reading(f: Bytes): Context
    requires |f| >= 34
  {
    var l4 := 14 + HeaderBytes(f);
    var fixed := map["src_ip" := Int(Be32(f, 26)), "dst_ip" := Int(Be32(f, 30)), "protocol" := Int(f[23] as int),
                     "pkt_len" := Int(Be16(f, 16)), "ttl" := Int(f[22] as int)];
    if HasTcp(f) then
      fixed["src_port" := Int(Be16(f, l4))]["dst_port" := Int(Be16(f, l4 + 2))]["tcp_flags" := Int(f[l4 + 13] as int)]
    else if HasPorts(f) then fixed["src_port" := Int(Be16(f, l4))]["dst_port" := Int(Be16(f, l4 + 2))]
    else fixed
  }

  // ----- The registers the kernel fills -----

  /** A 32-bit pattern as the signed register reads it. */
  function Signed(v: nat): int {
    if v >= 0x8000_0000 then v - TWO_32 else v
  }

  function Slot(f: Bytes, k: nat): Reg
    requires |f| >= 34
  {
    var l4 := 14 + HeaderBytes(f);
    if k == 0 then Reg(TY_INT, Signed(Be32(f, 26)))
    else if k == 1 then Reg(TY_INT, Signed(Be32(f, 30)))
    else if k == 2 && HasPorts(f) then Reg(TY_INT, Be16(f, l4))
    else if k == 3 && HasPorts(f) then Reg(TY_INT, Be16(f, l4 + 2))
    else if k == 4 then Reg(TY_INT, f[23] as int)
    else if k == 5 then Reg(TY_INT, Be16(f, 16))
    else if k == 6 && HasTcp(f) then Reg(TY_INT, f[l4 + 13] as int)
    else if k == 7 then Reg(TY_INT, f[22] as int)
    else ABSENT
  }

  function Registers(f: Bytes): (regs: RegFile)
    requires |f| >= 34
    ensures forall k | 0 <= k < SLOTS :: regs[k] == Slot(f, k)
  {
    seq(SLOTS, k requires 0 <= k < SLOTS => Slot(f, k))
  }

  /** Clears every slot, then writes each field the packet carries; nothing for a frame that is passed unread. */
  method FillRegisters(f: Bytes) returns (regs: Option<RegFile>)
    ensures regs == if Evaluated(f) then Some(Registers(f)) else None
  {
    if |f| < 14 { return None; }
    if Be16(f, 12) != ETH_P_IP { return None; }
    if |f| < 34 { return None; }
    var ihl := f[14] as nat % 16 * 4;
    if ihl < 20 { return None; }
    var sport, dport, flags, havePorts, haveFlags := ReadTransport(f);
    var file := new Reg[SLOTS](_ => ABSENT);
    file[0] := Reg(TY_INT, Signed(Be32(f, 26)));
    file[1] := Reg(TY_INT, Signed(Be32(f, 30)));
    if havePorts {
      file[2] := Reg(TY_INT, sport);
      file[3] := Reg(TY_INT, dport);
    }
    file[4] := Reg(TY_INT, f[23] as int);
    file[5] := Reg(TY_INT, Be16(f, 16));
    if haveFlags { file[6] := Reg(TY_INT, flags); }
    file[7] := Reg(TY_INT, f[22] as int);
    assert forall k | 8 <= k < SLOTS :: file[k] == ABSENT;
    forall k | 0 <= k < SLOTS ensures file[..][k] == Slot(f, k) { }
    assert file[..] == Registers(f);
    regs := Some(file[..]);
  }

  /** Only the first fragment of a TCP or UDP packet with its whole header in the frame has ports. */
  method ReadTransport(f: Bytes) returns (sport: int, dport: int, flags: int, havePorts: bool, haveFlags: bool)
    requires |f| >= 34
    ensures havePorts == HasPorts(f) && haveFlags == HasTcp(f)
    ensures havePorts ==> sport == Be16(f, 14 + HeaderBytes(f)) && dport == Be16(f, 16 + HeaderBytes(f))
    ensures haveFlags ==> flags == f[27 + HeaderBytes(f)] as int
  {
    sport, dport, flags, havePorts, haveFlags := 0, 0, 0, false, false;
    var first := Be16(f, 20) % 0x2000 == 0;
    var l4 := 14 + f[14] as nat % 16 * 4;
    if first && f[23] as nat == TCP {
      if l4 + 20 <= |f| {
        sport, dport, flags := Be16(f, l4), Be16(f, l4 + 2), f[l4 + 13] as int;
        havePorts, haveFlags := true, true;
      }
    } else if first && f[23] as nat == UDP {
      if l4 + 8 <= |f| {
        sport, dport := Be16(f, l4), Be16(f, l4 + 2);
        havePorts := true;
      }
    }
  }

  /** The same registers with the addresses as the numbers they are. */
  function Unsigned(f: Bytes): (regs: seq<Reg>)
    requires |f| >= 34
    ensures |regs| == NET_FIELDS && regs[0] == Reg(TY_INT, Be32(f, 26)) && regs[1] == Reg(TY_INT, Be32(f, 30))
    ensures forall k | 2 <= k < NET_FIELDS :: regs[k] == Slot(f, k)
  {
    [Reg(TY_INT, Be32(f, 26)), Reg(TY_INT, Be32(f, 30))]
    + seq(NET_FIELDS - 2, k requires 0 <= k < NET_FIELDS - 2 => Slot(f, k + 2))
  }

  // ----- What the compiler refuses -----

  predicate IsAddress(fields: map<string, nat>, slot: nat) {
    ("src_ip" in fields && fields["src_ip"] == slot) || ("dst_ip" in fields && fields["dst_ip"] == slot)
  }

  predicate IsOrdering(op: nat) {
    op == OP_LT || op == OP_LE || op == OP_GT || op == OP_GE
  }

  /** What the compiler lets pass: on an address, no ordering and no negative integer. */
  predicate Faithful(fields: map<string, nat>, a: Atom) {
    IsAddress(fields, a.field) ==> !IsOrdering(a.op) && !(a.ty == TY_INT && a.val < 0)
  }

  datatype Refusal = OrderingOnAddress(atom: nat) | NegativeAddress(atom: nat)

  method AddressRefusals(fields: map<string, nat>, atoms: seq<Atom>) returns (refusals: seq<Refusal>)
    ensures refusals == [] <==> forall i | 0 <= i < |atoms| :: Faithful(fields, atoms[i])
  {
    refusals := [];
    for i := 0 to |atoms|
      invariant refusals == [] <==> forall k | 0 <= k < i :: Faithful(fields, atoms[k])
    {
      var a := atoms[i];
      if !IsAddress(fields, a.field) { continue; }
      if IsOrdering(a.op) {
        refusals := refusals + [OrderingOnAddress(i)];
      } else if a.ty == TY_INT && a.val < 0 {
        refusals := refusals + [NegativeAddress(i)];
      }
    }
  }

  /** The tables a packet policy is compiled from: the schema's fields numbered beforehand, in order. */
  function Seeded(): Tables {
    Tables(FlowCompiler.Index(SCHEMA), map["" := 0], [], map[])
  }

  lemma SchemaIsDistinct()
    ensures FlowCompiler.Distinct(SCHEMA)
  {
    assert SCHEMA[0] == "src_ip" && SCHEMA[1] == "dst_ip" && SCHEMA[2] == "src_port" && SCHEMA[3] == "dst_port";
    assert SCHEMA[4] == "protocol" && SCHEMA[5] == "pkt_len" && SCHEMA[6] == "tcp_flags" && SCHEMA[7] == "ttl";
    forall i, j | 0 <= i < j < |SCHEMA| ensures SCHEMA[i] != SCHEMA[j] {
      if |SCHEMA[i]| == |SCHEMA[j]| { assert SCHEMA[i][0] != SCHEMA[j][0]; }
    }
  }

  lemma {:induction false} IndexSize(names: seq<string>)
    requires FlowCompiler.Distinct(names)
    ensures |FlowCompiler.Index(names)| == |names|
  {
    if names != [] {
      IndexSize(names[..|names| - 1]);
      assert names[|names| - 1] !in names[..|names| - 1];
    }
  }

  lemma SeededIsValid()
    ensures Valid(Seeded())
  {
    SchemaIsDistinct();
    IndexSize(SCHEMA);
  }

  /** Slot `k` of the registers is field `k` of the schema. */
  lemma SchemaSlot(k: nat)
    requires k < |SCHEMA|
    ensures SCHEMA[k] in Seeded().fields && Seeded().fields[SCHEMA[k]] == k
  {
    SchemaIsDistinct();
    FlowCompiler.IndexFinds(SCHEMA, k);
  }

  /** The signed register and the address itself satisfy the atom alike. */
  predicate AddressAlike(a: Atom, address: nat) {
    AtomHolds(a, Reg(TY_INT, Signed(address))) == AtomHolds(a, Reg(TY_INT, address))
  }

  ghost predicate EveryAddressAlike(a: Atom) {
    forall address: nat | address < TWO_32 :: AddressAlike(a, address)
  }

  /** A constant that is no number, an equality with no negative one, or `<` or `>=` with the least integer. */
  predicate SignBlind(a: Atom) {
    || !Numeric(a.ty)
    || (if a.op == OP_EQ || a.op == OP_NE then a.val >= 0
        else if a.op == OP_LT || a.op == OP_GE then a.val == I32_MIN
        else !IsOrdering(a.op))
  }

  /** The front end decides an atom rightly on every address exactly when the atom does not see the sign. */
  lemma FaithfulIsExact(a: Atom)
    requires CellFits(a)
    ensures EveryAddressAlike(a) <==> SignBlind(a)
  {
    if SignBlind(a) {
      forall address: nat | address < TWO_32 ensures AddressAlike(a, address) { BlindDecides(a, address); }
    } else if a.op == OP_EQ || a.op == OP_NE {
      assert !AddressAlike(a, (a.val + TWO_32) as nat);
    } else {
      assert !AddressAlike(a, 0x8000_0000);
    }
  }

  lemma BlindDecides(a: Atom, address: nat)
    requires address < TWO_32 && CellFits(a) && SignBlind(a)
    ensures AddressAlike(a, address)
  {
  }

  /**
   What is not refused is decided rightly; what is refused although it would be is an ordering against no number or
   against the least integer, or a negative constant the operator never reads.
   */
  lemma RefusalMargin(fields: map<string, nat>, a: Atom)
    requires CellFits(a) && IsAddress(fields, a.field)
    ensures Faithful(fields, a) ==> EveryAddressAlike(a)
    ensures !Faithful(fields, a) && EveryAddressAlike(a) <==>
            || (IsOrdering(a.op) && (!Numeric(a.ty) || ((a.op == OP_LT || a.op == OP_GE) && a.val == I32_MIN)))
            || (!IsOrdering(a.op) && a.op != OP_EQ && a.op != OP_NE && a.ty == TY_INT && a.val < 0)
  {
    FaithfulIsExact(a);
  }

  // ----- The two readings decide alike -----

  lemma AtomsAgree(fields: map<string, nat>, atoms: seq<Atom>, f: Bytes)
    requires |f| >= 34 && (forall i | 0 <= i < |atoms| :: Faithful(fields, atoms[i]) && CellFits(atoms[i]))
    requires "src_ip" in fields && fields["src_ip"] == 0 && "dst_ip" in fields && fields["dst_ip"] == 1
    ensures AtomTruth(atoms, Visible(Registers(f), NET_FIELDS)) == AtomTruth(atoms, Unsigned(f))
  {
    var regs := Visible(Registers(f), NET_FIELDS);
    forall i | 0 <= i < |atoms|
      ensures AtomHolds(atoms[i], ReadReg(regs, atoms[i].field)) == AtomHolds(atoms[i], ReadReg(Unsigned(f), atoms[i].field))
    {
      var a := atoms[i];
      assert Faithful(fields, a) && CellFits(a);
      if a.field == 0 { BlindDecides(a, Be32(f, 26)); }
      else if a.field == 1 { BlindDecides(a, Be32(f, 30)); }
    }
  }

  /** Deciding over the kernel's signed registers is deciding over the unsigned canonical reading. */
  lemma SignedDecidesUnsigned(im: Image, fields: map<string, nat>, f: Bytes, node: nat, limit: nat)
    requires |f| >= 34 && (forall i | 0 <= i < |im.atoms| :: Faithful(fields, im.atoms[i]) && CellFits(im.atoms[i]))
    requires "src_ip" in fields && fields["src_ip"] == 0 && "dst_ip" in fields && fields["dst_ip"] == 1
    requires node < |im.nodes| && EdgesInRange(im, im.nodes[node])
    ensures Decide(im, node, Visible(Registers(f), NET_FIELDS), limit) == Decide(im, node, Unsigned(f), limit)
  {
    AtomsAgree(fields, im.atoms, f);
  }

  /** The unsigned registers are the reading, field by field: what the frame does not carry is absent in both. */
  lemma UnsignedReads(f: Bytes, intern: map<string, nat>, visits: nat)
    requires |f| >= 34
    ensures Reads(Seeded().fields, intern, Engine.RoutingContext(Reading(f), visits), Unsigned(f))
  {
    var ctx := Engine.RoutingContext(Reading(f), visits);
    forall name | name in Seeded().fields
      ensures Represents(intern, Lookup(ctx, name), ReadReg(Unsigned(f), Seeded().fields[name]))
    {
      FieldReads(f, intern, visits, name);
    }
  }

  lemma FieldReads(f: Bytes, intern: map<string, nat>, visits: nat, name: string)
    requires |f| >= 34 && name in Seeded().fields
    ensures Represents(intern, Lookup(Engine.RoutingContext(Reading(f), visits), name),
                       ReadReg(Unsigned(f), Seeded().fields[name]))
  {
    var k := Seeded().fields[name];
    assert SCHEMA[k] == name && name != "visits" by { NotVisits(k); }
    assert Lookup(Engine.RoutingContext(Reading(f), visits), name) == Lookup(Reading(f), name);
    if k < 4 { LowSlotReads(f, intern, k); } else { HighSlotReads(f, intern, k); }
  }

  lemma NotVisits(k: nat)
    requires k < |SCHEMA|
    ensures SCHEMA[k] != "visits"
  {
    assert |"visits"| == 6 && "visits"[0] == 'v';
    assert SCHEMA[0][0] == 's' && SCHEMA[1][0] == 'd';
  }

  /** Addresses and ports. */
  lemma LowSlotReads(f: Bytes, intern: map<string, nat>, k: nat)
    requires |f| >= 34 && k < 4
    ensures Represents(intern, Lookup(Reading(f), SCHEMA[k]), Unsigned(f)[k])
  {
  }

  /** Protocol, length, flags and time to live. */
  lemma HighSlotReads(f: Bytes, intern: map<string, nat>, k: nat)
    requires |f| >= 34 && 4 <= k < 8
    ensures Represents(intern, Lookup(Reading(f), SCHEMA[k]), Unsigned(f)[k])
  {
  }

  // ----- From the frame to the engine's first hop -----

  /** The flow as the packet compiler makes it: the schema's slots taken first. */
  function NetFlow(g: Engine.Graph, reach: set<string>): Result<FlowCompiler.Flow, SubsetError>
    requires FlowCompiler.WellFormed(g)
  {
    FlowCompiler.FlowFrom(g, FlowCompiler.NamesOf(g, reach), Seeded())
  }

  lemma SlotsStay(g: Engine.Graph, reach: set<string>)
    requires FlowCompiler.WellFormed(g) && NetFlow(g, reach).Success?
    ensures FlowStability.CompiledFrom(g, NetFlow(g, reach).value)
    ensures Includes(Seeded().fields, NetFlow(g, reach).value.tables.fields)
  {
    var names := FlowCompiler.NamesOf(g, reach);
    SeededIsValid();
    FlowStability.FlowFromIsCompiled(g, names, Seeded());
    FlowStability.NodesGrow(g, names, FlowCompiler.Index(names), Seeded(), []);
  }

  /** The image of a packet policy, as the loader admits it: no field past the schema, no refusal, within the limits. */
  predicate Loadable(f: FlowCompiler.Flow, im: Image) {
    && f.tables.fields.Keys == Seeded().fields.Keys && |f.tables.atoms| <= 0x8000
    && im.atoms == f.tables.atoms && Flattens(im, f.nodes) && Admission.WithinLimits(im)
    && forall i | 0 <= i < |im.atoms| :: Faithful(f.tables.fields, im.atoms[i])
  }

  /** What the host engine takes at a node for this reading, as the branch target the table has for it. */
  function HostHop(g: Engine.Graph, f: FlowCompiler.Flow, i: nat, frame: Bytes): Option<string>
    requires |frame| >= 34 && i < |f.names| && f.names[i] in g.nodes
  {
    Engine.FirstTarget(g.nodes[f.names[i]], Engine.RoutingContext(Reading(frame), 1), false)
  }

  lemma NetEnvironment(g: Engine.Graph, f: FlowCompiler.Flow, frame: Bytes)
    requires FlowStability.CompiledFrom(g, f) && |frame| >= 34 && |f.tables.atoms| <= 0x8000
    requires Includes(Seeded().fields, f.tables.fields) && f.tables.fields.Keys == Seeded().fields.Keys
    ensures Environment(f.tables, f.tables.intern, Engine.RoutingContext(Reading(frame), 1), Unsigned(frame))
  {
    UnsignedReads(frame, f.tables.intern, 1);
    SameFieldsRead(f.tables, Seeded().fields, Engine.RoutingContext(Reading(frame), 1), Unsigned(frame));
  }

  lemma SameFieldsRead(t: Tables, fields: map<string, nat>, ctx: Context, regs: seq<Reg>)
    requires Valid(t) && |t.atoms| <= 0x8000 && Includes(fields, t.fields) && t.fields.Keys == fields.Keys
    requires Reads(fields, t.intern, ctx, regs)
    ensures Environment(t, t.intern, ctx, regs)
  {
    forall f | f in t.fields ensures Represents(t.intern, Lookup(ctx, f), ReadReg(regs, t.fields[f])) {
      assert f in fields && t.fields[f] == fields[f];
    }
  }

  lemma AddressSlots(fields: map<string, nat>)
    requires Includes(Seeded().fields, fields)
    ensures "src_ip" in fields && fields["src_ip"] == 0 && "dst_ip" in fields && fields["dst_ip"] == 1
  {
    SchemaSlot(0);
    SchemaSlot(1);
  }

  lemma NodeRuns(g: Engine.Graph, f: FlowCompiler.Flow, im: Image, i: nat)
    requires Loadable(f, im) && i < |f.nodes|
    ensures forall j | 0 <= j < |f.nodes[i]| :: WellStacked(f.nodes[i][j].prog, |im.atoms|, INTERP_STACK)
  {
    forall j | 0 <= j < |f.nodes[i]| ensures WellStacked(f.nodes[i][j].prog, |im.atoms|, INTERP_STACK) {
      FlatEdge(im, f.nodes, i, j);
      assert Admission.EdgeAdmissible(im, im.edges[im.nodes[i].edgeOff + j]);
      MoreRoom(f.nodes[i][j].prog, |im.atoms|, 0);
    }
  }

  lemma {:induction false} MoreRoom(words: seq<nat>, nAtoms: nat, depth: nat)
    requires DepthAfter(words, nAtoms, depth, Admission.STACK_MAX).Some?
    ensures DepthAfter(words, nAtoms, depth, INTERP_STACK) == DepthAfter(words, nAtoms, depth, Admission.STACK_MAX)
  {
    if words != [] { MoreRoom(words[1..], nAtoms, DepthStep(depth, words[0], nAtoms, Admission.STACK_MAX).value); }
  }

  /** The table decides an unsigned reading as the host engine routes it. */
  lemma UnsignedDecidesHop(g: Engine.Graph, f: FlowCompiler.Flow, im: Image, i: nat, frame: Bytes)
    requires FlowStability.CompiledFrom(g, f) && Loadable(f, im) && i < |f.names| && |frame| >= 34
    requires Includes(Seeded().fields, f.tables.fields) && FlowRefinement.AllEvaluable(g.nodes[f.names[i]])
    ensures i < |im.nodes| && EdgesInRange(im, im.nodes[i])
    ensures match HostHop(g, f, i, frame)
            case None => Decide(im, i, Unsigned(frame), INTERP_STACK) == NoMatch
            case Some(target) =>
              var m := Decide(im, i, Unsigned(frame), INTERP_STACK);
              m.Match? && target in FlowCompiler.Index(f.names) && m.target == FlowCompiler.Index(f.names)[target]
  {
    var edges, idx := g.nodes[f.names[i]], FlowCompiler.Index(f.names);
    var ctx := Engine.RoutingContext(Reading(frame), 1);
    assert FlowStability.NodeCompiled(f.tables, edges, idx, f.nodes[i]);
    NetEnvironment(g, f, frame);
    NodeRuns(g, f, im, i);
    FlowRefinement.EdgesAgree(f.tables, edges, idx, f.tables.intern, ctx, Unsigned(frame));
    FlatDecides(im, f.nodes, i, Unsigned(frame), INTERP_STACK);
    var truth := AtomTruth(im.atoms, Unsigned(frame));
    FlowRefinement.TakenIsFirstTrue(f.nodes[i], truth, 0);
    assert f.nodes[i][0..] == f.nodes[i];
  }

  /**
   The front end is faithful. For every frame it evaluates and every table with no refusal that the loader admits,
   the kernel's evaluation of the registers it builds goes where the host engine goes on the canonical reading.
   */
  lemma KernelTakesHostHop(g: Engine.Graph, f: FlowCompiler.Flow, im: Image, bank: Bank, i: nat, frame: Bytes)
    requires FlowStability.CompiledFrom(g, f) && Loadable(f, im) && Loaded(bank, im) && i < |f.names|
    requires Includes(Seeded().fields, f.tables.fields) && FlowRefinement.AllEvaluable(g.nodes[f.names[i]])
    requires Evaluated(frame)
    ensures match HostHop(g, f, i, frame)
            case None => KEvaluate(bank, Registers(frame), NET_FIELDS, i) == NoMatch
            case Some(target) =>
              var m := KEvaluate(bank, Registers(frame), NET_FIELDS, i);
              m.Match? && target in FlowCompiler.Index(f.names) && m.target == FlowCompiler.Index(f.names)[target]
  {
    UnsignedDecidesHop(g, f, im, i, frame);
    ClampingIsLossless(bank, im, Registers(frame), NET_FIELDS, i, INTERP_STACK);
    AtomsFit(g, f, im);
    AddressSlots(f.tables.fields);
    SignedDecidesUnsigned(im, f.tables.fields, frame, i, INTERP_STACK);
  }

  lemma AtomsFit(g: Engine.Graph, f: FlowCompiler.Flow, im: Image)
    requires FlowStability.CompiledFrom(g, f) && Loadable(f, im)
    ensures forall k | 0 <= k < |im.atoms| :: Faithful(f.tables.fields, im.atoms[k]) && CellFits(im.atoms[k])
  {
  }
}
