/**
 The embedded evaluator (prismpath-hw/ppt_eval.h): no allocation, the image stays the bytes it arrived as, and
 every failure is a return code. It decides what the reference interpreter decides on the parsed image.
 */
module ByteEval {
  import opened Wrappers
  import opened Table
  import opened Interp
  import opened ByteRows
  import opened ImageCodec
  import opened RowAccess

  const TBL_MAX: nat := 8192
  const PPT_MAX_FIELDS: nat := 128
  const STACK_MAX: nat := 256
  const REGS_MAX: nat := 4 + 8 * PPT_MAX_FIELDS

  const PARSE_OK := 0
  const PARSE_BAD_MAGIC := 1
  const PARSE_SHORT := 3
  const PARSE_CAPS := 4

  const EVAL_OK := 0
  const EVAL_STACK_OVERFLOW := 7
  const EVAL_BAD_OPCODE := 8

  function ParseCode(b: Bytes, len: nat): int
    requires |b| == TBL_MAX
  {
    if len < HEADER_BYTES then PARSE_SHORT
    else if ReadHeader(b) == None then PARSE_BAD_MAGIC
    else SizeCode(ReadHeader(b).value, len)
  }

  function SizeCode(h: Header, len: nat): int {
    if Needed(h) > TBL_MAX || h.nFields > PPT_MAX_FIELDS || h.maxStack > STACK_MAX then PARSE_CAPS
    else if Needed(h) > len || h.nNodes == 0 || h.start >= h.nNodes then PARSE_SHORT
    else PARSE_OK
  }

  /**
   Which images the firmware takes: exactly those the interpreter parses from the same bytes that fit its buffers
   and start at a node they have.
   */
  lemma FirmwareAccepts(b: Bytes, len: nat) returns (parsed: Option<Image>)
    requires |b| == TBL_MAX && len <= TBL_MAX
    ensures parsed == Parse(b[..len])
    ensures ParseCode(b, len) == PARSE_OK <==> parsed.Some? && FitsFirmware(parsed.value)
    ensures ParseCode(b, len) == PARSE_OK ==>
              |b[HEADER_BYTES..]| >= SectionBytes(ReadHeader(b).value)
              && parsed == Some(ReadSections(ReadHeader(b).value, b[HEADER_BYTES..]))
  {
    parsed := Parse(b[..len]);
    if len >= HEADER_BYTES {
      SameHeader(b, b[..len]);
      if ReadHeader(b).Some? {
        SameParse(b, b[..len]);
        CodeOfHeader(b, len);
      }
    }
  }

  lemma CodeOfHeader(b: Bytes, len: nat)
    requires |b| == TBL_MAX && HEADER_BYTES <= len <= TBL_MAX && ReadHeader(b).Some?
    ensures var h := ReadHeader(b).value;
            ParseCode(b, len) == PARSE_OK <==>
            Needed(h) <= len && h.start < h.nNodes && h.nFields <= PPT_MAX_FIELDS && h.maxStack <= STACK_MAX
    ensures ParseCode(b, len) == PARSE_OK ==> |b[HEADER_BYTES..]| >= SectionBytes(ReadHeader(b).value)
  {
  }

  lemma NoWrap(h: Header)
    requires Narrow(h)
    ensures var body := HEADER_BYTES + 8 * h.nAtoms + 4 * h.nNodes + 6 * h.nEdges + 2 * h.progLen;
            body % Interp.U32 == body && (body + 2 * h.nNodes) % Interp.U32 == body + 2 * h.nNodes
    ensures Needed(h) == HEADER_BYTES + 8 * h.nAtoms + 4 * h.nNodes + 6 * h.nEdges + 2 * h.progLen
                         + if HasColors(h.flags) then 2 * h.nNodes else 0
  {
  }

  predicate FitsFirmware(im: Image) {
    im.start < |im.nodes| && im.nFields <= PPT_MAX_FIELDS && im.maxStack <= STACK_MAX
  }

  /** Parsing a prefix reads the same sections, if they are all there. */
  lemma SameParse(b: Bytes, c: Bytes)
    requires c <= b && |c| >= HEADER_BYTES && ReadHeader(b).Some? && ReadHeader(b) == ReadHeader(c)
    ensures var h := ReadHeader(b).value;
            if |c| < Needed(h) then Parse(c) == None
            else Parse(c) == Some(ReadSections(h, b[HEADER_BYTES..])) && Declared(Parse(c).value) == h
  {
    var h := ReadHeader(b).value;
    if |c| >= Needed(h) { SameSections(h, b, c); }
  }

  lemma SameHeader(b: Bytes, c: Bytes)
    requires c <= b && |c| >= HEADER_BYTES
    ensures ReadHeader(b) == ReadHeader(c)
  {
    assert b[4..][0] == c[4..][0] && b[4..][1] == c[4..][1] && b[2..][0] == c[2..][0] && b[2..][1] == c[2..][1];
    Widths();
    SamePrefixRow(HEADER, b, c);
  }

  lemma {:induction false} SamePrefixRow(fmt: Format, b: Bytes, c: Bytes)
    requires c <= b && |c| >= RowWidth(fmt)
    ensures ReadRow(fmt, b) == ReadRow(fmt, c)
  {
    if fmt != [] {
      var w := Width(fmt[0]);
      assert w >= 2 ==> c[0] == b[0] && c[1] == b[1];
      assert w == 4 ==> b[2..][0] == c[2..][0] && b[2..][1] == c[2..][1];
      SamePrefixRow(fmt[1..], b[w..], c[w..]);
    }
  }

  lemma {:induction false} SamePrefixRows(fmt: Format, b: Bytes, c: Bytes, n: nat)
    requires c <= b && |c| >= Span(fmt, n)
    ensures ReadRows(fmt, b, n) == ReadRows(fmt, c, n)
    decreases n
  {
    if n > 0 {
      SamePrefixRow(fmt, b, c);
      SamePrefixRows(fmt, b[RowWidth(fmt)..], c[RowWidth(fmt)..], n - 1);
    }
  }

  lemma SameSections(h: Header, b: Bytes, c: Bytes)
    requires c <= b && |c| >= HEADER_BYTES + SectionBytes(h)
    ensures ReadSections(h, b[HEADER_BYTES..]) == ReadSections(h, c[HEADER_BYTES..])
  {
    Spans(h.nAtoms);
    Spans(h.nNodes);
    Spans(h.nEdges);
    Spans(h.progLen);
    var b0, c0 := b[HEADER_BYTES..], c[HEADER_BYTES..];
    assert c0 <= b0;
    var b1, c1 := b0[8 * h.nAtoms..], c0[8 * h.nAtoms..];
    assert c1 <= b1;
    var b2, c2 := b1[4 * h.nNodes..], c1[4 * h.nNodes..];
    assert c2 <= b2 && c2[6 * h.nEdges..] <= b2[6 * h.nEdges..];
    SamePrefixRows(ATOM, b0, c0, h.nAtoms);
    SamePrefixRows(NODE, b1, c1, h.nNodes);
    SamePrefixRows(EDGE, b2, c2, h.nEdges);
    SamePrefixRows(WORD, b2[6 * h.nEdges..], c2[6 * h.nEdges..], h.progLen);
  }

  // ----- The register file: a four byte prefix, then type and value of each field -----

  function RegAt(regs: Bytes, f: nat): Reg
    requires |regs| == REGS_MAX && f < PPT_MAX_FIELDS
  {
    Reg(Signed32(Word32(regs, 4 + 8 * f)), Signed32(Word32(regs, 8 + 8 * f)))
  }

  function RegsOf(regs: Bytes, nFields: nat): (r: seq<Reg>)
    requires |regs| == REGS_MAX && nFields <= PPT_MAX_FIELDS
    ensures |r| == nFields && forall f | 0 <= f < nFields :: r[f] == RegAt(regs, f)
  {
    seq(nFields, f requires 0 <= f < nFields => RegAt(regs, f))
  }

  /** The edge index as the int8 it is returned as. */
  function Int8(v: nat): int {
    if v % 0x100 >= 0x80 then v % 0x100 - 0x100 else v % 0x100
  }

  /** The narrow return loses nothing exactly for the first 128 edges of a node. */
  lemma Int8IsExact(v: nat)
    ensures Int8(v) == v <==> v < 0x80
  {
  }

  /** The verdict of one program, and the code of a program that fails. */
  predicate Reports(r: Run<bool>, holds: bool, err: int) {
    match r
    case Done(v) => holds == v && err == EVAL_OK
    case Overflow => !holds && err == EVAL_STACK_OVERFLOW
    case BadOpcode => !holds && err == EVAL_BAD_OPCODE
    case Undefined => false
  }

  /** What an evaluation returns: -1 for no edge and for an error; otherwise the edge index, narrowed, and its target. */
  datatype Report = Report(edge: int, target: nat, err: int)

  /** The scan of a node's edges, from `from` on, as codes. */
  function Scanned(im: Image, n: Node, truth: seq<bool>, from: nat): Report
    requires EdgesInRange(im, n) && from <= n.edgeCnt
    requires forall k | 0 <= k < |im.edges| :: WordsInRange(im, im.edges[k])
    decreases n.edgeCnt - from
  {
    if from == n.edgeCnt then Report(-1, 0, EVAL_OK)
    else
      var e := im.edges[n.edgeOff + from];
      match ExecVerdict(Words(im, e), truth, STACK_MAX)
      case Done(true) => Report(Int8(from), e.target, EVAL_OK)
      case Done(false) => Scanned(im, n, truth, from + 1)
      case Overflow => Report(-1, 0, EVAL_STACK_OVERFLOW)
      case _ => Report(-1, 0, EVAL_BAD_OPCODE)
  }

  /** What one edge's report says of the scan from that edge on. */
  lemma EdgeSettles(im: Image, n: Node, truth: seq<bool>, from: nat, matched: bool, code: int)
    requires EdgesInRange(im, n) && from < n.edgeCnt
    requires forall k | 0 <= k < |im.edges| :: WordsInRange(im, im.edges[k])
    requires Scan(im, n, truth, from, STACK_MAX) != Undefined
    requires Reports(ExecVerdict(Words(im, im.edges[n.edgeOff + from]), truth, STACK_MAX), matched, code)
    ensures if code != EVAL_OK then Scanned(im, n, truth, from) == Report(-1, 0, code)
            else if matched then Scanned(im, n, truth, from) == Report(Int8(from), im.edges[n.edgeOff + from].target, EVAL_OK)
            else Scan(im, n, truth, from + 1, STACK_MAX) != Undefined
                 && Scanned(im, n, truth, from) == Scanned(im, n, truth, from + 1)
  {
  }

  /** What the buffers hold once a table is parsed: its header, its bytes, the register file's, and the image they are. */
  datatype Resident = Resident(head: Header, table: Bytes, file: Bytes, im: Image)

  predicate Parsed(t: Resident) {
    |t.table| == TBL_MAX && |t.file| == REGS_MAX && t.im.nFields <= PPT_MAX_FIELDS && Laid(t.table, t.head, t.im)
  }

  /** Nothing an evaluation follows leads out of the table. */
  predicate Ranged(t: Resident) {
    Parsed(t) && FieldsInRange(t.im) && forall k | 0 <= k < |t.im.edges| :: WordsInRange(t.im, t.im.edges[k])
  }

  function TruthOf(t: Resident): seq<bool>
    requires Parsed(t)
  {
    AtomTruth(t.im.atoms, RegsOf(t.file, t.im.nFields))
  }

  class Firmware {
    const tbl: array<Byte>
    const regs: array<Byte>
    var head: Header
    var atomsOff: nat
    var nodesOff: nat
    var edgesOff: nat
    var progBase: nat

    constructor ()
      ensures fresh(tbl) && fresh(regs) && tbl.Length == TBL_MAX && regs.Length == REGS_MAX && tbl != regs
    {
      tbl, regs := new Byte[TBL_MAX](_ => 0), new Byte[REGS_MAX](_ => 0);
      head := Header(0, 0, 0, 0, 0, 0, 0, 0, 0, 0, 0);
      atomsOff, nodesOff, edgesOff, progBase := 0, 0, 0, 0;
    }

    /** The buffers and the offsets are those of the parsed table `t`. */
    ghost predicate Keeps(t: Resident)
      reads this, tbl, regs
    {
      tbl[..] == t.table && regs[..] == t.file && head == t.head && Placed()
    }

    method Rd16(buffer: array<Byte>, at: nat) returns (v: nat)
      requires at + 2 <= buffer.Length
      ensures v == Word16(buffer[..], at)
    {
      v := buffer[at] as nat + buffer[at + 1] as nat * 0x100;
    }

    method Rd32(buffer: array<Byte>, at: nat) returns (v: int)
      requires at + 4 <= buffer.Length
      ensures v == Signed32(Word32(buffer[..], at))
    {
      var low := Rd16(buffer, at);
      var high := Rd16(buffer, at + 2);
      v := Signed32(low + high * 0x1_0000);
    }

    /** No offset wraps in its sixteen bits: the whole table is within the buffer. */
    method ParseTable(len: nat) returns (rc: int, ghost t: Resident)
      requires tbl.Length == TBL_MAX && regs.Length == REGS_MAX && len <= 0xFFFF
      modifies `head, `atomsOff, `nodesOff, `edgesOff, `progBase
      ensures rc == ParseCode(tbl[..], len)
      ensures rc == PARSE_OK ==> ReadHeader(tbl[..]) == Some(head) && HEADER_BYTES + SectionBytes(head) <= TBL_MAX
      ensures rc == PARSE_OK ==> Keeps(t) && Parsed(t) && t.im == ReadSections(head, tbl[..][HEADER_BYTES..])
    {
      t := Resident(head, tbl[..], regs[..], Image(0, 0, [], [], [], [], 0, 0, 0, 0, 0));
      if len < HEADER_BYTES { return PARSE_SHORT, t; }
      var h := LoadHeader(tbl[..]);
      if h == None { return PARSE_BAD_MAGIC, t; }
      head := h.value;
      HeaderIsNarrow(tbl[..]);
      rc := CheckSizes(len);
      if rc != PARSE_OK { return; }
      SetOffsets();
      ghost var im := SectionsAreLaid(head, tbl[..]);
      t := Resident(head, tbl[..], regs[..], im);
    }

    ghost predicate Placed()
      reads this
    {
      atomsOff == HEADER_BYTES && nodesOff == NodeBase(head) && edgesOff == EdgeBase(head) && progBase == ProgBase(head)
    }

    method SetOffsets()
      requires HEADER_BYTES + SectionBytes(head) <= TBL_MAX
      modifies `atomsOff, `nodesOff, `edgesOff, `progBase
      ensures Placed()
    {
      atomsOff := HEADER_BYTES;
      nodesOff := (atomsOff + 8 * head.nAtoms) % 0x1_0000;
      edgesOff := (nodesOff + 4 * head.nNodes) % 0x1_0000;
      progBase := (edgesOff + 6 * head.nEdges) % 0x1_0000;
    }

    method CheckSizes(len: nat) returns (rc: int)
      requires Narrow(head)
      ensures rc == SizeCode(head, len)
    {
      NoWrap(head);
      var need := (HEADER_BYTES + 8 * head.nAtoms + 4 * head.nNodes + 6 * head.nEdges + 2 * head.progLen) % Interp.U32;
      if HasColors(head.flags) { need := (need + 2 * head.nNodes) % Interp.U32; }
      if need > TBL_MAX || head.nFields > PPT_MAX_FIELDS || head.maxStack > STACK_MAX { return PARSE_CAPS; }
      if need > len { return PARSE_SHORT; }
      rc := if head.nNodes == 0 || head.start >= head.nNodes then PARSE_SHORT else PARSE_OK;
    }

    method EvalAtom(ix: nat, ghost t: Resident) returns (holds: bool)
      requires Keeps(t) && Parsed(t) && ix < |t.im.atoms| && t.im.atoms[ix].field < t.im.nFields
      ensures holds == AtomHolds(t.im.atoms[ix], RegAt(t.file, t.im.atoms[ix].field))
    {
      var at := atomsOff + 8 * ix;
      assert AtomLaid(t.table, at, t.im.atoms[ix]);
      var field := Rd16(tbl, at);
      var op, ty := tbl[at + 2], tbl[at + 3];
      var val := Rd32(tbl, at + 4);
      var rty := Rd32(regs, 4 + 8 * field);
      var rval := Rd32(regs, 8 + 8 * field);
      holds := AtomHolds(Atom(field, op, ty, val), Reg(rty, rval));
    }

    /** The operand stack is an array of 256; both its failures are codes. */
    method EvalProg(off: nat, cnt: nat, ghost e: Edge, ghost t: Resident) returns (holds: bool, err: int)
      requires Keeps(t) && Ranged(t) && WordsInRange(t.im, e) && off == e.progOff && cnt == e.progCnt
      requires ExecVerdict(Words(t.im, e), TruthOf(t), STACK_MAX) != Undefined
      ensures Reports(ExecVerdict(Words(t.im, e), TruthOf(t), STACK_MAX), holds, err)
    {
      var stack := new bool[STACK_MAX](_ => false);
      var r := RunWords(stack, off, cnt, Words(t.im, e), t);
      match r {
        case Done(sp) => holds, err := sp > 0 && stack[0], EVAL_OK;
        case Overflow => holds, err := false, EVAL_STACK_OVERFLOW;
        case BadOpcode => holds, err := false, EVAL_BAD_OPCODE;
      }
    }

    method RunWords(stack: array<bool>, off: nat, cnt: nat, ghost words: seq<nat>, ghost t: Resident) returns (r: Run<nat>)
      requires Keeps(t) && Ranged(t) && |words| == cnt && off + cnt <= |t.im.prog|
      requires forall i | 0 <= i < cnt :: words[i] == t.im.prog[off + i]
      requires Exec(words, TruthOf(t), [], stack.Length) != Undefined
      modifies stack
      ensures Reaches(stack, r, Exec(words, TruthOf(t), [], stack.Length))
    {
      var sp: nat := 0;
      ghost var truth, st: seq<bool> := TruthOf(t), [];
      ghost var whole := Exec(words, truth, st, stack.Length);
      for i := 0 to cnt
        invariant Interp.Holds(stack, sp, st) && Keeps(t)
        invariant Exec(words[i..], truth, st, stack.Length) == whole
      {
        ghost var next := Step(st, words[i], truth, stack.Length);
        ExecUnfolds(words, i, truth, st, stack.Length);
        r := StepProg(stack, sp, off + i, st, next, t);
        if !r.Done? { return; }
        sp, st := r.value, next.value;
      }
      r := Done(sp);
    }

    /** Where a run has come to, on the stack and as a code. */
    ghost predicate Reaches(stack: array<bool>, r: Run<nat>, run: Run<seq<bool>>)
      reads stack
    {
      match run
      case Done(st) => r.Done? && Interp.Holds(stack, r.value, st)
      case Overflow => r == Overflow
      case BadOpcode => r == BadOpcode
      case Undefined => false
    }

    method StepProg(stack: array<bool>, sp: nat, k: nat, ghost st: seq<bool>, ghost next: Run<seq<bool>>, ghost t: Resident)
      returns (r: Run<nat>)
      requires Keeps(t) && Ranged(t) && k < |t.im.prog| && Interp.Holds(stack, sp, st)
      requires next == Step(st, t.im.prog[k], TruthOf(t), stack.Length) && next != Undefined
      modifies stack
      ensures Keeps(t) && Reaches(stack, r, next)
    {
      var word, value := FetchValue(k, t);
      r := ExecWord(stack, sp, word, value, st, TruthOf(t));
    }

    /** The next word and, if it names an atom, the atom's truth. */
    method FetchValue(k: nat, ghost t: Resident) returns (word: nat, value: bool)
      requires Keeps(t) && Ranged(t) && k < |t.im.prog|
      requires t.im.prog[k] < 0x8000 ==> t.im.prog[k] < |t.im.atoms|
      ensures word == t.im.prog[k] && (word < 0x8000 ==> value == TruthOf(t)[word])
    {
      assert WordLaid(t.table, progBase + 2 * k, t.im.prog[k]);
      word := Rd16(tbl, progBase + 2 * k);
      value := false;
      if word < 0x8000 { value := EvalAtom(word, t); }
    }

    method FetchNode(k: nat, ghost t: Resident) returns (n: Node)
      requires Keeps(t) && Parsed(t) && k < |t.im.nodes|
      ensures n == t.im.nodes[k]
    {
      var at := nodesOff + 4 * k;
      assert NodeLaid(t.table, at, t.im.nodes[k]);
      var off := Rd16(tbl, at);
      var cnt := Rd16(tbl, at + 2);
      n := Node(off, cnt);
    }

    method FetchEdge(k: nat, ghost t: Resident) returns (e: Edge)
      requires Keeps(t) && Parsed(t) && k < |t.im.edges|
      ensures e == t.im.edges[k]
    {
      var at := edgesOff + 6 * k;
      assert EdgeLaid(t.table, at, t.im.edges[k]);
      var target := Rd16(tbl, at);
      var off := Rd16(tbl, at + 2);
      var cnt := Rd16(tbl, at + 4);
      e := Edge(target, off, cnt);
    }

    method Evaluate(node: nat, ghost t: Resident) returns (r: Report)
      requires Keeps(t) && Ranged(t) && node < |t.im.nodes| && EdgesInRange(t.im, t.im.nodes[node])
      requires Scan(t.im, t.im.nodes[node], TruthOf(t), 0, STACK_MAX) != Undefined
      ensures r == Scanned(t.im, t.im.nodes[node], TruthOf(t), 0)
    {
      var n := FetchNode(node, t);
      r := ScanEdges(n, t);
    }

    /** The priority encoder: the first edge whose program is true wins. */
    method ScanEdges(n: Node, ghost t: Resident) returns (r: Report)
      requires Keeps(t) && Ranged(t) && EdgesInRange(t.im, n)
      requires Scan(t.im, n, TruthOf(t), 0, STACK_MAX) != Undefined
      ensures r == Scanned(t.im, n, TruthOf(t), 0)
    {
      ghost var truth := TruthOf(t);
      ghost var whole := Scanned(t.im, n, truth, 0);
      for i := 0 to n.edgeCnt
        invariant Scan(t.im, n, truth, i, STACK_MAX) != Undefined && Scanned(t.im, n, truth, i) == whole
      {
        var target, matched, code := EvalEdge(n.edgeOff + i, t);
        EdgeSettles(t.im, n, truth, i, matched, code);
        if code != EVAL_OK { return Report(-1, 0, code); }
        if matched { return Report(Int8(i), target, EVAL_OK); }
      }
      r := Report(-1, 0, EVAL_OK);
    }

    method EvalEdge(k: nat, ghost t: Resident) returns (target: nat, matched: bool, code: int)
      requires Keeps(t) && Ranged(t) && k < |t.im.edges|
      requires ExecVerdict(Words(t.im, t.im.edges[k]), TruthOf(t), STACK_MAX) != Undefined
      ensures target == t.im.edges[k].target
      ensures Reports(ExecVerdict(Words(t.im, t.im.edges[k]), TruthOf(t), STACK_MAX), matched, code)
    {
      var e := FetchEdge(k, t);
      target := e.target;
      matched, code := EvalProg(e.progOff, e.progCnt, e, t);
    }

    /** From the bytes to the decision: a table the interpreter reads, decided at a node as the interpreter decides. */
    method Route(len: nat, node: nat) returns (rc: int, r: Report)
      requires tbl.Length == TBL_MAX && regs.Length == REGS_MAX && len <= TBL_MAX
      requires Parse(tbl[..len]).Some? ==> Routable(Parse(tbl[..len]).value, node)
      modifies `head, `atomsOff, `nodesOff, `edgesOff, `progBase
      ensures rc == ParseCode(tbl[..], len)
      ensures rc == PARSE_OK ==>
                var im := Parse(tbl[..len]);
                && im.Some? && im.value.nFields <= PPT_MAX_FIELDS
                && Decided(r, Decide(im.value, node, RegsOf(regs[..], im.value.nFields), INTERP_STACK))
    {
      r := Report(-1, 0, EVAL_OK);
      ghost var t;
      rc, t := ParseTable(len);
      if rc == PARSE_OK {
        assert tbl[..][..len] == tbl[..len];
        ghost var parsed := FirmwareAccepts(tbl[..], len);
        RoutableIsRanged(t, node);
        r := Evaluate(node, t);
      }
    }
  }

  lemma RoutableIsRanged(t: Resident, node: nat)
    requires Parsed(t) && Routable(t.im, node)
    ensures Ranged(t) && EdgesInRange(t.im, t.im.nodes[node])
    ensures Scan(t.im, t.im.nodes[node], TruthOf(t), 0, STACK_MAX) != Undefined
    ensures Decided(Scanned(t.im, t.im.nodes[node], TruthOf(t), 0),
                    Decide(t.im, node, RegsOf(t.file, t.im.nFields), INTERP_STACK))
  {
    EmbeddedDecides(t.im, node, RegsOf(t.file, t.im.nFields));
  }

  predicate Routable(im: Image, node: nat) {
    Sound(im) && node < |im.nodes| && ProgramsRun(im, INTERP_STACK)
  }

  /** The report is the decision, its edge as far as eight bits hold it. */
  predicate Decided(r: Report, m: Match) {
    match m
    case NoMatch => r == Report(-1, 0, EVAL_OK)
    case Match(i, target) => r == Report(Int8(i), target, EVAL_OK) && (r.edge == i <==> i < 0x80)
  }

  predicate FieldsInRange(im: Image) {
    forall i | 0 <= i < |im.atoms| :: im.atoms[i].field < im.nFields
  }

  /**
   On a sound table whose programs run in the interpreter's stack, the embedded scan raises no error and takes the
   reference's edge and target; the narrow return is that edge exactly when it is among the node's first 128.
   */
  lemma EmbeddedDecides(im: Image, node: nat, regs: seq<Reg>)
    requires Routable(im, node)
    ensures Scan(im, im.nodes[node], AtomTruth(im.atoms, regs), 0, STACK_MAX).Done?
    ensures Decided(Scanned(im, im.nodes[node], AtomTruth(im.atoms, regs), 0), Decide(im, node, regs, INTERP_STACK))
  {
    MoreRoom(im);
    DecideMonotone(im, node, regs, INTERP_STACK, STACK_MAX);
    ScannedDecides(im, node, regs);
  }

  function Reported(im: Image, n: Node, found: Option<nat>): Report
    requires EdgesInRange(im, n) && (found.Some? ==> found.value < n.edgeCnt)
  {
    match found
    case None => Report(-1, 0, EVAL_OK)
    case Some(i) => Report(Int8(i), im.edges[n.edgeOff + i].target, EVAL_OK)
  }

  lemma {:induction false} ScannedIsScan(im: Image, n: Node, truth: seq<bool>, from: nat)
    requires EdgesInRange(im, n) && from <= n.edgeCnt
    requires forall k | 0 <= k < |im.edges| :: WordsInRange(im, im.edges[k])
    requires Scan(im, n, truth, from, STACK_MAX).Done?
    ensures Scanned(im, n, truth, from) == Reported(im, n, Scan(im, n, truth, from, STACK_MAX).value)
    decreases n.edgeCnt - from
  {
    if from < n.edgeCnt {
      var verdict := ExecVerdict(Words(im, im.edges[n.edgeOff + from]), truth, STACK_MAX);
      if verdict == Done(false) { ScannedIsScan(im, n, truth, from + 1); }
    }
  }

  lemma ScannedDecides(im: Image, node: nat, regs: seq<Reg>)
    requires node < |im.nodes| && EdgesInRange(im, im.nodes[node]) && ProgramsRun(im, STACK_MAX)
    ensures Scan(im, im.nodes[node], AtomTruth(im.atoms, regs), 0, STACK_MAX).Done?
    ensures Decided(Scanned(im, im.nodes[node], AtomTruth(im.atoms, regs), 0), Decide(im, node, regs, STACK_MAX))
  {
    var n, truth := im.nodes[node], AtomTruth(im.atoms, regs);
    var found := FirstFiring(im, n, truth, 0, STACK_MAX);
    assert Scan(im, n, truth, 0, STACK_MAX) == Done(found) by { ScanFindsFirst(im, n, truth, 0, STACK_MAX); }
    assert Scanned(im, n, truth, 0) == Reported(im, n, found) by { ScannedIsScan(im, n, truth, 0); }
  }

  lemma MoreRoom(im: Image)
    requires ProgramsRun(im, INTERP_STACK)
    ensures ProgramsRun(im, STACK_MAX)
  {
    forall i | 0 <= i < |im.edges|
      ensures WordsInRange(im, im.edges[i]) && WellStacked(Words(im, im.edges[i]), |im.atoms|, STACK_MAX)
    {
      RoomEnough(Words(im, im.edges[i]), |im.atoms|, 0, INTERP_STACK, STACK_MAX);
    }
  }

  lemma {:induction false} RoomEnough(words: seq<nat>, nAtoms: nat, depth: nat, limit: nat, limit': nat)
    requires DepthAfter(words, nAtoms, depth, limit).Some? && limit <= limit'
    ensures DepthAfter(words, nAtoms, depth, limit') == DepthAfter(words, nAtoms, depth, limit)
  {
    if words != [] { RoomEnough(words[1..], nAtoms, DepthStep(depth, words[0], nAtoms, limit).value, limit, limit'); }
  }
}
