/**
 The two admission checkers of the in-kernel evaluator: the C loader's (prismpath-ebpf/ppt_image.c,
 check_evaluator_limits and parse_image_buf) and the tooling's, on bytes (prismpath-ebpf/ebpf_table_limits.py).
 */
module Admission {
  import opened Wrappers
  import opened Table
  import opened ByteRows
  import opened ImageCodec

  const MAX_ATOMS: nat := 1024
  const MAX_NODES: nat := 256
  const MAX_EDGES: nat := 1024
  const MAX_PROG_WORDS: nat := 4096
  const MAX_FIELDS_PER_PKT: nat := 32
  const MAX_EDGES_PER_NODE: nat := 64
  const MAX_PROG_PER_EDGE: nat := 64
  const STACK_MAX: nat := 4

  // ----- What may be admitted -----

  predicate NodeAdmissible(im: Image, n: Node) {
    n.edgeCnt <= MAX_EDGES_PER_NODE && EdgesInRange(im, n)
  }

  predicate EdgeAdmissible(im: Image, e: Edge) {
    e.progCnt <= MAX_PROG_PER_EDGE && WordsInRange(im, e) && WellStacked(Words(im, e), |im.atoms|, STACK_MAX)
  }

  predicate WithinLimits(im: Image) {
    && (forall i | 0 <= i < |im.nodes| :: NodeAdmissible(im, im.nodes[i]))
    && (forall i | 0 <= i < |im.edges| :: EdgeAdmissible(im, im.edges[i]))
  }

  predicate WithinCapacity(h: Header) {
    h.nAtoms <= MAX_ATOMS && h.nNodes <= MAX_NODES && h.nEdges <= MAX_EDGES && h.progLen <= MAX_PROG_WORDS
    && h.nFields <= MAX_FIELDS_PER_PKT
  }

  predicate Admissible(im: Image) {
    WithinCapacity(Declared(im)) && WithinLimits(im)
  }

  /**
   The stack check is exact: it accepts a program precisely when, whatever the atoms read, every operator has its
   operands, the stack never passes four and one result is left; and what it refuses fails on every reading.
   */
  lemma StackCheckIsExact(words: seq<nat>, nAtoms: nat)
    ensures WellStacked(words, nAtoms, STACK_MAX) <==>
            forall truth: seq<bool> | |truth| == nAtoms ::
              Exec(words, truth, [], STACK_MAX).Done? && |Exec(words, truth, [], STACK_MAX).value| == 1
    ensures !WellStacked(words, nAtoms, STACK_MAX) ==>
            forall truth: seq<bool> | |truth| == nAtoms ::
              !(Exec(words, truth, [], STACK_MAX).Done? && |Exec(words, truth, [], STACK_MAX).value| == 1)
  {
    forall truth: seq<bool> | |truth| == nAtoms
      ensures WellStacked(words, nAtoms, STACK_MAX) <==>
              Exec(words, truth, [], STACK_MAX).Done? && |Exec(words, truth, [], STACK_MAX).value| == 1
    {
      DepthIsExact(words, truth, [], STACK_MAX);
    }
    assert |seq(nAtoms, _ => false)| == nAtoms;
  }

  // ----- The stack walk both checkers run: no bound on the way, the peak checked at the end -----

  datatype Effect = Effect(depth: nat, peak: nat)

  /** `None` at an atom past the table, an operator without its operands, or an unknown opcode. */
  function EffectStep(at: Effect, w: nat, nAtoms: nat): Option<Effect> {
    if w < 0x8000 && w >= nAtoms then None
    else if w == OPC_NOT && at.depth < 1 then None
    else if (w == OPC_AND || w == OPC_OR) && at.depth < 2 then None
    else if w > OPC_FALSE then None
    else
      var depth := if w == OPC_NOT then at.depth else if w == OPC_AND || w == OPC_OR then at.depth - 1 else at.depth + 1;
      Some(Effect(depth, if depth > at.peak then depth else at.peak))
  }

  function EffectOf(words: seq<nat>, nAtoms: nat, at: Effect): Option<Effect> {
    if words == [] then Some(at)
    else
      match EffectStep(at, words[0], nAtoms)
      case Some(next) => EffectOf(words[1..], nAtoms, next)
      case None => None
  }

  lemma {:induction false} EffectPeakGrows(words: seq<nat>, nAtoms: nat, at: Effect)
    ensures EffectOf(words, nAtoms, at).Some? ==> EffectOf(words, nAtoms, at).value.peak >= at.peak
  {
    if words != [] && EffectStep(at, words[0], nAtoms).Some? {
      EffectPeakGrows(words[1..], nAtoms, EffectStep(at, words[0], nAtoms).value);
    }
  }

  /** Walking freely and checking the peak afterwards is walking under the bound. */
  lemma {:induction false} PeakDecides(words: seq<nat>, nAtoms: nat, at: Effect, limit: nat)
    requires at.depth <= at.peak <= limit
    ensures DepthAfter(words, nAtoms, at.depth, limit) ==
            match EffectOf(words, nAtoms, at)
            case Some(end) => if end.peak <= limit then Some(end.depth) else None
            case None => None
  {
    if words != [] {
      var next := EffectStep(at, words[0], nAtoms);
      if next.Some? {
        EffectPeakGrows(words[1..], nAtoms, next.value);
        if next.value.peak <= limit { PeakDecides(words[1..], nAtoms, next.value, limit); }
      }
    }
  }

  /** The C checker's walk over one edge program in the image. */
  method ProgramFits(im: Image, e: Edge) returns (ok: bool)
    requires WordsInRange(im, e)
    ensures ok == WellStacked(Words(im, e), |im.atoms|, STACK_MAX)
  {
    var depth, peak: nat := 0, 0;
    ghost var words := Words(im, e);
    PeakDecides(words, |im.atoms|, Effect(0, 0), STACK_MAX);
    for i := 0 to e.progCnt
      invariant EffectOf(words[i..], |im.atoms|, Effect(depth, peak)) == EffectOf(words, |im.atoms|, Effect(0, 0))
    {
      var word := im.prog[e.progOff + i];
      assert words[i..][0] == word && words[i..][1..] == words[i + 1..];
      if word < 0x8000 {
        if word >= |im.atoms| { return false; }
        depth := depth + 1;
      } else if word == OPC_TRUE || word == OPC_FALSE {
        depth := depth + 1;
      } else if word == OPC_NOT {
        if depth < 1 { return false; }
      } else if word == OPC_AND || word == OPC_OR {
        if depth < 2 { return false; }
        depth := depth - 1;
      } else {
        return false;
      }
      if depth > peak { peak := depth; }
    }
    ok := !(peak > STACK_MAX || depth != 1);
  }

  /** The C checker: stops at the first node or edge that breaks a bound. */
  method CheckEvaluatorLimits(im: Image) returns (ok: bool)
    ensures ok <==> WithinLimits(im)
  {
    for i := 0 to |im.nodes|
      invariant forall k | 0 <= k < i :: NodeAdmissible(im, im.nodes[k])
    {
      var n := im.nodes[i];
      if n.edgeCnt > MAX_EDGES_PER_NODE || n.edgeOff + n.edgeCnt > |im.edges| { return false; }
    }
    for i := 0 to |im.edges|
      invariant forall k | 0 <= k < i :: EdgeAdmissible(im, im.edges[k])
    {
      var e := im.edges[i];
      if e.progCnt > MAX_PROG_PER_EDGE || e.progOff + e.progCnt > |im.prog| { return false; }
      var fits := ProgramFits(im, e);
      if !fits { return false; }
    }
    ok := true;
  }

  // ----- The C loader: header, capacities, sections, limits, names -----

  const FLAG_NODE_ATTR: nat := 0x01
  const FLAG_NODE_NAMES: nat := 0x04

  predicate HasFlag(flags: nat, flag: nat)
    requires flag > 0
  {
    flags / flag % 2 == 1
  }

  /** A policy as the loader holds it: the table, the declared fail-safe, and the name hashes if it has them. */
  datatype Policy = Policy(im: Image, safe: nat, names: Option<seq<int>>)

  const NAME: Format := [U32]

  function NamesAt(h: Header): nat {
    HEADER_BYTES + SectionBytes(h) + (if HasFlag(h.flags, FLAG_NODE_ATTR) then 2 * h.nNodes else 0)
  }

  lemma NameSpan(n: nat)
    ensures Span(NAME, n) == 4 * n
  {
    assert RowWidth(NAME[1..]) == 0;
    SpanIsProduct(NAME, n);
  }

  function NamesOf(rows: seq<seq<int>>): seq<int> {
    seq(|rows|, i requires 0 <= i < |rows| => IntAt(rows[i], 0))
  }

  /** The table's sections are all there and the evaluator can run them. */
  predicate Runnable(b: Bytes) {
    && ReadHeader(b).Some?
    && |b| >= HEADER_BYTES + SectionBytes(ReadHeader(b).value)
    && WithinCapacity(ReadHeader(b).value)
    && WithinLimits(ReadSections(ReadHeader(b).value, b[HEADER_BYTES..]))
  }

  /** The name hashes a table declares: none, or `None` where the file ends before them. */
  function NamesIn(h: Header, b: Bytes): Option<Option<seq<int>>> {
    if !HasFlag(h.flags, FLAG_NODE_NAMES) then Some(None)
    else if |b| < NamesAt(h) + 4 * h.nNodes then None
    else
      NameSpan(h.nNodes);
      Some(Some(NamesOf(ReadRows(NAME, b[NamesAt(h)..], h.nNodes))))
  }

  /** The hashes are four bytes each, the low one first, after the sections and, where the table has them, the colours. */
  lemma NamesAreLaid(h: Header, b: Bytes, names: seq<int>, i: nat)
    requires NamesIn(h, b) == Some(Some(names)) && i < h.nNodes
    ensures |names| == h.nNodes
    ensures var at := 28 + 8 * h.nAtoms + 4 * h.nNodes + 6 * h.nEdges + 2 * h.progLen
                      + (if h.flags % 2 == 1 then 2 * h.nNodes else 0) + 4 * i;
            at + 4 <= |b| && names[i] == Little(b[at..at + 4])
  {
    NameSpan(h.nNodes);
    var c := b[NamesAt(h)..];
    NameIsRead(c, h.nNodes, i);
    ReadIsLittle(U32, c[4 * i..]);
    assert c[4 * i..][..4] == b[NamesAt(h) + 4 * i..NamesAt(h) + 4 * i + 4];
  }

  lemma {:induction false} NameIsRead(c: Bytes, n: nat, i: nat)
    requires Span(NAME, n) <= |c| && i < n
    ensures 4 * i + 4 <= |c| && ReadRows(NAME, c, n)[i] == [Read32(c[4 * i..])]
  {
    NameSpan(n);
    NameSpan(n - 1);
    assert NAME[0] == U32 && RowWidth(NAME[1..]) == 0 && ReadRow(NAME[1..], c[4..]) == [];
    if i > 0 {
      NameIsRead(c[4..], n - 1, i - 1);
      assert c[4..][4 * (i - 1)..] == c[4 * i..];
    } else {
      assert c[0..] == c;
    }
  }

  function PolicyOf(b: Bytes): Option<Policy> {
    match TableOf(b)
    case None => None
    case Some(im) =>
      match NamesIn(ReadHeader(b).value, b)
      case None => None
      case Some(names) => Some(Policy(im, ReadHeader(b).value.flags / 0x100, names))
  }

  function TableOf(b: Bytes): Option<Image> {
    if Runnable(b) then Some(ReadSections(ReadHeader(b).value, b[HEADER_BYTES..])) else None
  }

  method ParseImageBuf(b: Bytes) returns (r: Option<Policy>)
    ensures r == PolicyOf(b)
  {
    var header := LoadHeader(b);
    if header == None { return None; }
    var im := LoadTable(header.value, b);
    if im == None { return None; }
    var names := LoadNames(header.value, b);
    r := if names == None then None else Some(Policy(im.value, header.value.flags / 0x100, names.value));
  }

  method LoadTable(h: Header, b: Bytes) returns (r: Option<Image>)
    requires ReadHeader(b) == Some(h)
    ensures r == TableOf(b)
  {
    if |b| < HEADER_BYTES + SectionBytes(h) { return None; }
    if h.nAtoms > MAX_ATOMS || h.nNodes > MAX_NODES || h.nEdges > MAX_EDGES || h.progLen > MAX_PROG_WORDS
      || h.nFields > MAX_FIELDS_PER_PKT
    {
      return None;
    }
    assert WithinCapacity(h);
    var im := ReadAll(h, b[HEADER_BYTES..]);
    var fits := CheckEvaluatorLimits(im);
    r := if fits then Some(im) else None;
  }

  method LoadNames(h: Header, b: Bytes) returns (names: Option<Option<seq<int>>>)
    ensures names == NamesIn(h, b)
  {
    if !HasFlag(h.flags, FLAG_NODE_NAMES) { return Some(None); }
    var cursor := HEADER_BYTES + SectionBytes(h);
    if HasFlag(h.flags, FLAG_NODE_ATTR) { cursor := cursor + 2 * h.nNodes; }
    if |b| < cursor + 4 * h.nNodes { return None; }
    NameSpan(h.nNodes);
    var rows, left := ReadSection(NAME, b[cursor..], h.nNodes);
    names := Some(Some(NamesOf(rows)));
  }

  // ----- The tooling's checker: every reason, not just the first -----

  datatype Refusal =
    | ShortHeader | NotPpt | PastCapacity | ShortSections
    | PastEdgesPerNode(node: nat) | EdgesOutside(node: nat)
    | PastProgPerEdge(edge: nat) | ProgOutside(edge: nat) | UnknownAtom(edge: nat) | MissingOperand(edge: nat)
    | UnknownOpcode(edge: nat) | PastStack(edge: nat) | NotOneResult(edge: nat)

  method ProgramRefusals(edge: nat, words: seq<nat>, nAtoms: nat) returns (refusals: seq<Refusal>)
    ensures refusals == [] <==> WellStacked(words, nAtoms, STACK_MAX)
  {
    var depth, peak: nat := 0, 0;
    PeakDecides(words, nAtoms, Effect(0, 0), STACK_MAX);
    for i := 0 to |words|
      invariant EffectOf(words[i..], nAtoms, Effect(depth, peak)) == EffectOf(words, nAtoms, Effect(0, 0))
    {
      var word := words[i];
      assert words[i..][0] == word && words[i..][1..] == words[i + 1..];
      if word < 0x8000 {
        if word >= nAtoms { return [UnknownAtom(edge)]; }
        depth := depth + 1;
      } else if word == OPC_TRUE || word == OPC_FALSE {
        depth := depth + 1;
      } else if word == OPC_NOT {
        if depth < 1 { return [MissingOperand(edge)]; }
      } else if word == OPC_AND || word == OPC_OR {
        if depth < 2 { return [MissingOperand(edge)]; }
        depth := depth - 1;
      } else {
        return [UnknownOpcode(edge)];
      }
      peak := if depth > peak then depth else peak;
    }
    refusals := [];
    if peak > STACK_MAX { refusals := refusals + [PastStack(edge)]; }
    if depth != 1 { refusals := refusals + [NotOneResult(edge)]; }
  }

  method TableRefusals(b: Bytes) returns (refusals: seq<Refusal>)
    ensures refusals == [] <==> Runnable(b)
  {
    if |b| < HEADER_BYTES { return [ShortHeader]; }
    var header := LoadHeader(b);
    if header == None { return [NotPpt]; }
    var h := header.value;
    refusals := [];
    if h.nAtoms > MAX_ATOMS { refusals := refusals + [PastCapacity]; }
    if h.nNodes > MAX_NODES { refusals := refusals + [PastCapacity]; }
    if h.nEdges > MAX_EDGES { refusals := refusals + [PastCapacity]; }
    if h.progLen > MAX_PROG_WORDS { refusals := refusals + [PastCapacity]; }
    if h.nFields > MAX_FIELDS_PER_PKT { refusals := refusals + [PastCapacity]; }
    if |b| < HEADER_BYTES + SectionBytes(h) { return refusals + [ShortSections]; }
    var im := ReadAll(h, b[HEADER_BYTES..]);
    var limits := LimitRefusals(im);
    refusals := refusals + limits;
  }

  method LimitRefusals(im: Image) returns (refusals: seq<Refusal>)
    ensures refusals == [] <==> WithinLimits(im)
  {
    refusals := [];
    for i := 0 to |im.nodes|
      invariant refusals == [] <==> forall k | 0 <= k < i :: NodeAdmissible(im, im.nodes[k])
    {
      var n := im.nodes[i];
      if n.edgeCnt > MAX_EDGES_PER_NODE { refusals := refusals + [PastEdgesPerNode(i)]; }
      if n.edgeOff + n.edgeCnt > |im.edges| { refusals := refusals + [EdgesOutside(i)]; }
    }
    ghost var nodesFit := refusals == [];
    for i := 0 to |im.edges|
      invariant refusals == [] <==> nodesFit && forall k | 0 <= k < i :: EdgeAdmissible(im, im.edges[k])
    {
      var e := im.edges[i];
      if e.progCnt > MAX_PROG_PER_EDGE { refusals := refusals + [PastProgPerEdge(i)]; }
      if e.progOff + e.progCnt > |im.prog| {
        refusals := refusals + [ProgOutside(i)];
        continue;
      }
      var program := ProgramRefusals(i, Words(im, e), |im.atoms|);
      refusals := refusals + program;
    }
  }

  // ----- The two agree -----

  /**
   Exactly when the C loader takes a table the tooling has no refusal for: always, unless the table declares a
   names section and the file ends before it does. Without one declared the two accept the same tables. The agreement
   is in the contracts of the two checkers, `ParseImageBuf` and `TableRefusals`, proved against the one description of
   a runnable table; this puts them together.
   */
  lemma CheckersAgree(b: Bytes)
    ensures PolicyOf(b).Some? <==>
            Runnable(b) && (HasFlag(ReadHeader(b).value.flags, FLAG_NODE_NAMES) ==>
                              |b| >= NamesAt(ReadHeader(b).value) + 4 * ReadHeader(b).value.nNodes)
    ensures PolicyOf(b).Some? ==> Admissible(PolicyOf(b).value.im)
    ensures PolicyOf(b).Some? && PolicyOf(b).value.names.Some? ==>
              |PolicyOf(b).value.names.value| == |PolicyOf(b).value.im.nodes|
    ensures PolicyOf(b).Some? ==> PolicyOf(b).value.safe < 0x100 && PolicyOf(b).value.safe == PolicyOf(b).value.im.flags / 0x100
  {
    if PolicyOf(b).Some? {
      var h := ReadHeader(b).value;
      assert Declared(PolicyOf(b).value.im) == h;
      HeaderIsNarrow(b);
    }
  }

  /** A table that stops short of its declared names: the tooling passes it, the loader refuses it. */
  lemma TruncatedNamesDivide(im: Image, b: Bytes)
    requires HasFlag(im.flags, FLAG_NODE_NAMES) && !HasFlag(im.flags, FLAG_NODE_ATTR) && |im.nodes| > 0
    requires Admissible(im) && Serialize(im, []) == Some(b)
    ensures Runnable(b) && PolicyOf(b) == None
  {
    ReadBack(im, b);
  }

  lemma ReadBack(im: Image, b: Bytes)
    requires !HasColors(im.flags) && Serialize(im, []) == Some(b)
    ensures ReadHeader(b) == Some(Declared(im)) && |b| == HEADER_BYTES + SectionBytes(Declared(im))
    ensures ReadSections(Declared(im), b[HEADER_BYTES..]) == im
  {
    HeaderWritten(Declared(im), Sections(im, []));
    SectionsRoundTrip(im, []);
  }
}
