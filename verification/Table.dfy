/**
 The PPT v1 table: its rows, its opcodes, and what one edge program means.
 A program folds the truth of atoms (field-against-constant tests) on an operand stack.
 */
module Table {
  import opened Wrappers

  const TY_NONE := 0
  const TY_BOOL := 1
  const TY_INT := 2
  const TY_STR := 3

  const OP_EQ := 0
  const OP_NE := 1
  const OP_LT := 2
  const OP_LE := 3
  const OP_GT := 4
  const OP_GE := 5
  const OP_TRUTHY := 6

  const OPC_NOT: nat := 0x8000
  const OPC_AND: nat := 0x8001
  const OPC_OR: nat := 0x8002
  const OPC_TRUE: nat := 0x8003
  const OPC_FALSE: nat := 0x8004

  const PPT_MAGIC: nat := 0x4D545050
  const VISITS_NONE: nat := 0xFFFF
  /** The operand stack of the reference interpreter. */
  const INTERP_STACK: nat := 64

  datatype Atom = Atom(field: nat, op: nat, ty: nat, val: int)
  datatype Node = Node(edgeOff: nat, edgeCnt: nat)
  datatype Edge = Edge(target: nat, progOff: nat, progCnt: nat)
  datatype Reg = Reg(ty: int, val: int)

  const ABSENT := Reg(TY_NONE, 0)

  datatype Image = Image(
    nFields: nat, nInterns: nat,
    atoms: seq<Atom>, nodes: seq<Node>, edges: seq<Edge>, prog: seq<nat>,
    start: nat, visitsIdx: nat, maxSteps: nat, maxStack: nat, flags: nat)

  // ----- Atoms -----

  predicate Numeric(ty: int) {
    ty == TY_BOOL || ty == TY_INT
  }

  /** Total: an unordered pair is unsatisfied, an unknown operator false. */
  predicate AtomHolds(a: Atom, reg: Reg) {
    var bothNumeric := Numeric(reg.ty) && Numeric(a.ty);
    var equal :=
      if bothNumeric || (reg.ty == TY_STR && a.ty == TY_STR) then reg.val == a.val
      else reg.ty == TY_NONE && a.ty == TY_NONE;
    if a.op == OP_EQ then equal
    else if a.op == OP_NE then !equal
    else if a.op == OP_LT then bothNumeric && reg.val < a.val
    else if a.op == OP_LE then bothNumeric && reg.val <= a.val
    else if a.op == OP_GT then bothNumeric && reg.val > a.val
    else if a.op == OP_GE then bothNumeric && reg.val >= a.val
    else if a.op == OP_TRUTHY then reg.ty != TY_NONE && reg.val != 0
    else false
  }

  predicate HoldsBy(op: nat, a: Atom, reg: Reg) {
    AtomHolds(a.(op := op), reg)
  }

  /** Numbers compare, strings and absence can be equal; `!=` is the rest of `==`, and no operator past the last holds. */
  lemma AtomLaws(a: Atom, reg: Reg)
    ensures HoldsBy(OP_EQ, a, reg) <==>
            || (((Numeric(reg.ty) && Numeric(a.ty)) || reg.ty == a.ty == TY_STR) && reg.val == a.val)
            || reg.ty == a.ty == TY_NONE
    ensures HoldsBy(OP_NE, a, reg) <==> !HoldsBy(OP_EQ, a, reg)
    ensures HoldsBy(OP_LT, a, reg) <==> Numeric(reg.ty) && Numeric(a.ty) && reg.val - a.val < 0
    ensures HoldsBy(OP_GT, a, reg) <==> Numeric(reg.ty) && Numeric(a.ty) && reg.val - a.val > 0
    ensures HoldsBy(OP_LE, a, reg) <==> HoldsBy(OP_LT, a, reg) || (Numeric(reg.ty) && HoldsBy(OP_EQ, a, reg))
    ensures HoldsBy(OP_GE, a, reg) <==> HoldsBy(OP_GT, a, reg) || (Numeric(reg.ty) && HoldsBy(OP_EQ, a, reg))
    ensures HoldsBy(OP_TRUTHY, a, reg) <==> reg.ty != TY_NONE && reg.val != 0
    ensures a.op > OP_TRUTHY ==> !AtomHolds(a, reg)
  {
  }

  function ReadReg(regs: seq<Reg>, field: nat): Reg {
    if field < |regs| then regs[field] else ABSENT
  }

  /** Every atom against one register file, as the fabric computes them: all in parallel. */
  function AtomTruth(atoms: seq<Atom>, regs: seq<Reg>): (truth: seq<bool>)
    ensures |truth| == |atoms|
    ensures forall i | 0 <= i < |atoms| :: truth[i] == AtomHolds(atoms[i], ReadReg(regs, atoms[i].field))
  {
    seq(|atoms|, i requires 0 <= i < |atoms| => AtomHolds(atoms[i], ReadReg(regs, atoms[i].field)))
  }

  // ----- Programs -----

  /**
   How a program ends. `Undefined` is what the C source leaves to chance: an operator without its
   operands, or an atom index past the table.
   */
  datatype Run<+T> = Done(value: T) | Overflow | BadOpcode | Undefined

  function Step(st: seq<bool>, w: nat, truth: seq<bool>, limit: nat): Run<seq<bool>> {
    var n := |st|;
    if w < 0x8000 then
      if w >= |truth| then Undefined else if n >= limit then Overflow else Done(st + [truth[w]])
    else if w == OPC_NOT then
      if n < 1 then Undefined else Done(st[..n - 1] + [!st[n - 1]])
    else if w == OPC_AND then
      if n < 2 then Undefined else Done(st[..n - 2] + [st[n - 2] && st[n - 1]])
    else if w == OPC_OR then
      if n < 2 then Undefined else Done(st[..n - 2] + [st[n - 2] || st[n - 1]])
    else if w == OPC_TRUE || w == OPC_FALSE then
      if n >= limit then Overflow else Done(st + [w == OPC_TRUE])
    else BadOpcode
  }

  function Exec(words: seq<nat>, truth: seq<bool>, st: seq<bool>, limit: nat): Run<seq<bool>> {
    if words == [] then Done(st)
    else
      match Step(st, words[0], truth, limit)
      case Done(st') => Exec(words[1..], truth, st', limit)
      case stop => stop
  }

  /** The verdict is the bottom of the stack; an empty stack is false. */
  function ExecVerdict(words: seq<nat>, truth: seq<bool>, limit: nat): Run<bool> {
    match Exec(words, truth, [], limit)
    case Done(st) => Done(st != [] && st[0])
    case Overflow => Overflow
    case BadOpcode => BadOpcode
    case Undefined => Undefined
  }

  lemma {:induction false} ExecAppend(a: seq<nat>, b: seq<nat>, truth: seq<bool>, st: seq<bool>, limit: nat)
    ensures Exec(a + b, truth, st, limit) ==
            match Exec(a, truth, st, limit)
            case Done(st') => Exec(b, truth, st', limit)
            case stop => stop
  {
    if a == [] {
      assert a + b == b;
    } else {
      assert (a + b)[0] == a[0] && (a + b)[1..] == a[1..] + b;
      match Step(st, a[0], truth, limit)
      case Done(st') => ExecAppend(a[1..], b, truth, st', limit);
      case _ =>
    }
  }

  /** A run that never reaches below where it starts runs alike over any value lying there. */
  lemma {:induction false} RunsOver(words: seq<nat>, truth: seq<bool>, x: bool, st: seq<bool>, limit: nat)
    requires Exec(words, truth, st, limit).Done?
    ensures Exec(words, truth, [x] + st, limit + 1) == Done([x] + Exec(words, truth, st, limit).value)
  {
    if words != [] {
      var st' := Step(st, words[0], truth, limit).value;
      StepsOver(words[0], truth, x, st, limit);
      RunsOver(words[1..], truth, x, st', limit);
    }
  }

  lemma StepsOver(w: nat, truth: seq<bool>, x: bool, st: seq<bool>, limit: nat)
    requires Step(st, w, truth, limit).Done?
    ensures Step([x] + st, w, truth, limit + 1) == Done([x] + Step(st, w, truth, limit).value)
  {
    var below, n := [x] + st, |st|;
    if n >= 1 { assert below[..n] == [x] + st[..n - 1] && below[n] == st[n - 1]; }
    if n >= 2 { assert below[..n - 1] == [x] + st[..n - 2] && below[n - 1] == st[n - 2]; }
    var top := Step(st, w, truth, limit).value;
    Reassociates([x], top[..|top| - 1], [top[|top| - 1]]);
    assert top == top[..|top| - 1] + [top[|top| - 1]];
    assert st == top[..|top| - 1] || (n >= 1 && st[..n - 1] == top[..|top| - 1]) || (n >= 2 && st[..n - 2] == top[..|top| - 1]);
  }

  /** So a program that leaves one value has the verdict, whatever complete program comes after it. */
  lemma FirstValueDecides(a: seq<nat>, b: seq<nat>, truth: seq<bool>, v: bool, limit: nat)
    requires Exec(a, truth, [], limit + 1) == Done([v]) && Exec(b, truth, [], limit).Done?
    ensures ExecVerdict(a + b, truth, limit + 1) == Done(v)
  {
    ExecAppend(a, b, truth, [], limit + 1);
    RunsOver(b, truth, v, [], limit);
    assert [v] + [] == [v];
  }

  // ----- The static stack discipline -----

  /** The depth after one word, on every truth vector alike. */
  function DepthStep(depth: nat, w: nat, nAtoms: nat, limit: nat): Option<nat> {
    if w < 0x8000 then
      if w < nAtoms && depth < limit then Some(depth + 1) else None
    else if w == OPC_NOT then
      if depth < 1 then None else Some(depth)
    else if w == OPC_AND || w == OPC_OR then
      if depth < 2 then None else Some(depth - 1)
    else if w == OPC_TRUE || w == OPC_FALSE then
      if depth < limit then Some(depth + 1) else None
    else None
  }

  function DepthAfter(words: seq<nat>, nAtoms: nat, depth: nat, limit: nat): Option<nat> {
    if words == [] then Some(depth)
    else
      match DepthStep(depth, words[0], nAtoms, limit)
      case Some(d) => DepthAfter(words[1..], nAtoms, d, limit)
      case None => None
  }

  /** The stack effect computed without any reading is the one every reading has. */
  lemma {:induction false} DepthIsExact(words: seq<nat>, truth: seq<bool>, st: seq<bool>, limit: nat)
    ensures Exec(words, truth, st, limit).Done? == DepthAfter(words, |truth|, |st|, limit).Some?
    ensures Exec(words, truth, st, limit).Done? ==>
              |Exec(words, truth, st, limit).value| == DepthAfter(words, |truth|, |st|, limit).value
  {
    if words != [] {
      match Step(st, words[0], truth, limit)
      case Done(st') => DepthIsExact(words[1..], truth, st', limit);
      case _ =>
    }
  }

  /** More stack and more atoms change nothing for a program that runs. */
  lemma {:induction false} ExecMonotone(words: seq<nat>, truth: seq<bool>, truth': seq<bool>, st: seq<bool>,
                                        limit: nat, limit': nat)
    requires Exec(words, truth, st, limit).Done? && truth <= truth' && limit <= limit'
    ensures Exec(words, truth', st, limit') == Exec(words, truth, st, limit)
  {
    if words != [] {
      ExecMonotone(words[1..], truth, truth', Step(st, words[0], truth, limit).value, limit, limit');
    }
  }

  // ----- Images -----

  predicate EdgesInRange(im: Image, n: Node) {
    n.edgeOff + n.edgeCnt <= |im.edges|
  }

  predicate WordsInRange(im: Image, e: Edge) {
    e.progOff + e.progCnt <= |im.prog|
  }

  function Words(im: Image, e: Edge): seq<nat>
    requires WordsInRange(im, e)
  {
    im.prog[e.progOff..e.progOff + e.progCnt]
  }

  /** Every row range is inside its table; what the compiler guarantees and the parsers only partly check. */
  predicate Sound(im: Image) {
    && (forall i | 0 <= i < |im.nodes| :: EdgesInRange(im, im.nodes[i]))
    && (forall i | 0 <= i < |im.edges| :: WordsInRange(im, im.edges[i]) && im.edges[i].target < |im.nodes|)
    && (forall i | 0 <= i < |im.atoms| :: im.atoms[i].field < im.nFields)
    && im.start < |im.nodes|
    && (im.visitsIdx == VISITS_NONE || im.visitsIdx < im.nFields)
  }

  predicate WellStacked(words: seq<nat>, nAtoms: nat, limit: nat) {
    DepthAfter(words, nAtoms, 0, limit) == Some(1)
  }

  predicate ProgramsRun(im: Image, limit: nat) {
    forall i | 0 <= i < |im.edges| ::
      WordsInRange(im, im.edges[i]) && WellStacked(Words(im, im.edges[i]), |im.atoms|, limit)
  }

  /** Does this edge's program come out true. Only a program that runs can. */
  predicate EdgeFires(im: Image, e: Edge, truth: seq<bool>, limit: nat) {
    WordsInRange(im, e) && ExecVerdict(Words(im, e), truth, limit) == Done(true)
  }

  predicate FiresAt(im: Image, n: Node, j: nat, truth: seq<bool>, limit: nat)
    requires EdgesInRange(im, n) && j < n.edgeCnt
  {
    EdgeFires(im, im.edges[n.edgeOff + j], truth, limit)
  }

  /** The priority encoder: the first of the edges from `from` on that fires, by its index in the node. */
  function FirstFiring(im: Image, n: Node, truth: seq<bool>, from: nat, limit: nat): (r: Option<nat>)
    requires EdgesInRange(im, n) && from <= n.edgeCnt
    ensures r.Some? ==> from <= r.value < n.edgeCnt && FiresAt(im, n, r.value, truth, limit)
    ensures forall j | from <= j < (if r.Some? then r.value else n.edgeCnt) :: !FiresAt(im, n, j, truth, limit)
    decreases n.edgeCnt - from
  {
    if from == n.edgeCnt then None
    else if FiresAt(im, n, from, truth, limit) then Some(from)
    else FirstFiring(im, n, truth, from + 1, limit)
  }

  /** Which edge the node takes on this register file, and where it leads. */
  datatype Match = NoMatch | Match(edge: nat, target: nat)

  function Decide(im: Image, node: nat, regs: seq<Reg>, limit: nat): Match
    requires node < |im.nodes| && EdgesInRange(im, im.nodes[node])
  {
    var n := im.nodes[node];
    match FirstFiring(im, n, AtomTruth(im.atoms, regs), 0, limit)
    case None => NoMatch
    case Some(i) => Match(i, im.edges[n.edgeOff + i].target)
  }

  /** The same encoder as the loop runs it, stopping at the first program that fails. */
  function Scan(im: Image, n: Node, truth: seq<bool>, from: nat, limit: nat): (r: Run<Option<nat>>)
    requires EdgesInRange(im, n) && from <= n.edgeCnt
    requires forall k | n.edgeOff <= k < n.edgeOff + n.edgeCnt :: WordsInRange(im, im.edges[k])
    ensures r.Done? && r.value.Some? ==> r.value.value < n.edgeCnt
    decreases n.edgeCnt - from
  {
    if from == n.edgeCnt then Done(None)
    else
      match ExecVerdict(Words(im, im.edges[n.edgeOff + from]), truth, limit)
      case Done(true) => Done(Some(from))
      case Done(false) => Scan(im, n, truth, from + 1, limit)
      case Overflow => Overflow
      case BadOpcode => BadOpcode
      case Undefined => Undefined
  }

  /** On a table whose programs run, the scan never fails and finds the first firing edge. */
  lemma {:induction false} ScanFindsFirst(im: Image, n: Node, truth: seq<bool>, from: nat, limit: nat)
    requires EdgesInRange(im, n) && from <= n.edgeCnt
    requires ProgramsRun(im, limit) && |truth| == |im.atoms|
    ensures Scan(im, n, truth, from, limit) == Done(FirstFiring(im, n, truth, from, limit))
    decreases n.edgeCnt - from
  {
    if from < n.edgeCnt {
      var e := im.edges[n.edgeOff + from];
      DepthIsExact(Words(im, e), truth, [], limit);
      ScanFindsFirst(im, n, truth, from + 1, limit);
    }
  }

  /** What one operand stack can hold, a deeper one can: the substrates agree wherever the smallest runs. */
  lemma DecideMonotone(im: Image, node: nat, regs: seq<Reg>, limit: nat, limit': nat)
    requires node < |im.nodes| && EdgesInRange(im, im.nodes[node])
    requires ProgramsRun(im, limit) && limit <= limit'
    ensures Decide(im, node, regs, limit) == Decide(im, node, regs, limit')
  {
    var n, truth := im.nodes[node], AtomTruth(im.atoms, regs);
    forall j: nat | j < n.edgeCnt ensures FiresAt(im, n, j, truth, limit) == FiresAt(im, n, j, truth, limit') {
      EdgeFiresMonotone(im, im.edges[n.edgeOff + j], truth, limit, limit');
    }
    FirstFiringAgrees(im, n, truth, im, n, truth, 0, limit, limit');
  }

  lemma EdgeFiresMonotone(im: Image, e: Edge, truth: seq<bool>, limit: nat, limit': nat)
    requires WordsInRange(im, e) && WellStacked(Words(im, e), |truth|, limit) && limit <= limit'
    ensures EdgeFires(im, e, truth, limit) == EdgeFires(im, e, truth, limit')
  {
    DepthIsExact(Words(im, e), truth, [], limit);
    ExecMonotone(Words(im, e), truth, truth, [], limit, limit');
  }

  /** Two nodes whose edges fire alike, place by place, have the same first firing edge. */
  lemma {:induction false} FirstFiringAgrees(im: Image, n: Node, truth: seq<bool>, im': Image, n': Node, truth': seq<bool>,
                                             from: nat, limit: nat, limit': nat)
    requires EdgesInRange(im, n) && EdgesInRange(im', n') && n.edgeCnt == n'.edgeCnt && from <= n.edgeCnt
    requires forall j | from <= j < n.edgeCnt :: FiresAt(im, n, j, truth, limit) == FiresAt(im', n', j, truth', limit')
    ensures FirstFiring(im, n, truth, from, limit) == FirstFiring(im', n', truth', from, limit')
    decreases n.edgeCnt - from
  {
    if from < n.edgeCnt {
      FirstFiringAgrees(im, n, truth, im', n', truth', from + 1, limit, limit');
    }
  }
}
