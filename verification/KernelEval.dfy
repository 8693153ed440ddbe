/**
 The in-kernel evaluator (prismpath-ebpf/ppt_eval_bpf.h): masked indices, loops bounded at 64, a stack of four
 that drops what does not fit. On every admitted table, whatever else its maps still hold, it loses nothing.
 */
module KernelEval {
  import opened Wrappers
  import opened Table
  import opened ImageCodec
  import opened Admission

  /** One bank of the four table maps: every row there is, used or left over. */
  datatype Bank = Bank(atoms: seq<Atom>, nodes: seq<Node>, edges: seq<Edge>, prog: seq<nat>)

  predicate Full(b: Bank) {
    |b.atoms| == MAX_ATOMS && |b.nodes| == MAX_NODES && |b.edges| == MAX_EDGES && |b.prog| == MAX_PROG_WORDS
  }

  /** The bank holds the image in its first rows; the rest may be anything. */
  predicate Loaded(b: Bank, im: Image) {
    Full(b) && im.atoms <= b.atoms && im.nodes <= b.nodes && im.edges <= b.edges && im.prog <= b.prog
  }

  /** The per-CPU register file has a fixed number of slots. */
  type RegFile = r: seq<Reg> | |r| == MAX_FIELDS_PER_PKT witness seq(MAX_FIELDS_PER_PKT, _ => ABSENT)

  function KReg(regs: RegFile, field: nat, nFields: nat): Reg {
    if field < MAX_FIELDS_PER_PKT && field < nFields then regs[field % MAX_FIELDS_PER_PKT] else ABSENT
  }

  function Clamped(a: nat, bound: nat): nat {
    if a > bound then bound else a
  }

  // ----- What the callbacks compute -----

  predicate KAtom(b: Bank, w: nat, regs: RegFile, nFields: nat)
    requires Full(b)
  {
    var a := b.atoms[w % MAX_ATOMS];
    AtomHolds(a, KReg(regs, a.field, nFields))
  }

  function Push(st: seq<bool>, v: bool): seq<bool> {
    if |st| < STACK_MAX then st + [v] else st
  }

  /** One word: an operator without its operands, and a word that is no opcode, do nothing. */
  function KWord(st: seq<bool>, w: nat, value: bool): (st': seq<bool>)
    requires |st| <= STACK_MAX
    ensures |st'| <= STACK_MAX
  {
    var n := |st|;
    if w < 0x8000 then Push(st, value)
    else if w == OPC_NOT then if n >= 1 then st[..n - 1] + [!st[n - 1]] else st
    else if w == OPC_AND then if n >= 2 then st[..n - 2] + [st[n - 2] && st[n - 1]] else st
    else if w == OPC_OR then if n >= 2 then st[..n - 2] + [st[n - 2] || st[n - 1]] else st
    else if w == OPC_TRUE || w == OPC_FALSE then Push(st, w == OPC_TRUE)
    else st
  }

  /** A row of a map of `size` rows, at a masked index. */
  function At<T>(rows: seq<T>, off: nat, i: nat, size: nat): T
    requires |rows| == size > 0
  {
    rows[(off + i) % size]
  }

  /** The words a program's lookups read, masked one by one. */
  function KFetched(b: Bank, off: nat, cnt: nat): (words: seq<nat>)
    requires Full(b)
    ensures |words| == cnt && forall i | 0 <= i < cnt :: words[i] == At(b.prog, off, i, MAX_PROG_WORDS)
  {
    seq(cnt, i requires 0 <= i < cnt => At(b.prog, off, i, MAX_PROG_WORDS))
  }

  function KWords(b: Bank, regs: RegFile, nFields: nat, words: seq<nat>, st: seq<bool>): (st': seq<bool>)
    requires Full(b) && |st| <= STACK_MAX
    ensures |st'| <= STACK_MAX
  {
    if words == [] then st
    else KWords(b, regs, nFields, words[1..], KWord(st, words[0], KAtom(b, words[0], regs, nFields)))
  }

  predicate KEdgeFires(b: Bank, regs: RegFile, nFields: nat, e: Edge)
    requires Full(b)
  {
    var st := KWords(b, regs, nFields, KFetched(b, e.progOff, Clamped(e.progCnt, MAX_PROG_PER_EDGE)), []);
    st != [] && st[0]
  }

  /** The edges a node's lookups read. */
  function KListed(b: Bank, off: nat, cnt: nat): (edges: seq<Edge>)
    requires Full(b)
    ensures |edges| == cnt && forall i | 0 <= i < cnt :: edges[i] == At(b.edges, off, i, MAX_EDGES)
  {
    seq(cnt, i requires 0 <= i < cnt => At(b.edges, off, i, MAX_EDGES))
  }

  function KFired(b: Bank, regs: RegFile, nFields: nat, edges: seq<Edge>): (fired: seq<bool>)
    requires Full(b)
    ensures |fired| == |edges| && forall i | 0 <= i < |edges| :: fired[i] == KEdgeFires(b, regs, nFields, edges[i])
  {
    seq(|edges|, i requires 0 <= i < |edges| => KEdgeFires(b, regs, nFields, edges[i]))
  }

  /** The priority encoder over which edges fire. */
  function KFirst(edges: seq<Edge>, fired: seq<bool>, i: nat): Match
    requires i <= |edges| == |fired|
    decreases |edges| - i
  {
    if i == |edges| then NoMatch else if fired[i] then Match(i, edges[i].target) else KFirst(edges, fired, i + 1)
  }

  function KEvaluate(b: Bank, regs: RegFile, nFields: nat, node: nat): Match
    requires Full(b)
  {
    var n := b.nodes[node % MAX_NODES];
    var edges := KListed(b, n.edgeOff, Clamped(n.edgeCnt, MAX_EDGES_PER_NODE));
    KFirst(edges, KFired(b, regs, nFields, edges), 0)
  }

  // ----- The callbacks and their loops -----

  /** The first `sp` of the four cells are the stack. */
  ghost predicate Holds(cells: array<bool>, sp: nat, st: seq<bool>)
    reads cells
  {
    cells.Length == STACK_MAX && sp <= STACK_MAX && cells[..sp] == st
  }

  method ProgWord(cells: array<bool>, sp: nat, word: nat, value: bool, ghost st: seq<bool>) returns (sp': nat)
    requires Holds(cells, sp, st)
    modifies cells
    ensures Holds(cells, sp', KWord(st, word, value))
  {
    sp' := sp;
    if word < 0x8000 || word == OPC_TRUE || word == OPC_FALSE {
      if sp < STACK_MAX {
        cells[sp] := if word < 0x8000 then value else word == OPC_TRUE;
        sp' := sp + 1;
        assert cells[..sp'] == st + [cells[sp]];
      }
    } else if word == OPC_NOT {
      if sp >= 1 {
        cells[sp - 1] := !cells[sp - 1];
        assert cells[..sp] == st[..sp - 1] + [cells[sp - 1]];
      }
    } else if word == OPC_AND || word == OPC_OR {
      if sp >= 2 {
        var rhs, lhs := cells[sp - 1], cells[sp - 2];
        sp' := sp - 1;
        cells[sp' - 1] := if word == OPC_AND then lhs && rhs else lhs || rhs;
        assert cells[..sp'] == st[..sp - 2] + [cells[sp' - 1]];
      }
    }
  }

  method EvalProg(b: Bank, regs: RegFile, nFields: nat, e: Edge) returns (fires: bool)
    requires Full(b)
    ensures fires == KEdgeFires(b, regs, nFields, e)
  {
    var cnt := Clamped(e.progCnt, MAX_PROG_PER_EDGE);
    var cells := new bool[STACK_MAX](_ => false);
    var sp: nat := 0;
    ghost var st: seq<bool> := [];
    ghost var words := KFetched(b, e.progOff, cnt);
    ghost var whole := KWords(b, regs, nFields, words, []);
    var i := 0;
    while i < MAX_PROG_PER_EDGE
      invariant 0 <= i <= cnt && Holds(cells, sp, st) && KWords(b, regs, nFields, words[i..], st) == whole
    {
      if i >= cnt { break; }
      var word := At(b.prog, e.progOff, i, MAX_PROG_WORDS);
      assert words[i] == word;
      assert words[i..][0] == words[i] && words[i..][1..] == words[i + 1..];
      var value := KAtom(b, word, regs, nFields);
      sp := ProgWord(cells, sp, word, value, st);
      st := KWord(st, word, value);
      i := i + 1;
    }
    assert words[i..] == [];
    fires := sp > 0 && cells[0];
  }

  method Evaluate(b: Bank, regs: RegFile, nFields: nat, node: nat) returns (matchedEdge: int, targetNode: int)
    requires Full(b)
    ensures match KEvaluate(b, regs, nFields, node)
            case NoMatch => matchedEdge == -1 && targetNode == -1
            case Match(edge, target) => matchedEdge == edge && targetNode == target
  {
    var n := b.nodes[node % MAX_NODES];
    var cnt := Clamped(n.edgeCnt, MAX_EDGES_PER_NODE);
    ghost var edges := KListed(b, n.edgeOff, cnt);
    ghost var fired := KFired(b, regs, nFields, edges);
    var i := 0;
    while i < MAX_EDGES_PER_NODE
      invariant 0 <= i <= cnt && KFirst(edges, fired, i) == KEvaluate(b, regs, nFields, node)
    {
      if i >= cnt { break; }
      var e := At(b.edges, n.edgeOff, i, MAX_EDGES);
      assert e == edges[i];
      var fires := EvalProg(b, regs, nFields, e);
      if fires { return i, e.target; }
      i := i + 1;
    }
    matchedEdge, targetNode := -1, -1;
  }

  // ----- Nothing is lost -----

  /** The registers an evaluation of `nFields` fields can see. */
  function Visible(regs: RegFile, nFields: nat): seq<Reg> {
    regs[..Clamped(nFields, MAX_FIELDS_PER_PKT)]
  }

  lemma AtomsMatch(b: Bank, im: Image, regs: RegFile, nFields: nat, w: nat)
    requires Loaded(b, im) && w < |im.atoms|
    ensures KAtom(b, w, regs, nFields) == AtomTruth(im.atoms, Visible(regs, nFields))[w]
  {
    assert b.atoms[w] == im.atoms[w];
  }

  lemma StepMatches(b: Bank, im: Image, regs: RegFile, nFields: nat, w: nat, st: seq<bool>)
    requires Loaded(b, im) && |st| <= STACK_MAX
    requires Step(st, w, AtomTruth(im.atoms, Visible(regs, nFields)), STACK_MAX).Done?
    ensures KWord(st, w, KAtom(b, w, regs, nFields)) == Step(st, w, AtomTruth(im.atoms, Visible(regs, nFields)), STACK_MAX).value
  {
    if w < |im.atoms| { AtomsMatch(b, im, regs, nFields, w); }
  }

  lemma FetchMatches(b: Bank, im: Image, e: Edge)
    requires Loaded(b, im) && WordsInRange(im, e)
    ensures KFetched(b, e.progOff, e.progCnt) == Words(im, e)
  {
    forall i | 0 <= i < e.progCnt ensures At(b.prog, e.progOff, i, MAX_PROG_WORDS) == Words(im, e)[i] {
      assert im.prog[e.progOff + i] == b.prog[e.progOff + i];
    }
  }

  /** A program that runs in four on the reference machine takes the same steps here. */
  lemma {:induction false} WordsMatch(b: Bank, im: Image, regs: RegFile, nFields: nat, words: seq<nat>, st: seq<bool>)
    requires Loaded(b, im) && |st| <= STACK_MAX
    requires Exec(words, AtomTruth(im.atoms, Visible(regs, nFields)), st, STACK_MAX).Done?
    ensures KWords(b, regs, nFields, words, st) == Exec(words, AtomTruth(im.atoms, Visible(regs, nFields)), st, STACK_MAX).value
  {
    if words != [] {
      StepMatches(b, im, regs, nFields, words[0], st);
      WordsMatch(b, im, regs, nFields, words[1..],
                 Step(st, words[0], AtomTruth(im.atoms, Visible(regs, nFields)), STACK_MAX).value);
    }
  }

  lemma EdgesMatch(b: Bank, im: Image, regs: RegFile, nFields: nat, e: Edge)
    requires Loaded(b, im) && EdgeAdmissible(im, e)
    ensures KEdgeFires(b, regs, nFields, e) == EdgeFires(im, e, AtomTruth(im.atoms, Visible(regs, nFields)), STACK_MAX)
  {
    DepthIsExact(Words(im, e), AtomTruth(im.atoms, Visible(regs, nFields)), [], STACK_MAX);
    FetchMatches(b, im, e);
    WordsMatch(b, im, regs, nFields, Words(im, e), []);
  }

  lemma ListMatches(b: Bank, im: Image, n: Node)
    requires Loaded(b, im) && EdgesInRange(im, n)
    ensures KListed(b, n.edgeOff, n.edgeCnt) == im.edges[n.edgeOff..n.edgeOff + n.edgeCnt]
  {
    forall i | 0 <= i < n.edgeCnt ensures KListed(b, n.edgeOff, n.edgeCnt)[i] == im.edges[n.edgeOff..][i] {
      assert b.edges[n.edgeOff + i] == im.edges[n.edgeOff + i];
    }
  }

  lemma {:induction false} ScansMatch(im: Image, n: Node, truth: seq<bool>, fired: seq<bool>, i: nat)
    requires EdgesInRange(im, n) && i <= n.edgeCnt == |fired|
    requires forall k | 0 <= k < n.edgeCnt :: fired[k] == FiresAt(im, n, k, truth, STACK_MAX)
    ensures KFirst(im.edges[n.edgeOff..n.edgeOff + n.edgeCnt], fired, i) ==
            match FirstFiring(im, n, truth, i, STACK_MAX)
            case None => NoMatch
            case Some(j) => Match(j, im.edges[n.edgeOff + j].target)
    decreases n.edgeCnt - i
  {
    if i < n.edgeCnt { ScansMatch(im, n, truth, fired, i + 1); }
  }

  predicate EdgesAdmissible(im: Image) {
    forall e <- im.edges :: EdgeAdmissible(im, e)
  }

  lemma FiredMatches(b: Bank, im: Image, regs: RegFile, nFields: nat, n: Node, edges: seq<Edge>, k: nat)
    requires Loaded(b, im) && EdgesAdmissible(im) && EdgesInRange(im, n) && k < n.edgeCnt
    requires edges == im.edges[n.edgeOff..n.edgeOff + n.edgeCnt]
    ensures KFired(b, regs, nFields, edges)[k] == FiresAt(im, n, k, AtomTruth(im.atoms, Visible(regs, nFields)), STACK_MAX)
  {
    assert edges[k] == im.edges[n.edgeOff + k] && edges[k] in im.edges;
    EdgesMatch(b, im, regs, nFields, edges[k]);
  }

  lemma NodeMatches(b: Bank, im: Image, regs: RegFile, nFields: nat, n: Node)
    requires Loaded(b, im) && EdgesAdmissible(im) && EdgesInRange(im, n)
    ensures var edges := KListed(b, n.edgeOff, n.edgeCnt);
            KFirst(edges, KFired(b, regs, nFields, edges), 0) ==
            match FirstFiring(im, n, AtomTruth(im.atoms, Visible(regs, nFields)), 0, STACK_MAX)
            case None => NoMatch
            case Some(j) => Match(j, im.edges[n.edgeOff + j].target)
  {
    ListMatches(b, im, n);
    var fired := AllFiredMatch(b, im, regs, nFields, n, KListed(b, n.edgeOff, n.edgeCnt));
    ScansMatch(im, n, AtomTruth(im.atoms, Visible(regs, nFields)), fired, 0);
  }

  lemma AllFiredMatch(b: Bank, im: Image, regs: RegFile, nFields: nat, n: Node, edges: seq<Edge>) returns (fired: seq<bool>)
    requires Loaded(b, im) && EdgesAdmissible(im) && EdgesInRange(im, n)
    requires edges == im.edges[n.edgeOff..n.edgeOff + n.edgeCnt]
    ensures fired == KFired(b, regs, nFields, edges) && |fired| == n.edgeCnt
    ensures forall k | 0 <= k < n.edgeCnt :: fired[k] == FiresAt(im, n, k, AtomTruth(im.atoms, Visible(regs, nFields)), STACK_MAX)
  {
    fired := KFired(b, regs, nFields, edges);
    forall k: nat | k < n.edgeCnt
      ensures fired[k] == FiresAt(im, n, k, AtomTruth(im.atoms, Visible(regs, nFields)), STACK_MAX)
    {
      FiredMatches(b, im, regs, nFields, n, edges, k);
    }
  }

  function FirstSeen(im: Image, n: Node, regs: seq<Reg>): (j: Option<nat>)
    requires EdgesInRange(im, n)
    ensures j.Some? ==> j.value < n.edgeCnt
  {
    FirstFiring(im, n, AtomTruth(im.atoms, regs), 0, STACK_MAX)
  }

  function Taken(im: Image, n: Node, j: Option<nat>): Match
    requires EdgesInRange(im, n) && (j.Some? ==> j.value < n.edgeCnt)
  {
    match j
    case None => NoMatch
    case Some(k) => Match(k, im.edges[n.edgeOff + k].target)
  }

  /** The evaluator sees the node as if it had the clamped number of edges. */
  lemma ClampedIsSeen(b: Bank, im: Image, regs: RegFile, nFields: nat, node: nat, seen: Node)
    requires Loaded(b, im) && EdgesAdmissible(im) && node < |im.nodes| && EdgesInRange(im, seen)
    requires seen == Node(im.nodes[node].edgeOff, Clamped(im.nodes[node].edgeCnt, MAX_EDGES_PER_NODE))
    ensures KEvaluate(b, regs, nFields, node) == Taken(im, seen, FirstSeen(im, seen, Visible(regs, nFields)))
  {
    assert b.nodes[node % MAX_NODES] == im.nodes[node];
    NodeMatches(b, im, regs, nFields, seen);
  }

  /**
   Admission makes clamping lossless: on any admitted image, any node of it, any registers and any leftover rows,
   the kernel's evaluator takes the edge and target the reference interpreter takes, with its larger stack too.
   */
  lemma ClampingIsLossless(b: Bank, im: Image, regs: RegFile, nFields: nat, node: nat, limit: nat)
    requires Loaded(b, im) && WithinLimits(im) && node < |im.nodes| && limit >= STACK_MAX
    ensures EdgesInRange(im, im.nodes[node])
    ensures KEvaluate(b, regs, nFields, node) == Decide(im, node, Visible(regs, nFields), limit)
  {
    var n := im.nodes[node];
    LimitsHold(im, node);
    ClampedIsSeen(b, im, regs, nFields, node, n);
    DecideMonotone(im, node, Visible(regs, nFields), STACK_MAX, limit);
  }

  lemma LimitsHold(im: Image, node: nat)
    requires WithinLimits(im) && node < |im.nodes|
    ensures NodeAdmissible(im, im.nodes[node]) && EdgesAdmissible(im) && ProgramsRun(im, STACK_MAX)
  {
    forall i | 0 <= i < |im.edges|
      ensures WordsInRange(im, im.edges[i]) && WellStacked(Words(im, im.edges[i]), |im.atoms|, STACK_MAX)
    {
      assert EdgeAdmissible(im, im.edges[i]);
    }
  }

  // ----- And is needed for it -----

  /**
   What clamping costs: on a table whose programs are in order, however many edges its nodes have, the kernel's
   evaluator takes the reference edge when that is among the first 64 of the node, and none when it is not.
   */
  lemma OnlyFirstEdgesSeen(b: Bank, im: Image, regs: RegFile, nFields: nat, node: nat)
    requires Loaded(b, im) && EdgesAdmissible(im) && node < |im.nodes| && EdgesInRange(im, im.nodes[node])
    ensures KEvaluate(b, regs, nFields, node) ==
            match Decide(im, node, Visible(regs, nFields), STACK_MAX)
            case NoMatch => NoMatch
            case Match(edge, target) => if edge < 64 then Match(edge, target) else NoMatch
  {
    var n := im.nodes[node];
    var seen := Node(n.edgeOff, Clamped(n.edgeCnt, MAX_EDGES_PER_NODE));
    ClampedIsSeen(b, im, regs, nFields, node, seen);
    FewerTaken(im, node, seen, Visible(regs, nFields));
  }

  lemma FewerTaken(im: Image, node: nat, seen: Node, regs: seq<Reg>)
    requires node < |im.nodes| && EdgesInRange(im, im.nodes[node])
    requires seen == Node(im.nodes[node].edgeOff, Clamped(im.nodes[node].edgeCnt, MAX_EDGES_PER_NODE))
    ensures Taken(im, seen, FirstSeen(im, seen, regs)) ==
            match Decide(im, node, regs, STACK_MAX)
            case NoMatch => NoMatch
            case Match(edge, target) => if edge < 64 then Match(edge, target) else NoMatch
  {
    FirstOfFewer(im, im.nodes[node], seen, AtomTruth(im.atoms, regs), 0);
  }

  lemma {:induction false} FirstOfFewer(im: Image, n: Node, seen: Node, truth: seq<bool>, from: nat)
    requires EdgesInRange(im, n) && seen.edgeOff == n.edgeOff && from <= seen.edgeCnt <= n.edgeCnt
    ensures FirstFiring(im, seen, truth, from, STACK_MAX) ==
            match FirstFiring(im, n, truth, from, STACK_MAX)
            case None => None
            case Some(j) => if j < seen.edgeCnt then Some(j) else None
    decreases seen.edgeCnt - from
  {
    if from < seen.edgeCnt {
      assert FiresAt(im, seen, from, truth, STACK_MAX) == FiresAt(im, n, from, truth, STACK_MAX);
      FirstOfFewer(im, n, seen, truth, from + 1);
    }
  }

  /** The capacities are those of the maps: an image is within them exactly when some bank can hold it and the registers its fields. */
  lemma CapacityIsExact(im: Image)
    ensures WithinCapacity(Declared(im)) <==> (exists b: Bank :: Loaded(b, im)) && im.nFields <= 32
  {
    if WithinCapacity(Declared(im)) {
      var b := Bank(Padded(im.atoms, Atom(0, 0, 0, 0), MAX_ATOMS), Padded(im.nodes, Node(0, 0), MAX_NODES),
                    Padded(im.edges, Edge(0, 0, 0), MAX_EDGES), Padded(im.prog, 0, MAX_PROG_WORDS));
      assert Loaded(b, im);
    }
  }

  function Padded<T>(rows: seq<T>, filler: T, size: nat): (padded: seq<T>)
    requires |rows| <= size
    ensures |padded| == size && rows <= padded
  {
    rows + seq(size - |rows|, _ => filler)
  }

  /** The program leaves one result on a stack of four, whatever its atoms read. */
  ghost predicate RunsInFour(words: seq<nat>, nAtoms: nat) {
    forall truth: seq<bool> | |truth| == nAtoms :: Exec(words, truth, [], 4).Done? && |Exec(words, truth, [], 4).value| == 1
  }

  /**
   Admission asks no more than the evaluator needs: a table is within the limits exactly when its ranges lie in it, the
   loops cut none of its counts short, and every program leaves one result within the stack on every reading.
   */
  lemma LimitsAreExact(im: Image)
    ensures WithinLimits(im) <==>
            && (forall i | 0 <= i < |im.nodes| ::
                  EdgesInRange(im, im.nodes[i]) && Clamped(im.nodes[i].edgeCnt, 64) == im.nodes[i].edgeCnt)
            && (forall i | 0 <= i < |im.edges| ::
                  && WordsInRange(im, im.edges[i]) && Clamped(im.edges[i].progCnt, 64) == im.edges[i].progCnt
                  && RunsInFour(Words(im, im.edges[i]), |im.atoms|))
  {
    forall i | 0 <= i < |im.edges| && WordsInRange(im, im.edges[i])
      ensures WellStacked(Words(im, im.edges[i]), |im.atoms|, STACK_MAX) <==> RunsInFour(Words(im, im.edges[i]), |im.atoms|)
    {
      StackCheckIsExact(Words(im, im.edges[i]), |im.atoms|);
    }
  }
}
