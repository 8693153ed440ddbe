/**
 The C reference interpreter (prismpath-hw/interp.c): an operand array with a stack pointer, the
 priority encoder's loop, and the scripted run with its visit counters.
 */
module Interp {
  import opened Wrappers
  import opened Table

  const U32: nat := 0x1_0000_0000

  function ToInt32(v: nat): int {
    if v % U32 >= 0x8000_0000 then v % U32 - U32 else v % U32
  }

  // ----- One decision -----

  method EvalProg(im: Image, e: Edge, regs: seq<Reg>) returns (r: Run<bool>)
    requires WordsInRange(im, e)
    requires ExecVerdict(Words(im, e), AtomTruth(im.atoms, regs), INTERP_STACK) != Undefined
    ensures r == ExecVerdict(Words(im, e), AtomTruth(im.atoms, regs), INTERP_STACK)
  {
    var stack := new bool[INTERP_STACK];
    var sp: nat := 0;
    ghost var words, truth := Words(im, e), AtomTruth(im.atoms, regs);
    ghost var st: seq<bool> := [];
    for i := 0 to e.progCnt
      invariant Holds(stack, sp, st) && stack.Length == INTERP_STACK
      invariant Exec(words[i..], truth, st, INTERP_STACK) == Exec(words, truth, [], INTERP_STACK)
    {
      var word := im.prog[e.progOff + i];
      ExecUnfolds(words, i, truth, st, INTERP_STACK);
      var value := word < 0x8000 && AtomHolds(im.atoms[word], ReadReg(regs, im.atoms[word].field));
      var moved := ExecWord(stack, sp, word, value, st, truth);
      match moved {
        case Done(depth) => sp := depth;
        case Overflow => return Overflow;
        case BadOpcode => return BadOpcode;
      }
      st := Step(st, word, truth, INTERP_STACK).value;
    }
    r := Done(sp > 0 && stack[0]);
  }

  /** The first `sp` cells of the operand array are the stack `st`. */
  ghost predicate Holds(stack: array<bool>, sp: nat, st: seq<bool>)
    reads stack
  {
    sp == |st| <= stack.Length && forall k | 0 <= k < sp :: stack[k] == st[k]
  }

  /** One word on an operand array of any length; `value` is the truth of the atom the word names, if it names one. */
  method ExecWord(stack: array<bool>, sp: nat, word: nat, value: bool, ghost st: seq<bool>, ghost truth: seq<bool>)
    returns (r: Run<nat>)
    requires Holds(stack, sp, st)
    requires Step(st, word, truth, stack.Length) != Undefined
    requires word < 0x8000 && word < |truth| ==> value == truth[word]
    modifies stack
    ensures match Step(st, word, truth, stack.Length)
            case Done(st') => r.Done? && Holds(stack, r.value, st')
            case Overflow => r == Overflow
            case BadOpcode => r == BadOpcode
  {
    if word < 0x8000 || word == OPC_TRUE || word == OPC_FALSE {
      if sp >= stack.Length { return Overflow; }
      stack[sp] := if word < 0x8000 then value else word == OPC_TRUE;
      r := Done(sp + 1);
    } else if word == OPC_NOT {
      stack[sp - 1] := !stack[sp - 1];
      r := Done(sp);
    } else if word == OPC_AND {
      stack[sp - 2] := stack[sp - 2] && stack[sp - 1];
      r := Done(sp - 1);
    } else if word == OPC_OR {
      stack[sp - 2] := stack[sp - 2] || stack[sp - 1];
      r := Done(sp - 1);
    } else {
      r := BadOpcode;
    }
  }

  lemma ExecUnfolds(words: seq<nat>, i: nat, truth: seq<bool>, st: seq<bool>, limit: nat)
    requires i < |words|
    ensures Exec(words[i..], truth, st, limit) ==
            match Step(st, words[i], truth, limit)
            case Done(st') => Exec(words[i + 1..], truth, st', limit)
            case stop => stop
  {
    assert words[i..][0] == words[i] && words[i..][1..] == words[i + 1..];
  }

  method Evaluate(im: Image, node: nat, regs: seq<Reg>) returns (r: Run<Option<nat>>)
    requires node < |im.nodes| && EdgesInRange(im, im.nodes[node])
    requires forall i | 0 <= i < |im.edges| :: WordsInRange(im, im.edges[i])
    requires Scan(im, im.nodes[node], AtomTruth(im.atoms, regs), 0, INTERP_STACK) != Undefined
    ensures r == Scan(im, im.nodes[node], AtomTruth(im.atoms, regs), 0, INTERP_STACK)
  {
    var n := im.nodes[node];
    ghost var truth := AtomTruth(im.atoms, regs);
    for i := 0 to n.edgeCnt
      invariant Scan(im, n, truth, i, INTERP_STACK) == Scan(im, n, truth, 0, INTERP_STACK)
    {
      var fired := EvalProg(im, im.edges[n.edgeOff + i], regs);
      match fired
      case Done(true) => return Done(Some(i));
      case Done(false) =>
      case Overflow => return Overflow;
      case BadOpcode => return BadOpcode;
    }
    r := Done(None);
  }

  // ----- A scripted run -----

  /** Per node, the register rows of its outcomes in the order of its visits; the last one repeats. */
  type Script = seq<seq<seq<Reg>>>

  datatype Stop = Terminal | Stuck | MaxSteps | NoOutcome | Fault

  datatype Trace = Trace(path: seq<nat>, stop: Stop)

  predicate RowsFit(im: Image, rows: seq<seq<Reg>>) {
    forall i | 0 <= i < |rows| :: |rows[i]| == im.nFields
  }

  predicate Fits(im: Image, script: Script) {
    |script| == |im.nodes| && forall i | 0 <= i < |script| :: RowsFit(im, script[i])
  }

  /** The register file of the `visit`-th visit (counted from 1), the visit counter written over its field. */
  function RowOf(im: Image, rows: seq<seq<Reg>>, visit: nat): seq<Reg>
    requires Sound(im) && rows != [] && visit > 0
    requires RowsFit(im, rows)
  {
    var row := rows[if visit - 1 < |rows| then visit - 1 else |rows| - 1];
    if im.visitsIdx == VISITS_NONE then row else row[im.visitsIdx := Reg(TY_INT, visit)]
  }

  datatype Advance = Go(next: nat, visits: seq<nat>) | Halt(stop: Stop)

  /** One iteration: count the visit, load its register file, take the first edge that fires. */
  function RunStep(im: Image, script: Script, node: nat, visits: seq<nat>): (a: Advance)
    requires Sound(im) && Fits(im, script) && node < |im.nodes| && |visits| == |im.nodes|
    ensures a.Go? ==> a.next < |im.nodes| && a.visits == visits[node := visits[node] + 1]
  {
    if im.nodes[node].edgeCnt == 0 then Halt(Terminal)
    else if script[node] == [] then Halt(NoOutcome)
    else
      var regs := RowOf(im, script[node], visits[node] + 1);
      match Scan(im, im.nodes[node], AtomTruth(im.atoms, regs), 0, INTERP_STACK)
      case Done(None) => Halt(Stuck)
      case Done(Some(i)) =>
        (var e := im.edges[im.nodes[node].edgeOff + i];
         Go(e.target, visits[node := visits[node] + 1]))
      case _ => Halt(Fault)
  }

  /** The run so far, carried on from `node` with `steps` iterations left. */
  function RunFrom(im: Image, script: Script, path: seq<nat>, node: nat, visits: seq<nat>, steps: nat): Trace
    requires Sound(im) && Fits(im, script) && node < |im.nodes| && |visits| == |im.nodes|
    decreases steps
  {
    if steps == 0 then Trace(path, MaxSteps)
    else
      match RunStep(im, script, node, visits)
      case Halt(stop) => Trace(path, stop)
      case Go(next, visits') => RunFrom(im, script, path + [next], next, visits', steps - 1)
  }

  predicate AtMost(visits: seq<nat>, bound: nat) {
    forall n | 0 <= n < |visits| :: visits[n] <= bound
  }

  function NoVisits(n: nat): seq<nat> {
    seq(n, _ => 0)
  }

  /** The whole run from the start node, as `interp run` prints it. */
  function RunTable(im: Image, script: Script): Trace
    requires Sound(im) && Fits(im, script)
  {
    RunFrom(im, script, [im.start], im.start, NoVisits(|im.nodes|), im.maxSteps)
  }

  predicate IsDefined(im: Image, e: Edge, truth: seq<bool>)
    requires WordsInRange(im, e)
  {
    ExecVerdict(Words(im, e), truth, INTERP_STACK) != Undefined
  }

  /** No program reads an operand or an atom that is not there; overflow and unknown opcodes the interpreter reports. */
  ghost predicate ProgramsDefined(im: Image) {
    forall k | 0 <= k < |im.edges| ::
      WordsInRange(im, im.edges[k]) && forall truth: seq<bool> | |truth| == |im.atoms| :: IsDefined(im, im.edges[k], truth)
  }

  lemma {:induction false} ScanIsDefined(im: Image, n: Node, truth: seq<bool>, from: nat)
    requires EdgesInRange(im, n) && from <= n.edgeCnt && ProgramsDefined(im) && |truth| == |im.atoms|
    ensures Scan(im, n, truth, from, INTERP_STACK) != Undefined
    decreases n.edgeCnt - from
  {
    if from < n.edgeCnt {
      assert IsDefined(im, im.edges[n.edgeOff + from], truth);
      ScanIsDefined(im, n, truth, from + 1);
    }
  }

  /** A program that runs reads nothing that is not there. */
  lemma RunningIsDefined(im: Image)
    requires ProgramsRun(im, INTERP_STACK)
    ensures ProgramsDefined(im)
  {
    forall k, truth: seq<bool> | 0 <= k < |im.edges| && |truth| == |im.atoms| ensures IsDefined(im, im.edges[k], truth) {
      DepthIsExact(Words(im, im.edges[k]), truth, [], INTERP_STACK);
    }
  }

  // The loop with the step it takes left open.

  function TableRun(ts: (nat, seq<nat>) -> Advance, path: seq<nat>, node: nat, visits: seq<nat>, steps: nat): Trace
    decreases steps
  {
    if steps == 0 then Trace(path, MaxSteps)
    else
      match ts(node, visits)
      case Halt(stop) => Trace(path, stop)
      case Go(next, visits') => TableRun(ts, path + [next], next, visits', steps - 1)
  }

  function TableSteps(im: Image, rows: Script): (nat, seq<nat>) -> Advance
    requires Sound(im) && Fits(im, rows)
  {
    (node: nat, visits: seq<nat>) => if node < |im.nodes| == |visits| then RunStep(im, rows, node, visits) else Halt(Fault)
  }

  lemma {:induction false} TableDrives(im: Image, rows: Script, path: seq<nat>, node: nat, visits: seq<nat>, steps: nat)
    requires Sound(im) && Fits(im, rows) && node < |im.nodes| == |visits|
    ensures RunFrom(im, rows, path, node, visits, steps) == TableRun(TableSteps(im, rows), path, node, visits, steps)
    decreases steps
  {
    if steps > 0 {
      var a := RunStep(im, rows, node, visits);
      if a.Go? { TableDrives(im, rows, path + [a.next], a.next, a.visits, steps - 1); }
    }
  }

  ghost predicate Drives(im: Image, script: Script, ts: (nat, seq<nat>) -> Advance)
    requires Sound(im) && Fits(im, script)
  {
    forall node: nat, visits: seq<nat> {:trigger RunStep(im, script, node, visits)} |
      node < |im.nodes| && |visits| == |im.nodes| :: ts(node, visits) == RunStep(im, script, node, visits)
  }

  /** Some function takes the table's steps, and the table's run is its run. */
  lemma StepsOpen(im: Image, script: Script) returns (ts: (nat, seq<nat>) -> Advance)
    requires Sound(im) && Fits(im, script)
    ensures Drives(im, script, ts)
    ensures RunTable(im, script) == TableRun(ts, [im.start], im.start, NoVisits(|im.nodes|), im.maxSteps)
  {
    ts := TableSteps(im, script);
    TableDrives(im, script, [im.start], im.start, NoVisits(|im.nodes|), im.maxSteps);
  }

  /** The step bound is a u16 in the image, so no u32 visit counter can wrap and no cast can go negative. */
  method RunScript(im: Image, script: Script) returns (t: Trace)
    requires Sound(im) && Fits(im, script) && ProgramsDefined(im) && im.maxSteps <= 0xFFFF
    ensures t == RunTable(im, script)
  {
    var visits := new nat[|im.nodes|](_ => 0);
    var node: nat := im.start;
    var path := [node];
    ghost var ts := StepsOpen(im, script);
    ghost var whole, left, seen := RunTable(im, script), im.maxSteps, NoVisits(|im.nodes|);
    for step := 0 to im.maxSteps
      invariant node < |im.nodes| && seen == visits[..] && AtMost(seen, step)
      invariant left == im.maxSteps - step && TableRun(ts, path, node, seen, left) == whole
    {
      assert seen[node] <= step;
      var advance := Iterate(im, script, visits, node, step);
      if advance.Halt? { return Trace(path, advance.stop); }
      node, path := advance.next, path + [advance.next];
      left, seen := left - 1, advance.visits;
    }
    t := Trace(path, MaxSteps);
  }

  method Iterate(im: Image, script: Script, visits: array<nat>, node: nat, ghost bound: nat) returns (a: Advance)
    requires Sound(im) && Fits(im, script) && ProgramsDefined(im)
    requires node < |im.nodes| == visits.Length && visits[node] < 0xFFFF
    modifies visits
    ensures a == RunStep(im, script, node, old(visits[..]))
    ensures a.Go? ==> visits[..] == a.visits
    ensures AtMost(old(visits[..]), bound) ==> AtMost(visits[..], bound + 1)
  {
    if im.nodes[node].edgeCnt == 0 { return Halt(Terminal); }
    visits[node] := (visits[node] + 1) % U32;
    assert visits[..] == old(visits[..])[node := old(visits[node]) + 1];
    if script[node] == [] { return Halt(NoOutcome); }
    var regs := LoadRow(im, script[node], visits[node]);
    ScanIsDefined(im, im.nodes[node], AtomTruth(im.atoms, regs), 0);
    var matched := Evaluate(im, node, regs);
    if !matched.Done? { return Halt(Fault); }
    if matched.value == None { return Halt(Stuck); }
    a := Go(im.edges[im.nodes[node].edgeOff + matched.value.value].target, visits[..]);
  }

  method LoadRow(im: Image, rows: seq<seq<Reg>>, visit: nat) returns (regs: seq<Reg>)
    requires Sound(im) && rows != [] && RowsFit(im, rows) && 0 < visit <= 0xFFFF
    ensures regs == RowOf(im, rows, visit)
  {
    var outcome := visit - 1;
    if outcome >= |rows| { outcome := |rows| - 1; }
    regs := rows[outcome];
    if im.visitsIdx != VISITS_NONE { regs := regs[im.visitsIdx := Reg(TY_INT, ToInt32(visit))]; }
  }
}
