/**
 The in-kernel evaluation one map lookup at a time: what a packet does between two instants at which the loader
 may have written. Continuing from any point on an unchanged bank gives the evaluation of the whole bank.
 */
module Lookups {
  import opened Wrappers
  import opened Table
  import opened Admission
  import opened KernelEval

  /** The next row to be read, and what the rows read so far left behind. */
  datatype Cursor =
    | AtNode(node: nat)
    | AtEdge(off: nat, cnt: nat, i: nat)
    | AtWord(off: nat, cnt: nat, i: nat, progOff: nat, progCnt: nat, j: nat, st: seq<bool>)
    | AtAtom(off: nat, cnt: nat, i: nat, progOff: nat, progCnt: nat, j: nat, st: seq<bool>, word: nat)
    | AtTarget(off: nat, i: nat)
    | Finished(result: Match)

  predicate Proper(c: Cursor) {
    match c
    case AtEdge(_, cnt, i) => i <= cnt
    case AtWord(_, cnt, i, _, progCnt, j, st) => i < cnt && j <= progCnt && |st| <= STACK_MAX
    case AtAtom(_, cnt, i, _, progCnt, j, st, _) => i < cnt && j < progCnt && |st| <= STACK_MAX
    case _ => true
  }

  /** One lookup. The target of the edge that fires is read last, through the pointer the edge lookup returned. */
  function Lookup(b: Bank, regs: RegFile, nFields: nat, c: Cursor): (c': Cursor)
    requires Full(b) && Proper(c)
    ensures Proper(c')
  {
    match c
    case AtNode(node) =>
      var n := b.nodes[node % MAX_NODES];
      AtEdge(n.edgeOff, Clamped(n.edgeCnt, MAX_EDGES_PER_NODE), 0)
    case AtEdge(off, cnt, i) =>
      if i == cnt then Finished(NoMatch)
      else
        var e := At(b.edges, off, i, MAX_EDGES);
        AtWord(off, cnt, i, e.progOff, Clamped(e.progCnt, MAX_PROG_PER_EDGE), 0, [])
    case AtWord(off, cnt, i, progOff, progCnt, j, st) =>
      if j == progCnt then
        if st != [] && st[0] then AtTarget(off, i) else AtEdge(off, cnt, i + 1)
      else
        var w := At(b.prog, progOff, j, MAX_PROG_WORDS);
        if w < 0x8000 then AtAtom(off, cnt, i, progOff, progCnt, j, st, w)
        else AtWord(off, cnt, i, progOff, progCnt, j + 1, KWord(st, w, false))
    case AtAtom(off, cnt, i, progOff, progCnt, j, st, w) =>
      AtWord(off, cnt, i, progOff, progCnt, j + 1, KWord(st, w, KAtom(b, w, regs, nFields)))
    case AtTarget(off, i) => Finished(Match(i, At(b.edges, off, i, MAX_EDGES).target))
    case Finished(_) => c
  }

  /** The scan from edge `i` on. */
  function FromEdge(b: Bank, regs: RegFile, nFields: nat, off: nat, cnt: nat, i: nat): Match
    requires Full(b) && i <= cnt
  {
    var edges := KListed(b, off, cnt);
    KFirst(edges, KFired(b, regs, nFields, edges), i)
  }

  /** The scan from edge `i` on, its program run from word `j` on with `st` on the stack. */
  function FromWord(b: Bank, regs: RegFile, nFields: nat, off: nat, cnt: nat, i: nat,
                    progOff: nat, progCnt: nat, j: nat, st: seq<bool>): Match
    requires Full(b) && i < cnt && j <= progCnt && |st| <= STACK_MAX
  {
    var end := KWords(b, regs, nFields, KFetched(b, progOff, progCnt)[j..], st);
    if end != [] && end[0] then Match(i, At(b.edges, off, i, MAX_EDGES).target)
    else FromEdge(b, regs, nFields, off, cnt, i + 1)
  }

  /** What the evaluation will come to, if the bank stays as it is. */
  function Resume(b: Bank, regs: RegFile, nFields: nat, c: Cursor): Match
    requires Full(b) && Proper(c)
  {
    match c
    case AtNode(node) => KEvaluate(b, regs, nFields, node)
    case AtEdge(off, cnt, i) => FromEdge(b, regs, nFields, off, cnt, i)
    case AtWord(off, cnt, i, progOff, progCnt, j, st) => FromWord(b, regs, nFields, off, cnt, i, progOff, progCnt, j, st)
    case AtAtom(off, cnt, i, progOff, progCnt, j, st, w) =>
      FromWord(b, regs, nFields, off, cnt, i, progOff, progCnt, j + 1, KWord(st, w, KAtom(b, w, regs, nFields)))
    case AtTarget(off, i) => Match(i, At(b.edges, off, i, MAX_EDGES).target)
    case Finished(result) => result
  }

  /** One more lookup on the same bank does not change the outcome. */
  lemma LookupKeepsOutcome(b: Bank, regs: RegFile, nFields: nat, c: Cursor)
    requires Full(b) && Proper(c)
    ensures Resume(b, regs, nFields, Lookup(b, regs, nFields, c)) == Resume(b, regs, nFields, c)
  {
    match c
    case AtEdge(off, cnt, i) => EdgeOpens(b, regs, nFields, off, cnt, i);
    case AtWord(off, cnt, i, progOff, progCnt, j, st) => WordLookup(b, regs, nFields, off, cnt, i, progOff, progCnt, j, st);
    case _ =>
  }

  lemma WordLookup(b: Bank, regs: RegFile, nFields: nat, off: nat, cnt: nat, i: nat,
                   progOff: nat, progCnt: nat, j: nat, st: seq<bool>)
    requires Full(b) && i < cnt && j <= progCnt && |st| <= STACK_MAX
    ensures Resume(b, regs, nFields, Lookup(b, regs, nFields, AtWord(off, cnt, i, progOff, progCnt, j, st)))
         == FromWord(b, regs, nFields, off, cnt, i, progOff, progCnt, j, st)
  {
    WordAdvances(b, regs, nFields, off, cnt, i, progOff, progCnt, j, st);
    if j < progCnt && At(b.prog, progOff, j, MAX_PROG_WORDS) >= 0x8000 {
      OpcodeIgnoresValue(st, At(b.prog, progOff, j, MAX_PROG_WORDS));
    }
  }

  lemma OpcodeIgnoresValue(st: seq<bool>, w: nat)
    requires |st| <= STACK_MAX && w >= 0x8000
    ensures KWord(st, w, true) == KWord(st, w, false)
  {
  }

  lemma EdgeOpens(b: Bank, regs: RegFile, nFields: nat, off: nat, cnt: nat, i: nat)
    requires Full(b) && i <= cnt
    ensures FromEdge(b, regs, nFields, off, cnt, i) ==
            if i == cnt then NoMatch
            else var e := At(b.edges, off, i, MAX_EDGES);
                 FromWord(b, regs, nFields, off, cnt, i, e.progOff, Clamped(e.progCnt, MAX_PROG_PER_EDGE), 0, [])
  {
    if i < cnt {
      var e := KListed(b, off, cnt)[i];
      assert KFetched(b, e.progOff, Clamped(e.progCnt, MAX_PROG_PER_EDGE))[0..]
          == KFetched(b, e.progOff, Clamped(e.progCnt, MAX_PROG_PER_EDGE));
    }
  }

  lemma WordAdvances(b: Bank, regs: RegFile, nFields: nat, off: nat, cnt: nat, i: nat,
                     progOff: nat, progCnt: nat, j: nat, st: seq<bool>)
    requires Full(b) && i < cnt && j <= progCnt && |st| <= STACK_MAX
    ensures j < progCnt ==>
              var w := At(b.prog, progOff, j, MAX_PROG_WORDS);
              FromWord(b, regs, nFields, off, cnt, i, progOff, progCnt, j, st) ==
              FromWord(b, regs, nFields, off, cnt, i, progOff, progCnt, j + 1, KWord(st, w, KAtom(b, w, regs, nFields)))
    ensures j == progCnt ==>
              FromWord(b, regs, nFields, off, cnt, i, progOff, progCnt, j, st) ==
              if st != [] && st[0] then Match(i, At(b.edges, off, i, MAX_EDGES).target)
              else FromEdge(b, regs, nFields, off, cnt, i + 1)
  {
    var words := KFetched(b, progOff, progCnt);
    if j < progCnt {
      assert words[j..][0] == words[j] && words[j..][1..] == words[j + 1..];
    } else {
      assert words[j..] == [];
    }
  }
}
