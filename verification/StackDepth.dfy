/**
 The compiler's own depth count (prismpath-hw/ppt_compile.py, _stack_depth) and what compiled conditions
 need: the count is a recursion on the condition, and it decides which operand stacks can run it.
 */
module StackDepth {
  import opened Wrappers
  import opened Values
  import opened Predicates
  import opened Conditions
  import opened Table
  import opened Compiler
  import opened CompilerCorrectness

  datatype Walk = Walk(depth: int, peak: int)

  function DepthMove(w: nat): int {
    if w < 0x8000 || w == OPC_TRUE || w == OPC_FALSE then 1
    else if w == OPC_AND || w == OPC_OR then -1
    else 0
  }

  function Larger(a: int, b: int): int {
    if a < b then b else a
  }

  function WalkFrom(words: seq<nat>, at: Walk): Walk {
    if words == [] then at
    else
      var depth := at.depth + DepthMove(words[0]);
      WalkFrom(words[1..], Walk(depth, Larger(at.peak, depth)))
  }

  /** The peak, or `None` where the source raises: a program must leave exactly one value. */
  method CountDepth(prog: seq<nat>) returns (peak: Option<int>)
    ensures var w := WalkFrom(prog, Walk(0, 0));
            peak == if w.depth == 1 then Some(w.peak) else None
  {
    var depth, high := 0, 0;
    ghost var whole := WalkFrom(prog, Walk(0, 0));
    for i := 0 to |prog|
      invariant WalkFrom(prog[i..], Walk(depth, high)) == whole
    {
      var word := prog[i];
      assert prog[i..][0] == word && prog[i..][1..] == prog[i + 1..];
      if word < 0x8000 || word == OPC_TRUE || word == OPC_FALSE {
        depth := depth + 1;
      } else if word == OPC_AND || word == OPC_OR {
        depth := depth - 1;
      }
      high := Larger(high, depth);
    }
    peak := if depth == 1 then Some(high) else None;
  }

  lemma {:induction false} WalkAppend(a: seq<nat>, b: seq<nat>, at: Walk)
    ensures WalkFrom(a + b, at) == WalkFrom(b, WalkFrom(a, at))
  {
    if a == [] {
      assert a + b == b;
    } else {
      assert (a + b)[0] == a[0] && (a + b)[1..] == a[1..] + b;
      var depth := at.depth + DepthMove(a[0]);
      WalkAppend(a[1..], b, Walk(depth, Larger(at.peak, depth)));
    }
  }

  /** The walk of a program that pushes one value and climbs `peak` above where it starts. */
  predicate Climbs(words: seq<nat>, peak: nat, at: Walk) {
    WalkFrom(words, at) == Climbed(at, peak)
  }

  function Climbed(at: Walk, peak: nat): Walk {
    Walk(at.depth + 1, Larger(at.peak, at.depth + peak))
  }

  /** The walk of a fold: from one accumulated value to one, climbing to `peak` above the stack below it. */
  predicate Levels(words: seq<nat>, peak: nat, at: Walk) {
    WalkFrom(words, at) == Walk(at.depth, Larger(at.peak, at.depth - 1 + peak))
  }

  lemma OneWord(w: nat, at: Walk)
    ensures WalkFrom([w], at) == Walk(at.depth + DepthMove(w), Larger(at.peak, at.depth + DepthMove(w)))
  {
    assert [w][1..] == [];
    assert WalkFrom([], Walk(at.depth + DepthMove(w), Larger(at.peak, at.depth + DepthMove(w))))
        == Walk(at.depth + DepthMove(w), Larger(at.peak, at.depth + DepthMove(w)));
  }

  lemma NotClimbs(words: seq<nat>, peak: nat, at: Walk)
    requires Climbs(words, peak, at) && peak >= 1
    ensures Climbs(words + [OPC_NOT], peak, at)
  {
    WalkAppend(words, [OPC_NOT], at);
    OneWord(OPC_NOT, Climbed(at, peak));
  }

  lemma ClimbThenLevel(words: seq<nat>, rest: seq<nat>, peak: nat, restPeak: nat, at: Walk)
    requires Climbs(words, peak, at) && Levels(rest, restPeak, Climbed(at, peak))
    ensures Climbs(words + [] + rest, Max(peak, restPeak), at)
  {
    assert words + [] == words;
    WalkAppend(words, rest, at);
  }

  lemma JoinThenLevel(words: seq<nat>, opcode: nat, rest: seq<nat>, peak: nat, restPeak: nat, at: Walk)
    requires Climbs(words, peak, at) && peak >= 1 && DepthMove(opcode) == -1
    requires Levels(rest, restPeak, Walk(at.depth, Larger(at.peak, at.depth + peak)))
    ensures Levels(words + [opcode] + rest, Max(peak + 1, restPeak), at)
  {
    WalkAppend(words, [opcode], at);
    OneWord(opcode, Climbed(at, peak));
    WalkAppend(words + [opcode], rest, at);
  }

  lemma {:induction false} PeakIsPositive(c: Cond)
    requires LevelM(c)
    ensures Peak(c) >= 1
    decreases c
  {
    match c
    case Negation(inner) => PeakIsPositive(inner);
    case Junction(_, parts) => PeakIsPositive(parts[0]);
    case _ =>
  }

  /** A condition's words, walked from anywhere, end one value higher and climb exactly the condition's peak. */
  lemma {:induction false} WordsClimb(t: Tables, c: Cond, at: Walk)
    requires Valid(t) && |t.atoms| <= 0x8000 && LevelM(c) && KnowsAll(t, c)
    ensures Climbs(WordsOf(t, c), Peak(c), at)
    decreases c, 1
  {
    match c
    case Truthy(f) => OneWord(WordOf(t, f, OP_TRUTHY, Nil), at);
    case FieldCmp(f, op, k) => OneWord(WordOf(t, f, OpCode(op), k), at);
    case ConstCmp(k, op, f) => OneWord(WordOf(t, f, OpCode(Flip(op)), k), at);
    case Member(f, ks, negated) =>
      var words := if ks == [] then [OPC_FALSE] else WordsOfElems(t, f, ks, true);
      MembersClimb(t, f, ks, at);
      if negated { NotClimbs(words, Peak(c), at); } else { assert words + [] == words; }
    case Negation(inner) =>
      WordsClimb(t, inner, at);
      PeakIsPositive(inner);
      NotClimbs(WordsOf(t, inner), Peak(inner), at);
    case Junction(op, parts) =>
      WordsClimb(t, parts[0], at);
      PartsLevel(t, op, parts[1..], Climbed(at, Peak(parts[0])));
      ClimbThenLevel(WordsOf(t, parts[0]), WordsOfParts(t, op, parts[1..], false),
                     Peak(parts[0]), PeakOfParts(parts[1..], false), at);
  }

  /** `at.peak` has already seen the accumulated value. */
  lemma {:induction false} PartsLevel(t: Tables, op: BoolOp, parts: seq<Cond>, at: Walk)
    requires Valid(t) && |t.atoms| <= 0x8000 && KnowsParts(t, parts) && forall i | 0 <= i < |parts| :: LevelM(parts[i])
    requires parts == [] ==> at.peak >= at.depth
    ensures Levels(WordsOfParts(t, op, parts, false), PeakOfParts(parts, false), at)
    decreases parts, 0
  {
    if parts != [] {
      var peak := Peak(parts[0]);
      WordsClimb(t, parts[0], at);
      PeakIsPositive(parts[0]);
      PartsLevel(t, op, parts[1..], Walk(at.depth, Larger(at.peak, at.depth + peak)));
      JoinThenLevel(WordsOf(t, parts[0]), JunctionCode(op), WordsOfParts(t, op, parts[1..], false),
                    peak, PeakOfParts(parts[1..], false), at);
    }
  }

  lemma MembersClimb(t: Tables, f: string, ks: seq<Value>, at: Walk)
    requires Valid(t) && |t.atoms| <= 0x8000 && KnowsElems(t, f, ks)
    ensures Climbs(if ks == [] then [OPC_FALSE] else WordsOfElems(t, f, ks, true), if |ks| <= 1 then 1 else 2, at)
  {
    if ks == [] {
      OneWord(OPC_FALSE, at);
    } else {
      var w := WordOf(t, f, OP_EQ, ks[0]);
      OneWord(w, at);
      ElemsLevel(t, f, ks[1..], Climbed(at, 1));
      ClimbThenLevel([w], WordsOfElems(t, f, ks[1..], false), 1, if |ks| == 1 then 1 else 2, at);
      assert [w] + [] == [w];
    }
  }

  lemma {:induction false} ElemsLevel(t: Tables, f: string, ks: seq<Value>, at: Walk)
    requires Valid(t) && |t.atoms| <= 0x8000 && KnowsElems(t, f, ks)
    requires ks == [] ==> at.peak >= at.depth
    ensures Levels(WordsOfElems(t, f, ks, false), if ks == [] then 1 else 2, at)
    decreases |ks|
  {
    if ks != [] {
      var w := WordOf(t, f, OP_EQ, ks[0]);
      OneWord(w, at);
      ElemsLevel(t, f, ks[1..], Walk(at.depth, Larger(at.peak, at.depth + 1)));
      JoinThenLevel([w], OPC_OR, WordsOfElems(t, f, ks[1..], false), 1, if |ks| == 1 then 1 else 2, at);
      assert [w] + [OPC_OR] == [w, OPC_OR];
    }
  }

  /** The count the compiler reports for a condition is the recursion on the condition. */
  lemma CountIsPeak(t: Tables, c: Cond)
    requires Valid(t) && |t.atoms| <= 0x8000 && LevelM(c) && KnowsAll(t, c)
    ensures WalkFrom(WordsOf(t, c), Walk(0, 0)) == Walk(1, Peak(c))
  {
    WordsClimb(t, c, Walk(0, 0));
    PeakIsPositive(c);
  }

  // ----- The count is what an operand stack must hold -----

  /** A program with its operands never runs out of an operand stack iff the walk stays within it. */
  lemma {:induction false} LimitIsPeak(words: seq<nat>, nAtoms: nat, depth: nat, high: nat, limit: nat)
    requires DepthAfter(words, nAtoms, depth, high).Some? && depth <= limit
    ensures DepthAfter(words, nAtoms, depth, limit).Some? <==> WalkFrom(words, Walk(depth, depth)).peak <= limit
    ensures DepthAfter(words, nAtoms, depth, limit).Some? ==>
              DepthAfter(words, nAtoms, depth, limit) == DepthAfter(words, nAtoms, depth, high)
  {
    if words != [] {
      var next := DepthStep(depth, words[0], nAtoms, high).value;
      var at := Walk(next, Larger(depth, next));
      PeakGrows(words[1..], at);
      if next <= limit {
        LimitIsPeak(words[1..], nAtoms, next, high, limit);
        StartPeak(words[1..], next, depth);
      }
    }
  }

  lemma {:induction false} PeakGrows(words: seq<nat>, at: Walk)
    ensures WalkFrom(words, at).peak >= at.peak
  {
    if words != [] {
      var depth := at.depth + DepthMove(words[0]);
      PeakGrows(words[1..], Walk(depth, Larger(at.peak, depth)));
    }
  }

  lemma {:induction false} StartPeak(words: seq<nat>, depth: int, high: int)
    ensures WalkFrom(words, Walk(depth, Larger(high, depth))).peak == Larger(high, WalkFrom(words, Walk(depth, depth)).peak)
  {
    if words != [] {
      var next := depth + DepthMove(words[0]);
      StartPeak(words[1..], next, Larger(high, depth));
      StartPeak(words[1..], next, depth);
    }
  }

  /** A compiled condition runs on an operand stack exactly when its peak fits. */
  lemma CompiledRunsIffPeakFits(t: Tables, c: Cond, limit: nat)
    requires Valid(t) && |t.atoms| <= 0x8000 && LevelM(c) && KnowsAll(t, c)
    ensures WellStacked(WordsOf(t, c), |t.atoms|, limit) <==> Peak(c) <= limit
  {
    var words := WordsOf(t, c);
    EmptyReadingExists(t, c, Peak(c));
    CountIsPeak(t, c);
    LimitIsPeak(words, |t.atoms|, 0, Peak(c), limit);
  }

  /** On the stack its peak asks for, a compiled condition always runs: the all-absent reading shows it. */
  lemma EmptyReadingExists(t: Tables, c: Cond, limit: nat)
    requires Valid(t) && |t.atoms| <= 0x8000 && LevelM(c) && KnowsAll(t, c) && Peak(c) <= limit
    ensures WellStacked(WordsOf(t, c), |t.atoms|, limit)
  {
    assert Environment(t, t.intern, map[], []);
    WordsDecide(t, c, t.intern, map[], [], [], limit);
    DepthIsExact(WordsOf(t, c), AtomTruth(t.atoms, []), [], limit);
  }

  // ----- How deep conditions get -----

  /** A condition that is one test, perhaps negated. */
  predicate Test(c: Cond) {
    match c
    case Negation(inner) => Test(inner)
    case Truthy(_) => true
    case FieldCmp(_, _, _) => true
    case ConstCmp(_, _, _) => true
    case _ => false
  }

  /** How many junctions and lists stand inside one another. */
  function Nesting(c: Cond): nat
    decreases c, 1
  {
    match c
    case Member(_, ks, _) => if |ks| <= 1 then 0 else 1
    case Negation(inner) => Nesting(inner)
    case Junction(_, parts) => 1 + NestingOfParts(parts)
    case _ => 0
  }

  function NestingOfParts(parts: seq<Cond>): nat
    decreases parts, 0
  {
    if parts == [] then 0 else Max(Nesting(parts[0]), NestingOfParts(parts[1..]))
  }

  /** Depth grows by at most one per nesting level; one level more than the levels is always enough. */
  lemma {:induction false} NestingBoundsPeak(c: Cond)
    ensures Peak(c) <= 1 + Nesting(c)
    decreases c, 1
  {
    match c
    case Negation(inner) => NestingBoundsPeak(inner);
    case Junction(_, parts) => NestingBoundsParts(parts, true);
    case _ =>
  }

  lemma {:induction false} NestingBoundsParts(parts: seq<Cond>, first: bool)
    ensures PeakOfParts(parts, first) <= 2 + NestingOfParts(parts)
    decreases parts, 0
  {
    if parts != [] {
      NestingBoundsPeak(parts[0]);
      NestingBoundsParts(parts[1..], false);
    }
  }

  /** However long, a flat chain of tests or a membership list needs a stack of two. */
  lemma {:induction false} FlatChainsNeedTwo(c: Cond)
    requires (c.Junction? && forall i | 0 <= i < |c.parts| :: Test(c.parts[i])) || c.Member?
    ensures Peak(c) <= 2
  {
    if c.Junction? { FlatPartsNeedTwo(c.parts, true); }
  }

  lemma {:induction false} FlatPartsNeedTwo(parts: seq<Cond>, first: bool)
    requires forall i | 0 <= i < |parts| :: Test(parts[i])
    ensures PeakOfParts(parts, first) <= 2
  {
    if parts != [] {
      TestNeedsOne(parts[0]);
      FlatPartsNeedTwo(parts[1..], false);
    }
  }

  lemma {:induction false} TestNeedsOne(c: Cond)
    requires Test(c)
    ensures Peak(c) == 1
  {
    if c.Negation? { TestNeedsOne(c.inner); }
  }
}
