/**
 A compiled condition decides what the condition decides: on any register file that represents a reading,
 with any later growth of the tables, its words leave exactly one value, the condition's truth.
 */
module CompilerCorrectness {
  import opened Wrappers
  import opened Values
  import opened Predicates
  import opened Conditions
  import opened Table
  import opened Compiler

  // ----- Readings as registers -----

  /** The cell that stands for a value, given the ids of strings; integers must be exact as floats. */
  ghost predicate Represents(intern: map<string, nat>, v: Value, cell: Reg) {
    match v
    case Nil => cell == Reg(TY_NONE, 0)
    case Bool(b) => cell == Reg(TY_BOOL, if b then 1 else 0)
    case Int(i) => cell == Reg(TY_INT, i) && -(TWO_TO_53 as int) < i < TWO_TO_53
    case Str(s) => s in intern && cell == Reg(TY_STR, intern[s])
    case _ => false
  }

  /** Every field the tables know reads, in its register, the value the reading gives it (nil if none). */
  ghost predicate Reads(fields: map<string, nat>, intern: map<string, nat>, ctx: Context, regs: seq<Reg>) {
    forall f | f in fields :: Represents(intern, Lookup(ctx, f), ReadReg(regs, fields[f]))
  }

  /** The final tables, and an interning that extends theirs by whatever strings the reading brought. */
  ghost predicate Environment(end: Tables, intern: map<string, nat>, ctx: Context, regs: seq<Reg>) {
    && Valid(end) && |end.atoms| <= 0x8000
    && Includes(end.intern, intern) && Numbering(intern)
    && Reads(end.fields, intern, ctx, regs)
  }

  // ----- One atom -----

  /** Every value a register stands for is, as far as it has a number, that number. */
  lemma CellIsNumber(intern: map<string, nat>, v: Value, cell: Reg)
    requires Represents(intern, v, cell)
    ensures Numeric(cell.ty) <==> ToFloat(v).Some?
    ensures Numeric(cell.ty) ==> ToFloat(v) == Some(Fin(cell.val as real))
  {
    if v.Int? { SmallIntsAreExact(v.i); }
  }

  lemma EqualityDecides(intern: map<string, nat>, v: Value, cell: Reg, op: CmpOp, k: Value, kCell: Reg, fidx: nat)
    requires (op == Eq || op == Ne) && Numbering(intern) && Represents(intern, v, cell) && Represents(intern, k, kCell)
    requires kCell.ty >= 0
    ensures AtomHolds(Atom(fidx, OpCode(op), kCell.ty, kCell.val), cell) == Compares(op, v, k)
  {
    CellIsNumber(intern, v, cell);
    CellIsNumber(intern, k, kCell);
  }

  lemma OrderingDecides(intern: map<string, nat>, v: Value, cell: Reg, op: CmpOp, k: Value, kCell: Reg, fidx: nat)
    requires Ordering(op) && !k.Str? && Represents(intern, v, cell) && Represents(intern, k, kCell) && kCell.ty >= 0
    ensures AtomHolds(Atom(fidx, OpCode(op), kCell.ty, kCell.val), cell) == Compares(op, v, k)
  {
    CellIsNumber(intern, v, cell);
    CellIsNumber(intern, k, kCell);
  }

  /** The atom of a comparison, on the register of the field, is the comparison. */
  lemma AtomDecides(intern: map<string, nat>, v: Value, cell: Reg, op: CmpOp, k: Value, kCell: Reg, fidx: nat)
    requires op != In && op != NotIn && Scalar(k) && !(Ordering(op) && k.Str?)
    requires Numbering(intern) && Represents(intern, v, cell) && Represents(intern, k, kCell) && kCell.ty >= 0
    ensures AtomHolds(Atom(fidx, OpCode(op), kCell.ty, kCell.val), cell) == Compares(op, v, k)
  {
    if Ordering(op) {
      OrderingDecides(intern, v, cell, op, k, kCell, fidx);
    } else {
      EqualityDecides(intern, v, cell, op, k, kCell, fidx);
    }
  }

  lemma TruthyDecides(intern: map<string, nat>, v: Value, cell: Reg, fidx: nat)
    requires Numbering(intern) && "" in intern && intern[""] == 0 && Represents(intern, v, cell)
    ensures AtomHolds(Atom(fidx, OP_TRUTHY, TY_NONE, 0), cell) == PyTruthy(v)
  {
  }

  /** On every reading, the table decides an ordering of a field against this string as the kernel does. */
  ghost predicate StringsAlike(op: CmpOp, k: string) {
    forall intern: map<string, nat>, v: Value, cell: Reg, fidx: nat |
      Numbering(intern) && k in intern && Represents(intern, v, cell) ::
        AtomHolds(Atom(fidx, OpCode(op), TY_STR, intern[k]), cell) == Compares(op, v, Str(k))
  }

  /** Some string the ordering holds of, unless it is `< ""`. */
  function Ordered(op: CmpOp, k: string): string {
    if op == Lt then "" else if op == Gt then k + "a" else k
  }

  lemma {:induction false} LongerIsGreater(k: string)
    ensures StrLess(k, k + "a")
  {
    if k != [] {
      assert (k + "a")[1..] == k[1..] + "a";
      LongerIsGreater(k[1..]);
    }
  }

  lemma OrderedHolds(op: CmpOp, k: string)
    requires Ordering(op) && !(op == Lt && k == "")
    ensures Compares(op, Str(Ordered(op, k)), Str(k))
  {
    StrLessIrreflexive(k);
    LongerIsGreater(k);
    StrLessAsymmetric(k, k + "a");
  }

  lemma TableOrdersNoString(op: CmpOp, val: int, cell: Reg, fidx: nat)
    requires Ordering(op) && cell.ty == TY_STR
    ensures !AtomHolds(Atom(fidx, OpCode(op), TY_STR, val), cell)
  {
  }

  /** The table never orders strings; the kernel does, against every constant and with every operator but `< ""`. */
  lemma StringOrderingDiverges(op: CmpOp, k: string)
    requires Ordering(op)
    ensures StringsAlike(op, k) <==> op == Lt && k == ""
  {
    if !(op == Lt && k == "") {
      var s := Ordered(op, k);
      var intern: map<string, nat> := if s == k then map[k := 0] else map[k := 0, s := 1];
      var cell := Reg(TY_STR, intern[s]);
      assert Numbering(intern) && Represents(intern, Str(s), cell);
      OrderedHolds(op, k);
      TableOrdersNoString(op, intern[k], cell, 0);
    }
  }

  /** A comparison with the constant on the left is the flipped comparison with it on the right. */
  lemma FlipSwaps(op: CmpOp, k: Value, v: Value)
    requires op != In && op != NotIn
    ensures Compares(op, k, v) == Compares(Flip(op), v, k)
  {
    OrderSwap(k, v);
    EqSymmetric(k, v);
  }

  // ----- The words of a condition, read off the final tables -----

  /** The atom testing a field against a constant, in these tables' numbering. */
  function AtomOf(t: Tables, f: string, opcode: nat, k: Value): Atom
    requires f in t.fields && EncodeScalar(k, t.intern).Success?
  {
    var cell := EncodeScalar(k, t.intern).value;
    Atom(t.fields[f], opcode, cell.ty, cell.val)
  }

  /** The tables hold what a test of this field against this constant needs. */
  predicate Knows(t: Tables, f: string, opcode: nat, k: Value) {
    && f in t.fields && (k.Str? ==> k.s in t.intern)
    && EncodeScalar(k, t.intern).Success? && AtomOf(t, f, opcode, k) in t.atomIx
  }

  predicate KnowsAll(t: Tables, c: Cond)
    decreases c, 1
  {
    match c
    case Truthy(f) => Knows(t, f, OP_TRUTHY, Nil)
    case FieldCmp(f, op, k) => Knows(t, f, OpCode(op), k)
    case ConstCmp(k, op, f) => Knows(t, f, OpCode(Flip(op)), k)
    case Member(f, ks, _) => KnowsElems(t, f, ks)
    case Negation(inner) => KnowsAll(t, inner)
    case Junction(_, parts) => KnowsParts(t, parts)
  }

  predicate KnowsElems(t: Tables, f: string, ks: seq<Value>) {
    ks == [] || (Knows(t, f, OP_EQ, ks[0]) && KnowsElems(t, f, ks[1..]))
  }

  predicate KnowsParts(t: Tables, parts: seq<Cond>)
    decreases parts, 0
  {
    parts == [] || (KnowsAll(t, parts[0]) && KnowsParts(t, parts[1..]))
  }

  function WordOf(t: Tables, f: string, opcode: nat, k: Value): nat
    requires Knows(t, f, opcode, k)
  {
    t.atomIx[AtomOf(t, f, opcode, k)]
  }

  /** The program of a condition with every number looked up in one finished table: no threading, no growth. */
  function WordsOf(t: Tables, c: Cond): seq<nat>
    requires KnowsAll(t, c)
    decreases c, 1
  {
    match c
    case Truthy(f) => [WordOf(t, f, OP_TRUTHY, Nil)]
    case FieldCmp(f, op, k) => [WordOf(t, f, OpCode(op), k)]
    case ConstCmp(k, op, f) => [WordOf(t, f, OpCode(Flip(op)), k)]
    case Member(f, ks, negated) =>
      (if ks == [] then [OPC_FALSE] else WordsOfElems(t, f, ks, true)) + (if negated then [OPC_NOT] else [])
    case Negation(inner) => WordsOf(t, inner) + [OPC_NOT]
    case Junction(op, parts) => WordsOfParts(t, op, parts, true)
  }

  function WordsOfElems(t: Tables, f: string, ks: seq<Value>, first: bool): seq<nat>
    requires KnowsElems(t, f, ks)
  {
    if ks == [] then []
    else
      var w := WordOf(t, f, OP_EQ, ks[0]);
      (if first then [w] else [w, OPC_OR]) + WordsOfElems(t, f, ks[1..], false)
  }

  function WordsOfParts(t: Tables, op: BoolOp, parts: seq<Cond>, first: bool): seq<nat>
    requires KnowsParts(t, parts)
    decreases parts, 0
  {
    if parts == [] then []
    else WordsOf(t, parts[0]) + (if first then [] else [JunctionCode(op)]) + WordsOfParts(t, op, parts[1..], false)
  }

  // ----- Growth never renumbers: the emitted words are the final tables' words -----

  lemma ConstAtomIsWord(t: Tables, f: string, opcode: nat, k: Value, end: Tables)
    requires Valid(t) && f in t.fields && ConstAtom(t, t.fields[f], opcode, k).result.Success?
    requires Extends(ConstAtom(t, t.fields[f], opcode, k).tables, end) && Valid(end)
    ensures Knows(end, f, opcode, k) && ConstAtom(t, t.fields[f], opcode, k).result.value == WordOf(end, f, opcode, k)
  {
    ConstGrows(t, t.fields[f], opcode, k);
    var r := ConstAtom(t, t.fields[f], opcode, k);
    var cell := EncodeScalar(k, t.intern).value;
    ScalarStays(k, t.intern, end.intern);
    AtomStays(r.tables, Atom(t.fields[f], opcode, cell.ty, cell.val), end);
    assert f in r.tables.fields && end.fields[f] == t.fields[f];
  }

  lemma ScalarStays(k: Value, intern: map<string, nat>, later: map<string, nat>)
    requires Includes(InternFor(k, intern), later)
    ensures EncodeScalar(k, later) == EncodeScalar(k, intern) && (k.Str? ==> k.s in later)
  {
  }

  lemma AtomStays(t: Tables, a: Atom, end: Tables)
    requires Valid(t) && Valid(end) && Extends(t, end) && a in t.atomIx
    ensures a in end.atomIx && end.atomIx[a] == t.atomIx[a]
  {
    assert end.atoms[t.atomIx[a]] == a;
  }

  lemma CmpIsWord(t: Tables, f: string, op: CmpOp, k: Value, end: Tables)
    requires Valid(t) && TranslateCmp(t, f, op, k).result.Success?
    requires Extends(TranslateCmp(t, f, op, k).tables, end) && Valid(end)
    ensures Knows(end, f, OpCode(op), k) && TranslateCmp(t, f, op, k).result.value == [WordOf(end, f, OpCode(op), k)]
  {
    FieldGrows(t, f);
    ConstAtomIsWord(WithField(t, f), f, OpCode(op), k, end);
  }

  lemma TruthyIsWord(t: Tables, f: string, end: Tables)
    requires Valid(t) && Extends(Translate(t, Truthy(f)).tables, end) && Valid(end)
    ensures Knows(end, f, OP_TRUTHY, Nil) && Translate(t, Truthy(f)).result == Success([WordOf(end, f, OP_TRUTHY, Nil)])
  {
    FieldGrows(t, f);
    var t' := WithField(t, f);
    assert t' == t'.(intern := InternFor(Nil, t'.intern));
    ConstAtomIsWord(t', f, OP_TRUTHY, Nil, end);
  }

  /** Index stability: whatever is compiled later, a condition's words are those of the finished tables. */
  lemma {:induction false} TranslationIsStable(t: Tables, c: Cond, end: Tables)
    requires Valid(t) && Translate(t, c).result.Success?
    requires Extends(Translate(t, c).tables, end) && Valid(end)
    ensures KnowsAll(end, c) && Translate(t, c).result.value == WordsOf(end, c)
    decreases c, 1
  {
    match c
    case Truthy(f) => TruthyIsWord(t, f, end);
    case FieldCmp(f, op, k) => CmpIsWord(t, f, op, k, end);
    case ConstCmp(k, op, f) => CmpIsWord(t, f, Flip(op), k, end);
    case Member(f, ks, negated) =>
      FieldGrows(t, f);
      if ks != [] { ElemsAreStable(WithField(t, f), f, ks, true, end); }
    case Negation(inner) => TranslationIsStable(t, inner, end);
    case Junction(op, parts) => PartsAreStable(t, op, parts, true, end);
  }

  lemma {:induction false} ElemsAreStable(t: Tables, f: string, ks: seq<Value>, first: bool, end: Tables)
    requires Valid(t) && f in t.fields && TranslateElems(t, t.fields[f], ks, first).result.Success?
    requires Extends(TranslateElems(t, t.fields[f], ks, first).tables, end) && Valid(end)
    ensures KnowsElems(end, f, ks)
    ensures TranslateElems(t, t.fields[f], ks, first).result.value == WordsOfElems(end, f, ks, first)
    decreases |ks|
  {
    if ks != [] {
      var head := FirstElemIsStable(t, f, ks, first, end);
      ElemsAreStable(head, f, ks[1..], false, end);
    }
  }

  lemma FirstElemIsStable(t: Tables, f: string, ks: seq<Value>, first: bool, end: Tables) returns (head: Tables)
    requires Valid(t) && f in t.fields && ks != [] && TranslateElems(t, t.fields[f], ks, first).result.Success?
    requires Extends(TranslateElems(t, t.fields[f], ks, first).tables, end) && Valid(end)
    ensures head == ConstAtom(t, t.fields[f], OP_EQ, ks[0]).tables && Valid(head) && head.fields == t.fields
    ensures Knows(end, f, OP_EQ, ks[0])
    ensures ConstAtom(t, t.fields[f], OP_EQ, ks[0]).result == Success(WordOf(end, f, OP_EQ, ks[0]))
  {
    head := ConstAtom(t, t.fields[f], OP_EQ, ks[0]).tables;
    ConstGrows(t, t.fields[f], OP_EQ, ks[0]);
    ElemsGrow(head, t.fields[f], ks[1..], false);
    ExtendsTransitive(head, TranslateElems(head, t.fields[f], ks[1..], false).tables, end);
    ConstAtomIsWord(t, f, OP_EQ, ks[0], end);
  }

  lemma {:induction false} PartsAreStable(t: Tables, op: BoolOp, parts: seq<Cond>, first: bool, end: Tables)
    requires Valid(t) && TranslateParts(t, op, parts, first).result.Success?
    requires Extends(TranslateParts(t, op, parts, first).tables, end) && Valid(end)
    ensures KnowsParts(end, parts)
    ensures TranslateParts(t, op, parts, first).result.value == WordsOfParts(end, op, parts, first)
    decreases parts, 0
  {
    if parts != [] {
      var head := Translate(t, parts[0]);
      TranslateGrows(t, parts[0]);
      PartsGrow(head.tables, op, parts[1..], false);
      ExtendsTransitive(head.tables, TranslateParts(head.tables, op, parts[1..], false).tables, end);
      TranslationIsStable(t, parts[0], end);
      PartsAreStable(head.tables, op, parts[1..], false, end);
    }
  }

  // ----- The words decide -----

  /** The deepest stack a condition's program needs. */
  function Peak(c: Cond): nat
    decreases c, 1
  {
    match c
    case Member(_, ks, _) => if |ks| <= 1 then 1 else 2
    case Negation(inner) => Peak(inner)
    case Junction(_, parts) => PeakOfParts(parts, true)
    case _ => 1
  }

  /** Every part but the first runs on top of the value folded so far. */
  function PeakOfParts(parts: seq<Cond>, first: bool): nat
    decreases parts, 0
  {
    if parts == [] then if first then 0 else 1
    else Max(Peak(parts[0]) + (if first then 0 else 1), PeakOfParts(parts[1..], false))
  }

  /** What a program must do wherever it starts: push exactly one value, given the room. */
  predicate Pushes(words: seq<nat>, truth: seq<bool>, st: seq<bool>, limit: nat, value: bool) {
    Exec(words, truth, st, limit) == Done(st + [value])
  }

  /** Fold a program's value into the one on top of the stack. */
  predicate Folds(words: seq<nat>, truth: seq<bool>, st: seq<bool>, limit: nat, acc: bool, value: bool) {
    Exec(words, truth, st + [acc], limit) == Done(st + [value])
  }

  /**
   Compiler correctness. Whatever the tables held before and whatever they grow to afterwards, on every
   reading the condition's words push the condition's truth and nothing else, within its peak depth.
   */
  lemma TranslationDecides(t: Tables, c: Cond, end: Tables, intern: map<string, nat>, ctx: Context,
                           regs: seq<Reg>, st: seq<bool>, limit: nat)
    requires Valid(t) && LevelM(c) && Translate(t, c).result.Success?
    requires Extends(Translate(t, c).tables, end) && Environment(end, intern, ctx, regs)
    requires |st| + Peak(c) <= limit
    ensures Pushes(Translate(t, c).result.value, AtomTruth(end.atoms, regs), st, limit, Truth(c, ctx))
  {
    TranslationIsStable(t, c, end);
    WordsDecide(end, c, intern, ctx, regs, st, limit);
  }

  lemma {:induction false} WordsDecide(t: Tables, c: Cond, intern: map<string, nat>, ctx: Context,
                                       regs: seq<Reg>, st: seq<bool>, limit: nat)
    requires LevelM(c) && KnowsAll(t, c) && Environment(t, intern, ctx, regs)
    requires |st| + Peak(c) <= limit
    ensures Pushes(WordsOf(t, c), AtomTruth(t.atoms, regs), st, limit, Truth(c, ctx))
    decreases c, 1
  {
    var truth := AtomTruth(t.atoms, regs);
    match c
    case Truthy(f) =>
      TruthyWordDecides(t, f, intern, ctx, regs);
      AtomPushes(WordOf(t, f, OP_TRUTHY, Nil), truth, st, limit);
    case FieldCmp(f, op, k) =>
      CmpWordDecides(t, f, op, k, intern, ctx, regs);
      AtomPushes(WordOf(t, f, OpCode(op), k), truth, st, limit);
    case ConstCmp(k, op, f) =>
      FlipSwaps(op, k, Lookup(ctx, f));
      CmpWordDecides(t, f, Flip(op), k, intern, ctx, regs);
      AtomPushes(WordOf(t, f, OpCode(Flip(op)), k), truth, st, limit);
    case Member(f, ks, negated) => MemberWordsDecide(t, f, ks, negated, intern, ctx, regs, st, limit);
    case Negation(inner) =>
      WordsDecide(t, inner, intern, ctx, regs, st, limit);
      NotPushes(WordsOf(t, inner), truth, st, limit, Truth(inner, ctx));
    case Junction(op, parts) =>
      WordsDecide(t, parts[0], intern, ctx, regs, st, limit);
      PartsFold(t, op, parts[1..], intern, ctx, regs, st, Truth(parts[0], ctx), limit);
      PushesThenFolds(WordsOf(t, parts[0]), WordsOfParts(t, op, parts[1..], false), truth, st, limit,
                      Truth(parts[0], ctx), Truth(c, ctx));
  }

  lemma MemberWordsDecide(t: Tables, f: string, ks: seq<Value>, negated: bool, intern: map<string, nat>, ctx: Context,
                          regs: seq<Reg>, st: seq<bool>, limit: nat)
    requires KnowsElems(t, f, ks) && (forall i | 0 <= i < |ks| :: Scalar(ks[i])) && Environment(t, intern, ctx, regs)
    requires |st| + Peak(Member(f, ks, negated)) <= limit
    ensures Pushes(WordsOf(t, Member(f, ks, negated)), AtomTruth(t.atoms, regs), st, limit, Truth(Member(f, ks, negated), ctx))
  {
    var v := Lookup(ctx, f);
    AnyEqIsIn(v, ks);
    MembershipPushes(t, f, ks, intern, ctx, regs, st, limit);
    var words := if ks == [] then [OPC_FALSE] else WordsOfElems(t, f, ks, true);
    if negated {
      NotPushes(words, AtomTruth(t.atoms, regs), st, limit, AnyEq(v, ks));
    } else {
      assert words + [] == words;
    }
  }

  lemma {:induction false} PartsFold(t: Tables, op: BoolOp, parts: seq<Cond>, intern: map<string, nat>,
                                     ctx: Context, regs: seq<Reg>, st: seq<bool>, acc: bool, limit: nat)
    requires KnowsParts(t, parts) && forall i | 0 <= i < |parts| :: LevelM(parts[i])
    requires Environment(t, intern, ctx, regs) && |st| + PeakOfParts(parts, false) <= limit
    ensures Folds(WordsOfParts(t, op, parts, false), AtomTruth(t.atoms, regs), st, limit, acc,
                  Joined(op, acc, TruthOfParts(op, parts, ctx)))
    decreases parts, 0
  {
    if parts != [] {
      var value := Truth(parts[0], ctx);
      WordsDecide(t, parts[0], intern, ctx, regs, st + [acc], limit);
      PartsFold(t, op, parts[1..], intern, ctx, regs, st, Joined(op, acc, value), limit);
      FoldsThen(WordsOf(t, parts[0]), JunctionCode(op), WordsOfParts(t, op, parts[1..], false),
                AtomTruth(t.atoms, regs), st, limit, acc, value, Joined(op, acc, TruthOfParts(op, parts, ctx)));
    }
  }

  lemma MembershipPushes(t: Tables, f: string, ks: seq<Value>, intern: map<string, nat>, ctx: Context,
                         regs: seq<Reg>, st: seq<bool>, limit: nat)
    requires KnowsElems(t, f, ks) && forall i | 0 <= i < |ks| :: Scalar(ks[i])
    requires Environment(t, intern, ctx, regs) && |st| + (if |ks| <= 1 then 1 else 2) <= limit
    ensures Pushes(if ks == [] then [OPC_FALSE] else WordsOfElems(t, f, ks, true), AtomTruth(t.atoms, regs), st, limit,
                   AnyEq(Lookup(ctx, f), ks))
  {
    var truth := AtomTruth(t.atoms, regs);
    if ks == [] {
      ExecOne(OPC_FALSE, truth, st, limit);
    } else {
      var w := WordOf(t, f, OP_EQ, ks[0]);
      CmpWordDecides(t, f, Eq, ks[0], intern, ctx, regs);
      AtomPushes(w, truth, st, limit);
      ElemsFold(t, f, ks[1..], intern, ctx, regs, st, truth[w], limit);
      PushesThenFolds([w], WordsOfElems(t, f, ks[1..], false), truth, st, limit, truth[w], AnyEq(Lookup(ctx, f), ks));
      assert [w] + [] == [w];
    }
  }

  lemma {:induction false} ElemsFold(t: Tables, f: string, ks: seq<Value>, intern: map<string, nat>, ctx: Context,
                                     regs: seq<Reg>, st: seq<bool>, acc: bool, limit: nat)
    requires KnowsElems(t, f, ks) && forall i | 0 <= i < |ks| :: Scalar(ks[i])
    requires Environment(t, intern, ctx, regs) && (ks != [] ==> |st| + 2 <= limit)
    ensures Folds(WordsOfElems(t, f, ks, false), AtomTruth(t.atoms, regs), st, limit, acc,
                  acc || AnyEq(Lookup(ctx, f), ks))
  {
    if ks != [] {
      var truth := AtomTruth(t.atoms, regs);
      var w := WordOf(t, f, OP_EQ, ks[0]);
      CmpWordDecides(t, f, Eq, ks[0], intern, ctx, regs);
      AtomPushes(w, truth, st + [acc], limit);
      ElemsFold(t, f, ks[1..], intern, ctx, regs, st, acc || truth[w], limit);
      assert [w] + [OPC_OR] == [w, OPC_OR];
      FoldsThen([w], OPC_OR, WordsOfElems(t, f, ks[1..], false), truth, st, limit, acc, truth[w],
                acc || AnyEq(Lookup(ctx, f), ks));
    }
  }

  // ----- Single words -----

  lemma CmpWordDecides(t: Tables, f: string, op: CmpOp, k: Value, intern: map<string, nat>, ctx: Context, regs: seq<Reg>)
    requires op != In && op != NotIn && Scalar(k) && !(Ordering(op) && k.Str?)
    requires Knows(t, f, OpCode(op), k) && Environment(t, intern, ctx, regs)
    ensures var w := WordOf(t, f, OpCode(op), k);
            w < |t.atoms| <= 0x8000 && AtomTruth(t.atoms, regs)[w] == Compares(op, Lookup(ctx, f), k)
  {
    var cell := EncodeScalar(k, t.intern).value;
    assert Represents(intern, k, cell);
    AtomDecides(intern, Lookup(ctx, f), ReadReg(regs, t.fields[f]), op, k, cell, t.fields[f]);
  }

  lemma TruthyWordDecides(t: Tables, f: string, intern: map<string, nat>, ctx: Context, regs: seq<Reg>)
    requires Knows(t, f, OP_TRUTHY, Nil) && Environment(t, intern, ctx, regs)
    ensures var w := WordOf(t, f, OP_TRUTHY, Nil);
            w < |t.atoms| <= 0x8000 && AtomTruth(t.atoms, regs)[w] == PyTruthy(Lookup(ctx, f))
  {
    assert "" in t.intern && intern[""] == 0;
    TruthyDecides(intern, Lookup(ctx, f), ReadReg(regs, t.fields[f]), t.fields[f]);
  }

  predicate AnyEq(v: Value, ks: seq<Value>) {
    ks != [] && (PyEq(v, ks[0]) || AnyEq(v, ks[1..]))
  }

  lemma {:induction false} AnyEqIsIn(v: Value, ks: seq<Value>)
    ensures AnyEq(v, ks) == Compares(In, v, List(ks))
  {
    if ks != [] {
      AnyEqIsIn(v, ks[1..]);
      assert PyIn(v, List(ks)) == Some(exists i | 0 <= i < |ks| :: PyEq(v, ks[i]));
      if i :| 0 <= i < |ks[1..]| && PyEq(v, ks[1..][i]) { assert ks[i + 1] == ks[1..][i]; }
      if i :| 0 <= i < |ks| && PyEq(v, ks[i]) { assert i > 0 ==> ks[1..][i - 1] == ks[i]; }
    }
  }

  lemma ExecOne(w: nat, truth: seq<bool>, st: seq<bool>, limit: nat)
    ensures Exec([w], truth, st, limit) == Step(st, w, truth, limit)
  {
    assert [w][1..] == [];
    match Step(st, w, truth, limit)
    case Done(st') => assert Exec([], truth, st', limit) == Done(st');
    case _ =>
  }

  lemma AtomPushes(w: nat, truth: seq<bool>, st: seq<bool>, limit: nat)
    requires w < |truth| <= 0x8000 && |st| < limit
    ensures Pushes([w], truth, st, limit, truth[w])
  {
    ExecOne(w, truth, st, limit);
  }

  lemma NotPushes(words: seq<nat>, truth: seq<bool>, st: seq<bool>, limit: nat, value: bool)
    requires Pushes(words, truth, st, limit, value)
    ensures Pushes(words + [OPC_NOT], truth, st, limit, !value)
  {
    ExecAppend(words, [OPC_NOT], truth, st, limit);
    var st' := st + [value];
    assert st'[..|st|] == st;
    ExecOne(OPC_NOT, truth, st', limit);
  }

  lemma PushesThenFolds(words: seq<nat>, rest: seq<nat>, truth: seq<bool>, st: seq<bool>, limit: nat, acc: bool, end: bool)
    requires Pushes(words, truth, st, limit, acc) && Folds(rest, truth, st, limit, acc, end)
    ensures Pushes(words + [] + rest, truth, st, limit, end)
  {
    assert words + [] == words;
    ExecAppend(words, rest, truth, st, limit);
  }

  /** A pushed value, the operator that joins it to the one below, and the rest of the fold. */
  lemma FoldsThen(words: seq<nat>, opcode: nat, rest: seq<nat>, truth: seq<bool>, st: seq<bool>, limit: nat,
                  acc: bool, value: bool, end: bool)
    requires opcode == OPC_AND || opcode == OPC_OR
    requires Pushes(words, truth, st + [acc], limit, value)
    requires Folds(rest, truth, st, limit, if opcode == OPC_AND then acc && value else acc || value, end)
    ensures Folds(words + [opcode] + rest, truth, st, limit, acc, end)
  {
    ExecAppend(words, [opcode], truth, st + [acc], limit);
    var st' := st + [acc] + [value];
    assert st'[..|st|] == st;
    ExecOne(opcode, truth, st', limit);
    ExecAppend(words + [opcode], rest, truth, st + [acc], limit);
  }

  // ----- Which conditions compile -----

  predicate ConstFits(k: Value) {
    k.Int? ==> I32_MIN <= k.i <= I32_MAX
  }

  /** Every integer constant is an i32. */
  predicate ConstsFit(c: Cond)
    decreases c, 1
  {
    match c
    case Truthy(_) => true
    case FieldCmp(_, _, k) => ConstFits(k)
    case ConstCmp(k, _, _) => ConstFits(k)
    case Member(_, ks, _) => forall i | 0 <= i < |ks| :: ConstFits(ks[i])
    case Negation(inner) => ConstsFit(inner)
    case Junction(_, parts) => forall i | 0 <= i < |parts| :: ConstsFit(parts[i])
  }

  /** A Level M condition is refused exactly when one of its integers is no i32. */
  lemma {:induction false} CompilesIffConstsFit(t: Tables, c: Cond)
    requires LevelM(c)
    ensures Translate(t, c).result.Success? <==> ConstsFit(c)
    decreases c, 1
  {
    match c
    case Member(f, ks, _) => ElemsCompile(WithField(t, f), WithField(t, f).fields[f], ks, true);
    case Negation(inner) => CompilesIffConstsFit(t, inner);
    case Junction(op, parts) => PartsCompile(t, op, parts, true);
    case _ =>
  }

  lemma {:induction false} ElemsCompile(t: Tables, fidx: nat, ks: seq<Value>, first: bool)
    requires forall i | 0 <= i < |ks| :: Scalar(ks[i])
    ensures TranslateElems(t, fidx, ks, first).result.Success? <==> forall i | 0 <= i < |ks| :: ConstFits(ks[i])
    decreases |ks|
  {
    if ks != [] {
      ElemsCompile(ConstAtom(t, fidx, OP_EQ, ks[0]).tables, fidx, ks[1..], false);
      assert forall i | 1 <= i < |ks| :: ks[i] == ks[1..][i - 1];
    }
  }

  lemma {:induction false} PartsCompile(t: Tables, op: BoolOp, parts: seq<Cond>, first: bool)
    requires forall i | 0 <= i < |parts| :: LevelM(parts[i])
    ensures TranslateParts(t, op, parts, first).result.Success? <==> forall i | 0 <= i < |parts| :: ConstsFit(parts[i])
    decreases parts, 0
  {
    if parts != [] {
      CompilesIffConstsFit(t, parts[0]);
      PartsCompile(Translate(t, parts[0]).tables, op, parts[1..], false);
      assert forall i | 1 <= i < |parts| :: parts[i] == parts[1..][i - 1];
    }
  }

  /** And that is the only reason. */
  lemma {:induction false} RefusedForInts(t: Tables, c: Cond)
    requires LevelM(c)
    ensures Translate(t, c).result.Failure? ==> Translate(t, c).result.error == IntOutOfI32
    decreases c, 1
  {
    match c
    case Member(f, ks, _) => ElemsRefusedForInts(WithField(t, f), WithField(t, f).fields[f], ks, true);
    case Negation(inner) => RefusedForInts(t, inner);
    case Junction(op, parts) => PartsRefusedForInts(t, op, parts, true);
    case _ =>
  }

  lemma {:induction false} ElemsRefusedForInts(t: Tables, fidx: nat, ks: seq<Value>, first: bool)
    requires forall i | 0 <= i < |ks| :: Scalar(ks[i])
    ensures var r := TranslateElems(t, fidx, ks, first).result; r.Failure? ==> r.error == IntOutOfI32
    decreases |ks|
  {
    if ks != [] { ElemsRefusedForInts(ConstAtom(t, fidx, OP_EQ, ks[0]).tables, fidx, ks[1..], false); }
  }

  lemma {:induction false} PartsRefusedForInts(t: Tables, op: BoolOp, parts: seq<Cond>, first: bool)
    requires forall i | 0 <= i < |parts| :: LevelM(parts[i])
    ensures var r := TranslateParts(t, op, parts, first).result; r.Failure? ==> r.error == IntOutOfI32
    decreases parts, 0
  {
    if parts != [] {
      RefusedForInts(t, parts[0]);
      PartsRefusedForInts(Translate(t, parts[0]).tables, op, parts[1..], false);
    }
  }
}
