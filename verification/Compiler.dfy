/**
 The table compiler's condition half (prismpath-hw/ppt_compile.py): interning tables that only grow,
 the translation of a condition to stack-machine words, and the proof that the words decide the condition.
 */
module Compiler {
  import opened Wrappers
  import opened Values
  import opened Predicates
  import opened Conditions
  import opened Table

  const I32_MIN: int := -0x8000_0000
  const I32_MAX: int := 0x7FFF_FFFF

  datatype SubsetError =
    | IntOutOfI32 | FloatValue | NonScalarValue
    | NotLevelM | SemanticEdge | DanglingTarget | BadStart
    | SafeUndeclared | DanglingSafe | MigrationUndeclared | ScriptRaises | ScriptSuspends

  /** The four tables of a `TableImage` that compiling a condition reads and extends. */
  datatype Tables = Tables(fields: map<string, nat>, intern: map<string, nat>, atoms: seq<Atom>, atomIx: map<Atom, nat>)

  datatype Compiled<+T> = Compiled(tables: Tables, result: Result<T, SubsetError>)

  const EMPTY := Tables(map[], map["" := 0], [], map[])

  // ----- What each step does to the tables -----

  function WithKey(m: map<string, nat>, key: string): (m': map<string, nat>)
    ensures key in m'
  {
    if key in m then m else m[key := |m|]
  }

  function WithField(t: Tables, name: string): Tables {
    t.(fields := WithKey(t.fields, name))
  }

  function WithAtom(t: Tables, a: Atom): (t': Tables)
    ensures a in t'.atomIx
  {
    if a in t.atomIx then t else t.(atoms := t.atoms + [a], atomIx := t.atomIx[a := |t.atoms|])
  }

  function InternFor(v: Value, intern: map<string, nat>): map<string, nat> {
    if v.Str? then WithKey(intern, v.s) else intern
  }

  /** A scalar as a typed cell, a string by its id. */
  function EncodeScalar(v: Value, intern: map<string, nat>): Result<Reg, SubsetError> {
    match v
    case Nil => Success(Reg(TY_NONE, 0))
    case Bool(b) => Success(Reg(TY_BOOL, if b then 1 else 0))
    case Int(i) => if I32_MIN <= i <= I32_MAX then Success(Reg(TY_INT, i)) else Failure(IntOutOfI32)
    case Num(_) => Failure(FloatValue)
    case Str(s) => Success(Reg(TY_STR, InternFor(v, intern)[s]))
    case _ => Failure(NonScalarValue)
  }

  function OpCode(op: CmpOp): nat {
    match op
    case Eq => OP_EQ
    case Ne => OP_NE
    case Lt => OP_LT
    case Le => OP_LE
    case Gt => OP_GT
    case _ => OP_GE
  }

  function Flip(op: CmpOp): CmpOp {
    match op
    case Lt => Gt
    case Le => Ge
    case Gt => Lt
    case Ge => Le
    case _ => op
  }

  /** The atom testing field number `fidx` against a constant, and the word that pushes it. */
  function ConstAtom(t: Tables, fidx: nat, opcode: nat, v: Value): Compiled<nat> {
    var t' := t.(intern := InternFor(v, t.intern));
    match EncodeScalar(v, t.intern)
    case Failure(e) => Compiled(t', Failure(e))
    case Success(cell) =>
      var a := Atom(fidx, opcode, cell.ty, cell.val);
      var t'' := WithAtom(t', a);
      Compiled(t'', Success(t''.atomIx[a]))
  }

  function JunctionCode(op: BoolOp): nat {
    if op == And then OPC_AND else OPC_OR
  }

  function Translate(t: Tables, c: Cond): Compiled<seq<nat>>
    decreases c, 1
  {
    match c
    case Truthy(f) =>
      var t' := WithField(t, f);
      var a := Atom(t'.fields[f], OP_TRUTHY, TY_NONE, 0);
      var t'' := WithAtom(t', a);
      Compiled(t'', Success([t''.atomIx[a]]))
    case FieldCmp(f, op, k) => TranslateCmp(t, f, op, k)
    case ConstCmp(k, op, f) => TranslateCmp(t, f, Flip(op), k)
    case Member(f, ks, negated) =>
      var t' := WithField(t, f);
      var elems := if ks == [] then Compiled(t', Success([OPC_FALSE])) else TranslateElems(t', t'.fields[f], ks, true);
      (match elems.result
       case Failure(e) => elems
       case Success(words) => Compiled(elems.tables, Success(if negated then words + [OPC_NOT] else words)))
    case Negation(inner) =>
      var r := Translate(t, inner);
      (match r.result
       case Failure(e) => r
       case Success(words) => Compiled(r.tables, Success(words + [OPC_NOT])))
    case Junction(op, parts) => TranslateParts(t, op, parts, true)
  }

  function TranslateCmp(t: Tables, f: string, op: CmpOp, k: Value): Compiled<seq<nat>> {
    var t' := WithField(t, f);
    var r := ConstAtom(t', t'.fields[f], OpCode(op), k);
    match r.result
    case Failure(e) => Compiled(r.tables, Failure(e))
    case Success(w) => Compiled(r.tables, Success([w]))
  }

  /** One equality atom per element, an OR after every one but the first. */
  function TranslateElems(t: Tables, fidx: nat, ks: seq<Value>, first: bool): Compiled<seq<nat>>
    decreases |ks|
  {
    if ks == [] then Compiled(t, Success([]))
    else
      var head := ConstAtom(t, fidx, OP_EQ, ks[0]);
      match head.result
      case Failure(e) => Compiled(head.tables, Failure(e))
      case Success(w) =>
        var rest := TranslateElems(head.tables, fidx, ks[1..], false);
        match rest.result
        case Failure(e) => rest
        case Success(words) => Compiled(rest.tables, Success((if first then [w] else [w, OPC_OR]) + words))
  }

  /** Each part's words, an operator after every one but the first. */
  function TranslateParts(t: Tables, op: BoolOp, parts: seq<Cond>, first: bool): Compiled<seq<nat>>
    decreases parts, 0
  {
    if parts == [] then Compiled(t, Success([]))
    else
      var head := Translate(t, parts[0]);
      match head.result
      case Failure(e) => head
      case Success(words) =>
        var rest := TranslateParts(head.tables, op, parts[1..], false);
        match rest.result
        case Failure(e) => rest
        case Success(more) =>
          Compiled(rest.tables, Success(words + (if first then [] else [JunctionCode(op)]) + more))
  }

  // ----- The tables stay consistent and only grow -----

  /** Distinct keys have distinct numbers, all below the size. */
  ghost predicate Numbering<K(!new)>(m: map<K, nat>) {
    && (forall k | k in m :: m[k] < |m|)
    && (forall k, l | k in m && l in m && m[k] == m[l] :: k == l)
  }

  /** The constant of an atom is one a scalar encodes to: a bool is 0 or 1, an integer an i32. */
  predicate CellFits(a: Atom) {
    (a.ty == TY_BOOL ==> 0 <= a.val <= 1) && (a.ty == TY_INT ==> I32_MIN <= a.val <= I32_MAX)
  }

  ghost predicate Valid(t: Tables) {
    && Numbering(t.fields)
    && Numbering(t.intern) && "" in t.intern && t.intern[""] == 0
    && (forall i | 0 <= i < |t.atoms| :: t.atoms[i] in t.atomIx && t.atomIx[t.atoms[i]] == i)
    && (forall a | a in t.atomIx :: t.atomIx[a] < |t.atoms| && t.atoms[t.atomIx[a]] == a)
    && (forall i | 0 <= i < |t.atoms| :: t.atoms[i].field < |t.fields| && CellFits(t.atoms[i]))
  }

  ghost predicate Includes<K(!new)>(m: map<K, nat>, m': map<K, nat>) {
    forall k | k in m :: k in m' && m'[k] == m[k]
  }

  /** Every number given out stays what it was. */
  ghost predicate Extends(t: Tables, t': Tables) {
    Includes(t.fields, t'.fields) && Includes(t.intern, t'.intern) && t.atoms <= t'.atoms
  }

  ghost predicate GrowsTo(t: Tables, t': Tables) {
    Valid(t') && Extends(t, t')
  }

  lemma ExtendsTransitive(t: Tables, t': Tables, t'': Tables)
    requires Extends(t, t') && Extends(t', t'')
    ensures Extends(t, t'')
  {
  }

  lemma KeyKeepsNumbering(m: map<string, nat>, key: string)
    requires Numbering(m)
    ensures Numbering(WithKey(m, key)) && Includes(m, WithKey(m, key)) && |m| <= |WithKey(m, key)|
  {
  }

  lemma FieldGrows(t: Tables, name: string)
    requires Valid(t)
    ensures GrowsTo(t, WithField(t, name)) && WithField(t, name).fields[name] < |WithField(t, name).fields|
  {
    KeyKeepsNumbering(t.fields, name);
  }

  lemma InternGrows(t: Tables, v: Value)
    requires Valid(t)
    ensures GrowsTo(t, t.(intern := InternFor(v, t.intern)))
  {
    if v.Str? { KeyKeepsNumbering(t.intern, v.s); }
  }

  lemma AtomGrows(t: Tables, a: Atom)
    requires Valid(t) && a.field < |t.fields| && CellFits(a)
    ensures GrowsTo(t, WithAtom(t, a)) && WithAtom(t, a).fields == t.fields
  {
  }

  lemma ConstGrows(t: Tables, fidx: nat, opcode: nat, v: Value)
    requires Valid(t) && fidx < |t.fields|
    ensures GrowsTo(t, ConstAtom(t, fidx, opcode, v).tables)
    ensures ConstAtom(t, fidx, opcode, v).tables.fields == t.fields
  {
    var t' := t.(intern := InternFor(v, t.intern));
    InternGrows(t, v);
    var r := EncodeScalar(v, t.intern);
    if r.Success? {
      var a := Atom(fidx, opcode, r.value.ty, r.value.val);
      AtomGrows(t', a);
      ExtendsTransitive(t, t', WithAtom(t', a));
    }
  }

  lemma {:induction false} TranslateGrows(t: Tables, c: Cond)
    requires Valid(t)
    ensures GrowsTo(t, Translate(t, c).tables)
    decreases c, 1
  {
    match c
    case Truthy(f) => TruthyGrows(t, f);
    case FieldCmp(f, op, k) => CmpGrows(t, f, op, k);
    case ConstCmp(k, op, f) => CmpGrows(t, f, Flip(op), k);
    case Member(f, ks, _) => MemberGrows(t, f, ks);
    case Negation(inner) => TranslateGrows(t, inner);
    case Junction(op, parts) => PartsGrow(t, op, parts, true);
  }

  lemma TruthyGrows(t: Tables, f: string)
    requires Valid(t)
    ensures GrowsTo(t, Translate(t, Truthy(f)).tables)
  {
    FieldGrows(t, f);
    var t' := WithField(t, f);
    var a := Atom(t'.fields[f], OP_TRUTHY, TY_NONE, 0);
    AtomGrows(t', a);
    ExtendsTransitive(t, t', WithAtom(t', a));
  }

  lemma MemberGrows(t: Tables, f: string, ks: seq<Value>)
    requires Valid(t)
    ensures GrowsTo(t, TranslateElems(WithField(t, f), WithField(t, f).fields[f], ks, true).tables)
  {
    FieldGrows(t, f);
    var t' := WithField(t, f);
    ElemsGrow(t', t'.fields[f], ks, true);
    ExtendsTransitive(t, t', TranslateElems(t', t'.fields[f], ks, true).tables);
  }

  lemma CmpGrows(t: Tables, f: string, op: CmpOp, k: Value)
    requires Valid(t)
    ensures GrowsTo(t, TranslateCmp(t, f, op, k).tables)
  {
    FieldGrows(t, f);
    var t' := WithField(t, f);
    ConstGrows(t', t'.fields[f], OpCode(op), k);
    ExtendsTransitive(t, t', ConstAtom(t', t'.fields[f], OpCode(op), k).tables);
  }

  lemma {:induction false} ElemsGrow(t: Tables, fidx: nat, ks: seq<Value>, first: bool)
    requires Valid(t) && fidx < |t.fields|
    ensures GrowsTo(t, TranslateElems(t, fidx, ks, first).tables)
    decreases |ks|
  {
    if ks != [] {
      var head := ConstAtom(t, fidx, OP_EQ, ks[0]);
      ConstGrows(t, fidx, OP_EQ, ks[0]);
      if head.result.Success? {
        ElemsGrow(head.tables, fidx, ks[1..], false);
        ExtendsTransitive(t, head.tables, TranslateElems(head.tables, fidx, ks[1..], false).tables);
      }
    }
  }

  lemma {:induction false} PartsGrow(t: Tables, op: BoolOp, parts: seq<Cond>, first: bool)
    requires Valid(t)
    ensures GrowsTo(t, TranslateParts(t, op, parts, first).tables)
    decreases parts, 0
  {
    if parts != [] {
      TranslateGrows(t, parts[0]);
      var head := Translate(t, parts[0]);
      if head.result.Success? {
        PartsGrow(head.tables, op, parts[1..], false);
        ExtendsTransitive(t, head.tables, TranslateParts(head.tables, op, parts[1..], false).tables);
      }
    }
  }
}
