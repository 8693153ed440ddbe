/**
 A reading as a register file (prismpath-hw/ppt_compile.py, encode_regs and encode_script): one typed cell
 per field the tables know, runtime strings numbered in a copy of the compile-time interning.
 */
module Registers {
  import opened Wrappers
  import opened Values
  import opened Predicates
  import opened Conditions
  import opened Table
  import opened Compiler
  import opened CompilerCorrectness

  // ----- Fields in the order of their numbers -----

  lemma {:induction false} ImageSize(keys: set<string>, m: map<string, nat>)
    requires Numbering(m) && keys <= m.Keys
    ensures |set k | k in keys :: m[k]| == |keys|
  {
    if keys != {} {
      var k :| k in keys;
      var rest := keys - {k};
      ImageSize(rest, m);
      assert (set j | j in keys :: m[j]) == (set j | j in rest :: m[j]) + {m[k]};
    }
  }

  ghost function Below(n: nat): (r: set<nat>)
    ensures |r| == n && forall i: nat :: i in r <==> i < n
  {
    if n == 0 then {} else Below(n - 1) + {n - 1}
  }

  /** Numbers below the size, no two alike: every number below the size is taken. */
  lemma NumberingIsOnto(m: map<string, nat>, i: nat)
    requires Numbering(m) && i < |m|
    ensures exists k :: k in m && m[k] == i
  {
    var taken := set k | k in m.Keys :: m[k];
    ImageSize(m.Keys, m);
    assert taken <= Below(|m|);
    SubsetOfSameSize(taken, Below(|m|));
    assert i in taken;
  }

  function FieldAt(fields: map<string, nat>, i: nat): (f: string)
    requires Numbering(fields) && i < |fields|
    ensures f in fields && fields[f] == i
  {
    NumberingIsOnto(fields, i);
    var f :| f in fields && fields[f] == i;
    f
  }

  // ----- Encoding -----

  /** The interning after a row, and the row unless a value was refused. */
  datatype Row = Row(intern: map<string, nat>, cells: Result<seq<Reg>, SubsetError>)

  /** The row whose first cells are `done`, completed field by field. */
  function EncodeFrom(fields: map<string, nat>, ctx: Context, intern: map<string, nat>, done: seq<Reg>): Row
    requires Numbering(fields) && |done| <= |fields|
    decreases |fields| - |done|
  {
    if |done| == |fields| then Row(intern, Success(done))
    else
      var v := Lookup(ctx, FieldAt(fields, |done|));
      match EncodeScalar(v, intern)
      case Failure(e) => Row(InternFor(v, intern), Failure(e))
      case Success(cell) => EncodeFrom(fields, ctx, InternFor(v, intern), done + [cell])
  }

  method EncodeRegs(fields: map<string, nat>, ctx: Context, intern: map<string, nat>) returns (row: Row)
    requires Numbering(fields)
    ensures row == EncodeFrom(fields, ctx, intern, [])
  {
    var ids := intern;
    var cells: seq<Reg> := [];
    ghost var whole := EncodeFrom(fields, ctx, intern, []);
    for i := 0 to |fields|
      invariant |cells| == i && EncodeFrom(fields, ctx, ids, cells) == whole
    {
      var v := Lookup(ctx, FieldAt(fields, i));
      var cell := EncodeScalar(v, ids);
      ids := InternFor(v, ids);
      if cell.Failure? { return Row(ids, Failure(cell.error)); }
      cells := cells + [cell.value];
    }
    row := Row(ids, Success(cells));
  }

  lemma InternForGrows(v: Value, intern: map<string, nat>)
    requires Numbering(intern)
    ensures Numbering(InternFor(v, intern)) && Includes(intern, InternFor(v, intern))
  {
    if v.Str? { KeyKeepsNumbering(intern, v.s); }
  }

  /** A row is refused exactly when a field the tables know reads something that is no scalar or no i32. */
  predicate Encodable(fields: map<string, nat>, ctx: Context) {
    forall f | f in fields :: Scalar(Lookup(ctx, f)) && ConstFits(Lookup(ctx, f))
  }

  /** The first cells of a row in the making represent their fields. */
  ghost predicate Represented(fields: map<string, nat>, intern: map<string, nat>, ctx: Context, cells: seq<Reg>)
    requires Numbering(fields) && |cells| <= |fields|
  {
    forall j: nat | j < |cells| :: Represents(intern, Lookup(ctx, FieldAt(fields, j)), cells[j])
  }

  lemma {:induction false} RowsEncode(fields: map<string, nat>, ctx: Context, intern: map<string, nat>, done: seq<Reg>)
    requires Numbering(fields) && Numbering(intern) && |done| <= |fields| && Represented(fields, intern, ctx, done)
    ensures var r := EncodeFrom(fields, ctx, intern, done);
            && Numbering(r.intern) && Includes(intern, r.intern)
            && (r.cells.Success? ==> |r.cells.value| == |fields| && Represented(fields, r.intern, ctx, r.cells.value))
    decreases |fields| - |done|
  {
    if |done| < |fields| {
      var v := Lookup(ctx, FieldAt(fields, |done|));
      var intern' := InternFor(v, intern);
      InternForGrows(v, intern);
      var cell := EncodeScalar(v, intern);
      if cell.Success? {
        OneMoreCell(fields, intern, ctx, done, cell.value);
        RowsEncode(fields, ctx, intern', done + [cell.value]);
        IncludesTransitive(intern, intern', EncodeFrom(fields, ctx, intern', done + [cell.value]).intern);
      }
    }
  }

  lemma OneMoreCell(fields: map<string, nat>, intern: map<string, nat>, ctx: Context, done: seq<Reg>, cell: Reg)
    requires Numbering(fields) && Numbering(intern) && |done| < |fields| && Represented(fields, intern, ctx, done)
    requires EncodeScalar(Lookup(ctx, FieldAt(fields, |done|)), intern) == Success(cell)
    ensures Represented(fields, InternFor(Lookup(ctx, FieldAt(fields, |done|)), intern), ctx, done + [cell])
  {
    var v := Lookup(ctx, FieldAt(fields, |done|));
    var intern' := InternFor(v, intern);
    InternForGrows(v, intern);
    assert Represents(intern', v, cell);
    forall j: nat | j < |done| ensures Represents(intern', Lookup(ctx, FieldAt(fields, j)), done[j]) {
      assert Represents(intern, Lookup(ctx, FieldAt(fields, j)), done[j]);
    }
  }

  lemma IncludesTransitive(a: map<string, nat>, b: map<string, nat>, c: map<string, nat>)
    requires Includes(a, b) && Includes(b, c)
    ensures Includes(a, c)
  {
  }

  /** What an encoded row is for: its registers read as the reading, under an interning that extends the given one. */
  lemma EncodedRowReads(fields: map<string, nat>, ctx: Context, intern: map<string, nat>)
    requires Numbering(fields) && Numbering(intern)
    ensures var r := EncodeFrom(fields, ctx, intern, []);
            && Numbering(r.intern) && Includes(intern, r.intern)
            && (r.cells.Success? ==> |r.cells.value| == |fields| && Reads(fields, r.intern, ctx, r.cells.value))
  {
    RowsEncode(fields, ctx, intern, []);
    var r := EncodeFrom(fields, ctx, intern, []);
    if r.cells.Success? {
      forall f | f in fields ensures Represents(r.intern, Lookup(ctx, f), ReadReg(r.cells.value, fields[f])) {
        assert FieldAt(fields, fields[f]) == f;
      }
    }
  }

  lemma {:induction false} RowEncodesIff(fields: map<string, nat>, ctx: Context, intern: map<string, nat>, done: seq<Reg>)
    requires Numbering(fields) && |done| <= |fields|
    ensures EncodeFrom(fields, ctx, intern, done).cells.Success? <==>
            forall j | |done| <= j < |fields| ::
              Scalar(Lookup(ctx, FieldAt(fields, j))) && ConstFits(Lookup(ctx, FieldAt(fields, j)))
    decreases |fields| - |done|
  {
    if |done| < |fields| {
      var v := Lookup(ctx, FieldAt(fields, |done|));
      var cell := EncodeScalar(v, intern);
      if cell.Success? { RowEncodesIff(fields, ctx, InternFor(v, intern), done + [cell.value]); }
    }
  }

  lemma EncodesIffEncodable(fields: map<string, nat>, ctx: Context, intern: map<string, nat>)
    requires Numbering(fields)
    ensures EncodeFrom(fields, ctx, intern, []).cells.Success? <==> Encodable(fields, ctx)
  {
    RowEncodesIff(fields, ctx, intern, []);
    assert forall f | f in fields :: FieldAt(fields, fields[f]) == f;
    assert forall j: nat | j < |fields| :: FieldAt(fields, j) in fields;
  }

  /**
   End to end for one condition: compiled from nothing, run on the encoded reading, the verdict is what the
   kernel's evaluator holds of the same condition and the same reading.
   */
  lemma CompiledPredicateAgrees(c: Cond, ctx: Context) returns (t: Tables, words: seq<nat>, regs: seq<Reg>)
    requires LevelM(c) && ConstsFit(c) && Peak(c) <= INTERP_STACK && Height(ExprOf(c)) <= MAX_PREDICATE_DEPTH
    requires Encodable(Translate(EMPTY, c).tables.fields, ctx) && |Translate(EMPTY, c).tables.atoms| <= 0x8000
    ensures Translate(EMPTY, c) == Compiled(t, Success(words)) && Valid(t)
    ensures EncodeFrom(t.fields, ctx, t.intern, []).cells == Success(regs)
    ensures ExecVerdict(words, AtomTruth(t.atoms, regs), INTERP_STACK) == Done(Holds(ExprOf(c), ctx))
  {
    t := Translate(EMPTY, c).tables;
    CompilesIffConstsFit(EMPTY, c);
    words := Translate(EMPTY, c).result.value;
    TranslateGrows(EMPTY, c);
    EncodesIffEncodable(t.fields, ctx, t.intern);
    regs := EncodeFrom(t.fields, ctx, t.intern, []).cells.value;
    VerdictOnRow(EMPTY, c, ctx, t, words, regs);
    KernelEvalIsTruth(c, ctx);
  }

  lemma VerdictOnRow(t0: Tables, c: Cond, ctx: Context, t: Tables, words: seq<nat>, regs: seq<Reg>)
    requires LevelM(c) && Valid(t0) && Valid(t) && Translate(t0, c) == Compiled(t, Success(words))
    requires EncodeFrom(t.fields, ctx, t.intern, []).cells == Success(regs)
    requires |t.atoms| <= 0x8000 && Peak(c) <= INTERP_STACK
    ensures ExecVerdict(words, AtomTruth(t.atoms, regs), INTERP_STACK) == Done(Truth(c, ctx))
  {
    EncodedRowReads(t.fields, ctx, t.intern);
    var intern := EncodeFrom(t.fields, ctx, t.intern, []).intern;
    assert Environment(t, intern, ctx, regs);
    assert Extends(t, t);
    TranslationDecides(t0, c, t, intern, ctx, regs, [], INTERP_STACK);
    assert [] + [Truth(c, ctx)] == [Truth(c, ctx)];
  }
}
