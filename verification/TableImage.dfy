/**
 The compiler as the object it is (prismpath-hw/ppt_compile.py, TableImage): dictionaries and a list that
 its methods extend in place, proved against the table functions of module Compiler.
 */
module TableBuilder {
  import opened Wrappers
  import opened Values
  import opened Predicates
  import opened Conditions
  import opened Table
  import opened Compiler

  /** Words emitted before the rest of a translation. */
  function Prefixed(words: seq<nat>, rest: Compiled<seq<nat>>): Compiled<seq<nat>> {
    match rest.result
    case Failure(e) => rest
    case Success(more) => Compiled(rest.tables, Success(words + more))
  }

  class TableImage {
    var fields: map<string, nat>
    var intern: map<string, nat>
    var atoms: seq<Atom>
    var atomIx: map<Atom, nat>

    ghost function Tab(): Tables
      reads this
    {
      Tables(fields, intern, atoms, atomIx)
    }

    constructor ()
      ensures Tab() == EMPTY
    {
      fields, intern, atoms, atomIx := map[], map["" := 0], [], map[];
    }

    method Field(name: string) returns (ix: nat)
      modifies `fields
      ensures Tab() == WithField(old(Tab()), name) && ix == Tab().fields[name]
    {
      if name !in fields { fields := fields[name := |fields|]; }
      ix := fields[name];
    }

    method AtomIndex(a: Atom) returns (ix: nat)
      modifies `atoms, `atomIx
      ensures Tab() == WithAtom(old(Tab()), a) && ix == Tab().atomIx[a]
    {
      if a !in atomIx {
        atomIx := atomIx[a := |atoms|];
        atoms := atoms + [a];
      }
      ix := atomIx[a];
    }

    method Encode(v: Value) returns (r: Result<Reg, SubsetError>)
      modifies `intern
      ensures Tab() == old(Tab()).(intern := InternFor(v, old(intern)))
      ensures r == EncodeScalar(v, old(intern))
    {
      match v
      case Nil => r := Success(Reg(TY_NONE, 0));
      case Bool(b) => r := Success(Reg(TY_BOOL, if b then 1 else 0));
      case Int(i) => r := if I32_MIN <= i <= I32_MAX then Success(Reg(TY_INT, i)) else Failure(IntOutOfI32);
      case Num(_) => r := Failure(FloatValue);
      case Str(s) =>
        if s !in intern { intern := intern[s := |intern|]; }
        r := Success(Reg(TY_STR, intern[s]));
      case _ => r := Failure(NonScalarValue);
    }

    method ConstWord(fidx: nat, opcode: nat, v: Value) returns (r: Result<nat, SubsetError>)
      modifies this
      ensures Compiled(Tab(), r) == ConstAtom(old(Tab()), fidx, opcode, v)
    {
      var cell := Encode(v);
      if cell.Failure? { return Failure(cell.error); }
      var ix := AtomIndex(Atom(fidx, opcode, cell.value.ty, cell.value.val));
      r := Success(ix);
    }

    method ProgExpr(c: Cond) returns (r: Result<seq<nat>, SubsetError>)
      modifies this
      ensures Compiled(Tab(), r) == Translate(old(Tab()), c)
      decreases c
    {
      match c
      case Truthy(f) =>
        var fidx := Field(f);
        var ix := AtomIndex(Atom(fidx, OP_TRUTHY, TY_NONE, 0));
        r := Success([ix]);
      case FieldCmp(f, op, k) => r := ProgCompare(f, op, k);
      case ConstCmp(k, op, f) => r := ProgCompare(f, Flip(op), k);
      case Member(f, ks, negated) =>
        var fidx := Field(f);
        r := ProgMember(fidx, ks);
        if r.Success? && negated { r := Success(r.value + [OPC_NOT]); }
      case Negation(inner) =>
        r := ProgExpr(inner);
        if r.Success? { r := Success(r.value + [OPC_NOT]); }
      case Junction(op, parts) =>
        var prog: seq<nat> := [];
        ghost var whole := TranslateParts(Tab(), op, parts, true);
        assert parts[0..] == parts;
        PrefixedByNothing(whole);
        for i := 0 to |parts|
          invariant Prefixed(prog, TranslateParts(Tab(), op, parts[i..], i == 0)) == whole
        {
          ghost var before := Tab();
          assert parts[i..][0] == parts[i] && parts[i..][1..] == parts[i + 1..];
          r := ProgExpr(parts[i]);
          if r.Failure? { return; }
          assert Translate(before, parts[i]) == Compiled(Tab(), r);
          var joint := if i == 0 then [] else [JunctionCode(op)];
          PrefixedTwice(prog, r.value + joint, TranslateParts(Tab(), op, parts[i + 1..], false));
          prog := prog + (r.value + joint);
        }
        assert prog + [] == prog;
        r := Success(prog);
    }

    method ProgCompare(f: string, op: CmpOp, k: Value) returns (r: Result<seq<nat>, SubsetError>)
      modifies this
      ensures Compiled(Tab(), r) == TranslateCmp(old(Tab()), f, op, k)
    {
      var fidx := Field(f);
      var word := ConstWord(fidx, OpCode(op), k);
      r := if word.Success? then Success([word.value]) else Failure(word.error);
    }

    method ProgMember(fidx: nat, ks: seq<Value>) returns (r: Result<seq<nat>, SubsetError>)
      modifies this
      ensures Compiled(Tab(), r) == if ks == [] then Compiled(old(Tab()), Success([OPC_FALSE]))
                                    else TranslateElems(old(Tab()), fidx, ks, true)
    {
      if ks == [] { return Success([OPC_FALSE]); }
      var prog: seq<nat> := [];
      ghost var whole := TranslateElems(Tab(), fidx, ks, true);
      assert ks[0..] == ks;
      PrefixedByNothing(whole);
      for i := 0 to |ks|
        invariant Prefixed(prog, TranslateElems(Tab(), fidx, ks[i..], i == 0)) == whole
      {
        assert ks[i..][0] == ks[i] && ks[i..][1..] == ks[i + 1..];
        var word := ConstWord(fidx, OP_EQ, ks[i]);
        if word.Failure? { return Failure(word.error); }
        var pushed := if i == 0 then [word.value] else [word.value, OPC_OR];
        PrefixedTwice(prog, pushed, TranslateElems(Tab(), fidx, ks[i + 1..], false));
        prog := prog + pushed;
      }
      assert prog + [] == prog;
      r := Success(prog);
    }
  }

  lemma PrefixedByNothing(rest: Compiled<seq<nat>>)
    ensures Prefixed([], rest) == rest
  {
    if rest.result.Success? { assert [] + rest.result.value == rest.result.value; }
  }

  lemma PrefixedTwice(a: seq<nat>, b: seq<nat>, rest: Compiled<seq<nat>>)
    ensures Prefixed(a, Prefixed(b, rest)) == Prefixed(a + b, rest)
  {
    if rest.result.Success? { assert a + (b + rest.result.value) == a + b + rest.result.value; }
  }
}
