/**
 What the Go kernel's parser accepts (prismpath-go/predicates.go): only texts of the grammar, each read as the tree the
 grammar gives it. The converse, that every tree's texts are accepted, is in PredicateParser.
 */
module ParserSoundness {
  import opened Wrappers
  import opened Values
  import opened Predicates
  import opened PredicateParser

  // ----- The grammar's texts -----

  /**
   A text by its structure. `end` is what closes brackets: a parenthesis may be missing, and in the place of a closing
   square bracket any one token or none is taken.
   */
  datatype Shape =
    | One(token: Token)
    | Neg(child: Shape)
    | Two(lop: BoolOp, left: Shape, right: Shape)
    | Comps(first: Shape, limbs: seq<Limb>)
    | Parens(inner: Shape, end: seq<Token>)
    | Listed(elems: seq<Shape>, comma: bool, end: seq<Token>)
    | Tupled(elems: seq<Shape>, comma: bool, end: seq<Token>)

  datatype Limb = Limb(op: CmpOp, text: seq<Token>, operand: Shape)

  /** How an operator is written. */
  predicate Spells(text: seq<Token>, op: CmpOp) {
    text == [TOp(op)] || (op == In && text == [TName("in")]) || (op == NotIn && text == [TName("not"), TName("in")])
  }

  function Word(op: BoolOp): Token {
    TName(if op == Or then "or" else "and")
  }

  function CommaIf(comma: bool): seq<Token> {
    if comma then [Comma] else []
  }

  function Written(c: Shape): seq<Token>
    decreases c, 1
  {
    match c
    case One(t) => [t]
    case Neg(x) => [TName("not")] + Written(x)
    case Two(op, l, r) => Written(l) + ([Word(op)] + Written(r))
    case Comps(first, limbs) => Written(first) + WrittenLimbs(limbs)
    case Parens(x, end) => [LParen] + (Written(x) + end)
    case Listed(es, comma, end) => [LBracket] + (WrittenElems(es) + (CommaIf(comma) + end))
    case Tupled(es, comma, end) => [LParen] + (WrittenElems(es) + (CommaIf(comma) + end))
  }

  function WrittenLimbs(limbs: seq<Limb>): seq<Token>
    decreases limbs, 0
  {
    if limbs == [] then [] else WrittenLimb(limbs[0]) + WrittenLimbs(limbs[1..])
  }

  function WrittenLimb(k: Limb): seq<Token>
    decreases k, 2
  {
    k.text + Written(k.operand)
  }

  function WrittenElems(es: seq<Shape>): seq<Token>
    decreases es, 0
  {
    if es == [] then []
    else if |es| == 1 then Written(es[0])
    else Written(es[0]) + ([Comma] + WrittenElems(es[1..]))
  }

  /** The tree the grammar gives it. */
  function Tree(c: Shape): Expr
    decreases c, 1
  {
    match c
    case One(TNum(v)) => Const(v)
    case One(TStr(s)) => Const(Str(s))
    case One(TName(n)) => NameExpr(n)
    case One(_) => Const(Nil)
    case Neg(x) => Not(Tree(x))
    case Two(op, l, r) => Logic(op, Tree(l), Tree(r))
    case Comps(first, limbs) =>
      if |limbs| == 1 then Compare(limbs[0].op, Tree(first), Trees(limbs)[0].operand) else Chained(Tree(first), Trees(limbs))
    case Parens(x, _) => Tree(x)
    case Listed(es, _, _) => ListOf(TreesOf(es))
    case Tupled(es, _, _) => TupleOf(TreesOf(es))
  }

  function Trees(limbs: seq<Limb>): (links: seq<Link>)
    ensures |links| == |limbs|
    decreases limbs, 0
  {
    if limbs == [] then [] else [LinkTree(limbs[0])] + Trees(limbs[1..])
  }

  function LinkTree(k: Limb): Link
    decreases k, 2
  {
    Link(k.op, Tree(k.operand))
  }

  function TreesOf(es: seq<Shape>): (trees: seq<Expr>)
    ensures |trees| == |es|
    decreases es, 0
  {
    if es == [] then [] else [Tree(es[0])] + TreesOf(es[1..])
  }

  /** The text can stand where only something at least this tight can. */
  predicate Shaped(c: Shape, tightness: nat)
    decreases c, 1
  {
    match c
    case One(t) => t.TNum? || t.TStr? || t.TName?
    case Neg(x) => tightness <= 2 && Shaped(x, 2)
    case Two(Or, l, r) => tightness == 0 && Shaped(l, 0) && Shaped(r, 1)
    case Two(And, l, r) => tightness <= 1 && Shaped(l, 1) && Shaped(r, 2)
    case Comps(first, limbs) => tightness <= 3 && Shaped(first, 4) && limbs != [] && forall k <- limbs :: ShapedLimb(k)
    case Parens(x, end) => Shaped(x, 0) && (end == [] || end == [RParen])
    case Listed(es, comma, end) =>
      (forall x <- es :: Shaped(x, 0)) && |end| <= 1 && (es == [] ==> !comma && (end == [] || end == [RBracket]))
    case Tupled(es, comma, end) =>
      && (forall x <- es :: Shaped(x, 0)) && (end == [] || end == [RParen])
      && (es == [] ==> !comma && end == [RParen]) && (|es| == 1 ==> comma)
  }

  predicate ShapedLimb(k: Limb)
    decreases k, 0
  {
    Spells(k.text, k.op) && Shaped(k.operand, 4)
  }

  /** What was read, and what is left of the tokens. */
  predicate Reads(c: Shape, tightness: nat, e: Expr, ts: seq<Token>, rest: seq<Token>) {
    Shaped(c, tightness) && Tree(c) == e && ts == Written(c) + rest
  }

  // ----- Only those are accepted -----

  /**
   Every text the parser accepts is one of the grammar's, whole, and its tree is the grammar's; a tuple at the top may
   go without its parentheses.
   */
  lemma AcceptsOnlyTexts(ts: seq<Token>, e: Expr, rest: seq<Token>) returns (c: Shape)
    requires ParseExpr(ts) == Ok(e, rest)
    ensures rest == [] && Tree(c) == e
    ensures || (Shaped(c, 0) && ts == Written(c))
            || (c.Tupled? && Shaped(c, 0) && c.elems != [] && ts == WrittenElems(c.elems) + CommaIf(c.comma))
  {
    var p := ParseOr(ts);
    c := OrReads(ts, p.value, p.rest);
    if Starts(p.rest, Comma) {
      var more, comma := TopTupleReads([p.value], p.rest, e.elems, []);
      var es := [c] + more;
      assert es[1..] == more && TreesOf(es) == e.elems;
      TupleOpens(Written(c), es, comma, p.rest);
      c := Tupled(es, comma, []);
    } else {
      assert Written(c) + [] == Written(c);
    }
  }

  lemma TupleOpens(first: seq<Token>, es: seq<Shape>, comma: bool, rest: seq<Token>)
    requires es != [] && first == Written(es[0])
    requires rest == if |es| == 1 then CommaIf(comma) else [Comma] + WrittenElems(es[1..]) + CommaIf(comma)
    ensures first + rest == WrittenElems(es) + CommaIf(comma)
  {
    if |es| > 1 {
      var tail := WrittenElems(es[1..]);
      Reassociates(first, [Comma] + tail, CommaIf(comma));
    }
  }

  lemma {:induction false} TopTupleReads(done: seq<Expr>, ts: seq<Token>, es: seq<Expr>, rest: seq<Token>)
    returns (more: seq<Shape>, comma: bool)
    requires ParseTopTuple(done, ts) == Ok(es, rest) && rest == []
    ensures es == done + TreesOf(more) && forall x <- more :: Shaped(x, 0)
    ensures ts == if more == [] then CommaIf(comma) else [Comma] + WrittenElems(more) + CommaIf(comma)
    decreases |ts|
  {
    if !Starts(ts, Comma) {
      more, comma := [], false;
    } else if ts[1..] == [] {
      more, comma := [], true;
      assert ts == [Comma];
    } else {
      var p := ParseOr(ts[1..]);
      var c := OrReads(ts[1..], p.value, p.rest);
      more, comma := TopTupleReads(done + [p.value], p.rest, es, rest);
      TupleOpens(Written(c), [c] + more, comma, p.rest);
      assert ([c] + more)[1..] == more && TreesOf([c] + more) == [p.value] + TreesOf(more);
      Reassociates(done, [p.value], TreesOf(more));
      Reassociates([Comma], WrittenElems([c] + more), CommaIf(comma));
      assert ts == [Comma] + ts[1..];
      more := [c] + more;
    }
  }

  lemma {:induction false} OrReads(ts: seq<Token>, e: Expr, rest: seq<Token>) returns (c: Shape)
    requires ParseOr(ts) == Ok(e, rest)
    ensures Reads(c, 0, e, ts, rest)
    decreases |ts|, 5
  {
    var p := ParseAnd(ts);
    c := AndReads(ts, p.value, p.rest);
    c := OrTailReads(c, ts, p.rest, e, rest);
  }

  lemma {:induction false} OrTailReads(left: Shape, ts: seq<Token>, tail: seq<Token>, e: Expr, rest: seq<Token>)
    returns (c: Shape)
    requires Reads(left, 0, Tree(left), ts, tail) && ParseOrTail(Tree(left), tail) == Ok(e, rest)
    ensures Reads(c, 0, e, ts, rest)
    decreases |tail|, 5
  {
    c := left;
    if Starts(tail, TName("or")) {
      var p := ParseAnd(tail[1..]);
      var right := AndReads(tail[1..], p.value, p.rest);
      JoinedReads(Or, left, right, ts, tail, p.rest);
      c := OrTailReads(Two(Or, left, right), ts, p.rest, e, rest);
    }
  }

  lemma JoinedReads(op: BoolOp, left: Shape, right: Shape, ts: seq<Token>, tail: seq<Token>, rest: seq<Token>)
    requires ts == Written(left) + tail && tail != [] && tail[0] == Word(op) && tail[1..] == Written(right) + rest
    ensures ts == Written(Two(op, left, right)) + rest
  {
    assert tail == [Word(op)] + (Written(right) + rest);
    Reassociates([Word(op)], Written(right), rest);
    Reassociates(Written(left), [Word(op)] + Written(right), rest);
  }

  lemma {:induction false} AndReads(ts: seq<Token>, e: Expr, rest: seq<Token>) returns (c: Shape)
    requires ParseAnd(ts) == Ok(e, rest)
    ensures Reads(c, 1, e, ts, rest) && Shaped(c, 0)
    decreases |ts|, 4
  {
    var p := ParseNot(ts);
    c := NotReads(ts, p.value, p.rest);
    c := AndTailReads(c, ts, p.rest, e, rest);
  }

  lemma {:induction false} AndTailReads(left: Shape, ts: seq<Token>, tail: seq<Token>, e: Expr, rest: seq<Token>)
    returns (c: Shape)
    requires Reads(left, 1, Tree(left), ts, tail) && Shaped(left, 0) && ParseAndTail(Tree(left), tail) == Ok(e, rest)
    ensures Reads(c, 1, e, ts, rest) && Shaped(c, 0)
    decreases |tail|, 4
  {
    c := left;
    if Starts(tail, TName("and")) {
      var p := ParseNot(tail[1..]);
      var right := NotReads(tail[1..], p.value, p.rest);
      JoinedReads(And, left, right, ts, tail, p.rest);
      c := AndTailReads(Two(And, left, right), ts, p.rest, e, rest);
    }
  }

  lemma {:induction false} NotReads(ts: seq<Token>, e: Expr, rest: seq<Token>) returns (c: Shape)
    requires ParseNot(ts) == Ok(e, rest)
    ensures Reads(c, 2, e, ts, rest) && Shaped(c, 1) && Shaped(c, 0)
    decreases |ts|, 3
  {
    if Starts(ts, TName("not")) {
      var p := ParseNot(ts[1..]);
      c := NotReads(ts[1..], p.value, p.rest);
      assert ts == [TName("not")] + ts[1..];
      Reassociates([TName("not")], Written(c), rest);
      c := Neg(c);
    } else {
      c := CmpReads(ts, e, rest);
    }
  }

  lemma {:induction false} CmpReads(ts: seq<Token>, e: Expr, rest: seq<Token>) returns (c: Shape)
    requires ParseCmp(ts) == Ok(e, rest)
    ensures Reads(c, 3, e, ts, rest) && Shaped(c, 2) && Shaped(c, 1) && Shaped(c, 0)
    decreases |ts|, 2
  {
    var p := ParsePrimary(ts);
    c := PrimaryReads(ts, p.value, p.rest);
    var q := ParseLinks([], p.rest);
    var limbs := LinksRead([], p.rest, q.value, rest);
    assert q.value == Trees(limbs);
    if limbs != [] {
      Reassociates(Written(c), WrittenLimbs(limbs), rest);
      c := Comps(c, limbs);
    }
  }

  lemma {:induction false} LinksRead(done: seq<Link>, ts: seq<Token>, links: seq<Link>, rest: seq<Token>)
    returns (limbs: seq<Limb>)
    requires ParseLinks(done, ts) == Ok(links, rest)
    ensures links == done + Trees(limbs) && ts == WrittenLimbs(limbs) + rest && forall k <- limbs :: ShapedLimb(k)
    decreases |ts|, 2
  {
    var op := ParseCmpOp(ts);
    limbs := [];
    if op.value.Some? {
      var p := ParsePrimary(op.rest);
      var c := PrimaryReads(op.rest, p.value, p.rest);
      var text := OpReads(ts);
      var k := Limb(op.value.value, text, c);
      limbs := LinksRead(done + [Link(k.op, p.value)], p.rest, links, rest);
      assert ([k] + limbs)[1..] == limbs;
      Reassociates(k.text, Written(c), p.rest);
      Reassociates(WrittenLimb(k), WrittenLimbs(limbs), rest);
      Reassociates(done, [LinkTree(k)], Trees(limbs));
      limbs := [k] + limbs;
    }
  }

  lemma OpReads(ts: seq<Token>) returns (text: seq<Token>)
    requires ParseCmpOp(ts).Ok? && ParseCmpOp(ts).value.Some?
    ensures Spells(text, ParseCmpOp(ts).value.value) && ts == text + ParseCmpOp(ts).rest
  {
    var n := |ts| - |ParseCmpOp(ts).rest|;
    text := ts[..n];
    assert ts == ts[..1] + ts[1..] && ts[..1] == [ts[0]];
    if n == 2 { assert text == [ts[0], ts[1]]; }
  }

  lemma {:induction false} PrimaryReads(ts: seq<Token>, e: Expr, rest: seq<Token>) returns (c: Shape)
    requires ParsePrimary(ts) == Ok(e, rest)
    ensures Reads(c, 4, e, ts, rest) && Shaped(c, 3) && Shaped(c, 2) && Shaped(c, 1) && Shaped(c, 0)
    decreases |ts|, 1
  {
    if Starts(ts, LBracket) {
      c := ListReads(ts, e, rest);
    } else if Starts(ts, LParen) {
      c := ParenReads(ts, e, rest);
    } else {
      c := One(ts[0]);
      assert ts == [ts[0]] + rest;
    }
  }

  lemma ListOpens(ts: seq<Token>)
    requires Starts(ts, LBracket) && ts[1..] != [] && ts[1] != RBracket && ParsePrimary(ts).Ok?
    ensures var p := ParseElems([], ts[1..]); p.Ok? && ParsePrimary(ts) == Ok(ListOf(p.value), DropOne(p.rest))
  {
  }

  lemma {:induction false} ListReads(ts: seq<Token>, e: Expr, rest: seq<Token>) returns (c: Shape)
    requires Starts(ts, LBracket) && ParsePrimary(ts) == Ok(e, rest)
    ensures c.Listed? && Reads(c, 4, e, ts, rest)
    decreases |ts|, 0
  {
    var inner := ts[1..];
    if inner == [] || inner[0] == RBracket {
      c := EmptyListReads(ts, rest);
    } else {
      ListOpens(ts);
      var p := ParseElems([], inner);
      var es, comma := ElemsRead([], inner, p.value, p.rest);
      var end := p.rest[..|p.rest| - |rest|];
      assert p.rest == end + rest;
      c := Listed(es, comma, end);
      ListAssembles(es, comma, end, ts, rest);
      assert p.value == TreesOf(es);
    }
  }

  lemma EmptyListReads(ts: seq<Token>, rest: seq<Token>) returns (c: Shape)
    requires Starts(ts, LBracket) && (ts[1..] == [] || ts[1] == RBracket) && rest == DropOne(ts[1..])
    ensures c.Listed? && Reads(c, 4, ListOf([]), ts, rest)
  {
    var end := if ts[1..] == [] then [] else [RBracket];
    assert ts[1..] == end + rest && [] + ([] + end) == end;
    c := Listed([], false, end);
    assert ts == [LBracket] + ts[1..];
    Reassociates([LBracket], end, rest);
  }

  lemma ListAssembles(es: seq<Shape>, comma: bool, end: seq<Token>, ts: seq<Token>, rest: seq<Token>)
    requires Starts(ts, LBracket) && ts[1..] == WrittenElems(es) + (CommaIf(comma) + (end + rest))
    requires es != [] && |end| <= 1 && forall x <- es :: Shaped(x, 0)
    ensures Reads(Listed(es, comma, end), 4, ListOf(TreesOf(es)), ts, rest)
  {
    Closes(LBracket, WrittenElems(es), CommaIf(comma), end, rest, ts);
  }

  lemma TupleAssembles(es: seq<Shape>, comma: bool, end: seq<Token>, ts: seq<Token>, rest: seq<Token>)
    requires Starts(ts, LParen) && ts[1..] == WrittenElems(es) + (CommaIf(comma) + (end + rest))
    requires es != [] && (end == [] || end == [RParen]) && (|es| == 1 ==> comma) && forall x <- es :: Shaped(x, 0)
    ensures Reads(Tupled(es, comma, end), 4, TupleOf(TreesOf(es)), ts, rest)
  {
    Closes(LParen, WrittenElems(es), CommaIf(comma), end, rest, ts);
  }

  lemma Closes(open: Token, elems: seq<Token>, comma: seq<Token>, end: seq<Token>, rest: seq<Token>, ts: seq<Token>)
    requires ts != [] && ts[0] == open && ts[1..] == elems + (comma + (end + rest))
    ensures ts == [open] + (elems + (comma + end)) + rest
  {
    Reassociates(comma, end, rest);
    Reassociates(elems, comma + end, rest);
    Reassociates([open], elems + (comma + end), rest);
    assert ts == [open] + ts[1..];
  }

  /** The first element, what comes between, the others. */
  lemma ElemsGrow(c: Shape, more: seq<Shape>, tail: seq<Token>)
    requires more != []
    ensures Written(c) + ([Comma] + (WrittenElems(more) + tail)) == WrittenElems([c] + more) + tail
    ensures TreesOf([c] + more) == [Tree(c)] + TreesOf(more)
  {
    assert ([c] + more)[1..] == more;
    Reassociates([Comma], WrittenElems(more), tail);
    Reassociates(Written(c), [Comma] + WrittenElems(more), tail);
  }

  lemma {:induction false} ElemsRead(done: seq<Expr>, ts: seq<Token>, es: seq<Expr>, rest: seq<Token>)
    returns (more: seq<Shape>, comma: bool)
    requires ParseElems(done, ts) == Ok(es, rest)
    ensures es == done + TreesOf(more) && more != [] && forall x <- more :: Shaped(x, 0)
    ensures ts == WrittenElems(more) + (CommaIf(comma) + rest)
    decreases |ts|, 6
  {
    var p := ParseOr(ts);
    var c := OrReads(ts, p.value, p.rest);
    if Starts(p.rest, Comma) && !Starts(p.rest[1..], RBracket) {
      more, comma := ElemsRead(done + [p.value], p.rest[1..], es, rest);
      ElemsGrow(c, more, CommaIf(comma) + rest);
      assert p.rest == [Comma] + p.rest[1..];
      Reassociates(done, [p.value], TreesOf(more));
      more := [c] + more;
    } else {
      more, comma := [c], Starts(p.rest, Comma);
      assert p.rest == CommaIf(comma) + rest;
      assert TreesOf([c]) == [p.value];
    }
  }

  /** An element, a comma, and what follows the comma: other elements, or none where that comma was the last. */
  lemma Joins(x: Shape, more: seq<Shape>, comma: bool, tail: seq<Token>, last: seq<Token>) returns (es: seq<Shape>, comma': bool)
    requires Starts(tail, Comma) && tail[1..] == WrittenElems(more) + (CommaIf(comma) + last) && (more == [] ==> !comma)
    ensures es == [x] + more && (more == [] ==> comma')
    ensures Written(x) + tail == WrittenElems(es) + (CommaIf(comma') + last) && TreesOf(es) == [Tree(x)] + TreesOf(more)
  {
    es, comma' := [x] + more, comma || more == [];
    assert tail == [Comma] + tail[1..];
    if more == [] {
      assert tail[1..] == last && es == [x];
    } else {
      ElemsGrow(x, more, CommaIf(comma) + last);
    }
  }

  /** After a comma: the tuple's other elements, none where the comma was the last. */
  lemma {:induction false} TupleElemsRead(done: seq<Expr>, ts: seq<Token>, es: seq<Expr>, rest: seq<Token>)
    returns (more: seq<Shape>, comma: bool)
    requires ParseTupleElems(done, ts) == Ok(es, rest)
    ensures es == done + TreesOf(more) && forall x <- more :: Shaped(x, 0)
    ensures ts == WrittenElems(more) + (CommaIf(comma) + rest) && (more == [] ==> !comma)
    decreases |ts|, 6
  {
    if ts == [] || ts[0] == RParen {
      more, comma := [], false;
    } else {
      var p := ParseOr(ts);
      var c := OrReads(ts, p.value, p.rest);
      if Starts(p.rest, Comma) {
        more, comma := TupleElemsRead(done + [p.value], p.rest[1..], es, rest);
        Reassociates(done, [p.value], TreesOf(more));
        more, comma := Joins(c, more, comma, p.rest, rest);
      } else {
        more, comma := [c], false;
        assert TreesOf([c]) == [p.value] && [] + rest == rest;
      }
    }
  }

  /** What the parser does after an opening parenthesis that is not closed at once. */
  lemma ParenOpens(ts: seq<Token>)
    requires Starts(ts, LParen) && !Starts(ts[1..], RParen) && ParsePrimary(ts).Ok?
    ensures var p := ParseOr(ts[1..]);
            && p.Ok?
            && (!Starts(p.rest, Comma) ==> ParsePrimary(ts) == Ok(p.value, DropIf(p.rest, RParen)))
            && (Starts(p.rest, Comma) ==>
                  var q := ParseTupleElems([p.value], p.rest[1..]);
                  q.Ok? && ParsePrimary(ts) == Ok(TupleOf(q.value), DropIf(q.rest, RParen)))
  {
  }

  lemma EndDropped(end: seq<Token>, tail: seq<Token>, rest: seq<Token>)
    requires rest == DropIf(tail, RParen) && end == tail[..|tail| - |rest|]
    ensures tail == end + rest && (end == [] || end == [RParen])
  {
    assert tail == [] || tail == [tail[0]] + tail[1..];
  }

  lemma ParenWritten(ts: seq<Token>, x: Shape, end: seq<Token>, rest: seq<Token>)
    requires Starts(ts, LParen) && ts[1..] == Written(x) + (end + rest)
    ensures ts == Written(Parens(x, end)) + rest
  {
    Reassociates(Written(x), end, rest);
    Reassociates([LParen], Written(x) + end, rest);
    assert ts == [LParen] + ts[1..];
  }

  lemma {:induction false} ParenReads(ts: seq<Token>, e: Expr, rest: seq<Token>) returns (c: Shape)
    requires Starts(ts, LParen) && ParsePrimary(ts) == Ok(e, rest)
    ensures (c.Parens? || c.Tupled?) && Reads(c, 4, e, ts, rest)
    decreases |ts|, 0
  {
    var inner := ts[1..];
    if Starts(inner, RParen) {
      c := Tupled([], false, [RParen]);
    } else {
      ParenOpens(ts);
      var p := ParseOr(inner);
      var x := OrReads(inner, p.value, p.rest);
      if Starts(p.rest, Comma) {
        c := TupleReads(x, ts, p.rest, e, rest);
      } else {
        var end := p.rest[..|p.rest| - |rest|];
        EndDropped(end, p.rest, rest);
        ParenWritten(ts, x, end, rest);
        c := Parens(x, end);
      }
    }
  }

  lemma {:induction false} TupleReads(x: Shape, ts: seq<Token>, tail: seq<Token>, e: Expr, rest: seq<Token>) returns (c: Shape)
    requires Starts(ts, LParen) && ts[1..] == Written(x) + tail && Starts(tail, Comma) && Shaped(x, 0)
    requires |tail| < |ts| && ParseTupleElems([Tree(x)], tail[1..]).Ok?
    requires var q := ParseTupleElems([Tree(x)], tail[1..]); e == TupleOf(q.value) && rest == DropIf(q.rest, RParen)
    ensures c.Tupled? && Reads(c, 4, e, ts, rest)
    decreases |ts|, 0, 0
  {
    var q := ParseTupleElems([Tree(x)], tail[1..]);
    var more, comma := TupleElemsRead([Tree(x)], tail[1..], q.value, q.rest);
    var end := q.rest[..|q.rest| - |rest|];
    EndDropped(end, q.rest, rest);
    var es;
    es, comma := Joins(x, more, comma, tail, q.rest);
    TupleAssembles(es, comma, end, ts, rest);
    c := Tupled(es, comma, end);
  }
}
