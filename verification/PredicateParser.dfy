/**
 The recursive descent parser of the Go kernel (prismpath-go/predicates.go): its grammar as functions
 over the tokens left, the stateful parser proved against them, and the completeness of the grammar.
 */
module PredicateParser {
  import opened Wrappers
  import opened Values
  import opened Predicates

  datatype Token =
    | TNum(num: Value)
    | TStr(str: string)
    | TName(name: string)
    | TOp(op: CmpOp)
    | LParen | RParen | LBracket | RBracket | Comma

  datatype ParseError = UnexpectedEnd | UnexpectedToken | ExpectedIn

  datatype Parsed<+T> = Ok(value: T, rest: seq<Token>) | Err(error: ParseError, rest: seq<Token>)

  predicate Starts(ts: seq<Token>, t: Token) {
    ts != [] && ts[0] == t
  }

  // ----- The grammar -----

  function ParseExpr(ts: seq<Token>): Parsed<Expr> {
    match ParseOr(ts)
    case Err(e, rest) => Err(e, rest)
    case Ok(e, rest) =>
      if Starts(rest, Comma) then
        match ParseTopTuple([e], rest)
        case Err(err, rest') => Err(err, rest')
        case Ok(es, rest') => if rest' == [] then Ok(TupleOf(es), rest') else Err(UnexpectedToken, rest')
      else if rest == [] then Ok(e, rest)
      else Err(UnexpectedToken, rest)
  }

  /** `, e` as often as it comes; a comma may end the text. */
  function ParseTopTuple(es: seq<Expr>, ts: seq<Token>): Parsed<seq<Expr>>
    decreases |ts|
  {
    if !Starts(ts, Comma) then Ok(es, ts)
    else if ts[1..] == [] then Ok(es, [])
    else
      match ParseOr(ts[1..])
      case Err(err, rest) => Err(err, rest)
      case Ok(e, rest) => ParseTopTuple(es + [e], rest)
  }

  function ParseOr(ts: seq<Token>): (p: Parsed<Expr>)
    ensures |p.rest| <= |ts| && (p.Ok? ==> |p.rest| < |ts|)
    decreases |ts|, 5
  {
    match ParseAnd(ts)
    case Err(err, rest) => Err(err, rest)
    case Ok(e, rest) => ParseOrTail(e, rest)
  }

  function ParseOrTail(left: Expr, ts: seq<Token>): (p: Parsed<Expr>)
    ensures |p.rest| <= |ts|
    decreases |ts|, 5
  {
    if !Starts(ts, TName("or")) then Ok(left, ts)
    else
      match ParseAnd(ts[1..])
      case Err(err, rest) => Err(err, rest)
      case Ok(e, rest) => ParseOrTail(Logic(Or, left, e), rest)
  }

  function ParseAnd(ts: seq<Token>): (p: Parsed<Expr>)
    ensures |p.rest| <= |ts| && (p.Ok? ==> |p.rest| < |ts|)
    decreases |ts|, 4
  {
    match ParseNot(ts)
    case Err(err, rest) => Err(err, rest)
    case Ok(e, rest) => ParseAndTail(e, rest)
  }

  function ParseAndTail(left: Expr, ts: seq<Token>): (p: Parsed<Expr>)
    ensures |p.rest| <= |ts|
    decreases |ts|, 4
  {
    if !Starts(ts, TName("and")) then Ok(left, ts)
    else
      match ParseNot(ts[1..])
      case Err(err, rest) => Err(err, rest)
      case Ok(e, rest) => ParseAndTail(Logic(And, left, e), rest)
  }

  function ParseNot(ts: seq<Token>): (p: Parsed<Expr>)
    ensures |p.rest| <= |ts| && (p.Ok? ==> |p.rest| < |ts|)
    decreases |ts|, 3
  {
    if Starts(ts, TName("not")) then
      match ParseNot(ts[1..])
      case Err(err, rest) => Err(err, rest)
      case Ok(e, rest) => Ok(Not(e), rest)
    else ParseCmp(ts)
  }

  function ParseCmp(ts: seq<Token>): (p: Parsed<Expr>)
    ensures |p.rest| <= |ts| && (p.Ok? ==> |p.rest| < |ts|)
    decreases |ts|, 2
  {
    match ParsePrimary(ts)
    case Err(err, rest) => Err(err, rest)
    case Ok(e, rest) =>
      match ParseLinks([], rest)
      case Err(err, rest') => Err(err, rest')
      case Ok(links, rest') => Ok(Comparison(e, links), rest')
  }

  function Comparison(first: Expr, links: seq<Link>): Expr {
    if links == [] then first
    else if |links| == 1 then Compare(links[0].op, first, links[0].operand)
    else Chained(first, links)
  }

  /** The comparison operator the tokens start with: one token, or the pair `not in`. `Ok(None, ts)` when there is none. */
  function ParseCmpOp(ts: seq<Token>): (p: Parsed<Option<CmpOp>>)
    ensures |p.rest| <= |ts| && (p.Ok? && p.value.Some? ==> |p.rest| < |ts|)
    ensures p.Ok? && p.value.None? ==> p.rest == ts
  {
    if ts != [] && ts[0].TOp? then Ok(Some(ts[0].op), ts[1..])
    else if Starts(ts, TName("in")) then Ok(Some(In), ts[1..])
    else if Starts(ts, TName("not")) then
      if Starts(ts[1..], TName("in")) then Ok(Some(NotIn), ts[2..]) else Err(ExpectedIn, ts[1..])
    else Ok(None, ts)
  }

  function ParseLinks(links: seq<Link>, ts: seq<Token>): (p: Parsed<seq<Link>>)
    ensures |p.rest| <= |ts|
    decreases |ts|, 2
  {
    match ParseCmpOp(ts)
    case Err(err, rest) => Err(err, rest)
    case Ok(None, _) => Ok(links, ts)
    case Ok(Some(op), rest) =>
      match ParsePrimary(rest)
      case Err(err, rest') => Err(err, rest')
      case Ok(e, rest') => ParseLinks(links + [Link(op, e)], rest')
  }

  /** A missing closing bracket is tolerated; a list swallows whatever token stands where `]` should. */
  function ParsePrimary(ts: seq<Token>): (p: Parsed<Expr>)
    ensures |p.rest| <= |ts| && (p.Ok? ==> |p.rest| < |ts|)
    decreases |ts|, 1
  {
    if ts == [] then Err(UnexpectedEnd, ts)
    else
      var rest := ts[1..];
      match ts[0]
      case TNum(v) => Ok(Const(v), rest)
      case TStr(s) => Ok(Const(Str(s)), rest)
      case TName(name) => Ok(NameExpr(name), rest)
      case LBracket =>
        if rest == [] || rest[0] == RBracket then Ok(ListOf([]), DropOne(rest))
        else
          (match ParseElems([], rest)
           case Err(err, rest') => Err(err, rest')
           case Ok(es, rest') => Ok(ListOf(es), DropOne(rest')))
      case LParen =>
        if Starts(rest, RParen) then Ok(TupleOf([]), rest[1..])
        else
          (match ParseOr(rest)
           case Err(err, rest') => Err(err, rest')
           case Ok(e, rest') =>
             if Starts(rest', Comma) then
               match ParseTupleElems([e], rest'[1..])
               case Err(err, rest'') => Err(err, rest'')
               case Ok(es, rest'') => Ok(TupleOf(es), DropIf(rest'', RParen))
             else Ok(e, DropIf(rest', RParen)))
      case _ => Err(UnexpectedToken, rest)
  }

  function NameExpr(name: string): Expr {
    if name == "True" then Const(Bool(true))
    else if name == "False" then Const(Bool(false))
    else if name == "None" then Const(Nil)
    else if name == "..." then Const(Ellipsis)
    else Var(name)
  }

  function DropOne(ts: seq<Token>): seq<Token> {
    if ts == [] then ts else ts[1..]
  }

  function DropIf(ts: seq<Token>, t: Token): seq<Token> {
    if Starts(ts, t) then ts[1..] else ts
  }

  function ParseElems(es: seq<Expr>, ts: seq<Token>): (p: Parsed<seq<Expr>>)
    ensures |p.rest| <= |ts|
    decreases |ts|, 6
  {
    match ParseOr(ts)
    case Err(err, rest) => Err(err, rest)
    case Ok(e, rest) =>
      if Starts(rest, Comma) && !Starts(rest[1..], RBracket) then ParseElems(es + [e], rest[1..])
      else Ok(es + [e], DropIf(rest, Comma))
  }

  function ParseTupleElems(es: seq<Expr>, ts: seq<Token>): (p: Parsed<seq<Expr>>)
    ensures |p.rest| <= |ts|
    decreases |ts|, 6
  {
    if ts == [] || ts[0] == RParen then Ok(es, ts)
    else
      match ParseOr(ts)
      case Err(err, rest) => Err(err, rest)
      case Ok(e, rest) =>
        if Starts(rest, Comma) then ParseTupleElems(es + [e], rest[1..]) else Ok(es + [e], rest)
  }

  // ----- Every tree is some text: parenthesized at least where it must be, it parses back -----

  predicate Reserved(name: string) {
    name in ["and", "or", "not", "in", "True", "False", "None", "..."]
  }

  /** The trees the parser builds: scalar constants, free names, chains of at least two comparisons. */
  predicate WellFormed(e: Expr)
    decreases e, 1
  {
    match e
    case Const(v) => !v.List? && !v.Dict?
    case Var(name) => !Reserved(name)
    case Not(child) => WellFormed(child)
    case Logic(_, l, r) => WellFormed(l) && WellFormed(r)
    case Compare(_, l, r) => WellFormed(l) && WellFormed(r)
    case Chained(first, links) => WellFormed(first) && |links| >= 2 && forall k <- links :: WellFormedLink(k)
    case ListOf(es) => forall x <- es :: WellFormed(x)
    case TupleOf(es) => forall x <- es :: WellFormed(x)
  }

  predicate WellFormedLink(k: Link)
    decreases k, 0
  {
    WellFormed(k.operand)
  }

  /** The author's choices: which trees get parentheses they do not need, which sequences a last comma. */
  datatype Style = Style(parens: Expr -> bool, comma: Expr -> bool)

  /** How tightly a tree binds: `or`, `and`, `not`, a comparison or a chain of them, everything else. */
  function Tightness(e: Expr): nat {
    match e
    case Logic(op, _, _) => if op == Or then 0 else 1
    case Not(_) => 2
    case Compare(_, _, _) => 3
    case Chained(_, _) => 3
    case _ => 4
  }

  function OpText(op: CmpOp): seq<Token> {
    match op
    case In => [TName("in")]
    case NotIn => [TName("not"), TName("in")]
    case _ => [TOp(op)]
  }

  predicate Bracketed(st: Style, e: Expr, tightness: nat) {
    Tightness(e) < tightness || st.parens(e)
  }

  /** The tree where only something at least this tight can stand. */
  function Text(st: Style, e: Expr, tightness: nat): seq<Token>
    decreases e, 2
  {
    if Bracketed(st, e, tightness) then [LParen] + Bare(st, e) + [RParen] else Bare(st, e)
  }

  /** `and` and `or` lean left; `not` takes another `not` or a comparison; operands of comparisons are single things. */
  function Bare(st: Style, e: Expr): seq<Token>
    decreases e, 1
  {
    match e
    case Const(Int(_)) => [TNum(e.v)]
    case Const(Num(_)) => [TNum(e.v)]
    case Const(Str(s)) => [TStr(s)]
    case Const(Bool(b)) => [TName(if b then "True" else "False")]
    case Const(Ellipsis) => [TName("...")]
    case Const(_) => [TName("None")]
    case Var(name) => [TName(name)]
    case Not(child) => [TName("not")] + Text(st, child, 2)
    case Logic(Or, l, r) => Text(st, l, 0) + ([TName("or")] + Text(st, r, 1))
    case Logic(And, l, r) => Text(st, l, 1) + ([TName("and")] + Text(st, r, 2))
    case Compare(op, l, r) => Text(st, l, 4) + (OpText(op) + Text(st, r, 4))
    case Chained(first, links) => Text(st, first, 4) + LinksText(st, links)
    case ListOf(es) => [LBracket] + (ElemsText(st, es) + (LastComma(st, e, es) + [RBracket]))
    case TupleOf(es) => [LParen] + (ElemsText(st, es) + (LastComma(st, e, es) + [RParen]))
  }

  /** A last comma is a matter of style after the elements of a list or a tuple; a tuple of one must have it. */
  function LastComma(st: Style, e: Expr, es: seq<Expr>): seq<Token> {
    if es != [] && (st.comma(e) || (e.TupleOf? && |es| == 1)) then [Comma] else []
  }

  function ElemsText(st: Style, es: seq<Expr>): seq<Token>
    decreases es, 0
  {
    if es == [] then []
    else if |es| == 1 then Text(st, es[0], 0)
    else Text(st, es[0], 0) + ([Comma] + ElemsText(st, es[1..]))
  }

  function LinksText(st: Style, links: seq<Link>): seq<Token>
    decreases links, 0
  {
    if links == [] then [] else LinkText(st, links[0]) + LinksText(st, links[1..])
  }

  function LinkText(st: Style, k: Link): seq<Token>
    decreases k, 3
  {
    OpText(k.op) + Text(st, k.operand, 4)
  }

  /** What can follow an operand of `and` or `or`. */
  predicate Follows(ts: seq<Token>) {
    ts == [] || ts[0] in [RParen, RBracket, Comma, TName("and"), TName("or")]
  }

  /** What can follow a whole expression. */
  predicate Stops(ts: seq<Token>) {
    ts == [] || ts[0] in [RParen, RBracket, Comma]
  }

  /**
   The grammar is complete and binds as it should: in whatever style, with parentheses wherever the tightness of the
   operators and the lean to the left need them and anywhere else the author likes, a tree's text parses back to it.
   */
  lemma ParseInvertsText(st: Style, e: Expr)
    requires WellFormed(e)
    ensures ParseExpr(Text(st, e, 0)) == Ok(e, [])
  {
    assert Text(st, e, 0) + [] == Text(st, e, 0);
    OperandParses(st, e, []);
  }

  /** At the top a tuple needs no parentheses. */
  lemma ParseInvertsTopTuple(st: Style, e: Expr)
    requires e.TupleOf? && e.elems != [] && WellFormed(e)
    ensures ParseExpr(ElemsText(st, e.elems) + LastComma(st, e, e.elems)) == Ok(e, [])
  {
    var es, last := e.elems, LastComma(st, e, e.elems);
    if |es| == 1 {
      OperandParses(st, es[0], last);
      assert last == [Comma] && last[1..] == [];
      assert ParseTopTuple([es[0]], last) == Ok([es[0]], []);
      assert es == [es[0]];
    } else {
      var more := ElemsText(st, es[1..]) + last;
      ElemsOpen(st, es, last);
      OperandParses(st, es[0], [Comma] + more);
      TopTupleParses(st, [es[0]], es[1..], last);
      assert [es[0]] + es[1..] == es;
    }
  }

  lemma {:induction false} TopTupleParses(st: Style, done: seq<Expr>, es: seq<Expr>, last: seq<Token>)
    requires es != [] && (forall x <- es :: WellFormed(x)) && (last == [] || last == [Comma])
    ensures ParseTopTuple(done, [Comma] + (ElemsText(st, es) + last)) == Ok(done + es, [])
    decreases |es|
  {
    var inner := ElemsText(st, es) + last;
    ElemsStart(st, es);
    assert ([Comma] + inner)[1..] == inner;
    if |es| == 1 {
      OperandParses(st, es[0], last);
      assert done + es == done + [es[0]];
      assert last == [Comma] ==> last[1..] == [];
    } else {
      ElemsOpen(st, es, last);
      OperandParses(st, es[0], [Comma] + (ElemsText(st, es[1..]) + last));
      TopTupleParses(st, done + [es[0]], es[1..], last);
      HeadFirst(done, es);
    }
  }

  /** A closing parenthesis left out at the end of the text is supplied. */
  lemma UnclosedParses(st: Style, e: Expr)
    requires WellFormed(e)
    ensures ParseExpr([LParen] + Bare(st, e)) == Ok(e, [])
  {
    var inner := Bare(st, e);
    assert inner + [] == inner && ([LParen] + inner)[1..] == inner;
    BareOrParses(st, e, []);
    BareStart(st, e);
    assert ParsePrimary([LParen] + inner) == Ok(e, []);
    NoLinksLeft([LParen] + inner, e, []);
    NotIsOr([LParen] + inner, e, []);
  }

  // ----- How texts start -----

  lemma {:induction false} BareStart(st: Style, e: Expr)
    requires WellFormed(e)
    ensures Bare(st, e) != [] && Bare(st, e)[0] != RParen && Bare(st, e)[0] != RBracket
    ensures Tightness(e) >= 3 ==> Bare(st, e)[0] != TName("not")
    decreases e, 0
  {
    match e
    case Logic(op, l, r) => TextStart(st, l, if op == Or then 0 else 1);
    case Compare(_, l, _) => TextStart(st, l, 4);
    case Chained(first, _) => TextStart(st, first, 4);
    case _ =>
  }

  lemma {:induction false} TextStart(st: Style, e: Expr, tightness: nat)
    requires WellFormed(e)
    ensures Text(st, e, tightness) != []
    ensures Text(st, e, tightness)[0] != RParen && Text(st, e, tightness)[0] != RBracket
    ensures tightness >= 3 || Bracketed(st, e, tightness) ==> Text(st, e, tightness)[0] != TName("not")
    decreases e, 1
  {
    BareStart(st, e);
  }

  lemma ElemsStart(st: Style, es: seq<Expr>)
    requires es != [] && WellFormed(es[0])
    ensures ElemsText(st, es) != []
    ensures ElemsText(st, es)[0] != RParen && ElemsText(st, es)[0] != RBracket
  {
    TextStart(st, es[0], 0);
  }

  lemma ElemsOpen(st: Style, es: seq<Expr>, rest: seq<Token>)
    requires |es| > 1
    ensures ElemsText(st, es) + rest == Text(st, es[0], 0) + ([Comma] + (ElemsText(st, es[1..]) + rest))
  {
    var tail := ElemsText(st, es[1..]);
    Reassociates(Text(st, es[0], 0), [Comma] + tail, rest);
    Reassociates([Comma], tail, rest);
  }

  lemma LinksOpen(st: Style, links: seq<Link>, rest: seq<Token>)
    requires links != []
    ensures LinksText(st, links) + rest
         == OpText(links[0].op) + (Text(st, links[0].operand, 4) + (LinksText(st, links[1..]) + rest))
  {
    var k, tail := links[0], LinksText(st, links[1..]);
    Reassociates(LinkText(st, k), tail, rest);
    Reassociates(OpText(k.op), Text(st, k.operand, 4), tail + rest);
  }

  lemma HeadFirst<T>(done: seq<T>, items: seq<T>)
    requires items != []
    ensures done + [items[0]] + items[1..] == done + items
  {
    Reassociates(done, [items[0]], items[1..]);
    assert [items[0]] + items[1..] == items;
  }

  // ----- One step of the grammar, on tokens -----

  lemma NotIsOr(ts: seq<Token>, e: Expr, rest: seq<Token>)
    requires ParseNot(ts) == Ok(e, rest) && Stops(rest)
    ensures ParseOr(ts) == Ok(e, rest)
  {
    assert ParseAndTail(e, rest) == Ok(e, rest);
    assert ParseOrTail(e, rest) == Ok(e, rest);
  }

  lemma NoLinksLeft(ts: seq<Token>, e: Expr, rest: seq<Token>)
    requires ts != [] && ts[0] != TName("not") && ParsePrimary(ts) == Ok(e, rest) && Follows(rest)
    ensures ParseNot(ts) == Ok(e, rest)
  {
    assert ParseLinks([], rest) == Ok([], rest);
  }

  lemma Parenthesized(inner: seq<Token>, e: Expr, rest: seq<Token>)
    requires inner != [] && inner[0] != RParen && ParseOr(inner) == Ok(e, [RParen] + rest)
    ensures ParsePrimary([LParen] + inner) == Ok(e, rest)
  {
    assert ([LParen] + inner)[1..] == inner;
    assert ([RParen] + rest)[1..] == rest;
  }

  lemma NegationStep(inner: seq<Token>, e: Expr, rest: seq<Token>)
    requires ParseNot(inner) == Ok(e, rest)
    ensures ParseNot([TName("not")] + inner) == Ok(Not(e), rest)
  {
    assert ([TName("not")] + inner)[1..] == inner;
  }

  lemma AndStep(left: Expr, right: seq<Token>, e: Expr, rest: seq<Token>)
    requires ParseNot(right) == Ok(e, rest)
    ensures ParseAndTail(left, [TName("and")] + right) == ParseAndTail(Logic(And, left, e), rest)
  {
    assert ([TName("and")] + right)[1..] == right;
  }

  lemma OrStep(left: Expr, right: seq<Token>, e: Expr, rest: seq<Token>)
    requires ParseAnd(right) == Ok(e, rest)
    ensures ParseOrTail(left, [TName("or")] + right) == ParseOrTail(Logic(Or, left, e), rest)
  {
    assert ([TName("or")] + right)[1..] == right;
  }

  lemma CmpOpParses(op: CmpOp, rest: seq<Token>)
    ensures ParseCmpOp(OpText(op) + rest) == Ok(Some(op), rest)
  {
    var ts := OpText(op) + rest;
    if op == NotIn {
      assert ts[1..] == [TName("in")] + rest && ts[2..] == rest;
    } else {
      assert ts[1..] == rest;
    }
  }

  lemma LinkStep(done: seq<Link>, k: Link, operand: seq<Token>, rest: seq<Token>)
    requires ParsePrimary(operand) == Ok(k.operand, rest)
    ensures ParseLinks(done, OpText(k.op) + operand) == ParseLinks(done + [k], rest)
  {
    CmpOpParses(k.op, operand);
  }

  lemma NoMoreLinks(done: seq<Link>, rest: seq<Token>)
    requires Follows(rest)
    ensures ParseLinks(done, rest) == Ok(done, rest)
  {
  }

  lemma ElemStep(done: seq<Expr>, ts: seq<Token>, e: Expr, more: seq<Token>)
    requires ParseOr(ts) == Ok(e, [Comma] + more) && !Starts(more, RBracket)
    ensures ParseElems(done, ts) == ParseElems(done + [e], more)
  {
    assert ([Comma] + more)[1..] == more;
  }

  lemma TupleElemStep(done: seq<Expr>, ts: seq<Token>, e: Expr, more: seq<Token>)
    requires ts != [] && ts[0] != RParen && ParseOr(ts) == Ok(e, [Comma] + more)
    ensures ParseTupleElems(done, ts) == ParseTupleElems(done + [e], more)
  {
    assert ([Comma] + more)[1..] == more;
  }

  lemma TupleInParens(inner: seq<Token>, first: Expr, more: seq<Token>, es: seq<Expr>, rest: seq<Token>)
    requires inner != [] && inner[0] != RParen && ParseOr(inner) == Ok(first, [Comma] + more)
    requires ParseTupleElems([first], more) == Ok(es, [RParen] + rest)
    ensures ParsePrimary([LParen] + inner) == Ok(TupleOf(es), rest)
  {
    assert ([LParen] + inner)[1..] == inner;
    assert ([Comma] + more)[1..] == more;
    assert ([RParen] + rest)[1..] == rest;
  }

  // ----- The texts parse, level by level -----

  /** A text followed by a token no operator starts with is one whole expression. */
  lemma {:induction false} OperandParses(st: Style, e: Expr, rest: seq<Token>)
    requires WellFormed(e) && Stops(rest)
    ensures ParseOr(Text(st, e, 0) + rest) == Ok(e, rest)
    decreases e, 10
  {
    OrParses(st, e, rest);
    assert ParseOrTail(e, rest) == Ok(e, rest);
  }

  lemma {:induction false} OrParses(st: Style, e: Expr, rest: seq<Token>)
    requires WellFormed(e) && Follows(rest) && !Starts(rest, TName("and"))
    ensures ParseOr(Text(st, e, 0) + rest) == ParseOrTail(e, rest)
    decreases e, 9
  {
    if Bracketed(st, e, 0) {
      assert Text(st, e, 0) == Text(st, e, 1);
      AndParses(st, e, rest);
      assert ParseAndTail(e, rest) == Ok(e, rest);
    } else {
      BareOrParses(st, e, rest);
    }
  }

  lemma {:induction false} AndParses(st: Style, e: Expr, rest: seq<Token>)
    requires WellFormed(e) && Follows(rest)
    ensures ParseAnd(Text(st, e, 1) + rest) == ParseAndTail(e, rest)
    decreases e, 8
  {
    if Bracketed(st, e, 1) {
      assert Text(st, e, 1) == Text(st, e, 2);
      NotParses(st, e, rest);
    } else {
      BareAndParses(st, e, rest);
    }
  }

  lemma {:induction false} NotParses(st: Style, e: Expr, rest: seq<Token>)
    requires WellFormed(e) && Follows(rest)
    ensures ParseNot(Text(st, e, 2) + rest) == Ok(e, rest)
    decreases e, 7
  {
    if Bracketed(st, e, 2) {
      assert Text(st, e, 2) == Text(st, e, 4);
      PrimaryParses(st, e, rest);
      NoLinksLeft(Text(st, e, 2) + rest, e, rest);
    } else {
      BareNotParses(st, e, rest);
    }
  }

  lemma {:induction false} PrimaryParses(st: Style, e: Expr, rest: seq<Token>)
    requires WellFormed(e)
    ensures ParsePrimary(Text(st, e, 4) + rest) == Ok(e, rest)
    decreases e, 6
  {
    if Bracketed(st, e, 4) {
      var inner := Bare(st, e) + ([RParen] + rest);
      BareOrParses(st, e, [RParen] + rest);
      BareStart(st, e);
      Parenthesized(inner, e, rest);
      ParensOpen(Bare(st, e), rest);
    } else {
      BarePrimaryParses(st, e, rest);
    }
  }

  lemma ParensOpen(inner: seq<Token>, rest: seq<Token>)
    ensures [LParen] + inner + [RParen] + rest == [LParen] + (inner + ([RParen] + rest))
  {
  }

  lemma {:induction false} BareOrParses(st: Style, e: Expr, rest: seq<Token>)
    requires WellFormed(e) && Follows(rest) && !Starts(rest, TName("and"))
    ensures ParseOr(Bare(st, e) + rest) == ParseOrTail(e, rest)
    decreases e, 5
  {
    if Tightness(e) == 0 {
      var right := Text(st, e.right, 1) + rest;
      OrParses(st, e.left, [TName("or")] + right);
      AndParses(st, e.right, rest);
      assert ParseAndTail(e.right, rest) == Ok(e.right, rest);
      OrStep(e.left, right, e.right, rest);
      Reassociates(Text(st, e.left, 0), [TName("or")] + Text(st, e.right, 1), rest);
      Reassociates([TName("or")], Text(st, e.right, 1), rest);
    } else {
      BareAndParses(st, e, rest);
      assert ParseAndTail(e, rest) == Ok(e, rest);
    }
  }

  lemma {:induction false} BareAndParses(st: Style, e: Expr, rest: seq<Token>)
    requires WellFormed(e) && Follows(rest) && Tightness(e) >= 1
    ensures ParseAnd(Bare(st, e) + rest) == ParseAndTail(e, rest)
    decreases e, 4
  {
    if Tightness(e) == 1 {
      var right := Text(st, e.right, 2) + rest;
      AndParses(st, e.left, [TName("and")] + right);
      NotParses(st, e.right, rest);
      AndStep(e.left, right, e.right, rest);
      Reassociates(Text(st, e.left, 1), [TName("and")] + Text(st, e.right, 2), rest);
      Reassociates([TName("and")], Text(st, e.right, 2), rest);
    } else {
      BareNotParses(st, e, rest);
    }
  }

  lemma {:induction false} BareNotParses(st: Style, e: Expr, rest: seq<Token>)
    requires WellFormed(e) && Follows(rest) && Tightness(e) >= 2
    ensures ParseNot(Bare(st, e) + rest) == Ok(e, rest)
    decreases e, 3
  {
    if e.Not? {
      NotParses(st, e.child, rest);
      NegationStep(Text(st, e.child, 2) + rest, e.child, rest);
      Reassociates([TName("not")], Text(st, e.child, 2), rest);
    } else if e.Compare? {
      CompareParses(st, e, rest);
    } else if e.Chained? {
      ChainedParses(st, e, rest);
    } else {
      BarePrimaryParses(st, e, rest);
      BareStart(st, e);
      NoLinksLeft(Bare(st, e) + rest, e, rest);
    }
  }

  lemma {:induction false} BarePrimaryParses(st: Style, e: Expr, rest: seq<Token>)
    requires WellFormed(e) && Tightness(e) == 4
    ensures ParsePrimary(Bare(st, e) + rest) == Ok(e, rest)
    decreases e, 2
  {
    match e
    case Const(_) => assert (Bare(st, e) + rest)[1..] == rest;
    case Var(_) => assert (Bare(st, e) + rest)[1..] == rest;
    case ListOf(_) => ListParses(st, e, rest);
    case TupleOf(_) => TupleParses(st, e, rest);
  }

  // ----- Comparisons -----

  lemma {:induction false} CompareParses(st: Style, e: Expr, rest: seq<Token>)
    requires e.Compare? && WellFormed(e) && Follows(rest)
    ensures ParseNot(Bare(st, e) + rest) == Ok(e, rest)
    decreases e, 2
  {
    var right := Text(st, e.right, 4) + rest;
    PrimaryParses(st, e.left, OpText(e.cop) + right);
    PrimaryParses(st, e.right, rest);
    LinkStep([], Link(e.cop, e.right), right, rest);
    NoMoreLinks([Link(e.cop, e.right)], rest);
    assert [] + [Link(e.cop, e.right)] == [Link(e.cop, e.right)];
    Reassociates(Text(st, e.left, 4), OpText(e.cop) + Text(st, e.right, 4), rest);
    Reassociates(OpText(e.cop), Text(st, e.right, 4), rest);
    ComparisonIsNot(st, e.left, OpText(e.cop) + right, [Link(e.cop, e.right)], rest);
  }

  lemma {:induction false} ChainedParses(st: Style, e: Expr, rest: seq<Token>)
    requires e.Chained? && WellFormed(e) && Follows(rest)
    ensures ParseNot(Bare(st, e) + rest) == Ok(e, rest)
    decreases e, 2
  {
    PrimaryParses(st, e.first, LinksText(st, e.links) + rest);
    LinksParse(st, [], e.links, rest);
    assert [] + e.links == e.links;
    Reassociates(Text(st, e.first, 4), LinksText(st, e.links), rest);
    ComparisonIsNot(st, e.first, LinksText(st, e.links) + rest, e.links, rest);
  }

  lemma ComparisonIsNot(st: Style, first: Expr, more: seq<Token>, links: seq<Link>, rest: seq<Token>)
    requires WellFormed(first) && ParsePrimary(Text(st, first, 4) + more) == Ok(first, more)
    requires ParseLinks([], more) == Ok(links, rest)
    ensures ParseNot(Text(st, first, 4) + more) == Ok(Comparison(first, links), rest)
  {
    TextStart(st, first, 4);
  }

  lemma {:induction false} LinksParse(st: Style, done: seq<Link>, links: seq<Link>, rest: seq<Token>)
    requires Follows(rest) && forall k <- links :: WellFormedLink(k)
    ensures ParseLinks(done, LinksText(st, links) + rest) == Ok(done + links, rest)
    decreases links, 0
  {
    if links == [] {
      NoMoreLinks(done, rest);
      assert LinksText(st, links) + rest == rest && done + links == done;
    } else {
      var k, more := links[0], LinksText(st, links[1..]) + rest;
      LinksOpen(st, links, rest);
      OperandOfLink(st, k, more);
      LinkStep(done, k, Text(st, k.operand, 4) + more, more);
      LinksParse(st, done + [k], links[1..], rest);
      HeadFirst(done, links);
    }
  }

  lemma {:induction false} OperandOfLink(st: Style, k: Link, rest: seq<Token>)
    requires WellFormedLink(k)
    ensures ParsePrimary(Text(st, k.operand, 4) + rest) == Ok(k.operand, rest)
    decreases k, 0
  {
    PrimaryParses(st, k.operand, rest);
  }

  // ----- Lists and tuples -----

  /** The end of a sequence: its bracket, or a last comma and its bracket. */
  predicate Closes(ts: seq<Token>, bracket: Token) {
    Starts(ts, bracket) || (Starts(ts, Comma) && Starts(ts[1..], bracket))
  }

  lemma {:induction false} ElemsParse(st: Style, done: seq<Expr>, es: seq<Expr>, rest: seq<Token>)
    requires es != [] && (forall x <- es :: WellFormed(x)) && Closes(rest, RBracket)
    ensures ParseElems(done, ElemsText(st, es) + rest) == Ok(done + es, DropIf(rest, Comma))
    decreases es, 0
  {
    if |es| == 1 {
      OperandParses(st, es[0], rest);
      assert done + es == done + [es[0]];
    } else {
      var more := ElemsText(st, es[1..]) + rest;
      ElemsOpen(st, es, rest);
      OperandParses(st, es[0], [Comma] + more);
      ElemsStart(st, es[1..]);
      ElemStep(done, Text(st, es[0], 0) + ([Comma] + more), es[0], more);
      ElemsParse(st, done + [es[0]], es[1..], rest);
      HeadFirst(done, es);
    }
  }

  lemma {:induction false} TupleElemsParse(st: Style, done: seq<Expr>, es: seq<Expr>, rest: seq<Token>)
    requires es != [] && (forall x <- es :: WellFormed(x)) && Closes(rest, RParen)
    ensures ParseTupleElems(done, ElemsText(st, es) + rest) == Ok(done + es, DropIf(rest, Comma))
    decreases es, 0
  {
    ElemsStart(st, es);
    if |es| == 1 {
      OperandParses(st, es[0], rest);
      assert done + es == done + [es[0]];
    } else {
      var more := ElemsText(st, es[1..]) + rest;
      ElemsOpen(st, es, rest);
      OperandParses(st, es[0], [Comma] + more);
      TupleElemStep(done, Text(st, es[0], 0) + ([Comma] + more), es[0], more);
      TupleElemsParse(st, done + [es[0]], es[1..], rest);
      HeadFirst(done, es);
    }
  }

  lemma SequenceOpen(open: Token, elems: seq<Token>, comma: seq<Token>, close: Token, rest: seq<Token>)
    ensures [open] + (elems + (comma + [close])) + rest == [open] + (elems + (comma + ([close] + rest)))
  {
    Reassociates([open], elems + (comma + [close]), rest);
    Reassociates(elems, comma + [close], rest);
    Reassociates(comma, [close], rest);
  }

  lemma CommaCloses(st: Style, e: Expr, es: seq<Expr>, bracket: Token, rest: seq<Token>)
    requires bracket == RBracket || bracket == RParen
    ensures Closes(LastComma(st, e, es) + ([bracket] + rest), bracket)
    ensures DropIf(LastComma(st, e, es) + ([bracket] + rest), Comma) == [bracket] + rest
  {
    var comma := LastComma(st, e, es);
    if comma == [] {
      assert comma + ([bracket] + rest) == [bracket] + rest;
    } else {
      assert (comma + ([bracket] + rest))[1..] == [bracket] + rest;
    }
  }

  lemma {:induction false} ListParses(st: Style, e: Expr, rest: seq<Token>)
    requires e.ListOf? && WellFormed(e)
    ensures ParsePrimary(Bare(st, e) + rest) == Ok(e, rest)
    decreases e, 1
  {
    var close := LastComma(st, e, e.elems) + ([RBracket] + rest);
    var inner := ElemsText(st, e.elems) + close;
    SequenceOpen(LBracket, ElemsText(st, e.elems), LastComma(st, e, e.elems), RBracket, rest);
    CommaCloses(st, e, e.elems, RBracket, rest);
    assert ([LBracket] + inner)[1..] == inner && ([RBracket] + rest)[1..] == rest;
    if e.elems == [] {
      assert inner == [RBracket] + rest;
    } else {
      ElemsStart(st, e.elems);
      ElemsParse(st, [], e.elems, close);
      assert [] + e.elems == e.elems;
    }
  }

  lemma {:induction false} TupleParses(st: Style, e: Expr, rest: seq<Token>)
    requires e.TupleOf? && WellFormed(e)
    ensures ParsePrimary(Bare(st, e) + rest) == Ok(e, rest)
    decreases e, 1
  {
    var es := e.elems;
    var close := LastComma(st, e, es) + ([RParen] + rest);
    var inner := ElemsText(st, es) + close;
    SequenceOpen(LParen, ElemsText(st, es), LastComma(st, e, es), RParen, rest);
    CommaCloses(st, e, es, RParen, rest);
    if es == [] {
      assert inner == [RParen] + rest;
      assert ([LParen] + inner)[1..] == inner && inner[1..] == rest;
    } else {
      ElemsStart(st, es);
      var more := TupleFirst(st, e, close, rest);
      TupleInParens(inner, es[0], more, es, rest);
    }
  }

  /** The first element, its comma, and the elements after it. */
  lemma {:induction false} TupleFirst(st: Style, e: Expr, close: seq<Token>, rest: seq<Token>) returns (more: seq<Token>)
    requires e.TupleOf? && e.elems != [] && WellFormed(e)
    requires close == LastComma(st, e, e.elems) + ([RParen] + rest)
    requires Closes(close, RParen) && DropIf(close, Comma) == [RParen] + rest
    ensures ParseOr(ElemsText(st, e.elems) + close) == Ok(e.elems[0], [Comma] + more)
    ensures ParseTupleElems([e.elems[0]], more) == Ok(e.elems, [RParen] + rest)
    decreases e, 0
  {
    var es := e.elems;
    if |es| == 1 {
      more := [RParen] + rest;
      OperandParses(st, es[0], close);
      assert [es[0]] == es;
    } else {
      more := ElemsText(st, es[1..]) + close;
      ElemsOpen(st, es, close);
      OperandParses(st, es[0], [Comma] + more);
      TupleElemsParse(st, [es[0]], es[1..], close);
      assert [es[0]] + es[1..] == es;
    }
  }

  // ----- The parser object -----

  function AsParsed<T>(r: Result<T, ParseError>, rest: seq<Token>): Parsed<T> {
    match r
    case Success(e) => Ok(e, rest)
    case Failure(err) => Err(err, rest)
  }

  /** The Go parser: a token list and a position that only moves forward. */
  class Parser {
    const toks: seq<Token>
    var pos: nat

    constructor (toks: seq<Token>)
      ensures Valid() && Left() == toks
    {
      this.toks := toks;
      pos := 0;
    }

    ghost predicate Valid()
      reads this
    {
      pos <= |toks|
    }

    ghost function Left(): seq<Token>
      reads this
      requires Valid()
    {
      toks[pos..]
    }

    predicate At(t: Token)
      reads this
      requires Valid()
      ensures At(t) == Starts(Left(), t)
    {
      pos < |toks| && toks[pos] == t
    }

    method Next() returns (t: Option<Token>)
      requires Valid()
      modifies `pos
      ensures Valid()
      ensures t == if old(Left()) == [] then None else Some(old(Left())[0])
      ensures Left() == DropOne(old(Left()))
    {
      if pos == |toks| { return None; }
      t := Some(toks[pos]);
      pos := pos + 1;
    }

    method SkipIf(t: Token) returns (skipped: bool)
      requires Valid()
      modifies `pos
      ensures Valid() && skipped == Starts(old(Left()), t)
      ensures Left() == DropIf(old(Left()), t)
    {
      skipped := At(t);
      if skipped { pos := pos + 1; }
    }

    method RunExpr() returns (r: Result<Expr, ParseError>)
      requires Valid()
      modifies `pos
      ensures Valid() && AsParsed(r, Left()) == ParseExpr(old(Left()))
    {
      r := RunOr();
      if r.Failure? { return; }
      if At(Comma) {
        var elems := [r.value];
        while At(Comma)
          invariant Valid()
          invariant ParseTopTuple(elems, Left()) == ParseTopTuple([r.value], ParseOr(old(Left())).rest)
          decreases |toks| - pos
        {
          pos := pos + 1;
          if pos == |toks| { break; }
          var e := RunOr();
          if e.Failure? { return e; }
          elems := elems + [e.value];
        }
        r := Success(TupleOf(elems));
      }
      if pos < |toks| { return Failure(UnexpectedToken); }
    }

    method RunOr() returns (r: Result<Expr, ParseError>)
      requires Valid()
      modifies `pos
      ensures Valid() && AsParsed(r, Left()) == ParseOr(old(Left()))
      decreases |toks| - pos, 5
    {
      r := RunAnd();
      if r.Failure? { return; }
      var left := r.value;
      while At(TName("or"))
        invariant Valid() && pos > old(pos)
        invariant ParseOrTail(left, Left()) == ParseOr(old(Left()))
        decreases |toks| - pos
      {
        pos := pos + 1;
        var right := RunAnd();
        if right.Failure? { return right; }
        left := Logic(Or, left, right.value);
      }
      r := Success(left);
    }

    method RunAnd() returns (r: Result<Expr, ParseError>)
      requires Valid()
      modifies `pos
      ensures Valid() && AsParsed(r, Left()) == ParseAnd(old(Left()))
      decreases |toks| - pos, 4
    {
      r := RunNot();
      if r.Failure? { return; }
      var left := r.value;
      while At(TName("and"))
        invariant Valid() && pos > old(pos)
        invariant ParseAndTail(left, Left()) == ParseAnd(old(Left()))
        decreases |toks| - pos
      {
        pos := pos + 1;
        var right := RunNot();
        if right.Failure? { return right; }
        left := Logic(And, left, right.value);
      }
      r := Success(left);
    }

    method RunNot() returns (r: Result<Expr, ParseError>)
      requires Valid()
      modifies `pos
      ensures Valid() && AsParsed(r, Left()) == ParseNot(old(Left()))
      decreases |toks| - pos, 3
    {
      if At(TName("not")) {
        pos := pos + 1;
        r := RunNot();
        if r.Success? { r := Success(Not(r.value)); }
      } else {
        r := RunCmp();
      }
    }

    method RunCmp() returns (r: Result<Expr, ParseError>)
      requires Valid()
      modifies `pos
      ensures Valid() && AsParsed(r, Left()) == ParseCmp(old(Left()))
      decreases |toks| - pos, 2
    {
      r := RunPrimary();
      if r.Failure? { return; }
      var links: seq<Link> := [];
      while true
        invariant Valid() && pos > old(pos)
        invariant ParseLinks(links, Left()) == ParseLinks([], ParsePrimary(old(Left())).rest)
        decreases |toks| - pos
      {
        var op := RunCmpOp();
        if op.Failure? { return Failure(op.error); }
        if op.value == None { break; }
        var right := RunPrimary();
        if right.Failure? { return right; }
        links := links + [Link(op.value.value, right.value)];
      }
      r := Success(Comparison(r.value, links));
    }

    method RunCmpOp() returns (r: Result<Option<CmpOp>, ParseError>)
      requires Valid()
      modifies `pos
      ensures Valid() && AsParsed(r, Left()) == ParseCmpOp(old(Left()))
    {
      if pos == |toks| { return Success(None); }
      if toks[pos].TOp? {
        var op := toks[pos].op;
        pos := pos + 1;
        return Success(Some(op));
      }
      var isIn := SkipIf(TName("in"));
      if isIn { return Success(Some(In)); }
      var isNot := SkipIf(TName("not"));
      if isNot {
        isIn := SkipIf(TName("in"));
        return if isIn then Success(Some(NotIn)) else Failure(ExpectedIn);
      }
      return Success(None);
    }

    method RunPrimary() returns (r: Result<Expr, ParseError>)
      requires Valid()
      modifies `pos
      ensures Valid() && AsParsed(r, Left()) == ParsePrimary(old(Left()))
      decreases |toks| - pos, 1
    {
      var tok := Next();
      if tok == None { return Failure(UnexpectedEnd); }
      match tok.value
      case TNum(v) => r := Success(Const(v));
      case TStr(s) => r := Success(Const(Str(s)));
      case TName(name) => r := Success(NameExpr(name));
      case LBracket =>
        var elems := Success([]);
        if pos < |toks| && !At(RBracket) { elems := RunElems(); }
        if elems.Failure? { return Failure(elems.error); }
        var closing := Next();
        r := Success(ListOf(elems.value));
      case LParen =>
        var closed := SkipIf(RParen);
        if closed { return Success(TupleOf([])); }
        r := RunOr();
        if r.Failure? { return; }
        var isTuple := SkipIf(Comma);
        if isTuple {
          var elems := RunTupleElems(r.value);
          if elems.Failure? { return Failure(elems.error); }
          r := Success(TupleOf(elems.value));
        }
        closed := SkipIf(RParen);
      case _ => r := Failure(UnexpectedToken);
    }

    method RunElems() returns (r: Result<seq<Expr>, ParseError>)
      requires Valid()
      modifies `pos
      ensures Valid() && AsParsed(r, Left()) == ParseElems([], old(Left()))
      decreases |toks| - pos, 6
    {
      var elems: seq<Expr> := [];
      while true
        invariant Valid() && pos >= old(pos)
        invariant ParseElems(elems, Left()) == ParseElems([], old(Left()))
        decreases |toks| - pos
      {
        var e := RunOr();
        if e.Failure? { return Failure(e.error); }
        elems := elems + [e.value];
        var more := SkipIf(Comma);
        if !more || At(RBracket) { break; }
      }
      r := Success(elems);
    }

    method RunTupleElems(first: Expr) returns (r: Result<seq<Expr>, ParseError>)
      requires Valid()
      modifies `pos
      ensures Valid() && AsParsed(r, Left()) == ParseTupleElems([first], old(Left()))
      decreases |toks| - pos, 6
    {
      var elems := [first];
      while pos < |toks| && !At(RParen)
        invariant Valid() && pos >= old(pos)
        invariant ParseTupleElems(elems, Left()) == ParseTupleElems([first], old(Left()))
        decreases |toks| - pos
      {
        var e := RunOr();
        if e.Failure? { return Failure(e.error); }
        elems := elems + [e.value];
        var more := SkipIf(Comma);
        if !more { break; }
      }
      r := Success(elems);
    }
  }
}
