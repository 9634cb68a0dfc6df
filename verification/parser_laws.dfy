/** Properties of the expression parser: how far it reads, that it ignores what follows a
    complete expression, precedence and left associativity, the scope of unary minus, and a
    round trip through a fully parenthesised printer. */
module ParserLaws {
  import opened Results
  import opened Parser

  /** Tokens that readT turns into a leaf. */
  predicate IsAtom(t: Token) {
    t.Word? || t.Num?
  }

  function Leaf(t: Token): Exp
    requires IsAtom(t)
  {
    if t.Word? then Identifier(t.name) else Constant(t.value)
  }

  predicate IsArith(op: Operator) {
    op in {Plus, Minus, Times, Divide}
  }

  /** A single atom followed by a token that does not bind tighter than `prec` is read
      as a leaf, and the cursor stops right after it. */
  lemma ReadEAtom(toks: seq<Token>, pos: nat, prec: nat, allowAssignment: bool, d: Defaults)
    requires pos < |toks| && IsAtom(toks[pos])
    requires Precedence(Peek(toks, pos + 1)) <= prec
    ensures ReadE(toks, pos, prec, allowAssignment, d) == Ok((Leaf(toks[pos]), pos + 1))
  {
    assert ReadT(toks, pos, d) == Ok((Leaf(toks[pos]), pos + 1));
  }

  /** readE is readT followed by the operator loop. */
  lemma ReadEUnfold(toks: seq<Token>, pos: nat, prec: nat, allowAssignment: bool, d: Defaults, t: Exp, q: nat)
    requires pos <= |toks| && ReadT(toks, pos, d) == Ok((t, q))
    ensures ReadE(toks, pos, prec, allowAssignment, d) == ReadOps(toks, t, q, prec, allowAssignment, d)
  {
  }

  /** One round of the operator loop: an operator that binds tighter than `prec` takes
      the operand readE reads at its own level, and the loop goes on from there. */
  lemma ReadOpsUnfold(toks: seq<Token>, lhs: Exp, pos: nat, prec: nat, allowAssignment: bool, d: Defaults, rhs: Exp, q: nat)
    requires pos < |toks| && toks[pos].Op? && PrecedenceOf(toks[pos].symbol) > prec
    requires toks[pos].symbol == Assign ==> allowAssignment
    requires ReadE(toks, pos + 1, PrecedenceOf(toks[pos].symbol), allowAssignment, d) == Ok((rhs, q))
    ensures ReadOps(toks, lhs, pos, prec, allowAssignment, d)
         == ReadOps(toks, Compound(toks[pos].symbol, lhs, rhs), q, prec, allowAssignment, d)
  {
  }

  /** A term starting with `-`: a second sign right after it is an error; otherwise the
      term is `0 - e`, where e is what readE reads with the default arguments, and the
      term fails exactly when that readE fails. */
  lemma ReadTNegation(toks: seq<Token>, pos: nat, d: Defaults)
    requires pos < |toks| && toks[pos] == Op(Minus)
    ensures Peek(toks, pos + 1) in {Op(Plus), Op(Minus)} ==> ReadT(toks, pos, d) == Fail(SyntaxError)
    ensures Peek(toks, pos + 1) !in {Op(Plus), Op(Minus)} ==>
              var inner := ReadE(toks, pos + 1, d.prec, d.allowAssignment, d);
              && (ReadT(toks, pos, d).Ok? <==> inner.Ok?)
              && (inner.Ok? ==> ReadT(toks, pos, d) == Ok((Compound(Minus, Constant(0), inner.value.0), inner.value.1)))
  {
  }

  /** A term starting with `(` is the expression readE reads with the default arguments,
      and it must be followed by `)`, which the term uses up: any other token, end of
      input included, makes it an error. */
  lemma ReadTBracket(toks: seq<Token>, pos: nat, d: Defaults)
    requires pos < |toks| && toks[pos] == Op(LParen)
    ensures var inner := ReadE(toks, pos + 1, d.prec, d.allowAssignment, d);
            && (ReadT(toks, pos, d).Ok? <==> inner.Ok? && Peek(toks, inner.value.1) == Op(RParen))
            && (ReadT(toks, pos, d).Ok? ==>
                  && ReadT(toks, pos, d) == Ok((inner.value.0, inner.value.1 + 1))
                  && toks[inner.value.1] == Op(RParen))
  {
  }

  // ---------------------------------------------------------------------------
  // Reading never looks past the end of a complete expression
  // ---------------------------------------------------------------------------

  /** A token that cannot continue an expression: its precedence is 0. */
  predicate Stops(toks: seq<Token>, extra: seq<Token>) {
    Precedence(Peek(toks + extra, |toks|)) == 0
  }

  lemma {:induction false} ReadTExtend(toks: seq<Token>, extra: seq<Token>, pos: nat, d: Defaults)
    requires pos <= |toks| && Stops(toks, extra)
    requires ReadT(toks, pos, d).Ok?
    ensures ReadT(toks + extra, pos, d) == ReadT(toks, pos, d)
    decreases |toks| - pos, 1
  {
    var ext := toks + extra;
    assert pos < |toks|;
    assert Peek(ext, pos) == Peek(toks, pos);
    match Peek(toks, pos)
    case Word(_) =>
    case Num(_) =>
    case Op(s) =>
      if s == Minus {
        var r := ReadE(toks, pos + 1, d.prec, d.allowAssignment, d);
        assert r.Ok?;
        assert pos + 1 < |toks|;
        assert Peek(ext, pos + 1) == Peek(toks, pos + 1);
        ReadEExtend(toks, extra, pos + 1, d.prec, d.allowAssignment, d);
      } else {
        assert s == LParen;
        var r := ReadE(toks, pos + 1, d.prec, d.allowAssignment, d);
        assert r.Ok?;
        ReadEExtend(toks, extra, pos + 1, d.prec, d.allowAssignment, d);
        assert Peek(toks, r.value.1) == Op(RParen);
        assert Peek(ext, r.value.1) == Op(RParen);
      }
  }

  lemma {:induction false} ReadEExtend(toks: seq<Token>, extra: seq<Token>, pos: nat, prec: nat, allowAssignment: bool, d: Defaults)
    requires pos <= |toks| && Stops(toks, extra)
    requires ReadE(toks, pos, prec, allowAssignment, d).Ok?
    ensures ReadE(toks + extra, pos, prec, allowAssignment, d) == ReadE(toks, pos, prec, allowAssignment, d)
    decreases |toks| - pos, 2
  {
    var t := ReadT(toks, pos, d);
    assert t.Ok?;
    ReadTExtend(toks, extra, pos, d);
    ReadOpsExtend(toks, extra, t.value.0, t.value.1, prec, allowAssignment, d);
  }

  lemma {:induction false} ReadOpsExtend(toks: seq<Token>, extra: seq<Token>, lhs: Exp, pos: nat, prec: nat, allowAssignment: bool, d: Defaults)
    requires pos <= |toks| && Stops(toks, extra)
    requires ReadOps(toks, lhs, pos, prec, allowAssignment, d).Ok?
    ensures ReadOps(toks + extra, lhs, pos, prec, allowAssignment, d) == ReadOps(toks, lhs, pos, prec, allowAssignment, d)
    decreases |toks| - pos, 3
  {
    var ext := toks + extra;
    if pos < |toks| {
      assert Peek(ext, pos) == Peek(toks, pos);
      var t := Peek(toks, pos);
      if Precedence(t) > prec {
        var r := ReadE(toks, pos + 1, Precedence(t), allowAssignment, d);
        assert r.Ok?;
        ReadEExtend(toks, extra, pos + 1, Precedence(t), allowAssignment, d);
        ReadOpsExtend(toks, extra, Compound(t.symbol, lhs, r.value.0), r.value.1, prec, allowAssignment, d);
      }
    }
  }

  /** parseExp succeeds exactly on the token sequences that one top-level readE uses up,
      and fails on any such sequence followed by a further token that cannot continue
      the expression (a word, a number, or a non-operator character). */
  lemma ParseRejectsTrailing(toks: seq<Token>, extra: seq<Token>, allowAssignment: bool, d: Defaults, e: Exp)
    requires ReadE(toks, 0, 0, allowAssignment, d) == Ok((e, |toks|))
    requires |extra| > 0 && extra[0] != Eof && Precedence(extra[0]) == 0
    ensures ParseExp(toks, allowAssignment, d) == Ok(e)
    ensures ParseExp(toks + extra, allowAssignment, d) == Fail(SyntaxError)
  {
    assert Peek(toks + extra, |toks|) == extra[0];
    ReadEExtend(toks, extra, 0, 0, allowAssignment, d);
  }

  // ---------------------------------------------------------------------------
  // Precedence and associativity
  // ---------------------------------------------------------------------------

  /** `a o1 b o2 c` where o2 binds tighter than o1 groups as `a o1 (b o2 c)`,
      as in 2+3*4. */
  lemma TighterBindsFirst(a: Token, o1: Operator, b: Token, o2: Operator, c: Token, allowAssignment: bool, d: Defaults)
    requires IsAtom(a) && IsAtom(b) && IsAtom(c) && IsArith(o1) && IsArith(o2)
    requires PrecedenceOf(o1) < PrecedenceOf(o2)
    ensures ParseExp([a, Op(o1), b, Op(o2), c], allowAssignment, d)
         == Ok(Compound(o1, Leaf(a), Compound(o2, Leaf(b), Leaf(c))))
  {
    var toks := [a, Op(o1), b, Op(o2), c];
    var p1, p2 := PrecedenceOf(o1), PrecedenceOf(o2);
    var bc := Compound(o2, Leaf(b), Leaf(c));
    var whole := Compound(o1, Leaf(a), bc);
    ReadEAtom(toks, 4, p2, allowAssignment, d);
    ReadOpsUnfold(toks, Leaf(b), 3, p1, allowAssignment, d, Leaf(c), 5);
    ReadEUnfold(toks, 2, p1, allowAssignment, d, Leaf(b), 3);
    ReadOpsUnfold(toks, Leaf(a), 1, 0, allowAssignment, d, bc, 5);
    ReadEUnfold(toks, 0, 0, allowAssignment, d, Leaf(a), 1);
    assert ReadE(toks, 0, 0, allowAssignment, d) == Ok((whole, 5));
  }

  /** `a o1 b o2 c` where o2 does not bind tighter than o1 groups as `(a o1 b) o2 c`:
      equal precedences associate to the left, as in a-b-c. */
  lemma LooserGroupsLeft(a: Token, o1: Operator, b: Token, o2: Operator, c: Token, allowAssignment: bool, d: Defaults)
    requires IsAtom(a) && IsAtom(b) && IsAtom(c) && IsArith(o1) && IsArith(o2)
    requires PrecedenceOf(o1) >= PrecedenceOf(o2)
    ensures ParseExp([a, Op(o1), b, Op(o2), c], allowAssignment, d)
         == Ok(Compound(o2, Compound(o1, Leaf(a), Leaf(b)), Leaf(c)))
  {
    var toks := [a, Op(o1), b, Op(o2), c];
    var p1, p2 := PrecedenceOf(o1), PrecedenceOf(o2);
    var ab := Compound(o1, Leaf(a), Leaf(b));
    var whole := Compound(o2, ab, Leaf(c));
    ReadEAtom(toks, 2, p1, allowAssignment, d);
    ReadEAtom(toks, 4, p2, allowAssignment, d);
    ReadOpsUnfold(toks, Leaf(a), 1, 0, allowAssignment, d, Leaf(b), 3);
    ReadOpsUnfold(toks, ab, 3, 0, allowAssignment, d, Leaf(c), 5);
    ReadEUnfold(toks, 0, 0, allowAssignment, d, Leaf(a), 1);
    assert ReadE(toks, 0, 0, allowAssignment, d) == Ok((whole, 5));
  }

  /** The tokens `o1 x1 o2 x2 ...` of a chain of operators and atoms. */
  function ChainTokens(rest: seq<(Operator, Token)>): (r: seq<Token>)
    ensures |r| == 2 * |rest|
  {
    if |rest| == 0 then [] else [Op(rest[0].0), rest[0].1] + ChainTokens(rest[1..])
  }

  /** The left-nested tree `((lhs o1 x1) o2 x2) ...`. */
  function LeftFold(lhs: Exp, rest: seq<(Operator, Token)>): Exp
    requires forall i :: 0 <= i < |rest| ==> IsAtom(rest[i].1)
    decreases |rest|
  {
    if |rest| == 0 then lhs else LeftFold(Compound(rest[0].0, lhs, Leaf(rest[0].1)), rest[1..])
  }

  /** Operators of one precedence level `level`, each followed by an atom. */
  predicate SameLevelChain(rest: seq<(Operator, Token)>, level: nat) {
    forall i :: 0 <= i < |rest| ==> PrecedenceOf(rest[i].0) == level && IsAtom(rest[i].1)
  }

  lemma {:induction false} ReadOpsChain(toks: seq<Token>, lhs: Exp, pos: nat, rest: seq<(Operator, Token)>,
                                        level: nat, prec: nat, allowAssignment: bool, d: Defaults)
    requires pos + 2 * |rest| <= |toks| && toks[pos..pos + 2 * |rest|] == ChainTokens(rest)
    requires SameLevelChain(rest, level) && prec < level && (level == 1 ==> allowAssignment)
    requires Precedence(Peek(toks, pos + 2 * |rest|)) <= prec
    ensures ReadOps(toks, lhs, pos, prec, allowAssignment, d) == Ok((LeftFold(lhs, rest), pos + 2 * |rest|))
    decreases |rest|
  {
    if |rest| > 0 {
      var ct := ChainTokens(rest);
      assert toks[pos] == ct[0] == Op(rest[0].0);
      assert toks[pos + 1] == ct[1] == rest[0].1;
      assert toks[pos + 2..pos + 2 * |rest|] == ct[2..] == ChainTokens(rest[1..]);
      if |rest| > 1 {
        assert toks[pos + 2] == ct[2] == Op(rest[1].0);
      }
      assert Precedence(Peek(toks, pos + 2)) <= level;
      ReadEAtom(toks, pos + 1, level, allowAssignment, d);
      var next := Compound(rest[0].0, lhs, Leaf(rest[0].1));
      ReadOpsChain(toks, next, pos + 2, rest[1..], level, prec, allowAssignment, d);
    }
  }

  /** A chain of operators of one precedence level associates to the left:
      `a - b - c - d` is `((a - b) - c) - d`. An `=` chain needs assignment allowed. */
  lemma ChainAssociatesLeft(first: Token, rest: seq<(Operator, Token)>, level: nat, allowAssignment: bool, d: Defaults)
    requires IsAtom(first) && SameLevelChain(rest, level) && level > 0
    requires level == 1 ==> allowAssignment
    ensures ParseExp([first] + ChainTokens(rest), allowAssignment, d) == Ok(LeftFold(Leaf(first), rest))
  {
    var toks := [first] + ChainTokens(rest);
    assert toks[1..1 + 2 * |rest|] == ChainTokens(rest);
    ReadOpsChain(toks, Leaf(first), 1, rest, level, 0, allowAssignment, d);
    assert ReadT(toks, 0, d) == Ok((Leaf(first), 1));
  }

  // ---------------------------------------------------------------------------
  // Unary minus
  // ---------------------------------------------------------------------------

  /** A `-` directly followed by `+` or `-` is not a term. */
  lemma DoubleSignRejected(toks: seq<Token>, pos: nat, d: Defaults)
    requires pos + 1 < |toks| && toks[pos] == Op(Minus) && toks[pos + 1] in {Op(Plus), Op(Minus)}
    ensures ReadT(toks, pos, d) == Fail(SyntaxError)
  {
  }

  /** A leading `-` negates the whole expression readE reads at the default level: with
      the default level 0 it reaches past any later operator, so `-a o b` is `0 - (a o b)`. */
  lemma NegationScope(a: Token, o: Operator, b: Token, allowAssignment: bool, d: Defaults)
    requires IsAtom(a) && IsAtom(b) && IsArith(o) && d.prec == 0
    ensures ParseExp([Op(Minus), a, Op(o), b], allowAssignment, d)
         == Ok(Compound(Minus, Constant(0), Compound(o, Leaf(a), Leaf(b))))
  {
    var toks := [Op(Minus), a, Op(o), b];
    var p := PrecedenceOf(o);
    var ab := Compound(o, Leaf(a), Leaf(b));
    var neg := Compound(Minus, Constant(0), ab);
    ReadEAtom(toks, 3, p, d.allowAssignment, d);
    ReadOpsUnfold(toks, Leaf(a), 2, 0, d.allowAssignment, d, Leaf(b), 4);
    ReadEUnfold(toks, 1, 0, d.allowAssignment, d, Leaf(a), 2);
    assert ReadT(toks, 0, d) == Ok((neg, 4));
    ReadEUnfold(toks, 0, 0, allowAssignment, d, neg, 4);
  }

  // ---------------------------------------------------------------------------
  // Round trip through a fully parenthesised printer
  // ---------------------------------------------------------------------------

  /** Trees whose every operator is one of + - * /. */
  predicate ArithOnly(e: Exp) {
    match e
    case Compound(op, l, r) => IsArith(op) && ArithOnly(l) && ArithOnly(r)
    case _ => true
  }

  /** Prints a tree as tokens, every compound wrapped in parentheses. */
  function Unparse(e: Exp): (r: seq<Token>)
    ensures |r| > 0
  {
    match e
    case Constant(n) => [Num(n)]
    case Identifier(x) => [Word(x)]
    case Compound(op, l, r) => [Op(LParen)] + Unparse(l) + [Op(op)] + Unparse(r) + [Op(RParen)]
  }

  /** `l op r` with l and r already known to be terms is read by readE at a level below
      that of op as one compound, stopping before the `)` that follows. */
  lemma ReadBinary(toks: seq<Token>, pos: nat, op: Operator, l: Exp, p1: nat, r: Exp, p2: nat, d: Defaults)
    requires IsArith(op) && d.prec <= 1
    requires pos < p1 < p2 < |toks|
    requires toks[p1] == Op(op) && toks[p2] == Op(RParen)
    requires ReadT(toks, pos, d) == Ok((l, p1))
    requires ReadT(toks, p1 + 1, d) == Ok((r, p2))
    ensures ReadE(toks, pos, d.prec, d.allowAssignment, d) == Ok((Compound(op, l, r), p2))
  {
    ReadEUnfold(toks, p1 + 1, PrecedenceOf(op), d.allowAssignment, d, r, p2);
    ReadOpsUnfold(toks, l, p1, d.prec, d.allowAssignment, d, r, p2);
    ReadEUnfold(toks, pos, d.prec, d.allowAssignment, d, l, p1);
  }

  /** `( l op r )` with l and r already known to be terms is read as one compound term. */
  lemma ReadParenthesised(toks: seq<Token>, pos: nat, op: Operator, l: Exp, p1: nat, r: Exp, p2: nat, d: Defaults)
    requires IsArith(op) && d.prec <= 1
    requires pos < p1 < p2 < |toks|
    requires toks[pos] == Op(LParen) && toks[p1] == Op(op) && toks[p2] == Op(RParen)
    requires ReadT(toks, pos + 1, d) == Ok((l, p1))
    requires ReadT(toks, p1 + 1, d) == Ok((r, p2))
    ensures ReadT(toks, pos, d) == Ok((Compound(op, l, r), p2 + 1))
  {
    ReadBinary(toks, pos + 1, op, l, p1, r, p2, d);
  }

  /** `toks` holds `u` starting at `pos`. */
  predicate At(toks: seq<Token>, pos: nat, u: seq<Token>)
    decreases |u|
  {
    if |u| == 0 then pos <= |toks|
    else pos < |toks| && toks[pos] == u[0] && At(toks, pos + 1, u[1..])
  }

  /** Holding `a + b` is holding `a` and then `b` right after it. */
  lemma {:induction false} AtConcat(toks: seq<Token>, pos: nat, a: seq<Token>, b: seq<Token>)
    requires At(toks, pos, a + b)
    ensures pos + |a| + |b| <= |toks|
    ensures At(toks, pos, a) && At(toks, pos + |a|, b)
    decreases |a|
  {
    if |a| == 0 {
      assert a + b == b;
      AtBound(toks, pos, b);
    } else {
      assert (a + b)[1..] == a[1..] + b;
      AtConcat(toks, pos + 1, a[1..], b);
    }
  }

  lemma {:induction false} AtBound(toks: seq<Token>, pos: nat, u: seq<Token>)
    requires At(toks, pos, u)
    ensures pos + |u| <= |toks|
    decreases |u|
  {
    if |u| > 0 {
      AtBound(toks, pos + 1, u[1..]);
    }
  }

  /** Every sequence holds its own tail. */
  lemma {:induction false} AtSuffix(toks: seq<Token>, pos: nat)
    requires pos <= |toks|
    ensures At(toks, pos, toks[pos..])
    decreases |toks| - pos
  {
    if pos < |toks| {
      assert toks[pos..][1..] == toks[pos + 1..];
      AtSuffix(toks, pos + 1);
    }
  }

  /** Where the pieces of `( ul op ur )` sit inside a token sequence that holds it. */
  lemma BracketedLayout(toks: seq<Token>, pos: nat, ul: seq<Token>, op: Operator, ur: seq<Token>)
    requires At(toks, pos, [Op(LParen)] + ul + [Op(op)] + ur + [Op(RParen)])
    ensures pos + |ul| + |ur| + 3 <= |toks|
    ensures toks[pos] == Op(LParen)
    ensures At(toks, pos + 1, ul)
    ensures toks[pos + 1 + |ul|] == Op(op)
    ensures At(toks, pos + 2 + |ul|, ur)
    ensures toks[pos + 2 + |ul| + |ur|] == Op(RParen)
  {
    AtConcat(toks, pos, [Op(LParen)] + ul + [Op(op)] + ur, [Op(RParen)]);
    AtConcat(toks, pos, [Op(LParen)] + ul + [Op(op)], ur);
    AtConcat(toks, pos, [Op(LParen)] + ul, [Op(op)]);
    AtConcat(toks, pos, [Op(LParen)], ul);
  }

  lemma {:induction false} ReadTUnparse(toks: seq<Token>, pos: nat, e: Exp, d: Defaults)
    requires ArithOnly(e) && d.prec <= 1
    requires At(toks, pos, Unparse(e))
    ensures ReadT(toks, pos, d) == Ok((e, pos + |Unparse(e)|))
    decreases e, 1
  {
    match e
    case Constant(_) =>
    case Identifier(_) =>
    case Compound(op, l, r) =>
      ReadTUnparseCompound(toks, pos, op, l, r, d);
  }

  /** The compound case of `ReadTUnparse`: read both halves, then the brackets around them. */
  lemma {:induction false} ReadTUnparseCompound(toks: seq<Token>, pos: nat, op: Operator, l: Exp, r: Exp, d: Defaults)
    requires ArithOnly(Compound(op, l, r)) && d.prec <= 1
    requires At(toks, pos, Unparse(Compound(op, l, r)))
    ensures ReadT(toks, pos, d) == Ok((Compound(op, l, r), pos + |Unparse(Compound(op, l, r))|))
    decreases Compound(op, l, r), 0
  {
    var ul, ur := Unparse(l), Unparse(r);
    assert Unparse(Compound(op, l, r)) == [Op(LParen)] + ul + [Op(op)] + ur + [Op(RParen)];
    BracketedLayout(toks, pos, ul, op, ur);
    ReadTUnparse(toks, pos + 1, l, d);
    ReadTUnparse(toks, pos + 2 + |ul|, r, d);
    ReadParenthesised(toks, pos, op, l, pos + 1 + |ul|, r, pos + 2 + |ul| + |ur|, d);
  }

  /** Parsing the fully parenthesised tokens of a tree gives back the tree. */
  lemma ParseUnparse(e: Exp, allowAssignment: bool, d: Defaults)
    requires ArithOnly(e) && d.prec <= 1
    ensures ParseExp(Unparse(e), allowAssignment, d) == Ok(e)
  {
    var u := Unparse(e);
    AtSuffix(u, 0);
    assert u[0..] == u;
    ReadTUnparse(u, 0, e, d);
    ReadEUnfold(u, 0, 0, allowAssignment, d, e, |u|);
  }
}
