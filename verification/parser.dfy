/** The precedence-climbing expression parser of Basic/parser.cpp, over an immutable token
    sequence with a cursor. Reading past the last token yields Eof, the empty token the
    scanner returns at end of input; pushing a token back is returning the cursor that
    stands just before it. */
module Parser {
  import opened Results

  /** The text of an operator or punctuation token, told apart the way the parser's string
      comparisons tell it apart: the seven texts it names, and everything else. */
  datatype Symbol = Assign | Plus | Minus | Times | Divide | LParen | RParen | OtherSymbol(text: string)

  const Named: set<string> := {"=", "+", "-", "*", "/", "(", ")"}

  function Text(s: Symbol): string {
    match s
    case Assign => "="
    case Plus => "+"
    case Minus => "-"
    case Times => "*"
    case Divide => "/"
    case LParen => "("
    case RParen => ")"
    case OtherSymbol(t) => t
  }

  /** A symbol as the scanner produces it: OtherSymbol never carries a named text. */
  predicate Canonical(s: Symbol) {
    s.OtherSymbol? ==> s.text !in Named
  }

  /** Classifies an operator token's text. */
  function SymbolOf(t: string): (r: Symbol)
    ensures Text(r) == t && Canonical(r)
    ensures r.OtherSymbol? <==> t !in Named
  {
    if t == "=" then Assign
    else if t == "+" then Plus
    else if t == "-" then Minus
    else if t == "*" then Times
    else if t == "/" then Divide
    else if t == "(" then LParen
    else if t == ")" then RParen
    else OtherSymbol(t)
  }

  /** Classifying is the inverse of taking the text, so no two canonical symbols share one. */
  lemma SymbolOfText(s: Symbol)
    requires Canonical(s)
    ensures SymbolOf(Text(s)) == s
  {
  }

  /** The symbols an operator token can carry. */
  type Operator = s: Symbol | Canonical(s) witness Plus

  /** A scanned token: a WORD, an already-converted NUMBER, an operator or punctuation
      character, or the empty token at end of input. */
  datatype Token = Word(name: string) | Num(value: int) | Op(symbol: Operator) | Eof

  /** Expression trees: ConstantExp, IdentifierExp and CompoundExp. */
  datatype Exp = Constant(value: int) | Identifier(name: string) | Compound(op: Operator, lhs: Exp, rhs: Exp)

  /** The default arguments of readE, declared in parser.hpp, used by the recursive calls
      readT makes for a negated term and for a parenthesised expression. */
  datatype Defaults = Defaults(prec: nat, allowAssignment: bool)

  /** The token at the cursor, Eof past the end. */
  function Peek(toks: seq<Token>, pos: nat): Token {
    if pos < |toks| then toks[pos] else Eof
  }

  /** hasMoreTokens: a token other than the empty one is still to come. */
  predicate HasMoreTokens(toks: seq<Token>, pos: nat) {
    Peek(toks, pos) != Eof
  }

  /** The operator table: `=` binds loosest, then `+ -`, then `* /`; every other token,
      end of input included, has precedence 0 and ends an expression. */
  function PrecedenceOf(s: Operator): (r: nat)
    ensures r <= 3
    ensures r == 1 <==> s == Assign
    ensures r == 2 <==> s == Plus || s == Minus
    ensures r == 3 <==> s == Times || s == Divide
  {
    match s
    case Assign => 1
    case Plus => 2
    case Minus => 2
    case Times => 3
    case Divide => 3
    case _ => 0
  }

  /** The same table in terms of the token texts that parser.cpp's precedence compares
      against. */
  lemma PrecedenceTable(s: Operator)
    ensures PrecedenceOf(s) == 1 <==> Text(s) == "="
    ensures PrecedenceOf(s) == 2 <==> Text(s) == "+" || Text(s) == "-"
    ensures PrecedenceOf(s) == 3 <==> Text(s) == "*" || Text(s) == "/"
    ensures PrecedenceOf(s) == 0 <==> Text(s) !in {"=", "+", "-", "*", "/"}
  {
  }

  function Precedence(t: Token): (r: nat)
    ensures r > 0 ==> t.Op? && r == PrecedenceOf(t.symbol)
  {
    match t
    case Op(s) => PrecedenceOf(s)
    case _ => 0
  }

  /** readT: an identifier, a number, a negated expression or a parenthesised expression.
      On success the cursor has moved past at least one token. */
  function ReadT(toks: seq<Token>, pos: nat, d: Defaults): (r: Result<(Exp, nat)>)
    requires pos <= |toks|
    ensures r.Ok? ==> pos < r.value.1 <= |toks|
    ensures r.Fail? ==> r.error == SyntaxError
    ensures Peek(toks, pos).Word? ==> r == Ok((Identifier(Peek(toks, pos).name), pos + 1))
    ensures Peek(toks, pos).Num? ==> r == Ok((Constant(Peek(toks, pos).value), pos + 1))
    ensures r.Ok? && Peek(toks, pos).Op? ==> Peek(toks, pos).symbol in {Minus, LParen}
    decreases |toks| - pos, 1
  {
    match Peek(toks, pos)
    case Word(w) => Ok((Identifier(w), pos + 1))
    case Num(n) => Ok((Constant(n), pos + 1))
    case Eof => Fail(SyntaxError)
    case Op(s) =>
      if s == Minus then
        var next := Peek(toks, pos + 1);
        if next == Op(Plus) || next == Op(Minus) then Fail(SyntaxError)
        else
          match ReadE(toks, pos + 1, d.prec, d.allowAssignment, d)
          case Fail(_) => Fail(SyntaxError)
          case Ok((e, q)) => Ok((Compound(Minus, Constant(0), e), q))
      else if s != LParen then Fail(SyntaxError)
      else
        match ReadE(toks, pos + 1, d.prec, d.allowAssignment, d)
        case Fail(_) => Fail(SyntaxError)
        case Ok((e, q)) => if Peek(toks, q) == Op(RParen) then Ok((e, q + 1)) else Fail(SyntaxError)
  }

  /** readE: a term followed by every operator, with its right operand, that binds tighter
      than `prec`. The cursor stops just before the first operator that does not. */
  function ReadE(toks: seq<Token>, pos: nat, prec: nat, allowAssignment: bool, d: Defaults): (r: Result<(Exp, nat)>)
    requires pos <= |toks|
    ensures r.Ok? ==> pos < r.value.1 <= |toks|
    ensures r.Ok? ==> Precedence(Peek(toks, r.value.1)) <= prec
    ensures r.Fail? ==> r.error == SyntaxError
    decreases |toks| - pos, 2
  {
    match ReadT(toks, pos, d)
    case Fail(_) => Fail(SyntaxError)
    case Ok((t, q)) => ReadOps(toks, t, q, prec, allowAssignment, d)
  }

  /** The loop of readE: `lhs` has been read and the cursor stands on the next token. */
  function ReadOps(toks: seq<Token>, lhs: Exp, pos: nat, prec: nat, allowAssignment: bool, d: Defaults): (r: Result<(Exp, nat)>)
    requires pos <= |toks|
    ensures r.Ok? ==> pos <= r.value.1 <= |toks|
    ensures r.Ok? ==> Precedence(Peek(toks, r.value.1)) <= prec
    ensures r.Fail? ==> r.error == SyntaxError
    ensures Precedence(Peek(toks, pos)) <= prec ==> r == Ok((lhs, pos))
    ensures Peek(toks, pos) == Op(Assign) && prec < 1 && !allowAssignment ==> r == Fail(SyntaxError)
    decreases |toks| - pos, 3
  {
    var t := Peek(toks, pos);
    var newPrec := Precedence(t);
    if newPrec <= prec then Ok((lhs, pos))
    else if t == Op(Assign) && !allowAssignment then Fail(SyntaxError)
    else
      match ReadE(toks, pos + 1, newPrec, allowAssignment, d)
      case Fail(_) => Fail(SyntaxError)
      case Ok((rhs, q)) => ReadOps(toks, Compound(t.symbol, lhs, rhs), q, prec, allowAssignment, d)
  }

  /** parseExp: one expression at precedence level 0 that uses up the whole input. */
  function ParseExp(toks: seq<Token>, allowAssignment: bool, d: Defaults): (r: Result<Exp>)
    ensures r.Fail? ==> r.error == SyntaxError
    ensures r.Ok? <==> ReadE(toks, 0, 0, allowAssignment, d).Ok? && !HasMoreTokens(toks, ReadE(toks, 0, 0, allowAssignment, d).value.1)
    ensures r.Ok? ==> r.value == ReadE(toks, 0, 0, allowAssignment, d).value.0
  {
    match ReadE(toks, 0, 0, allowAssignment, d)
    case Fail(_) => Fail(SyntaxError)
    case Ok((e, q)) => if HasMoreTokens(toks, q) then Fail(SyntaxError) else Ok(e)
  }
}
