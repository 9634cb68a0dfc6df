/** The evaluating visitor of Bonus/Calculator/EvalVisitor.h over the parse tree of the
    calculator grammar: integer literals, `* /`, `+ -` and parentheses. */
module Calculator {
  import opened Results
  import opened Digits

  datatype MulOp = Mul | Div
  datatype AddOp = Add | Sub

  /** The labelled alternatives of `expr`: Int, MulDiv, AddSub and Parens. */
  datatype Expr =
    | Int(text: string)
    | MulDiv(mulOp: MulOp, left: Expr, right: Expr)
    | AddSub(addOp: AddOp, left: Expr, right: Expr)
    | Parens(inner: Expr)

  /** The start rule `calc`: one expression. */
  datatype Calc = Calc(body: Expr)

  /** Every INT token is a non-empty string of digits, as the lexer produces. */
  predicate WellFormed(e: Expr) {
    match e
    case Int(t) => ValidNumber(t)
    case MulDiv(_, l, r) => WellFormed(l) && WellFormed(r)
    case AddSub(_, l, r) => WellFormed(l) && WellFormed(r)
    case Parens(x) => WellFormed(x)
  }

  function Abs(x: int): nat {
    if x < 0 then -x else x
  }

  /** C++ integer division: the quotient is truncated toward zero, so the remainder
      a - q*b is smaller than b in size and has the sign of a. */
  function TruncDiv(a: int, b: int): (q: int)
    requires b != 0
    ensures Abs(a - q * b) < Abs(b)
    ensures a - q * b == 0 || (a - q * b < 0 <==> a < 0)
  {
    var m := Abs(a) / Abs(b);
    var q := if (a < 0) == (b < 0) then m else -m;
    SignedRemainder(a, b, q);
    q
  }

  /** The quotient of the magnitudes, given the sign of a/b, leaves the remainder of the
      magnitudes with the sign of a. */
  lemma SignedRemainder(a: int, b: int, q: int)
    requires b != 0
    requires q == if (a < 0) == (b < 0) then Abs(a) / Abs(b) else -(Abs(a) / Abs(b))
    ensures a - q * b == if a < 0 then -(Abs(a) % Abs(b)) else Abs(a) % Abs(b)
  {
    var m, rm := Abs(a) / Abs(b), Abs(a) % Abs(b);
    assert Abs(a) == m * Abs(b) + rm;
    if b > 0 {
      assert q * b == (if a < 0 then -(m * Abs(b)) else m * Abs(b));
    } else {
      assert q * b == (if a < 0 then -(m * Abs(b)) else m * Abs(b));
    }
  }

  /** The quotient the remainder law above pins down is unique. */
  lemma TruncDivUnique(a: int, b: int, q: int)
    requires b != 0
    requires Abs(a - q * b) < Abs(b)
    requires a - q * b == 0 || (a - q * b < 0 <==> a < 0)
    ensures q == TruncDiv(a, b)
  {
    var t := TruncDiv(a, b);
    var r, rt := a - q * b, a - t * b;
    // r - rt == (t - q) * b, and both remainders lie on a's side of zero within |b|
    assert r - rt == (t - q) * b;
    if t != q {
      assert Abs((t - q) * b) >= Abs(b) by {
        MulAtLeast(t - q, b);
      }
    }
  }

  lemma MulAtLeast(k: int, b: int)
    requires k != 0
    ensures Abs(k * b) >= Abs(b)
  {
    if k > 0 {
      if b >= 0 { assert k * b >= b; } else { assert k * b <= b; }
    } else {
      if b >= 0 { assert k * b <= -b; } else { assert k * b >= -b; }
    }
  }

  /** On non-negative operands truncating and Euclidean division agree. */
  lemma TruncDivNonNegative(a: int, b: int)
    requires a >= 0 && b > 0
    ensures TruncDiv(a, b) == a / b
  {
  }

  /** 7/2 is 3 and -7/2 is -3: the quotient rounds toward zero, not downward. */
  lemma TruncDivExamples()
    ensures TruncDiv(7, 2) == 3 && TruncDiv(-7, 2) == -3 && TruncDiv(7, -2) == -3 && TruncDiv(-7, -2) == 3
  {
    TruncDivNonNegative(7, 2);
  }

  /** The visitor. A division whose divisor evaluates to 0 is undefined behaviour in
      EvalVisitor.h's C++ `/`; here it yields None. */
  function Eval(e: Expr): (r: Option<int>)
    requires WellFormed(e)
    ensures r.Some? ==> Denotes(e, r.value)
  {
    match e
    case Int(t) => Some(Value(t))
    case Parens(x) => Eval(x)
    case AddSub(op, l, r) =>
      (match (Eval(l), Eval(r))
       case (Some(a), Some(b)) => Some(if op == Add then a + b else a - b)
       case _ => None)
    case MulDiv(op, l, r) =>
      (match (Eval(l), Eval(r))
       case (Some(a), Some(b)) =>
         if op == Mul then Some(a * b) else if b == 0 then None else Some(TruncDiv(a, b))
       case _ => None)
  }

  /** visitCalc: the value of the single top-level expression, which is the value the
      evaluation rules give it, and undefined exactly when it divides by zero. */
  function EvalCalc(c: Calc): (r: Option<int>)
    requires WellFormed(c.body)
    ensures r.Some? ==> Denotes(c.body, r.value)
    ensures forall v :: Denotes(c.body, v) ==> r == Some(v)
    ensures r.None? <==> DividesByZero(c.body)
  {
    EvalAgrees(c.body);
    EvalDefined(c.body);
    Eval(c.body)
  }

  /** Soundness and completeness together: Eval's value, when there is one, is the only
      value the rules give. */
  lemma EvalAgrees(e: Expr)
    requires WellFormed(e)
    ensures Eval(e).Some? ==> Denotes(e, Eval(e).value)
    ensures forall v :: Denotes(e, v) ==> Eval(e) == Some(v)
  {
    if Eval(e).Some? {
      EvalSound(e);
    }
    forall v | Denotes(e, v)
      ensures Eval(e) == Some(v)
    {
      EvalComplete(e, v);
    }
  }

  /** The evaluation rules, one per alternative, as a relation between a tree and a
      value: a literal denotes its digits' value, parentheses the inner value, and an
      operator node the operator applied to values of its operands. */
  ghost predicate Denotes(e: Expr, v: int) {
    match e
    case Int(t) => ValidNumber(t) && v == Value(t)
    case Parens(x) => Denotes(x, v)
    case AddSub(op, l, r) =>
      exists a, b :: Denotes(l, a) && Denotes(r, b) && v == (if op == Add then a + b else a - b)
    case MulDiv(op, l, r) =>
      exists a, b :: Denotes(l, a) && Denotes(r, b) &&
        (if op == Mul then v == a * b else b != 0 && v == TruncDiv(a, b))
  }

  /** Whatever Eval returns is the value the rules give. */
  lemma {:induction false} EvalSound(e: Expr)
    requires WellFormed(e) && Eval(e).Some?
    ensures Denotes(e, Eval(e).value)
  {
    match e
    case Int(_) =>
    case Parens(x) => EvalSound(x);
    case AddSub(_, l, r) =>
      EvalSound(l);
      EvalSound(r);
    case MulDiv(_, l, r) =>
      EvalSound(l);
      EvalSound(r);
  }

  /** Whenever the rules give a value, Eval returns that value: Eval is defined on, and
      agrees with, the rules everywhere. */
  lemma {:induction false} EvalComplete(e: Expr, v: int)
    requires Denotes(e, v)
    ensures WellFormed(e) && Eval(e) == Some(v)
  {
    match e
    case Int(_) =>
    case Parens(x) => EvalComplete(x, v);
    case AddSub(_, l, r) =>
      var a, b :| Denotes(l, a) && Denotes(r, b) && v == (if e.addOp == Add then a + b else a - b);
      EvalComplete(l, a);
      EvalComplete(r, b);
    case MulDiv(_, l, r) =>
      var a, b :| Denotes(l, a) && Denotes(r, b) &&
        (if e.mulOp == Mul then v == a * b else b != 0 && v == TruncDiv(a, b));
      EvalComplete(l, a);
      EvalComplete(r, b);
  }

  /** Eval fails exactly on trees that divide by a zero divisor somewhere. */
  predicate DividesByZero(e: Expr)
    requires WellFormed(e)
  {
    match e
    case Int(_) => false
    case Parens(x) => DividesByZero(x)
    case AddSub(_, l, r) => DividesByZero(l) || DividesByZero(r)
    case MulDiv(op, l, r) =>
      DividesByZero(l) || DividesByZero(r) || (op == Div && Eval(r) == Some(0))
  }

  lemma {:induction false} EvalDefined(e: Expr)
    requires WellFormed(e)
    ensures Eval(e).None? <==> DividesByZero(e)
  {
    match e
    case Int(_) =>
    case Parens(x) => EvalDefined(x);
    case AddSub(_, l, r) =>
      EvalDefined(l);
      EvalDefined(r);
    case MulDiv(_, l, r) =>
      EvalDefined(l);
      EvalDefined(r);
  }
}
