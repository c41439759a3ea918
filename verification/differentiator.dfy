/**
 * The differentiator: the symbolic derivative of a tree with respect to one
 * variable, built node by node and left unsimplified. A function the
 * differentiator has no rule for (tan, asin, acos, atan) makes the whole
 * derivative fail, as the visitor's default method throws
 * UnsupportedOperationException; the failure is `None` here.
 */
module Differentiator {
  import opened Wrappers
  import opened Expressions
  import opened ExpressionFactory
  import opened Semantics

  /** The functions the differentiator overrides. */
  predicate HasRule(f: Function) {
    f == Sin || f == Cos || f == Ln || f == Abs || f == Sqrt
  }

  /** f'(arg) for the outer function of a composition, when f has a rule. */
  function Outer(f: Function, arg: Expr): (r: Option<Expr>)
    ensures r.Some? <==> HasRule(f)
  {
    match f
    case Sin => Some(FunctionOperation(Cos, arg))
    case Cos => Some(Negate(FunctionOperation(Sin, arg)))
    case Ln => Some(BinaryOperation(Division, ONE, arg))
    case Abs => Some(BinaryOperation(Division, FunctionOperation(Abs, arg), arg))
    case Sqrt => Some(BinaryOperation(Division, ONE, NAryOperation(Product, [Constant(2), FunctionOperation(Sqrt, arg)])))
    case _ => None
  }

  /** (f/g)' = (f'*g + (-1)*f*g') / g^2. */
  function QuotientRule(f: Expr, g: Expr, df: Expr, dg: Expr): Expr {
    BinaryOperation(Division,
      NAryOperation(Addition, [NAryOperation(Product, [df, g]), NAryOperation(Product, [Constant(-1), f, dg])]),
      BinaryOperation(Power, g, Constant(2)))
  }

  /** The derivative of ln(f)*g, as visitProduct builds it: (ln f)'*g + ln f*g', with (ln f)' = (1/f)*f'. */
  function LogProductRule(f: Expr, g: Expr, df: Expr, dg: Expr): Expr {
    NAryOperation(Addition, [
      NAryOperation(Product, [NAryOperation(Product, [BinaryOperation(Division, ONE, f), df]), g]),
      NAryOperation(Product, [FunctionOperation(Ln, f), dg])])
  }

  /** The operands with the i-th one replaced by d. */
  function WithFactor(ops: seq<Expr>, i: nat, d: Expr): (r: seq<Expr>)
    requires i < |ops|
    ensures |r| == |ops| && r[i] == d && forall j :: 0 <= j < |ops| && j != i ==> r[j] == ops[j]
  {
    ops[i := d]
  }

  /** The values of all derivatives, when every one of them exists. */
  function AllSome(ds: seq<Option<Expr>>): bool {
    forall i :: 0 <= i < |ds| ==> ds[i].Some?
  }

  /** The derivative of e with respect to the variable named x. */
  function Derive(e: Expr, x: string): Option<Expr>
    requires EquationFree(e)
  {
    match e
    case Variable(n) => Some(if n == x then ONE else ZERO)
    case Constant(_) => Some(ZERO)
    case BinaryOperation(op, f, g) =>
      var df := Derive(f, x);
      if df.None? then None
      else if op == Power && g.Constant? then
        Some(NAryOperation(Product, [Constant(g.value), BinaryOperation(Power, f, Constant(g.value - 1)), df.value]))
      else
        var dg := Derive(g, x);
        if dg.None? then None
        else if op == Division then Some(QuotientRule(f, g, df.value, dg.value))
        else Some(NAryOperation(Product, [BinaryOperation(Power, f, g), LogProductRule(f, g, df.value, dg.value)]))
    case NAryOperation(op, ops) =>
      var ds := seq(|ops|, i requires 0 <= i < |ops| => Derive(ops[i], x));
      if !AllSome(ds) then None
      else if op == Addition then
        Some(NAryOperation(Addition, seq(|ops|, i requires 0 <= i < |ops| => ds[i].value)))
      else
        Some(NAryOperation(Addition,
          seq(|ops|, i requires 0 <= i < |ops| => NAryOperation(Product, WithFactor(ops, i, ds[i].value)))))
    case FunctionOperation(f, a) =>
      var o, da := Outer(f, a), Derive(a, x);
      if o.Some? && da.Some? then Some(NAryOperation(Product, [o.value, da.value])) else None
    case Equation(_, _) => None
  }

  /** An n-ary node's derivative exists exactly when every operand's does, and then has one addend per operand. */
  lemma DeriveNAry(op: NAryOperator, ops: seq<Expr>, x: string)
    requires forall i :: 0 <= i < |ops| ==> EquationFree(ops[i])
    ensures Derive(NAryOperation(op, ops), x).Some? <==> forall i :: 0 <= i < |ops| ==> Derive(ops[i], x).Some?
    ensures Derive(NAryOperation(op, ops), x).Some? ==>
      var d := Derive(NAryOperation(op, ops), x).value;
      d.NAryOperation? && d.nop == Addition && |d.operands| == |ops| &&
      forall i :: 0 <= i < |ops| ==>
        d.operands[i] == if op == Addition then Derive(ops[i], x).value
                         else NAryOperation(Product, WithFactor(ops, i, Derive(ops[i], x).value))
  {
    var ds := seq(|ops|, i requires 0 <= i < |ops| => Derive(ops[i], x));
    assert forall i :: 0 <= i < |ops| ==> ds[i] == Derive(ops[i], x);
  }

  /** No function the differentiator lacks a rule for occurs in the tree. */
  predicate Supported(e: Expr) {
    match e
    case Variable(_) => true
    case Constant(_) => true
    case BinaryOperation(_, a, b) => Supported(a) && Supported(b)
    case NAryOperation(_, ops) => forall i :: 0 <= i < |ops| ==> Supported(ops[i])
    case FunctionOperation(f, a) => HasRule(f) && Supported(a)
    case Equation(a, b) => Supported(a) && Supported(b)
  }

  /** The derivative exists exactly when every function in the tree has a rule. */
  lemma {:induction false} DeriveDefined(e: Expr, x: string)
    requires EquationFree(e)
    ensures Derive(e, x).Some? <==> Supported(e)
  {
    match e
    case Variable(_) =>
    case Constant(_) =>
    case BinaryOperation(_, a, b) =>
      DeriveDefined(a, x);
      DeriveDefined(b, x);
    case NAryOperation(op, ops) =>
      DeriveNAry(op, ops, x);
      forall i | 0 <= i < |ops| ensures Derive(ops[i], x).Some? <==> Supported(ops[i]) {
        DeriveDefined(ops[i], x);
      }
    case FunctionOperation(_, a) =>
      DeriveDefined(a, x);
  }

  /** The general power rule is f^g times the derivative of the product ln(f)*g. */
  lemma PowerViaLogProduct(f: Expr, g: Expr, x: string)
    requires EquationFree(f) && EquationFree(g) && !g.Constant?
    requires Derive(BinaryOperation(Power, f, g), x).Some?
    ensures var lp := NAryOperation(Product, [FunctionOperation(Ln, f), g]);
      EquationFree(lp) && Derive(lp, x).Some? &&
      Derive(BinaryOperation(Power, f, g), x).value == NAryOperation(Product, [BinaryOperation(Power, f, g), Derive(lp, x).value])
  {
    var lnf := FunctionOperation(Ln, f);
    var ops := [lnf, g];
    var df, dg := Derive(f, x).value, Derive(g, x).value;
    DeriveNAry(Product, ops, x);
    assert Derive(lnf, x) == Some(NAryOperation(Product, [BinaryOperation(Division, ONE, f), df]));
    assert WithFactor(ops, 0, Derive(lnf, x).value) == [Derive(lnf, x).value, g];
    assert WithFactor(ops, 1, dg) == [lnf, dg];
    var d := Derive(NAryOperation(Product, ops), x).value;
    assert d.operands == LogProductRule(f, g, df, dg).operands;
  }

  /** Each addend of a product's derivative differentiates exactly one factor. */
  lemma ProductRuleShape(ops: seq<Expr>, x: string)
    requires forall i :: 0 <= i < |ops| ==> EquationFree(ops[i])
    requires Derive(NAryOperation(Product, ops), x).Some?
    ensures var d := Derive(NAryOperation(Product, ops), x).value;
      d.NAryOperation? && d.nop == Addition && |d.operands| == |ops| &&
      forall i, j :: 0 <= i < |ops| && 0 <= j < |ops| ==>
        d.operands[i].NAryOperation? && d.operands[i].nop == Product && |d.operands[i].operands| == |ops| &&
        d.operands[i].operands[j] == if i == j then Derive(ops[i], x).value else ops[j]
  {
  }

  /** d is a derivative of e that adds no equation and no variable, and is valid when e is. */
  predicate WellFormedFor(e: Expr, d: Expr) {
    EquationFree(d) && (Valid(e) ==> Valid(d)) && Vars(d) <= Vars(e)
  }

  /** The derivative introduces no equation and no variable, and of a valid tree it is valid. */
  lemma {:induction false} DeriveWellFormed(e: Expr, x: string)
    requires EquationFree(e) && Derive(e, x).Some?
    ensures EquationFree(Derive(e, x).value)
    ensures Valid(e) ==> Valid(Derive(e, x).value)
    ensures Vars(Derive(e, x).value) <= Vars(e)
  {
    match e
    case Variable(_) =>
    case Constant(_) =>
    case BinaryOperation(op, f, g) =>
      DeriveWellFormed(f, x);
      if op == Division || !g.Constant? {
        DeriveWellFormed(g, x);
      }
      BinaryWellFormed(op, f, g, x);
    case NAryOperation(op, ops) =>
      DeriveNAry(op, ops, x);
      forall i | 0 <= i < |ops| ensures Derive(ops[i], x).Some? && WellFormedFor(ops[i], Derive(ops[i], x).value) {
        DeriveWellFormed(ops[i], x);
      }
      NAryStepWellFormed(op, ops, x);
    case FunctionOperation(f, a) =>
      DeriveWellFormed(a, x);
      OuterFacts(f, a);
      PairFacts(Product, Outer(f, a).value, Derive(a, x).value);
  }

  lemma BinaryWellFormed(op: BinaryOperator, f: Expr, g: Expr, x: string)
    requires EquationFree(f) && EquationFree(g) && Derive(BinaryOperation(op, f, g), x).Some?
    requires WellFormedFor(f, Derive(f, x).value)
    requires op == Division || !g.Constant? ==> WellFormedFor(g, Derive(g, x).value)
    ensures WellFormedFor(BinaryOperation(op, f, g), Derive(BinaryOperation(op, f, g), x).value)
  {
    var df := Derive(f, x).value;
    if op == Power && g.Constant? {
      TripleFacts(Product, Constant(g.value), BinaryOperation(Power, f, Constant(g.value - 1)), df);
    } else {
      var dg := Derive(g, x).value;
      if op == Division {
        QuotientRuleFacts(f, g, df, dg);
      } else {
        LogProductRuleFacts(f, g, df, dg);
        PairFacts(Product, BinaryOperation(Power, f, g), LogProductRule(f, g, df, dg));
      }
    }
  }

  lemma NAryStepWellFormed(op: NAryOperator, ops: seq<Expr>, x: string)
    requires forall i :: 0 <= i < |ops| ==> EquationFree(ops[i])
    requires Derive(NAryOperation(op, ops), x).Some?
    requires forall i :: 0 <= i < |ops| ==> Derive(ops[i], x).Some? && WellFormedFor(ops[i], Derive(ops[i], x).value)
    ensures WellFormedFor(NAryOperation(op, ops), Derive(NAryOperation(op, ops), x).value)
  {
    DeriveNAry(op, ops, x);
    var e := NAryOperation(op, ops);
    var d := Derive(e, x).value;
    if op == Addition {
      NAryWellFormed(op, ops, d.operands);
    } else {
      forall i | 0 <= i < |ops| ensures WellFormedFor(e, d.operands[i]) {
        NAryWellFormed(Product, ops, WithFactor(ops, i, Derive(ops[i], x).value));
      }
      forall y | y in Vars(d) ensures y in Vars(e) {
        VarsOfAllMember(d.operands, y);
      }
    }
  }

  /**
   * An n-ary node over ys, where each ys[j] is equation-free, is valid when
   * the node over xs is and has only variables of it, whenever every ys[j]
   * is such a counterpart of xs[j]: equation-free, valid if xs[j] is, and with no new variables.
   */
  lemma NAryWellFormed(op: NAryOperator, xs: seq<Expr>, ys: seq<Expr>)
    requires |ys| == |xs|
    requires forall j :: 0 <= j < |ys| ==> EquationFree(ys[j]) && (Valid(xs[j]) ==> Valid(ys[j])) && Vars(ys[j]) <= Vars(xs[j])
    ensures EquationFree(NAryOperation(op, ys))
    ensures Valid(NAryOperation(op, xs)) ==> Valid(NAryOperation(op, ys))
    ensures VarsOfAll(ys) <= VarsOfAll(xs)
  {
    if AllValid(xs) {
      assert AllValid(ys);
    }
    forall y | y in VarsOfAll(ys) ensures y in VarsOfAll(xs) {
      VarsOfAllMember(ys, y);
      VarsOfAllMember(xs, y);
    }
  }

  /** The variables of a three-operand node, and when it is valid or equation-free. */
  lemma TripleFacts(op: NAryOperator, a: Expr, b: Expr, c: Expr)
    ensures Valid(NAryOperation(op, [a, b, c])) <==> Valid(a) && Valid(b) && Valid(c)
    ensures EquationFree(NAryOperation(op, [a, b, c])) <==> EquationFree(a) && EquationFree(b) && EquationFree(c)
    ensures Vars(NAryOperation(op, [a, b, c])) == Vars(a) + Vars(b) + Vars(c)
  {
    var ops := [a, b, c];
    assert ops[..2] == [a, b];
    assert [a, b][..1] == [a];
    assert [a][..0] == [];
    assert ops[0] == a && ops[1] == b && ops[2] == c;
    assert VarsOfAll([a]) == Vars(a);
    assert VarsOfAll([a, b]) == Vars(a) + Vars(b);
    assert VarsOfAll(ops) == VarsOfAll([a, b]) + Vars(c);
  }

  lemma QuotientRuleFacts(f: Expr, g: Expr, df: Expr, dg: Expr)
    ensures var q := QuotientRule(f, g, df, dg);
      (EquationFree(q) <==> EquationFree(f) && EquationFree(g) && EquationFree(df) && EquationFree(dg)) &&
      (Valid(q) <==> Valid(f) && Valid(g) && Valid(df) && Valid(dg)) &&
      Vars(q) == Vars(f) + Vars(g) + Vars(df) + Vars(dg)
  {
    var n := QuotientRule(f, g, df, dg).first;
    NumeratorFacts(f, g, df, dg);
    var sq := BinaryOperation(Power, g, Constant(2));
    assert QuotientRule(f, g, df, dg) == BinaryOperation(Division, n, sq);
    assert Vars(sq) == Vars(g) && (Valid(sq) <==> Valid(g)) && (EquationFree(sq) <==> EquationFree(g));
  }

  lemma NumeratorFacts(f: Expr, g: Expr, df: Expr, dg: Expr)
    ensures var n := QuotientRule(f, g, df, dg).first;
      (EquationFree(n) <==> EquationFree(f) && EquationFree(g) && EquationFree(df) && EquationFree(dg)) &&
      (Valid(n) <==> Valid(f) && Valid(g) && Valid(df) && Valid(dg)) &&
      Vars(n) == Vars(f) + Vars(g) + Vars(df) + Vars(dg)
  {
    var p1, p2 := NAryOperation(Product, [df, g]), NAryOperation(Product, [Constant(-1), f, dg]);
    PairFacts(Product, df, g);
    TripleFacts(Product, Constant(-1), f, dg);
    PairFacts(Addition, p1, p2);
  }

  lemma LogProductRuleFacts(f: Expr, g: Expr, df: Expr, dg: Expr)
    ensures var q := LogProductRule(f, g, df, dg);
      (EquationFree(q) <==> EquationFree(f) && EquationFree(g) && EquationFree(df) && EquationFree(dg)) &&
      (Valid(q) <==> Valid(f) && Valid(g) && Valid(df) && Valid(dg)) &&
      Vars(q) == Vars(f) + Vars(g) + Vars(df) + Vars(dg)
  {
    var q := NAryOperation(Product, [BinaryOperation(Division, ONE, f), df]);
    PairFacts(Product, BinaryOperation(Division, ONE, f), df);
    PairFacts(Product, q, g);
    PairFacts(Product, FunctionOperation(Ln, f), dg);
    PairFacts(Addition, NAryOperation(Product, [q, g]), NAryOperation(Product, [FunctionOperation(Ln, f), dg]));
  }

  lemma OuterFacts(f: Function, a: Expr)
    requires HasRule(f)
    ensures EquationFree(Outer(f, a).value) <==> EquationFree(a)
    ensures Valid(Outer(f, a).value) <==> Valid(a)
    ensures Vars(Outer(f, a).value) == Vars(a)
  {
    if f == Cos {
      PairFacts(Product, Constant(-1), FunctionOperation(Sin, a));
    } else if f == Sqrt {
      PairFacts(Product, Constant(2), FunctionOperation(Sqrt, a));
    }
  }

  // A tree without the variable has derivative zero wherever the derivative has a value.

  predicate ZeroOrNone(v: Option<real>) {
    v.None? || v == Some(0.0)
  }

  lemma {:induction false} SumZeros(xs: seq<real>)
    requires forall i :: 0 <= i < |xs| ==> xs[i] == 0.0
    ensures Sum(xs) == 0.0
  {
    if |xs| > 0 {
      SumZeros(xs[..|xs| - 1]);
    }
  }

  /** A product with an operand that is zero or has no value is zero or has no value. */
  lemma ProductOfZero(ops: seq<Expr>, k: nat, env: Env, fn: Interp)
    requires k < |ops| && ZeroOrNone(Eval(ops[k], env, fn))
    ensures ZeroOrNone(Eval(NAryOperation(Product, ops), env, fn))
  {
    var vs := Values(EvalAll(ops, env, fn));
    if vs.Some? {
      ProdZero(vs.value, k);
    }
  }

  /** A sum of operands each zero or without value is zero or has no value. */
  lemma SumOfZeros(ops: seq<Expr>, env: Env, fn: Interp)
    requires forall i :: 0 <= i < |ops| ==> ZeroOrNone(Eval(ops[i], env, fn))
    ensures ZeroOrNone(Eval(NAryOperation(Addition, ops), env, fn))
  {
    var vs := Values(EvalAll(ops, env, fn));
    if vs.Some? {
      SumZeros(vs.value);
    }
  }

  /** The constant rule, lifted to whole trees: if x does not occur, the derivative is 0 wherever it has a value. */
  lemma {:induction false} DeriveFree(e: Expr, x: string, env: Env, fn: Interp)
    requires EquationFree(e) && x !in Vars(e) && Derive(e, x).Some?
    ensures ZeroOrNone(Eval(Derive(e, x).value, env, fn))
  {
    match e
    case Variable(_) =>
    case Constant(_) =>
    case BinaryOperation(op, f, g) =>
      DeriveFree(f, x, env, fn);
      var df := Derive(f, x).value;
      if op == Power && g.Constant? {
        ProductOfZero([Constant(g.value), BinaryOperation(Power, f, Constant(g.value - 1)), df], 2, env, fn);
      } else {
        DeriveFree(g, x, env, fn);
        var dg := Derive(g, x).value;
        if op == Division {
          QuotientRuleZero(f, g, df, dg, env, fn);
        } else {
          LogProductRuleZero(f, g, df, dg, env, fn);
          ProductOfZero([BinaryOperation(Power, f, g), LogProductRule(f, g, df, dg)], 1, env, fn);
        }
      }
    case NAryOperation(op, ops) =>
      DeriveNAry(op, ops, x);
      forall i | 0 <= i < |ops| ensures Derive(ops[i], x).Some? && ZeroOrNone(Eval(Derive(ops[i], x).value, env, fn)) {
        VarsOfAllMember(ops, x);
        DeriveFree(ops[i], x, env, fn);
      }
      NAryStepZero(op, ops, x, env, fn);
    case FunctionOperation(f, a) =>
      DeriveFree(a, x, env, fn);
      ProductOfZero([Outer(f, a).value, Derive(a, x).value], 1, env, fn);
  }

  lemma QuotientRuleZero(f: Expr, g: Expr, df: Expr, dg: Expr, env: Env, fn: Interp)
    requires ZeroOrNone(Eval(df, env, fn)) && ZeroOrNone(Eval(dg, env, fn))
    ensures ZeroOrNone(Eval(QuotientRule(f, g, df, dg), env, fn))
  {
    var num := [NAryOperation(Product, [df, g]), NAryOperation(Product, [Constant(-1), f, dg])];
    ProductOfZero([df, g], 0, env, fn);
    ProductOfZero([Constant(-1), f, dg], 2, env, fn);
    SumOfZeros(num, env, fn);
    var n := Eval(NAryOperation(Addition, num), env, fn);
    var d := Eval(BinaryOperation(Power, g, Constant(2)), env, fn);
    if n.Some? && d.Some? && d.value != 0.0 {
      assert Quotient(n.value, d.value) == 0.0;
    }
  }

  lemma LogProductRuleZero(f: Expr, g: Expr, df: Expr, dg: Expr, env: Env, fn: Interp)
    requires ZeroOrNone(Eval(df, env, fn)) && ZeroOrNone(Eval(dg, env, fn))
    ensures ZeroOrNone(Eval(LogProductRule(f, g, df, dg), env, fn))
  {
    var q := NAryOperation(Product, [BinaryOperation(Division, ONE, f), df]);
    ProductOfZero([BinaryOperation(Division, ONE, f), df], 1, env, fn);
    ProductOfZero([q, g], 0, env, fn);
    ProductOfZero([FunctionOperation(Ln, f), dg], 1, env, fn);
    SumOfZeros([NAryOperation(Product, [q, g]), NAryOperation(Product, [FunctionOperation(Ln, f), dg])], env, fn);
  }

  lemma NAryStepZero(op: NAryOperator, ops: seq<Expr>, x: string, env: Env, fn: Interp)
    requires forall i :: 0 <= i < |ops| ==> EquationFree(ops[i])
    requires Derive(NAryOperation(op, ops), x).Some?
    requires forall i :: 0 <= i < |ops| ==> Derive(ops[i], x).Some? && ZeroOrNone(Eval(Derive(ops[i], x).value, env, fn))
    ensures ZeroOrNone(Eval(Derive(NAryOperation(op, ops), x).value, env, fn))
  {
    DeriveNAry(op, ops, x);
    var d := Derive(NAryOperation(op, ops), x).value;
    if op == Product {
      forall i | 0 <= i < |ops| ensures ZeroOrNone(Eval(d.operands[i], env, fn)) {
        ProductOfZero(WithFactor(ops, i, Derive(ops[i], x).value), i, env, fn);
      }
    }
    SumOfZeros(d.operands, env, fn);
  }

  // Worked cases.

  /** d/dx x^2 = 2 * x^1 * 1 and d/dx sin(x) = cos(x) * 1, unsimplified; tan has no rule. */
  lemma DerivativeExamples()
    ensures Derive(BinaryOperation(Power, Variable("x"), Constant(2)), "x")
      == Some(NAryOperation(Product, [Constant(2), BinaryOperation(Power, Variable("x"), Constant(1)), ONE]))
    ensures Derive(FunctionOperation(Sin, Variable("x")), "x")
      == Some(NAryOperation(Product, [FunctionOperation(Cos, Variable("x")), ONE]))
    ensures Derive(FunctionOperation(Tan, Variable("x")), "x") == None
  {
  }
}
