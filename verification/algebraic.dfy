/**
 * The algebraic simplifier: children are simplified first, then a fixed
 * list of identities is applied at the node (x/1, 0/x, x/x, x^0, x^1, 1^x,
 * constant powers, a zero factor, and special values of the functions).
 * Like every pass it is defined on equation-free trees. The x^1 rule
 * simplifies the base a second time, so the recursion is measured by Size,
 * which the pass never increases.
 */
module AlgebraicSimplifier {
  import opened Wrappers
  import opened Expressions
  import opened MathUtils
  import opened ExpressionFactory
  import opened Semantics

  /** The integer square root: the largest r with r*r <= n. */
  function ISqrt(n: nat): (r: nat)
    ensures r * r <= n < (r + 1) * (r + 1)
  {
    if n == 0 then 0
    else
      var s := ISqrt(n - 1);
      if (s + 1) * (s + 1) <= n then s + 1 else s
  }

  /** `visitDivision`, on already simplified operands. */
  function DivisionRule(o1: Expr, o2: Expr): (r: Expr)
    ensures EquationFree(o1) && EquationFree(o2) ==> EquationFree(r)
    ensures Valid(o1) && Valid(o2) ==> Valid(r)
    ensures Vars(r) <= Vars(o1) + Vars(o2)
    ensures Size(r) <= 1 + Size(o1) + Size(o2)
  {
    if o2 == ONE then o1
    else if o1 == ZERO && o2 != ZERO then ZERO
    else if o1 == o2 && o2 != ZERO then ONE
    else BinaryOperation(Division, o1, o2)
  }

  /** `visitPower` after its first two rules: 1^x and a power of two constants. */
  function PowerRule(o1: Expr, o2: Expr): (r: Expr)
    ensures EquationFree(o1) && EquationFree(o2) ==> EquationFree(r)
    ensures Valid(o1) && Valid(o2) ==> Valid(r)
    ensures Vars(r) <= Vars(o1) + Vars(o2)
    ensures Size(r) <= 1 + Size(o1) + Size(o2)
  {
    if o1 == ONE then ONE
    else if o1.Constant? && o2.Constant? then
      if o2.value >= 0 then Constant(IntegerPower(o1.value, o2.value))
      else BinaryOperation(Division, ONE, Constant(IntegerPower(o1.value, -o2.value)))
    else BinaryOperation(Power, o1, o2)
  }

  /** `visitProduct`: a zero factor makes the whole product zero. */
  function ProductRule(ops: seq<Expr>): (r: Expr)
    ensures (forall i :: 0 <= i < |ops| ==> EquationFree(ops[i])) ==> EquationFree(r)
    ensures |ops| >= 2 && AllValid(ops) ==> Valid(r)
    ensures Vars(r) <= VarsOfAll(ops)
    ensures Size(r) <= 1 + SizeOfAll(ops)
  {
    if ZERO in ops then ZERO else NAryOperation(Product, ops)
  }

  /** The special values `visitSin` ... `visitSqrt` recognise. */
  function FunctionRule(f: Function, arg: Expr): (r: Expr)
    ensures EquationFree(arg) ==> EquationFree(r)
    ensures Valid(arg) ==> Valid(r)
    ensures Vars(r) <= Vars(arg)
    ensures Size(r) <= 2 + Size(arg)
  {
    if f == Sin || f == Arcsin || f == Tan || f == Arctan then
      if arg == ZERO then ZERO else FunctionOperation(f, arg)
    else if f == Cos then
      if arg == ZERO then ONE else FunctionOperation(f, arg)
    else if f == Arccos then
      if arg == ONE then ZERO else FunctionOperation(f, arg)
    else if f == Ln then
      if arg == ONE then ZERO
      else if arg == E.AsVariable() then ONE
      else FunctionOperation(f, arg)
    else if f == Abs then
      if arg.Constant? then (if arg.value >= 0 then arg else NegateSize(arg); Negate(arg))
      else FunctionOperation(f, arg)
    else
      if arg.Constant? && arg.value >= 0 && ISqrt(arg.value) * ISqrt(arg.value) == arg.value then
        Constant(ISqrt(arg.value))
      else FunctionOperation(f, arg)
  }

  lemma NegateSize(c: Expr)
    requires c.Constant?
    ensures Size(Negate(c)) == 3
  {
    var ops := [Constant(-1), c];
    assert ops[..1] == [Constant(-1)];
    assert ops[..1][..0] == [];
    assert SizeOfAll(ops[..1][..0]) == 0;
    assert SizeOfAll(ops[..1]) == 1;
    assert SizeOfAll(ops) == 2;
  }

  function Simplify(e: Expr): (r: Expr)
    requires EquationFree(e)
    ensures Size(r) <= Size(e) && EquationFree(r)
    decreases Size(e), 0
  {
    match e
    case Variable(_) => e
    case Constant(_) => e
    case BinaryOperation(op, a, b) =>
      var o1, o2 := Simplify(a), Simplify(b);
      if op == Division then DivisionRule(o1, o2)
      else if o2 == ZERO then ONE
      else if o2 == ONE then Simplify(o1)
      else PowerRule(o1, o2)
    case NAryOperation(op, ops) =>
      var s := SimplifyAll(ops);
      if op == Addition then NAryOperation(Addition, s) else ProductRule(s)
    case FunctionOperation(f, a) => FunctionRule(f, Simplify(a))
    case Equation(_, _) => e
  }

  /** The operands simplified one by one; together they are no larger. */
  function SimplifyAll(ops: seq<Expr>): (r: seq<Expr>)
    requires forall i :: 0 <= i < |ops| ==> EquationFree(ops[i])
    ensures |r| == |ops| && SizeOfAll(r) <= SizeOfAll(ops)
    ensures forall i :: 0 <= i < |ops| ==> EquationFree(r[i])
    decreases SizeOfAll(ops), 1
  {
    var r := seq(|ops|, i requires 0 <= i < |ops| => SizeOfAllBound(ops, i); Simplify(ops[i]));
    SizeOfAllPointwise(r, ops);
    r
  }

  // Soundness: every identity the simplifier applies preserves the value.

  lemma DivisionSound(o1: Expr, o2: Expr, x: real, y: real, env: Env, fn: Interp)
    requires Eval(o1, env, fn) == Some(x) && Eval(o2, env, fn) == Some(y) && y != 0.0
    ensures Eval(DivisionRule(o1, o2), env, fn) == Some(Quotient(x, y))
  {
    if o2 == ONE {
      assert y == 1.0;
      QuotientUnique(x, y, x);
    } else if o1 == ZERO && o2 != ZERO {
      QuotientUnique(0.0, y, 0.0);
    } else if o1 == o2 && o2 != ZERO {
      QuotientUnique(x, y, 1.0);
    } else {
      QuotientEval(o1, o2, x, y, env, fn);
    }
  }

  lemma QuotientEval(o1: Expr, o2: Expr, x: real, y: real, env: Env, fn: Interp)
    requires Eval(o1, env, fn) == Some(x) && Eval(o2, env, fn) == Some(y) && y != 0.0
    ensures Eval(BinaryOperation(Division, o1, o2), env, fn) == Some(Quotient(x, y))
  {
  }

  lemma PowerSound(o1: Expr, o2: Expr, x: real, y: real, env: Env, fn: Interp)
    requires Eval(o1, env, fn) == Some(x) && Eval(o2, env, fn) == Some(y)
    requires IsInteger(y) && IntPow(x, y.Floor).Some?
    ensures Eval(PowerRule(o1, o2), env, fn) == IntPow(x, y.Floor)
  {
    if o1 == ONE {
      RealPowOne(if y.Floor >= 0 then y.Floor else -y.Floor);
    } else if o1.Constant? && o2.Constant? {
      var b, k := o1.value, o2.value;
      assert y.Floor == k;
      if k >= 0 {
        PowAsReal(b, k);
      } else {
        PowAsReal(b, -k);
      }
    }
  }

  lemma ProductSound(ops: seq<Expr>, xs: seq<real>, env: Env, fn: Interp)
    requires Values(EvalAll(ops, env, fn)) == Some(xs)
    ensures Eval(ProductRule(ops), env, fn) == Some(Prod(xs))
  {
    if ZERO in ops {
      var i :| 0 <= i < |ops| && ops[i] == ZERO;
      ProdZero(xs, i);
    }
  }

  lemma FunctionSound(f: Function, arg: Expr, x: real, env: Env, fn: Interp)
    requires FunctionLaws(env, fn)
    requires Eval(arg, env, fn) == Some(x) && fn(f, x).Some?
    ensures Eval(FunctionRule(f, arg), env, fn) == fn(f, x)
  {
    if f == Abs {
      AbsSound(arg, x, env, fn);
    } else if f == Sqrt {
      SqrtSound(arg, x, env, fn);
    } else if f == Ln {
      LnSound(arg, x, env, fn);
    } else if f == Cos || f == Arccos {
      CosineSound(f, arg, x, env, fn);
    } else {
      OddFunctionSound(f, arg, x, env, fn);
    }
  }

  lemma LnSound(arg: Expr, x: real, env: Env, fn: Interp)
    requires FunctionLaws(env, fn)
    requires Eval(arg, env, fn) == Some(x) && fn(Ln, x).Some?
    ensures Eval(FunctionRule(Ln, arg), env, fn) == fn(Ln, x)
  {
    if arg == ONE {
      assert x == 1.0;
    } else if arg == E.AsVariable() {
      assert x == env("e");
    }
  }

  lemma OddFunctionSound(f: Function, arg: Expr, x: real, env: Env, fn: Interp)
    requires f == Sin || f == Arcsin || f == Tan || f == Arctan
    requires FunctionLaws(env, fn)
    requires Eval(arg, env, fn) == Some(x) && fn(f, x).Some?
    ensures Eval(FunctionRule(f, arg), env, fn) == fn(f, x)
  {
    if arg == ZERO {
      assert x == 0.0;
    }
  }

  lemma CosineSound(f: Function, arg: Expr, x: real, env: Env, fn: Interp)
    requires f == Cos || f == Arccos
    requires FunctionLaws(env, fn)
    requires Eval(arg, env, fn) == Some(x) && fn(f, x).Some?
    ensures Eval(FunctionRule(f, arg), env, fn) == fn(f, x)
  {
    if f == Cos && arg == ZERO {
      assert x == 0.0;
    } else if f == Arccos && arg == ONE {
      assert x == 1.0;
    }
  }

  lemma AbsSound(arg: Expr, x: real, env: Env, fn: Interp)
    requires FunctionLaws(env, fn)
    requires Eval(arg, env, fn) == Some(x)
    ensures Eval(FunctionRule(Abs, arg), env, fn) == fn(Abs, x)
  {
    if arg.Constant? && arg.value < 0 {
      EvalPair(Product, Constant(-1), arg, -1.0, x, env, fn);
    }
  }

  lemma SqrtSound(arg: Expr, x: real, env: Env, fn: Interp)
    requires FunctionLaws(env, fn)
    requires Eval(arg, env, fn) == Some(x) && fn(Sqrt, x).Some?
    ensures Eval(FunctionRule(Sqrt, arg), env, fn) == fn(Sqrt, x)
  {
    SqrtRule(arg);
    if FunctionRule(Sqrt, arg) != FunctionOperation(Sqrt, arg) {
      var r := ISqrt(arg.value);
      PerfectSquareRoot(r, x, env, fn);
    }
  }

  lemma SqrtRule(arg: Expr)
    ensures FunctionRule(Sqrt, arg) == FunctionOperation(Sqrt, arg)
      || (arg.Constant? && arg.value >= 0 && ISqrt(arg.value) * ISqrt(arg.value) == arg.value
          && FunctionRule(Sqrt, arg) == Constant(ISqrt(arg.value)))
  {
  }

  /** The square root of r*r is r. */
  lemma PerfectSquareRoot(r: nat, x: real, env: Env, fn: Interp)
    requires FunctionLaws(env, fn) && x == (r * r) as real
    ensures fn(Sqrt, x) == Some(r as real)
  {
    MulAsReal(r, r);
    assert Square(r as real) == x;
  }

  /**
   * Where the input has a value, the simplified tree has the same value,
   * given the function laws.
   */
  lemma {:induction false} SimplifySound(e: Expr, env: Env, fn: Interp)
    requires EquationFree(e) && FunctionLaws(env, fn) && Eval(e, env, fn).Some?
    ensures Eval(Simplify(e), env, fn) == Eval(e, env, fn)
    decreases Size(e)
  {
    match e
    case Variable(_) =>
    case Constant(_) =>
    case BinaryOperation(op, a, b) =>
      SimplifySound(a, env, fn);
      SimplifySound(b, env, fn);
      var o1, o2 := Simplify(a), Simplify(b);
      var s1 := if op == Power && o2 == ONE then Simplify(o1) else o1;
      if op == Power && o2 == ONE {
        SimplifySound(o1, env, fn);
      }
      BinarySound(op, o1, o2, s1, Eval(e, env, fn).value, env, fn);
    case NAryOperation(op, ops) =>
      var s := SimplifyAll(ops);
      forall i | 0 <= i < |ops| ensures Eval(s[i], env, fn) == Eval(ops[i], env, fn) {
        SizeOfAllBound(ops, i);
        SimplifySound(ops[i], env, fn);
      }
      NArySound(op, ops, env, fn);
    case FunctionOperation(f, a) =>
      SimplifySound(a, env, fn);
      FunctionSound(f, Simplify(a), Eval(a, env, fn).value, env, fn);
  }

  /**
   * The binary case of SimplifySound: on operands already simplified, with
   * s1 the re-simplified first operand, the rules keep the value v.
   */
  lemma BinarySound(op: BinaryOperator, o1: Expr, o2: Expr, s1: Expr, v: real, env: Env, fn: Interp)
    requires Eval(BinaryOperation(op, o1, o2), env, fn) == Some(v)
    requires op == Power && o2 == ONE ==> Eval(s1, env, fn) == Eval(o1, env, fn)
    ensures Eval(if op == Division then DivisionRule(o1, o2) else if o2 == ZERO then ONE
      else if o2 == ONE then s1 else PowerRule(o1, o2), env, fn) == Some(v)
  {
    var x, y := Eval(o1, env, fn).value, Eval(o2, env, fn).value;
    if op == Division {
      DivisionSound(o1, o2, x, y, env, fn);
    } else if o2 == ZERO {
      assert y == 0.0 && y.Floor == 0;
    } else if o2 == ONE {
      assert y == 1.0 && y.Floor == 1;
      assert RealPow(x, 1) == x;
    } else {
      PowerSound(o1, o2, x, y, env, fn);
    }
  }

  /** The n-ary case of SimplifySound, given its claim for every operand. */
  lemma NArySound(op: NAryOperator, ops: seq<Expr>, env: Env, fn: Interp)
    requires forall i :: 0 <= i < |ops| ==> EquationFree(ops[i])
    requires Eval(NAryOperation(op, ops), env, fn).Some?
    requires forall i :: 0 <= i < |ops| ==> Eval(SimplifyAll(ops)[i], env, fn) == Eval(ops[i], env, fn)
    ensures Eval(Simplify(NAryOperation(op, ops)), env, fn) == Eval(NAryOperation(op, ops), env, fn)
  {
    var s := SimplifyAll(ops);
    assert EvalAll(s, env, fn) == EvalAll(ops, env, fn);
    if op == Product {
      ProductSound(s, Values(EvalAll(ops, env, fn)).value, env, fn);
    }
  }

  // Structural properties.

  /** Simplifying keeps the two-operand invariant and introduces no variable. */
  lemma {:induction false} SimplifyValid(e: Expr)
    requires EquationFree(e) && Valid(e)
    ensures Valid(Simplify(e)) && Vars(Simplify(e)) <= Vars(e)
    decreases Size(e)
  {
    match e
    case Variable(_) =>
    case Constant(_) =>
    case BinaryOperation(op, a, b) =>
      SimplifyValid(a);
      SimplifyValid(b);
      if op == Power && Simplify(b) == ONE {
        SimplifyValid(Simplify(a));
      }
    case NAryOperation(op, ops) =>
      var s := SimplifyAll(ops);
      forall i | 0 <= i < |ops| ensures Valid(s[i]) && Vars(s[i]) <= Vars(ops[i]) {
        SizeOfAllBound(ops, i);
        SimplifyValid(ops[i]);
      }
      forall x | x in VarsOfAll(s) ensures x in VarsOfAll(ops) {
        VarsOfAllMember(s, x);
        VarsOfAllMember(ops, x);
      }
    case FunctionOperation(f, a) =>
      SimplifyValid(a);
  }

  // The individual rules, stated on whole trees.

  /** x/1 gives the simplified x; 0/x gives 0 and x/x gives 1 unless x simplifies to 0. */
  lemma DivisionRules(x: Expr)
    requires EquationFree(x)
    ensures Simplify(BinaryOperation(Division, x, ONE)) == Simplify(x)
    ensures Simplify(x) != ZERO ==> Simplify(BinaryOperation(Division, ZERO, x)) == ZERO
    ensures Simplify(x) != ZERO && Simplify(x) != ONE ==> Simplify(BinaryOperation(Division, x, x)) == ONE
  {
  }

  /** x^0 is 1 whatever x is, 0^0 included; x^1 is x simplified twice; 1^x is 1 otherwise. */
  lemma PowerRules(x: Expr)
    requires EquationFree(x)
    ensures Simplify(BinaryOperation(Power, x, ZERO)) == ONE
    ensures Simplify(BinaryOperation(Power, x, ONE)) == Simplify(Simplify(x))
    ensures Simplify(x) != ZERO && Simplify(x) != ONE ==> Simplify(BinaryOperation(Power, ONE, x)) == ONE
  {
    PowerZero(x);
    PowerOne(x);
    OnePower(x);
  }

  lemma PowerZero(x: Expr)
    requires EquationFree(x)
    ensures Simplify(BinaryOperation(Power, x, ZERO)) == ONE
  {
    assert Simplify(ZERO) == ZERO;
  }

  lemma PowerOne(x: Expr)
    requires EquationFree(x)
    ensures Simplify(BinaryOperation(Power, x, ONE)) == Simplify(Simplify(x))
  {
    assert Simplify(ONE) == ONE;
  }

  lemma OnePower(x: Expr)
    requires EquationFree(x)
    ensures Simplify(x) != ZERO && Simplify(x) != ONE ==> Simplify(BinaryOperation(Power, ONE, x)) == ONE
  {
    assert Simplify(ONE) == ONE;
  }

  /** A power of two constants is computed, as a reciprocal for a negative exponent. */
  lemma ConstantPower(b: int, k: int)
    requires k != 0 && k != 1 && b != 1
    ensures EquationFree(Constant(k)) && Simplify(BinaryOperation(Power, Constant(b), Constant(k)))
      == if k > 0 then Constant(Pow(b, k)) else BinaryOperation(Division, ONE, Constant(Pow(b, -k)))
  {
  }

  /** A product with a literal zero operand is zero. */
  lemma ZeroFactor(ops: seq<Expr>)
    requires forall i :: 0 <= i < |ops| ==> EquationFree(ops[i])
    requires ZERO in ops
    ensures Simplify(NAryOperation(Product, ops)) == ZERO
  {
    var i :| 0 <= i < |ops| && ops[i] == ZERO;
    assert SimplifyAll(ops)[i] == ZERO;
  }

  /** The special function values at 0. */
  lemma ValuesAtZero(f: Function)
    requires f == Sin || f == Tan || f == Arcsin || f == Arctan || f == Cos
    ensures Simplify(FunctionOperation(f, ZERO)) == if f == Cos then ONE else ZERO
  {
    assert Simplify(ZERO) == ZERO;
  }

  /** acos 1 = 0, ln 1 = 0, ln e = 1. */
  lemma ValuesAtOneAndE()
    ensures Simplify(FunctionOperation(Arccos, ONE)) == ZERO
    ensures Simplify(FunctionOperation(Ln, ONE)) == ZERO
    ensures Simplify(FunctionOperation(Ln, Variable("e"))) == ONE
  {
    assert Simplify(ONE) == ONE;
    assert E.AsVariable() == Variable("e");
  }

  /** abs of a constant: itself when non-negative, otherwise -1 times it (not its negation). */
  lemma AbsOfConstant(c: int)
    ensures Simplify(FunctionOperation(Abs, Constant(c)))
      == if c >= 0 then Constant(c) else NAryOperation(Product, [Constant(-1), Constant(c)])
  {
  }

  /** sqrt of a constant: its root when it is a perfect square, unchanged otherwise. */
  lemma SqrtOfConstant(n: int)
    ensures forall r: nat :: r * r == n ==> Simplify(FunctionOperation(Sqrt, Constant(n))) == Constant(r)
    ensures (forall r: nat :: r * r != n) ==> Simplify(FunctionOperation(Sqrt, Constant(n))) == FunctionOperation(Sqrt, Constant(n))
  {
    if n >= 0 {
      var s := ISqrt(n);
      forall r: nat | r * r == n ensures s == r {
        SquareBetween(n, s, r);
      }
    }
  }

  /** Only s squares to n when s*s <= n < (s+1)*(s+1). */
  lemma SquareBetween(n: nat, s: nat, r: nat)
    requires s * s <= n < (s + 1) * (s + 1) && r * r == n
    ensures r == s
  {
    MulStrict(r, s);
    MulMono(s + 1, r);
  }

  lemma MulStrict(a: nat, b: nat)
    ensures a < b ==> a * a < b * b
  {
  }

  lemma MulMono(a: nat, b: nat)
    ensures a <= b ==> a * a <= b * b
  {
  }
}
