/**
 * The rational simplifier: it moves divisions outwards. After the children
 * are processed, (a/b)/c becomes a/(b*c), a/(b/c) becomes (a*c)/b, and a
 * product with fraction operands becomes one fraction of two products.
 * Power and addition nodes have no rule here (the operator dispatch throws
 * and the visitor returns the node with processed children).
 */
module RationalSimplifier {
  import opened Wrappers
  import opened Expressions
  import opened ExpressionFactory
  import opened Semantics

  predicate IsDivision(e: Expr) {
    e.BinaryOperation? && e.bop == Division
  }

  /** `visitDivision`, on already processed operands. */
  function DivisionRule(o1: Expr, o2: Expr): (r: Expr)
    ensures IsDivision(r)
  {
    if IsDivision(o1) then
      BinaryOperation(Division, o1.first, NAryOperation(Product, [o1.second, o2]))
    else if IsDivision(o2) then
      BinaryOperation(Division, NAryOperation(Product, [o1, o2.second]), o2.first)
    else BinaryOperation(Division, o1, o2)
  }

  /**
   * The loop of `visitProduct`: each operand gives one numerator factor (its
   * numerator if it is a fraction, itself otherwise) and a fraction also
   * gives its denominator.
   */
  function Split(ops: seq<Expr>): (r: (seq<Expr>, seq<Expr>))
    ensures |r.0| == |ops| && |r.1| <= |ops|
  {
    if |ops| == 0 then ([], [])
    else
      var (nums, dens) := Split(ops[..|ops| - 1]);
      var last := ops[|ops| - 1];
      if IsDivision(last) then (nums + [last.first], dens + [last.second])
      else (nums + [last], dens)
  }

  /**
   * Operand i gives numerator factor i; the denominator factors are the
   * denominators of the fraction operands, and there are none exactly when
   * no operand is a fraction.
   */
  lemma {:induction false} SplitShape(ops: seq<Expr>)
    ensures forall i :: 0 <= i < |ops| ==> Split(ops).0[i] == if IsDivision(ops[i]) then ops[i].first else ops[i]
    ensures forall y :: y in Split(ops).1 <==> exists d :: d in ops && IsDivision(d) && d.second == y
    ensures (|Split(ops).1| == 0) <==> forall i :: 0 <= i < |ops| ==> !IsDivision(ops[i])
  {
    if |ops| > 0 {
      var init, last := ops[..|ops| - 1], ops[|ops| - 1];
      SplitShape(init);
      assert ops == init + [last];
      assert forall d :: d in ops <==> d in init || d == last;
      assert forall i :: 0 <= i < |init| ==> ops[i] == init[i];
    }
  }

  /** `visitProduct`: one fraction when some operand is a fraction, the same product otherwise. */
  function ProductRule(ops: seq<Expr>): Expr {
    var (nums, dens) := Split(ops);
    if |dens| > 0 then BinaryOperation(Division, Implode(Product, nums), Implode(Product, dens))
    else NAryOperation(Product, ops)
  }

  function Rationalize(e: Expr): Expr
    requires EquationFree(e)
  {
    match e
    case Variable(_) => e
    case Constant(_) => e
    case BinaryOperation(op, a, b) =>
      var o1, o2 := Rationalize(a), Rationalize(b);
      if op == Division then DivisionRule(o1, o2) else BinaryOperation(Power, o1, o2)
    case NAryOperation(op, ops) =>
      var s := seq(|ops|, i requires 0 <= i < |ops| => Rationalize(ops[i]));
      if op == Product then ProductRule(s) else NAryOperation(Addition, s)
    case FunctionOperation(f, a) => FunctionOperation(f, Rationalize(a))
    case Equation(_, _) => e
  }

  /** Division nodes have no division directly beneath them. */
  predicate NoNestedDivision(e: Expr) {
    match e
    case Variable(_) => true
    case Constant(_) => true
    case BinaryOperation(op, a, b) =>
      NoNestedDivision(a) && NoNestedDivision(b) && (op == Division ==> !IsDivision(a) && !IsDivision(b))
    case NAryOperation(_, ops) => forall i :: 0 <= i < |ops| ==> NoNestedDivision(ops[i])
    case FunctionOperation(_, a) => NoNestedDivision(a)
    case Equation(a, b) => NoNestedDivision(a) && NoNestedDivision(b)
  }

  /** After the pass no fraction sits directly in the numerator or denominator of another. */
  lemma {:induction false} RationalizeNoNestedDivision(e: Expr)
    requires EquationFree(e)
    ensures NoNestedDivision(Rationalize(e))
  {
    match e
    case Variable(_) =>
    case Constant(_) =>
    case BinaryOperation(op, a, b) =>
      RationalizeNoNestedDivision(a);
      RationalizeNoNestedDivision(b);
      if op == Division {
        DivisionRuleNoNestedDivision(Rationalize(a), Rationalize(b));
      }
    case NAryOperation(op, ops) =>
      var s := seq(|ops|, i requires 0 <= i < |ops| => Rationalize(ops[i]));
      forall i | 0 <= i < |ops| ensures NoNestedDivision(s[i]) {
        RationalizeNoNestedDivision(ops[i]);
      }
      if op == Product {
        ProductRuleNoNestedDivision(s);
      }
    case FunctionOperation(f, a) =>
      RationalizeNoNestedDivision(a);
  }

  lemma DivisionRuleNoNestedDivision(o1: Expr, o2: Expr)
    requires NoNestedDivision(o1) && NoNestedDivision(o2)
    ensures NoNestedDivision(DivisionRule(o1, o2))
  {
  }

  lemma ProductRuleNoNestedDivision(ops: seq<Expr>)
    requires forall i :: 0 <= i < |ops| ==> NoNestedDivision(ops[i])
    ensures NoNestedDivision(ProductRule(ops))
  {
    var (nums, dens) := Split(ops);
    SplitShape(ops);
    if |dens| > 0 {
      forall i | 0 <= i < |nums| ensures NoNestedDivision(nums[i]) && !IsDivision(nums[i]) {
        assert NoNestedDivision(ops[i]);
      }
      forall k | 0 <= k < |dens| ensures NoNestedDivision(dens[k]) && !IsDivision(dens[k]) {
        assert dens[k] in dens;
        var d :| d in ops && IsDivision(d) && d.second == dens[k];
        var j :| 0 <= j < |ops| && ops[j] == d;
        assert NoNestedDivision(ops[j]);
      }
      ImplodeNoNestedDivision(nums);
      ImplodeNoNestedDivision(dens);
    }
  }

  /** Imploding division-free factors gives a division-free tree that is no fraction. */
  lemma ImplodeNoNestedDivision(xs: seq<Expr>)
    requires forall i :: 0 <= i < |xs| ==> NoNestedDivision(xs[i]) && !IsDivision(xs[i])
    ensures NoNestedDivision(Implode(Product, xs)) && !IsDivision(Implode(Product, xs))
  {
  }

  /** The pass keeps the two-operand invariant and the set of variables. */
  lemma {:induction false} RationalizeValid(e: Expr)
    requires EquationFree(e) && Valid(e)
    ensures Valid(Rationalize(e)) && EquationFree(Rationalize(e)) && Vars(Rationalize(e)) == Vars(e)
  {
    match e
    case Variable(_) =>
    case Constant(_) =>
    case BinaryOperation(op, a, b) =>
      RationalizeValid(a);
      RationalizeValid(b);
      var o1, o2 := Rationalize(a), Rationalize(b);
      if op == Division {
        if IsDivision(o1) {
          PairFacts(Product, o1.second, o2);
        } else if IsDivision(o2) {
          PairFacts(Product, o1, o2.second);
        }
      }
    case NAryOperation(op, ops) =>
      var s := seq(|ops|, i requires 0 <= i < |ops| => Rationalize(ops[i]));
      forall i | 0 <= i < |ops| ensures Valid(s[i]) && EquationFree(s[i]) && Vars(s[i]) == Vars(ops[i]) {
        RationalizeValid(ops[i]);
      }
      VarsOfAllPointwise(s, ops);
      if op == Product {
        ProductRuleValid(s);
      }
    case FunctionOperation(f, a) =>
      RationalizeValid(a);
  }

  lemma VarsOfAllPointwise(xs: seq<Expr>, ys: seq<Expr>)
    requires |xs| == |ys| && forall i :: 0 <= i < |xs| ==> Vars(xs[i]) == Vars(ys[i])
    ensures VarsOfAll(xs) == VarsOfAll(ys)
  {
    forall x ensures x in VarsOfAll(xs) <==> x in VarsOfAll(ys) {
      VarsOfAllMember(xs, x);
      VarsOfAllMember(ys, x);
    }
  }

  lemma ProductRuleValid(ops: seq<Expr>)
    requires |ops| >= 2 && forall i :: 0 <= i < |ops| ==> Valid(ops[i]) && EquationFree(ops[i])
    ensures Valid(ProductRule(ops)) && EquationFree(ProductRule(ops)) && Vars(ProductRule(ops)) == VarsOfAll(ops)
  {
    var (nums, dens) := Split(ops);
    if |dens| > 0 {
      SplitValid(ops);
      SplitVars(ops);
    }
  }

  /** Every numerator and denominator factor is a valid, equation-free operand. */
  lemma SplitValid(ops: seq<Expr>)
    requires forall i :: 0 <= i < |ops| ==> Valid(ops[i]) && EquationFree(ops[i])
    ensures forall i :: 0 <= i < |Split(ops).0| ==> Valid(Split(ops).0[i]) && EquationFree(Split(ops).0[i])
    ensures forall i :: 0 <= i < |Split(ops).1| ==> Valid(Split(ops).1[i]) && EquationFree(Split(ops).1[i])
  {
    var (nums, dens) := Split(ops);
    SplitShape(ops);
    forall i | 0 <= i < |nums| ensures Valid(nums[i]) && EquationFree(nums[i]) {
      assert Valid(ops[i]) && EquationFree(ops[i]);
    }
    forall i | 0 <= i < |dens| ensures Valid(dens[i]) && EquationFree(dens[i]) {
      assert dens[i] in dens;
      var d :| d in ops && IsDivision(d) && d.second == dens[i];
      var j :| 0 <= j < |ops| && ops[j] == d;
      assert Valid(ops[j]) && EquationFree(ops[j]);
    }
  }

  /** Numerators and denominators together hold exactly the operands' variables. */
  lemma SplitVars(ops: seq<Expr>)
    ensures VarsOfAll(Split(ops).0) + VarsOfAll(Split(ops).1) == VarsOfAll(ops)
  {
    var (nums, dens) := Split(ops);
    SplitShape(ops);
    forall x | x in VarsOfAll(dens) ensures x in VarsOfAll(ops) {
      VarsOfAllMember(dens, x);
      VarsOfAllMember(ops, x);
      var k :| 0 <= k < |dens| && x in Vars(dens[k]);
      assert dens[k] in dens;
      var d :| d in ops && IsDivision(d) && d.second == dens[k];
      var j :| 0 <= j < |ops| && ops[j] == d;
      assert x in Vars(ops[j]);
    }
    forall x | x in VarsOfAll(nums) ensures x in VarsOfAll(ops) {
      VarsOfAllMember(nums, x);
      VarsOfAllMember(ops, x);
      var k :| 0 <= k < |nums| && x in Vars(nums[k]);
      assert x in Vars(ops[k]);
    }
    forall x | x in VarsOfAll(ops) ensures x in VarsOfAll(nums) + VarsOfAll(dens) {
      VarsOfAllMember(nums, x);
      VarsOfAllMember(dens, x);
      VarsOfAllMember(ops, x);
      var j :| 0 <= j < |ops| && x in Vars(ops[j]);
      if IsDivision(ops[j]) && x !in Vars(ops[j].first) {
        assert ops[j].second in dens;
        var k :| 0 <= k < |dens| && dens[k] == ops[j].second;
      } else {
        assert x in Vars(nums[j]);
      }
    }
  }

  // Soundness: every rewrite keeps the value of a tree that has one.

  lemma DivisionSound(o1: Expr, o2: Expr, x: real, y: real, env: Env, fn: Interp)
    requires Eval(o1, env, fn) == Some(x) && Eval(o2, env, fn) == Some(y) && y != 0.0
    ensures Eval(DivisionRule(o1, o2), env, fn) == Some(Quotient(x, y))
  {
    if IsDivision(o1) {
      NumeratorFractionSound(o1, o2, x, y, env, fn);
    } else if IsDivision(o2) {
      DenominatorFractionSound(o1, o2, x, y, env, fn);
    }
  }

  /** (p/q)/y = p/(q*y). */
  lemma NumeratorFractionSound(o1: Expr, o2: Expr, x: real, y: real, env: Env, fn: Interp)
    requires IsDivision(o1)
    requires Eval(o1, env, fn) == Some(x) && Eval(o2, env, fn) == Some(y) && y != 0.0
    ensures Eval(BinaryOperation(Division, o1.first, NAryOperation(Product, [o1.second, o2])), env, fn) == Some(Quotient(x, y))
  {
    var p, q := Eval(o1.first, env, fn).value, Eval(o1.second, env, fn).value;
    assert q != 0.0 && x == Quotient(p, q);
    EvalPair(Product, o1.second, o2, q, y, env, fn);
    QuotientOfQuotient(p, q, y);
    assert Apply(Product, q, y) == q * y;
  }

  /** x/(q/r) = (x*r)/q. */
  lemma DenominatorFractionSound(o1: Expr, o2: Expr, x: real, y: real, env: Env, fn: Interp)
    requires IsDivision(o2)
    requires Eval(o1, env, fn) == Some(x) && Eval(o2, env, fn) == Some(y) && y != 0.0
    ensures Eval(BinaryOperation(Division, NAryOperation(Product, [o1, o2.second]), o2.first), env, fn) == Some(Quotient(x, y))
  {
    var q, r := Eval(o2.first, env, fn).value, Eval(o2.second, env, fn).value;
    assert r != 0.0 && y == Quotient(q, r);
    EvalPair(Product, o1, o2.second, x, r, env, fn);
    QuotientByQuotient(x, q, r);
    assert Apply(Product, x, r) == x * r;
  }

  /** The quotient of the numerator and denominator products is the given value. */
  predicate SplitsTo(ops: seq<Expr>, v: real, env: Env, fn: Interp) {
    FractionOf(EvalFold(Product, Split(ops).0, env, fn), EvalFold(Product, Split(ops).1, env, fn), v)
  }

  /** n/d has value v. */
  predicate FractionOf(n: Option<real>, d: Option<real>, v: real) {
    n.Some? && d.Some? && d.value != 0.0 && Quotient(n.value, d.value) == v
  }

  /**
   * The numerator factors and the denominator factors both have values,
   * and their quotient is the product's value.
   */
  lemma {:induction false} SplitSound(ops: seq<Expr>, env: Env, fn: Interp)
    requires EvalFold(Product, ops, env, fn).Some?
    ensures SplitsTo(ops, EvalFold(Product, ops, env, fn).value, env, fn)
  {
    if |ops| == 0 {
      QuotientUnique(1.0, 1.0, 1.0);
      SplitsToIntro(ops, Some(1.0), Some(1.0), 1.0, env, fn);
    } else {
      SplitSoundStep(ops, env, fn);
      SplitSound(ops[..|ops| - 1], env, fn);
    }
  }

  /** The product's last factor extends the fraction of the others. */
  lemma SplitSoundStep(ops: seq<Expr>, env: Env, fn: Interp)
    requires |ops| > 0 && EvalFold(Product, ops, env, fn).Some?
    ensures EvalFold(Product, ops[..|ops| - 1], env, fn).Some?
    ensures SplitsTo(ops[..|ops| - 1], EvalFold(Product, ops[..|ops| - 1], env, fn).value, env, fn)
      ==> SplitsTo(ops, EvalFold(Product, ops, env, fn).value, env, fn)
  {
    var init, last := ops[..|ops| - 1], ops[|ops| - 1];
    EvalFoldLast(Product, ops, env, fn);
    var p, v := EvalFold(Product, init, env, fn).value, Eval(last, env, fn).value;
    assert Apply(Product, p, v) == p * v;
    if SplitsTo(init, p, env, fn) {
      SplitStep(ops, p, v, env, fn);
    }
  }

  lemma SplitStep(ops: seq<Expr>, p: real, v: real, env: Env, fn: Interp)
    requires |ops| > 0
    requires SplitsTo(ops[..|ops| - 1], p, env, fn) && Eval(ops[|ops| - 1], env, fn) == Some(v)
    ensures SplitsTo(ops, p * v, env, fn)
  {
    var init, last := ops[..|ops| - 1], ops[|ops| - 1];
    var nums0, dens0 := Split(init).0, Split(init).1;
    var n0, d0 := EvalFold(Product, nums0, env, fn), EvalFold(Product, dens0, env, fn);
    if IsDivision(last) {
      var a, b := Eval(last.first, env, fn), Eval(last.second, env, fn);
      assert Split(ops) == (nums0 + [last.first], dens0 + [last.second]);
      EvalFoldAppend(Product, nums0, [last.first], env, fn);
      EvalFoldSingle(Product, last.first, env, fn);
      EvalFoldAppend(Product, dens0, [last.second], env, fn);
      EvalFoldSingle(Product, last.second, env, fn);
      assert FractionOf(a, b, v);
      FractionProduct(n0, d0, a, b, p, v);
      SplitsToIntro(ops, Lift(Product, n0, a), Lift(Product, d0, b), p * v, env, fn);
    } else {
      assert Split(ops) == (nums0 + [last], dens0);
      EvalFoldAppend(Product, nums0, [last], env, fn);
      EvalFoldSingle(Product, last, env, fn);
      FractionScale(n0, d0, v, p);
      SplitsToIntro(ops, Lift(Product, n0, Some(v)), d0, p * v, env, fn);
    }
  }

  /** (n/d)·(a/b) = (n·a)/(d·b) on possibly missing values. */
  lemma FractionProduct(n: Option<real>, d: Option<real>, a: Option<real>, b: Option<real>, p: real, v: real)
    requires FractionOf(n, d, p) && FractionOf(a, b, v)
    ensures FractionOf(Lift(Product, n, a), Lift(Product, d, b), p * v)
  {
    QuotientProduct(n.value, d.value, a.value, b.value, p, v);
  }

  /** (n/d)·a = (n·a)/d on possibly missing values. */
  lemma FractionScale(n: Option<real>, d: Option<real>, a: real, p: real)
    requires FractionOf(n, d, p)
    ensures FractionOf(Lift(Product, n, Some(a)), d, p * a)
  {
    QuotientScale(n.value, d.value, a, p);
  }

  lemma SplitsToIntro(ops: seq<Expr>, n: Option<real>, d: Option<real>, v: real, env: Env, fn: Interp)
    requires EvalFold(Product, Split(ops).0, env, fn) == n && EvalFold(Product, Split(ops).1, env, fn) == d
    requires FractionOf(n, d, v)
    ensures SplitsTo(ops, v, env, fn)
  {
  }

  /** A quotient node whose operands form the fraction n/d of v has value v. */
  lemma FractionEval(x: Expr, y: Expr, v: real, env: Env, fn: Interp)
    requires FractionOf(Eval(x, env, fn), Eval(y, env, fn), v)
    ensures Eval(BinaryOperation(Division, x, y), env, fn) == Some(v)
  {
  }

  lemma ProductSound(ops: seq<Expr>, env: Env, fn: Interp)
    requires |ops| >= 1 && EvalFold(Product, ops, env, fn).Some?
    ensures Eval(ProductRule(ops), env, fn) == EvalFold(Product, ops, env, fn)
  {
    var nums, dens := Split(ops).0, Split(ops).1;
    SplitShape(ops);
    if |dens| > 0 {
      SplitSound(ops, env, fn);
      ImplodeEval(Product, nums, env, fn);
      ImplodeEval(Product, dens, env, fn);
      FractionEval(Implode(Product, nums), Implode(Product, dens), EvalFold(Product, ops, env, fn).value, env, fn);
    } else {
      assert ProductRule(ops) == NAryOperation(Product, ops);
    }
  }

  /** Where the input has a value, the rewritten tree has the same value. */
  lemma {:induction false} RationalizeSound(e: Expr, env: Env, fn: Interp)
    requires EquationFree(e) && Valid(e) && Eval(e, env, fn).Some?
    ensures Eval(Rationalize(e), env, fn) == Eval(e, env, fn)
  {
    match e
    case Variable(_) =>
    case Constant(_) =>
    case BinaryOperation(op, a, b) =>
      RationalizeSound(a, env, fn);
      RationalizeSound(b, env, fn);
      if op == Division {
        DivisionSound(Rationalize(a), Rationalize(b), Eval(a, env, fn).value, Eval(b, env, fn).value, env, fn);
      }
    case NAryOperation(op, ops) =>
      var s := seq(|ops|, i requires 0 <= i < |ops| => Rationalize(ops[i]));
      forall i | 0 <= i < |ops| ensures Eval(s[i], env, fn) == Eval(ops[i], env, fn) {
        RationalizeSound(ops[i], env, fn);
      }
      assert EvalAll(s, env, fn) == EvalAll(ops, env, fn);
      if op == Product {
        ProductSound(s, env, fn);
      }
    case FunctionOperation(f, a) =>
      RationalizeSound(a, env, fn);
  }
}
