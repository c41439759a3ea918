/**
 * The constant folder: after the children are processed, a fraction of two
 * constants is reduced by their gcd, the constant factors of a product are
 * multiplied into one trailing factor, and the constant and fractional
 * addends of a sum are added over the lcm of their denominators into one
 * trailing rational addend. Power nodes have no rule (the operator
 * dispatch throws and the node is kept with processed children).
 */
module ConstantFolder {
  import opened Wrappers
  import opened Expressions
  import opened ExpressionFactory
  import opened MathUtils
  import opened Semantics

  // Division.

  /** `visitDivision`: a constant over a nonzero constant is divided through by their gcd. */
  function DivisionRule(o1: Expr, o2: Expr): Expr {
    if o1.Constant? && o2.Constant? && o2 != ZERO then
      var g := Gcd(o1.value, o2.value);
      BinaryOperation(Division, Constant(JavaDiv(o1.value, g)), Constant(JavaDiv(o2.value, g)))
    else BinaryOperation(Division, o1, o2)
  }

  /**
   * A constant fraction comes back as the same rational number in lowest
   * terms, with the sign of its denominator kept (6/-4 becomes 3/-2).
   */
  lemma DivisionRuleReduces(n: int, d: int)
    requires d != 0
    ensures var r := DivisionRule(Constant(n), Constant(d));
      && IsFractional(r)
      && r.first.value * d == n * r.second.value
      && Gcd(r.first.value, r.second.value) == 1
      && (r.second.value < 0 <==> d < 0)
  {
    var g := Gcd(n, d);
    JavaDivExact(n, g);
    JavaDivExact(d, g);
    var n', d' := JavaDiv(n, g), JavaDiv(d, g);
    CrossMultiply(n, d, n', d', g);
    SignKept(d, d', g);
    LowestTerms(n, d, n', d', g);
  }

  lemma CrossMultiply(n: int, d: int, n': int, d': int, g: int)
    requires n' * g == n && d' * g == d
    ensures n' * d == n * d'
  {
    calc {
      n' * d;
      n' * (d' * g);
      (n' * g) * d';
      n * d';
    }
  }

  lemma SignKept(d: int, d': int, g: int)
    requires g > 0 && d' * g == d
    ensures d' < 0 <==> d < 0
  {
    if d' < 0 { assert d' * g < 0; }
    if d' > 0 { assert d' * g > 0; }
  }

  /** Dividing through by the gcd leaves no common factor but 1. */
  lemma LowestTerms(n: int, d: int, n': int, d': int, g: int)
    requires d != 0 && g == Gcd(n, d) && n' * g == n && d' * g == d
    ensures Gcd(n', d') == 1
  {
    var k := Gcd(n', d');
    ScaleDivides(k, n', g);
    ScaleDivides(k, d', g);
    GcdGreatest(n, d, k * g);
    CancelPositive(k, g);
  }

  lemma CancelPositive(k: int, g: int)
    requires g > 0 && k * g <= g
    ensures k <= 1
  {
  }

  /** Anything else is kept as the division of the processed operands. */
  lemma DivisionRuleKeeps(o1: Expr, o2: Expr)
    requires !(o1.Constant? && o2.Constant?) || o2 == ZERO
    ensures DivisionRule(o1, o2) == BinaryOperation(Division, o1, o2)
  {
  }

  lemma ScaleDivides(k: int, x: int, g: int)
    requires Divides(k, x)
    ensures Divides(k * g, x * g)
  {
    if k != 0 {
      DividesWitness(k, x);
      var q := x / k;
      assert x * g == (k * g) * q;
      MultipleDivides(k * g, q);
    }
  }

  /** The reduced fraction has the value of the original one, or none when the original has none. */
  lemma DivisionRuleSound(o1: Expr, o2: Expr, env: Env, fn: Interp)
    ensures Eval(DivisionRule(o1, o2), env, fn) == Eval(BinaryOperation(Division, o1, o2), env, fn)
  {
    if o1.Constant? && o2.Constant? && o2 != ZERO {
      var n, d := o1.value, o2.value;
      DivisionRuleReduces(n, d);
      var r := DivisionRule(o1, o2);
      var n', d' := r.first.value, r.second.value;
      assert d' != 0;
      SameFraction(n, d, n', d');
    }
  }

  /** n/d and n'/d' are the same real number when n' * d = n * d'. */
  lemma SameFraction(n: int, d: int, n': int, d': int)
    requires d != 0 && d' != 0 && n' * d == n * d'
    ensures Quotient(n' as real, d' as real) == Quotient(n as real, d as real)
  {
    var q := Quotient(n as real, d as real);
    assert q * (d as real) == n as real;
    MulAsReal(n', d);
    MulAsReal(n, d');
    assert (q * (d' as real)) * (d as real) == (n' as real) * (d as real) by {
      calc {
        (q * (d' as real)) * (d as real);
        (q * (d as real)) * (d' as real);
        (n as real) * (d' as real);
        (n' as real) * (d as real);
      }
    }
    QuotientUnique(n' as real, d' as real, q);
  }

  // Product.

  /**
   * The loop of `visitProduct`: the product of the constant factors and the
   * other factors, in order.
   */
  function SplitConstants(ops: seq<Expr>): (r: (int, seq<Expr>))
    ensures |r.1| <= |ops|
  {
    if |ops| == 0 then (1, [])
    else
      var (c, fs) := SplitConstants(ops[..|ops| - 1]);
      var last := ops[|ops| - 1];
      if last.Constant? then (c * last.value, fs) else (c, fs + [last])
  }

  /** The factors kept: the non-constant operands, then the constant product unless it is a redundant 1. */
  function ProductFactors(ops: seq<Expr>): seq<Expr> {
    var (c, fs) := SplitConstants(ops);
    if c != 1 || |fs| == 0 then fs + [Constant(c)] else fs
  }

  /** `visitProduct`. */
  function ProductRule(ops: seq<Expr>): Expr {
    Implode(Product, ProductFactors(ops))
  }

  /** The factors kept are exactly the operands that are not constants. */
  lemma {:induction false} SplitConstantsShape(ops: seq<Expr>)
    ensures forall x :: x in SplitConstants(ops).1 ==> x in ops && !x.Constant?
    ensures forall x :: x in ops && !x.Constant? ==> x in SplitConstants(ops).1
  {
    if |ops| > 0 {
      var init, last := ops[..|ops| - 1], ops[|ops| - 1];
      SplitConstantsShape(init);
      assert ops == init + [last];
    }
  }

  /** The operands' product is the product of the kept factors times the constant product. */
  lemma {:induction false} SplitConstantsEval(ops: seq<Expr>, env: Env, fn: Interp)
    ensures EvalFold(Product, ops, env, fn)
         == Lift(Product, EvalFold(Product, SplitConstants(ops).1, env, fn), Some(SplitConstants(ops).0 as real))
  {
    if |ops| == 0 {
    } else {
      var init, last := ops[..|ops| - 1], ops[|ops| - 1];
      var (c, fs) := SplitConstants(init);
      SplitConstantsEval(init, env, fn);
      EvalFoldLast(Product, ops, env, fn);
      var f := EvalFold(Product, fs, env, fn);
      if last.Constant? {
        assert Eval(last, env, fn) == Some(last.value as real);
        ConstantStep(f, c, last.value);
      } else {
        assert (fs + [last])[..|fs + [last]| - 1] == fs;
        EvalFoldLast(Product, fs + [last], env, fn);
        LiftSwap(Product, f, Some(c as real), Eval(last, env, fn));
      }
    }
  }

  /** Multiplying by constant c and then by constant v is multiplying by c * v. */
  lemma ConstantStep(f: Option<real>, c: int, v: int)
    ensures Lift(Product, Lift(Product, f, Some(c as real)), Some(v as real)) == Lift(Product, f, Some((c * v) as real))
  {
    MulAsReal(c, v);
    LiftAssociates(f, c as real, v as real);
    if f.Some? {
      var u, w := Lift(Product, f, Some((c * v) as real)), Lift(Product, f, Some((c as real) * (v as real)));
      assert u.value == w.value;
    }
  }

  lemma LiftAssociates(f: Option<real>, a: real, b: real)
    ensures Lift(Product, Lift(Product, f, Some(a)), Some(b)) == Lift(Product, f, Some(a * b))
  {
    if f.Some? {
      MulAssociates(f.value, a, b);
      var u, v := Lift(Product, Lift(Product, f, Some(a)), Some(b)), Lift(Product, f, Some(a * b));
      assert u.value == (f.value * a) * b;
      assert v.value == f.value * (a * b);
    }
  }

  lemma MulAssociates(x: real, a: real, b: real)
    ensures (x * a) * b == x * (a * b)
  {
  }

  /** The folded product has the value of the original one, or none when it has none. */
  lemma ProductSound(ops: seq<Expr>, env: Env, fn: Interp)
    ensures Eval(ProductRule(ops), env, fn) == EvalFold(Product, ops, env, fn)
  {
    var (c, fs) := SplitConstants(ops);
    SplitConstantsEval(ops, env, fn);
    var factors := ProductFactors(ops);
    if c != 1 || |fs| == 0 {
      assert factors[..|factors| - 1] == fs;
      ImplodeEval(Product, factors, env, fn);
      EvalFoldLast(Product, factors, env, fn);
    } else {
      ImplodeEval(Product, factors, env, fn);
      LiftByOne(EvalFold(Product, fs, env, fn));
    }
  }

  lemma LiftByOne(f: Option<real>)
    ensures Lift(Product, f, Some(1.0)) == f
  {
    if f.Some? {
      var u := Lift(Product, f, Some(1.0));
      assert u.value == f.value * 1.0;
    }
  }

  /**
   * Among the operands a folded product node keeps, at most the last is a
   * constant, and that constant is not 1.
   */
  predicate ConstantsFolded(ops: seq<Expr>) {
    && (forall i :: 0 <= i < |ops| - 1 ==> !ops[i].Constant?)
    && (|ops| > 0 ==> ops[|ops| - 1] != ONE)
  }

  lemma ProductFactorsFolded(ops: seq<Expr>)
    ensures |ProductFactors(ops)| >= 2 ==> ConstantsFolded(ProductFactors(ops))
    ensures |ProductFactors(ops)| >= 1
    ensures forall x :: x in ProductFactors(ops) ==> x.Constant? || x in ops
  {
    SplitConstantsShape(ops);
  }

  // Addition.

  /** Every element is a constant or a constant fraction. */
  predicate AllRational(rs: seq<Expr>) {
    forall x :: x in rs ==> IsRationalNumber(x)
  }

  /**
   * The loop of `visitAddition`: the rational addends (constants and
   * constant fractions) and the other addends, each in order.
   */
  function SplitRationals(ops: seq<Expr>): (r: (seq<Expr>, seq<Expr>))
    ensures AllRational(r.0)
  {
    if |ops| == 0 then ([], [])
    else
      var (rs, others) := SplitRationals(ops[..|ops| - 1]);
      var last := ops[|ops| - 1];
      if IsRationalNumber(last) then (rs + [last], others) else (rs, others + [last])
  }

  predicate NonzeroDenominators(rs: seq<Expr>)
    requires AllRational(rs)
  {
    forall x :: x in rs ==> Denominator(x) != 0
  }

  /** The lcm of the denominators, folded from 1 as `reduce(1, lcm)` does. */
  function LcmOf(rs: seq<Expr>): (l: int)
    requires AllRational(rs) && NonzeroDenominators(rs)
    ensures l > 0 && forall x :: x in rs ==> Divides(Denominator(x), l)
  {
    if |rs| == 0 then 1
    else
      var init, last := rs[..|rs| - 1], rs[|rs| - 1];
      assert forall x :: x in init ==> x in rs;
      var l0 := LcmOf(init);
      var l := Lcm(l0, Denominator(last));
      assert forall x :: x in rs ==> x in init || x == last;
      forall x | x in init ensures Divides(Denominator(x), l) {
        DividesTransitive(Denominator(x), l0, l);
      }
      l
  }

  lemma DividesTransitive(a: int, b: int, c: int)
    requires Divides(a, b) && Divides(b, c)
    ensures Divides(a, c)
  {
    if b == 0 {
      assert c == 0;
      if a != 0 { MultipleDivides(a, 0); }
    } else if a != 0 {
      DividesWitness(a, b);
      DividesWitness(b, c);
      var k, m := b / a, c / b;
      assert c == a * (k * m) by {
        calc {
          c;
          b * m;
          (a * k) * m;
          a * (k * m);
        }
      }
      MultipleDivides(a, k * m);
    }
  }

  /** The sum of the addends scaled to the common denominator l: x * l / y for each x/y. */
  function ScaledSum(rs: seq<Expr>, l: int): int
    requires AllRational(rs) && NonzeroDenominators(rs)
  {
    if |rs| == 0 then 0
    else
      var init, last := rs[..|rs| - 1], rs[|rs| - 1];
      assert forall x :: x in init ==> x in rs;
      ScaledSum(init, l) + JavaDiv(Numerator(last) * l, Denominator(last))
  }

  /**
   * `visitAddition`: unchanged when some denominator is 0; otherwise the
   * other addends, then the rational sum over the lcm unless it is 0.
   */
  function AdditionRule(ops: seq<Expr>): Expr {
    var (rs, others) := SplitRationals(ops);
    if !NonzeroDenominators(rs) then NAryOperation(Addition, ops)
    else
      var l := LcmOf(rs);
      var s := ScaledSum(rs, l);
      Implode(Addition, if s != 0 then others + [MakeRational(s, l)] else others)
  }

  /** The rational addends are the constants and constant fractions among the operands; the others are the rest. */
  lemma {:induction false} SplitRationalsShape(ops: seq<Expr>)
    ensures forall x :: x in SplitRationals(ops).0 ==> x in ops
    ensures forall x :: x in SplitRationals(ops).1 ==> x in ops && !IsRationalNumber(x)
    ensures forall x :: x in ops ==> x in SplitRationals(ops).0 || x in SplitRationals(ops).1
  {
    if |ops| > 0 {
      var init, last := ops[..|ops| - 1], ops[|ops| - 1];
      SplitRationalsShape(init);
      assert ops == init + [last];
    }
  }

  /** The operands' sum is the sum of the other addends plus the sum of the rational ones. */
  lemma {:induction false} SplitRationalsEval(ops: seq<Expr>, env: Env, fn: Interp)
    ensures EvalFold(Addition, ops, env, fn)
         == Lift(Addition, EvalFold(Addition, SplitRationals(ops).1, env, fn), EvalFold(Addition, SplitRationals(ops).0, env, fn))
  {
    if |ops| > 0 {
      var init, last := ops[..|ops| - 1], ops[|ops| - 1];
      var (rs, others) := SplitRationals(init);
      SplitRationalsEval(init, env, fn);
      EvalFoldLast(Addition, ops, env, fn);
      var o, r, v := EvalFold(Addition, others, env, fn), EvalFold(Addition, rs, env, fn), Eval(last, env, fn);
      if IsRationalNumber(last) {
        assert (rs + [last])[..|rs + [last]| - 1] == rs;
        EvalFoldLast(Addition, rs + [last], env, fn);
        LiftAddAssociates(o, r, v);
      } else {
        assert (others + [last])[..|others + [last]| - 1] == others;
        EvalFoldLast(Addition, others + [last], env, fn);
        LiftSwap(Addition, o, r, v);
      }
    }
  }

  lemma LiftAddAssociates(o: Option<real>, r: Option<real>, v: Option<real>)
    ensures Lift(Addition, Lift(Addition, o, r), v) == Lift(Addition, o, Lift(Addition, r, v))
  {
  }

  /** A rational addend with a nonzero denominator is worth its numerator over its denominator. */
  lemma RationalValue(x: Expr, env: Env, fn: Interp)
    requires IsRationalNumber(x) && Denominator(x) != 0
    ensures Eval(x, env, fn) == Some(Quotient(Numerator(x) as real, Denominator(x) as real))
  {
    if x.Constant? {
      QuotientUnique(x.value as real, 1.0, x.value as real);
    }
  }

  /** The scaled sum over l is the sum of the rational addends. */
  lemma {:induction false} ScaledSumValue(rs: seq<Expr>, l: int, env: Env, fn: Interp)
    requires AllRational(rs) && NonzeroDenominators(rs) && l > 0
    requires forall x :: x in rs ==> Divides(Denominator(x), l)
    ensures EvalFold(Addition, rs, env, fn) == Some(Quotient(ScaledSum(rs, l) as real, l as real))
  {
    if |rs| == 0 {
      QuotientUnique(0.0, l as real, 0.0);
    } else {
      var init, last := rs[..|rs| - 1], rs[|rs| - 1];
      assert forall x :: x in init ==> x in rs;
      ScaledSumValue(init, l, env, fn);
      EvalFoldLast(Addition, rs, env, fn);
      RationalValue(last, env, fn);
      var n, d := Numerator(last), Denominator(last);
      ScaledTerm(n, d, l);
      ScaledStep(EvalFold(Addition, init, env, fn), ScaledSum(init, l), JavaDiv(n * l, d), l, Quotient(n as real, d as real));
    }
  }

  /** Adding t/l to the running sum s/l gives (s + t)/l. */
  lemma ScaledStep(prev: Option<real>, s: int, t: int, l: int, q: real)
    requires l > 0 && prev == Some(Quotient(s as real, l as real)) && Quotient(t as real, l as real) == q
    ensures Lift(Addition, prev, Some(q)) == Some(Quotient((s + t) as real, l as real))
  {
    QuotientAdds(s as real, t as real, l as real);
    var u := Lift(Addition, prev, Some(q));
    assert u.value == Quotient(s as real, l as real) + q;
  }

  /** x * l / y, over l, is x/y when y divides l. */
  lemma ScaledTerm(n: int, d: int, l: int)
    requires d != 0 && l > 0 && Divides(d, l)
    ensures Quotient(JavaDiv(n * l, d) as real, l as real) == Quotient(n as real, d as real)
  {
    DividesLinear(d, l, 0, n);
    assert l * n + 0 == n * l;
    JavaDivExact(n * l, d);
    var t := JavaDiv(n * l, d);
    assert t * d == n * l;
    SameFraction(n, d, t, l);
  }

  lemma QuotientAdds(a: real, b: real, l: real)
    requires l != 0.0
    ensures Quotient(a + b, l) == Quotient(a, l) + Quotient(b, l)
  {
    var p, q := Quotient(a, l), Quotient(b, l);
    assert p * l == a && q * l == b;
    assert (p + q) * l == a + b;
    QuotientUnique(a + b, l, p + q);
  }

  /** The folded sum has the value of the original one, or none when it has none. */
  lemma AdditionSound(ops: seq<Expr>, env: Env, fn: Interp)
    ensures Eval(AdditionRule(ops), env, fn) == EvalFold(Addition, ops, env, fn)
  {
    var (rs, others) := SplitRationals(ops);
    if NonzeroDenominators(rs) {
      var l := LcmOf(rs);
      var s := ScaledSum(rs, l);
      SplitRationalsEval(ops, env, fn);
      ScaledSumValue(rs, l, env, fn);
      SumTermsSound(others, s, l, env, fn);
    }
  }

  /** The imploded addends are worth the other addends plus s/l. */
  lemma SumTermsSound(others: seq<Expr>, s: int, l: int, env: Env, fn: Interp)
    requires l > 0
    ensures Eval(Implode(Addition, if s != 0 then others + [MakeRational(s, l)] else others), env, fn)
         == Lift(Addition, EvalFold(Addition, others, env, fn), Some(Quotient(s as real, l as real)))
  {
    if s != 0 {
      var terms := others + [MakeRational(s, l)];
      assert terms[..|terms| - 1] == others;
      ImplodeEval(Addition, terms, env, fn);
      EvalFoldLast(Addition, terms, env, fn);
      RationalValue(MakeRational(s, l), env, fn);
    } else {
      QuotientUnique(0.0, l as real, 0.0);
      LiftPlusZero(EvalFold(Addition, others, env, fn));
      if |others| == 0 {
        assert EvalFold(Addition, others, env, fn) == Some(0.0);
      } else {
        ImplodeEval(Addition, others, env, fn);
      }
    }
  }

  lemma LiftPlusZero(f: Option<real>)
    ensures Lift(Addition, f, Some(0.0)) == f
  {
    if f.Some? {
      var u := Lift(Addition, f, Some(0.0));
      assert u.value == f.value + 0.0;
    }
  }

  /**
   * A folded addition node either holds a fraction over 0 (and was left
   * alone) or has at most one rational addend, the last one, which is not 0.
   */
  predicate RationalsFolded(ops: seq<Expr>) {
    || (exists i :: 0 <= i < |ops| && IsFractional(ops[i]) && ops[i].second.value == 0)
    || (&& (forall i :: 0 <= i < |ops| - 1 ==> !IsRationalNumber(ops[i]))
        && (|ops| > 0 && IsRationalNumber(ops[|ops| - 1]) ==> Numerator(ops[|ops| - 1]) != 0))
  }

  /**
   * The folded sum is one of the operands, a rational number, or an
   * addition node whose addends are operands or rational numbers and which
   * is folded.
   */
  predicate FoldedAddition(r: Expr, ops: seq<Expr>) {
    || r in ops
    || IsRationalNumber(r)
    || (&& r.NAryOperation? && r.nop == Addition && RationalsFolded(r.operands)
        && forall x :: x in r.operands ==> x in ops || IsRationalNumber(x))
  }

  lemma AdditionRuleFolded(ops: seq<Expr>)
    ensures FoldedAddition(AdditionRule(ops), ops)
  {
    var (rs, others) := SplitRationals(ops);
    SplitRationalsShape(ops);
    if !NonzeroDenominators(rs) {
      var x :| x in rs && Denominator(x) == 0;
      var i :| 0 <= i < |ops| && ops[i] == x;
      assert IsFractional(ops[i]) && ops[i].second.value == 0;
    } else {
      var l := LcmOf(rs);
      TermsFolded(ops, others, ScaledSum(rs, l), l);
    }
  }

  /** The addends `visitAddition` implodes: the other addends, then a nonzero rational sum. */
  lemma TermsFolded(ops: seq<Expr>, others: seq<Expr>, s: int, l: int)
    requires forall x :: x in others ==> x in ops && !IsRationalNumber(x)
    ensures FoldedAddition(Implode(Addition, if s != 0 then others + [MakeRational(s, l)] else others), ops)
  {
    var terms := if s != 0 then others + [MakeRational(s, l)] else others;
    assert forall i :: 0 <= i < |others| ==> others[i] in others;
    if s != 0 {
      assert forall i :: 0 <= i < |terms| - 1 ==> terms[i] == others[i];
    }
    if |terms| == 1 {
      assert terms[0] in terms;
    }
  }

  // The pass.

  function Fold(e: Expr): Expr
    requires EquationFree(e)
  {
    match e
    case Variable(_) => e
    case Constant(_) => e
    case BinaryOperation(op, a, b) =>
      var o1, o2 := Fold(a), Fold(b);
      if op == Division then DivisionRule(o1, o2) else BinaryOperation(Power, o1, o2)
    case NAryOperation(op, ops) =>
      var s := seq(|ops|, i requires 0 <= i < |ops| => Fold(ops[i]));
      if op == Product then ProductRule(s) else AdditionRule(s)
    case FunctionOperation(f, a) => FunctionOperation(f, Fold(a))
    case Equation(_, _) => e
  }

  /** Every product node and every addition node of the tree is folded. */
  predicate Folded(e: Expr) {
    match e
    case Variable(_) => true
    case Constant(_) => true
    case BinaryOperation(_, a, b) => Folded(a) && Folded(b)
    case NAryOperation(op, ops) =>
      && (forall i :: 0 <= i < |ops| ==> Folded(ops[i]))
      && (if op == Product then ConstantsFolded(ops) else RationalsFolded(ops))
    case FunctionOperation(_, a) => Folded(a)
    case Equation(a, b) => Folded(a) && Folded(b)
  }

  /** Folding keeps the value of every tree, and the absence of one. */
  lemma {:induction false} FoldSound(e: Expr, env: Env, fn: Interp)
    requires EquationFree(e)
    ensures Eval(Fold(e), env, fn) == Eval(e, env, fn)
  {
    match e
    case Variable(_) =>
    case Constant(_) =>
    case BinaryOperation(op, a, b) =>
      FoldSound(a, env, fn);
      FoldSound(b, env, fn);
      if op == Division {
        DivisionRuleSound(Fold(a), Fold(b), env, fn);
      }
    case NAryOperation(op, ops) =>
      var s := seq(|ops|, i requires 0 <= i < |ops| => Fold(ops[i]));
      forall i | 0 <= i < |ops| ensures Eval(s[i], env, fn) == Eval(ops[i], env, fn) {
        FoldSound(ops[i], env, fn);
      }
      assert EvalAll(s, env, fn) == EvalAll(ops, env, fn);
      if op == Product {
        ProductSound(s, env, fn);
      } else {
        AdditionSound(s, env, fn);
      }
    case FunctionOperation(f, a) =>
      FoldSound(a, env, fn);
  }

  /** Folding introduces no equation. */
  lemma {:induction false} FoldEquationFree(e: Expr)
    requires EquationFree(e)
    ensures EquationFree(Fold(e))
  {
    match e
    case Variable(_) =>
    case Constant(_) =>
    case BinaryOperation(op, a, b) =>
      FoldEquationFree(a);
      FoldEquationFree(b);
    case NAryOperation(op, ops) =>
      var s := seq(|ops|, i requires 0 <= i < |ops| => Fold(ops[i]));
      forall i | 0 <= i < |ops| ensures EquationFree(s[i]) {
        FoldEquationFree(ops[i]);
      }
      if op == Product {
        ProductRuleEquationFree(s);
      } else {
        AdditionRuleEquationFree(s);
      }
    case FunctionOperation(f, a) =>
      FoldEquationFree(a);
  }

  /** Folding keeps the two-operand invariant. */
  lemma {:induction false} FoldValid(e: Expr)
    requires EquationFree(e) && Valid(e)
    ensures Valid(Fold(e))
  {
    match e
    case Variable(_) =>
    case Constant(_) =>
    case BinaryOperation(op, a, b) =>
      FoldValid(a);
      FoldValid(b);
    case NAryOperation(op, ops) =>
      var s := seq(|ops|, i requires 0 <= i < |ops| => Fold(ops[i]));
      forall i | 0 <= i < |ops| ensures Valid(s[i]) {
        FoldValid(ops[i]);
      }
      assert AllValid(s);
      if op == Product {
        ProductRuleValid(s);
      } else {
        AdditionRuleValid(s);
      }
    case FunctionOperation(f, a) =>
      FoldValid(a);
  }

  lemma ProductRuleEquationFree(s: seq<Expr>)
    requires forall i :: 0 <= i < |s| ==> EquationFree(s[i])
    ensures EquationFree(ProductRule(s))
  {
    ProductFactorsFolded(s);
    var factors := ProductFactors(s);
    forall i | 0 <= i < |factors| ensures EquationFree(factors[i]) {
      assert factors[i] in factors;
    }
  }

  lemma ProductRuleValid(s: seq<Expr>)
    requires AllValid(s)
    ensures Valid(ProductRule(s))
  {
    ProductFactorsFolded(s);
    var factors := ProductFactors(s);
    forall i | 0 <= i < |factors| ensures Valid(factors[i]) {
      assert factors[i] in factors;
    }
  }

  lemma AdditionRuleEquationFree(s: seq<Expr>)
    requires forall i :: 0 <= i < |s| ==> EquationFree(s[i])
    ensures EquationFree(AdditionRule(s))
  {
    var (rs, others) := SplitRationals(s);
    SplitRationalsShape(s);
    if NonzeroDenominators(rs) {
      var l := LcmOf(rs);
      var sum := ScaledSum(rs, l);
      var terms := if sum != 0 then others + [MakeRational(sum, l)] else others;
      forall i | 0 <= i < |terms| ensures EquationFree(terms[i]) {
        assert terms[i] in terms;
      }
    }
  }

  lemma AdditionRuleValid(s: seq<Expr>)
    requires |s| >= 2 && AllValid(s)
    ensures Valid(AdditionRule(s))
  {
    var (rs, others) := SplitRationals(s);
    SplitRationalsShape(s);
    if NonzeroDenominators(rs) {
      var l := LcmOf(rs);
      var sum := ScaledSum(rs, l);
      var terms := if sum != 0 then others + [MakeRational(sum, l)] else others;
      forall i | 0 <= i < |terms| ensures Valid(terms[i]) {
        assert terms[i] in terms;
      }
    }
  }

  /** After folding, every product and addition node is folded. */
  lemma {:induction false} FoldFolded(e: Expr)
    requires EquationFree(e)
    ensures Folded(Fold(e))
  {
    match e
    case Variable(_) =>
    case Constant(_) =>
    case BinaryOperation(op, a, b) =>
      FoldFolded(a);
      FoldFolded(b);
    case NAryOperation(op, ops) =>
      var s := seq(|ops|, i requires 0 <= i < |ops| => Fold(ops[i]));
      forall i | 0 <= i < |ops| ensures Folded(s[i]) {
        FoldFolded(ops[i]);
      }
      if op == Product {
        ProductRuleFolded(s);
      } else {
        AdditionRuleFoldedTree(s);
      }
    case FunctionOperation(f, a) =>
      FoldFolded(a);
  }

  lemma ProductRuleFolded(s: seq<Expr>)
    requires forall i :: 0 <= i < |s| ==> Folded(s[i])
    ensures Folded(ProductRule(s))
  {
    ProductFactorsFolded(s);
    var factors := ProductFactors(s);
    forall i | 0 <= i < |factors| ensures Folded(factors[i]) {
      assert factors[i] in factors;
    }
  }

  lemma AdditionRuleFoldedTree(s: seq<Expr>)
    requires forall i :: 0 <= i < |s| ==> Folded(s[i])
    ensures Folded(AdditionRule(s))
  {
    AdditionRuleFolded(s);
    var r := AdditionRule(s);
    if r !in s && !IsRationalNumber(r) {
      forall i | 0 <= i < |r.operands| ensures Folded(r.operands[i]) {
        assert r.operands[i] in r.operands;
      }
    }
  }

  /** The examples of the source's documentation: 10/100 becomes 1/10 and 6/-4 becomes 3/-2. */
  lemma DivisionExamples()
    ensures DivisionRule(Constant(10), Constant(100)) == BinaryOperation(Division, Constant(1), Constant(10))
    ensures DivisionRule(Constant(6), Constant(-4)) == BinaryOperation(Division, Constant(3), Constant(-2))
  {
    assert ComputeGcd(10, 100) == ComputeGcd(100, 10) == ComputeGcd(10, 0) == 10;
    assert ComputeGcd(6, 4) == ComputeGcd(4, 2) == ComputeGcd(2, 0) == 2;
  }

  /** 3*5*sin(x)*2 becomes sin(x)*30. */
  lemma ProductExample()
    ensures ProductRule([Constant(3), Constant(5), FunctionOperation(Sin, Variable("x")), Constant(2)])
         == NAryOperation(Product, [FunctionOperation(Sin, Variable("x")), Constant(30)])
  {
    var sx := FunctionOperation(Sin, Variable("x"));
    SplitConstantsSnoc([], Constant(3));
    assert [] + [Constant(3)] == [Constant(3)];
    SplitConstantsSnoc([Constant(3)], Constant(5));
    assert [Constant(3)] + [Constant(5)] == [Constant(3), Constant(5)];
    SplitConstantsSnoc([Constant(3), Constant(5)], sx);
    assert [Constant(3), Constant(5)] + [sx] == [Constant(3), Constant(5), sx];
    SplitConstantsSnoc([Constant(3), Constant(5), sx], Constant(2));
    assert [Constant(3), Constant(5), sx] + [Constant(2)] == [Constant(3), Constant(5), sx, Constant(2)];
    assert [] + [sx] == [sx];
  }

  lemma SplitConstantsSnoc(ops: seq<Expr>, x: Expr)
    ensures var (c, fs) := SplitConstants(ops);
      SplitConstants(ops + [x]) == if x.Constant? then (c * x.value, fs) else (c, fs + [x])
  {
    assert (ops + [x])[..|ops|] == ops;
  }

  lemma SplitRationalsSnoc(ops: seq<Expr>, x: Expr)
    ensures var (rs, others) := SplitRationals(ops);
      SplitRationals(ops + [x]) == if IsRationalNumber(x) then (rs + [x], others) else (rs, others + [x])
  {
    assert (ops + [x])[..|ops|] == ops;
  }

  lemma LcmScaledSnoc(rs: seq<Expr>, x: Expr, l: int)
    requires AllRational(rs + [x]) && NonzeroDenominators(rs + [x])
    ensures AllRational(rs) && NonzeroDenominators(rs)
    ensures LcmOf(rs + [x]) == Lcm(LcmOf(rs), Denominator(x))
    ensures ScaledSum(rs + [x], l) == ScaledSum(rs, l) + JavaDiv(Numerator(x) * l, Denominator(x))
  {
    assert (rs + [x])[..|rs|] == rs;
    assert forall y :: y in rs ==> y in rs + [x];
  }

  lemma ExampleArithmetic()
    ensures Lcm(1, 4) == 4 && Lcm(4, 5) == 20 && Lcm(20, 1) == 20
    ensures JavaDiv(3 * 20, 4) == 15 && JavaDiv(2 * 20, 5) == 8 && JavaDiv(1 * 20, 1) == 20
  {
    assert ComputeGcd(1, 4) == ComputeGcd(4, 1) == ComputeGcd(1, 0) == 1;
    assert ComputeGcd(4, 5) == ComputeGcd(5, 4) == ComputeGcd(4, 1) == 1;
    assert ComputeGcd(20, 1) == ComputeGcd(1, 0) == 1;
  }

  /** 3/4 + 2/5 + 1 becomes 43/20. */
  lemma AdditionExample()
    ensures AdditionRule([BinaryOperation(Division, Constant(3), Constant(4)), BinaryOperation(Division, Constant(2), Constant(5)), ONE])
         == BinaryOperation(Division, Constant(43), Constant(20))
  {
    var a, b := BinaryOperation(Division, Constant(3), Constant(4)), BinaryOperation(Division, Constant(2), Constant(5));
    var ops := [a, b, ONE];
    SplitRationalsSnoc([], a);
    assert [] + [a] == [a];
    SplitRationalsSnoc([a], b);
    assert [a] + [b] == [a, b];
    SplitRationalsSnoc([a, b], ONE);
    assert [a, b] + [ONE] == ops;
    ExampleArithmetic();
    LcmScaledSnoc([], a, 20);
    LcmScaledSnoc([a], b, 20);
    LcmScaledSnoc([a, b], ONE, 20);
    assert LcmOf(ops) == 20;
    assert ScaledSum(ops, 20) == 43;
  }
}
