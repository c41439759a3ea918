/**
 * The Taylor expansion of a function around a point. The expansion is
 * written against the framework interface it is handed: the function is
 * simplified once when the series is built, differentiated i times for the
 * i-th term, every derivative is evaluated at the point by substitution, and
 * the terms f_i(point) * (x - point)^i / i! are summed and simplified.
 *
 * `ExpressionFactory.subtract`, which builds x - point, is not part of this
 * model: its result is passed in as `difference`.
 */
module TaylorSeries {
  import opened Wrappers
  import opened Expressions
  import opened ExpressionFactory
  import opened Semantics
  import opened CasFrameworkImpl
  import Substitutor
  import Decimal

  const EQUATION_MESSAGE: string := "Cannot expand an equation"

  /** The three operations of the framework interface that the expansion calls. */
  datatype Framework = Framework(
    simplify: Expr -> Result<Expr, Fault>,
    differentiate: (Expr, string) -> Result<Expr, Fault>,
    substitute: (Expr, map<string, Expr>) -> Result<Expr, Fault>)

  // The expansion over any framework.

  /** The constructor: an equation is refused, anything else is simplified once. */
  function New(fw: Framework, f: Expr): (r: Result<Expr, Fault>)
    ensures f.Equation? ==> r == Failure(IllegalArgument(EQUATION_MESSAGE))
    ensures !f.Equation? ==> r == fw.simplify(f)
  {
    if f.Equation? then Failure(IllegalArgument(EQUATION_MESSAGE))
    else fw.simplify(f)
  }

  /** n!, the value the loop's running product holds after step n. */
  function Factorial(n: nat): (r: nat)
    ensures r >= 1 && r >= n
  {
    if n == 0 then 1 else n * Factorial(n - 1)
  }

  /** The i-fold `differentiate` of f with respect to x. */
  function NthDerivative(fw: Framework, f: Expr, x: string, i: nat): Result<Expr, Fault> {
    if i == 0 then Success(f)
    else
      match NthDerivative(fw, f, x, i - 1)
      case Failure(err) => Failure(err)
      case Success(g) => fw.differentiate(g, x)
  }

  /** Once a derivative fails, every higher one fails with the same fault. */
  lemma {:induction false} FailurePersists(fw: Framework, f: Expr, x: string, i: nat, j: nat)
    requires i <= j && NthDerivative(fw, f, x, i).Failure?
    ensures NthDerivative(fw, f, x, j) == NthDerivative(fw, f, x, i)
    decreases j
  {
    if j > i {
      FailurePersists(fw, f, x, i, j - 1);
    }
  }

  /** Term i >= 1 around the derivative's value v at the point: v * difference^i / i!. */
  function Term(v: Expr, difference: Expr, i: nat): Expr {
    BinaryOperation(Division,
      NAryOperation(Product, [v, BinaryOperation(Power, difference, Constant(i))]),
      Constant(Factorial(i)))
  }

  /**
   * Term i on its own: the i-th derivative, substituted at the point; term
   * 0 is the substituted function alone.
   */
  function TermOf(fw: Framework, f: Expr, x: string, point: Expr, difference: Expr, i: nat): Result<Expr, Fault> {
    match NthDerivative(fw, f, x, i)
    case Failure(err) => Failure(err)
    case Success(g) =>
      match fw.substitute(g, map[x := point])
      case Failure(err) => Failure(err)
      case Success(v) => Success(if i == 0 then v else Term(v, difference, i))
  }

  /**
   * The loop of `expand` up to order n: the terms in order, the first
   * failing call ending the whole expansion.
   */
  function Terms(fw: Framework, f: Expr, x: string, point: Expr, difference: Expr, n: nat): (r: Result<seq<Expr>, Fault>)
    ensures r.Success? ==> |r.value| == n + 1
  {
    var prefix := if n == 0 then Success([]) else Terms(fw, f, x, point, difference, n - 1);
    match prefix
    case Failure(err) => Failure(err)
    case Success(ts) =>
      match TermOf(fw, f, x, point, difference, n)
      case Failure(err) => Failure(err)
      case Success(t) => Success(ts + [t])
  }

  /** Every term of a successful loop is the term on its own. */
  lemma {:induction false} TermsShape(fw: Framework, f: Expr, x: string, point: Expr, difference: Expr, n: nat)
    requires Terms(fw, f, x, point, difference, n).Success?
    ensures var ts := Terms(fw, f, x, point, difference, n).value;
      forall i :: 0 <= i <= n ==>
        TermOf(fw, f, x, point, difference, i).Success? && ts[i] == TermOf(fw, f, x, point, difference, i).value
  {
    var ts := Terms(fw, f, x, point, difference, n).value;
    var t := TermOf(fw, f, x, point, difference, n);
    if n > 0 {
      var prefix := Terms(fw, f, x, point, difference, n - 1).value;
      TermsShape(fw, f, x, point, difference, n - 1);
      assert ts == prefix + [t.value];
      forall i | 0 <= i <= n
        ensures TermOf(fw, f, x, point, difference, i).Success? && ts[i] == TermOf(fw, f, x, point, difference, i).value
      {
        if i < n {
          assert ts[i] == prefix[i];
        }
      }
    }
  }

  /** The loop succeeds when every term on its own does. */
  lemma {:induction false} TermsSucceed(fw: Framework, f: Expr, x: string, point: Expr, difference: Expr, n: nat)
    requires forall i :: 0 <= i <= n ==> TermOf(fw, f, x, point, difference, i).Success?
    ensures Terms(fw, f, x, point, difference, n).Success?
  {
    assert TermOf(fw, f, x, point, difference, n).Success?;
    if n > 0 {
      TermsSucceed(fw, f, x, point, difference, n - 1);
    }
  }

  /**
   * A failing loop fails with the fault of its first failing term: every
   * term before that one succeeds.
   */
  lemma {:induction false} TermsFailure(fw: Framework, f: Expr, x: string, point: Expr, difference: Expr, n: nat)
    requires Terms(fw, f, x, point, difference, n).Failure?
    ensures exists i ::
      && 0 <= i <= n
      && TermOf(fw, f, x, point, difference, i) == Failure(Terms(fw, f, x, point, difference, n).error)
      && (forall j :: 0 <= j < i ==> TermOf(fw, f, x, point, difference, j).Success?)
  {
    var r := Terms(fw, f, x, point, difference, n);
    if n > 0 && Terms(fw, f, x, point, difference, n - 1).Failure? {
      TermsFailure(fw, f, x, point, difference, n - 1);
    } else {
      if n > 0 {
        TermsShape(fw, f, x, point, difference, n - 1);
      }
      assert TermOf(fw, f, x, point, difference, n) == Failure(r.error);
    }
  }

  /** A Java `int`: the type of `expand`'s order. */
  type JavaInt = n: int | Decimal.IntMin <= n <= Decimal.IntMax

  /**
   * `order + 1` in Java's 32-bit `int` arithmetic: the initial capacity
   * `expand` asks of its term list. Integer.MAX_VALUE + 1 wraps to
   * Integer.MIN_VALUE.
   */
  function Capacity(order: JavaInt): int {
    if order == Decimal.IntMax then Decimal.IntMin else order + 1
  }

  /** The capacity is negative exactly below order -1 and at Integer.MAX_VALUE. */
  lemma CapacityNegative(order: JavaInt)
    ensures Capacity(order) < 0 <==> order < -1 || order == Decimal.IntMax
  {
  }

  /** The message of the `IllegalArgumentException` an `ArrayList` throws for a negative capacity. */
  function CapacityMessage(capacity: int): string {
    "Illegal Capacity: " + Decimal.IntToString(capacity)
  }

  /**
   * `expand` on a series whose simplified function is f. Creating the term
   * list with a negative capacity throws before any term is formed; otherwise
   * the result is the simplified sum of the terms for orders 0 to order, and
   * order -1 keeps term 0 alone.
   */
  function Expand(fw: Framework, f: Expr, x: string, point: Expr, difference: Expr, order: JavaInt): (r: Result<Expr, Fault>)
    ensures Capacity(order) < 0 ==> r == Failure(IllegalArgument(CapacityMessage(Capacity(order))))
    ensures var n := if order > 0 then order else 0;
      Capacity(order) >= 0 && r.Success? ==> forall i :: 0 <= i <= n ==> TermOf(fw, f, x, point, difference, i).Success?
  {
    var capacity := Capacity(order);
    if capacity < 0 then Failure(IllegalArgument(CapacityMessage(capacity)))
    else
      var n: nat := if order > 0 then order else 0;
      match Terms(fw, f, x, point, difference, n)
      case Failure(err) => Failure(err)
      case Success(ts) =>
        TermsShape(fw, f, x, point, difference, n);
        fw.simplify(Implode(Addition, ts))
  }

  /** Order -2 asks for capacity -1 and throws, whatever the framework and function. */
  lemma NegativeOrderExample(fw: Framework, f: Expr, x: string, point: Expr, difference: Expr)
    ensures Expand(fw, f, x, point, difference, -2) == Failure(IllegalArgument("Illegal Capacity: -1"))
  {
    assert Capacity(-2) == -1;
    assert Decimal.NatToString(1) == ['1'];
    assert CapacityMessage(-1) == "Illegal Capacity: -1";
  }

  /** Orders -1 and 0 both keep term 0 alone. */
  lemma LowOrders(fw: Framework, f: Expr, x: string, point: Expr, difference: Expr, order: JavaInt)
    requires -1 <= order <= 0
    ensures Expand(fw, f, x, point, difference, order) == Expand(fw, f, x, point, difference, 0)
  {
    assert Capacity(order) == order + 1;
    assert Capacity(0) == 1;
  }

  /**
   * A term that fails makes the expansion fail; when the term list could be
   * created, the fault is that of a failing term no later than it.
   */
  lemma ExpandFailure(fw: Framework, f: Expr, x: string, point: Expr, difference: Expr, order: JavaInt, i: nat)
    requires i <= order && TermOf(fw, f, x, point, difference, i).Failure?
    ensures Expand(fw, f, x, point, difference, order).Failure?
    ensures Capacity(order) >= 0 ==>
      exists k :: 0 <= k <= i && TermOf(fw, f, x, point, difference, k) == Expand(fw, f, x, point, difference, order)
  {
    if Capacity(order) < 0 {
      return;
    }
    var n: nat := if order > 0 then order else 0;
    var all := Terms(fw, f, x, point, difference, n);
    if all.Success? {
      TermsShape(fw, f, x, point, difference, n);
      assert false;
    }
    TermsFailure(fw, f, x, point, difference, n);
    var k :| 0 <= k <= n && TermOf(fw, f, x, point, difference, k) == Failure(all.error)
      && forall j :: 0 <= j < k ==> TermOf(fw, f, x, point, difference, j).Success?;
    if k > i {
      assert false;
    }
  }

  /** A series built from input and expanded. */
  function ExpandSeries(fw: Framework, input: Expr, x: string, point: Expr, difference: Expr, order: JavaInt): (r: Result<Expr, Fault>)
    ensures input.Equation? ==> r == Failure(IllegalArgument(EQUATION_MESSAGE))
  {
    match New(fw, input)
    case Failure(err) => Failure(err)
    case Success(f) => Expand(fw, f, x, point, difference, order)
  }

  // The expansion over the framework implementation.

  /**
   * The framework implementation with a simplification budget. A tree that
   * holds an equation has no result: the visitors dispatch an equation back
   * to themselves without end. A tree with an n-ary node of fewer than two
   * operands cannot be built, and is given no result either.
   */
  function Impl(fuel: nat): Framework {
    Framework(
      e => if EquationFree(e) && Valid(e) then
             (match Simplify(e, fuel) case None => Failure(OutOfFuel) case Some(s) => Success(s))
           else Failure(NoResult),
      (e, x) => if EquationFree(e) && Valid(e) then Differentiate(e, x, fuel) else Failure(NoResult),
      (e, m) => if EquationFree(e) then Success(Substitutor.Substitute(e, m)) else Failure(NoResult))
  }

  /** A well-formed tree that is no equation is simplified by the constructor. */
  lemma NewImpl(f: Expr, fuel: nat)
    requires Valid(f) && EquationFree(f)
    ensures var r := New(Impl(fuel), f);
      (r.Success? <==> Simplify(f, fuel).Some?) && (r.Success? ==> r.value == Simplify(f, fuel).value)
      && (r.Failure? ==> r.error == OutOfFuel)
  {
  }

  /** The derivatives of a well-formed function are well formed and fail only as the facade does. */
  lemma {:induction false} DerivativesImpl(f: Expr, x: string, i: nat, fuel: nat)
    requires Valid(f) && EquationFree(f)
    ensures var d := NthDerivative(Impl(fuel), f, x, i);
      (d.Success? ==> Valid(d.value) && EquationFree(d.value))
      && (d.Failure? ==> d.error == Unsupported || d.error == OutOfFuel)
  {
    if i > 0 {
      DerivativesImpl(f, x, i - 1, fuel);
      var d := NthDerivative(Impl(fuel), f, x, i - 1);
      if d.Success? {
        ImplDifferentiate(d.value, x, fuel);
      }
    }
  }

  lemma ImplDifferentiate(g: Expr, x: string, fuel: nat)
    requires Valid(g) && EquationFree(g)
    ensures var d := Impl(fuel).differentiate(g, x);
      (d.Success? ==> Valid(d.value) && EquationFree(d.value))
      && (d.Failure? ==> d.error == Unsupported || d.error == OutOfFuel)
  {
    assert Impl(fuel).differentiate(g, x) == Differentiate(g, x, fuel);
  }

  /** Every term over a well-formed function, point and difference is well formed. */
  lemma TermImpl(f: Expr, x: string, point: Expr, difference: Expr, i: nat, fuel: nat)
    requires Valid(f) && EquationFree(f)
    requires Valid(point) && EquationFree(point) && Valid(difference) && EquationFree(difference)
    ensures var t := TermOf(Impl(fuel), f, x, point, difference, i);
      (t.Success? ==> Valid(t.value) && EquationFree(t.value))
      && (t.Failure? ==> t.error == Unsupported || t.error == OutOfFuel)
  {
    var m := map[x := point];
    DerivativesImpl(f, x, i, fuel);
    var d := NthDerivative(Impl(fuel), f, x, i);
    if d.Success? {
      var g := d.value;
      Substitutor.SubstituteValid(g, m);
      Substitutor.SubstituteEquationFree(g, m);
      var v := Substitutor.Substitute(g, m);
      if i > 0 {
        PairFacts(Product, v, BinaryOperation(Power, difference, Constant(i)));
      }
    }
  }

  /** The implementation's simplify: the facade's loop on well-formed trees. */
  lemma ImplSimplify(e: Expr, fuel: nat)
    ensures var r := Impl(fuel).simplify(e);
      (r.Success? ==> EquationFree(e) && Valid(e) && Simplify(e, fuel) == Some(r.value))
      && (r.Success? ==> Valid(r.value) && EquationFree(r.value) && Round(r.value) == r.value)
      && (r.Failure? ==> r.error == (if EquationFree(e) && Valid(e) then OutOfFuel else NoResult))
  {
  }

  /** The implementation's substitute: the substitutor on equation-free trees. */
  lemma ImplSubstitute(e: Expr, m: map<string, Expr>, fuel: nat)
    ensures var r := Impl(fuel).substitute(e, m);
      (EquationFree(e) <==> r.Success?)
      && (r.Success? ==> r.value == Substitutor.Substitute(e, m))
  {
  }

  /** The terms over a well-formed function, point and difference are all well formed. */
  lemma TermsImplValid(f: Expr, x: string, point: Expr, difference: Expr, n: nat, fuel: nat)
    requires Valid(f) && EquationFree(f)
    requires Valid(point) && EquationFree(point) && Valid(difference) && EquationFree(difference)
    requires Terms(Impl(fuel), f, x, point, difference, n).Success?
    ensures var ts := Terms(Impl(fuel), f, x, point, difference, n).value;
      AllValid(ts) && forall i :: 0 <= i < |ts| ==> EquationFree(ts[i])
  {
    var ts := Terms(Impl(fuel), f, x, point, difference, n).value;
    TermsShape(Impl(fuel), f, x, point, difference, n);
    forall i | 0 <= i < |ts| ensures Valid(ts[i]) && EquationFree(ts[i]) {
      TermImpl(f, x, point, difference, i, fuel);
    }
  }

  /** An expansion by the implementation is well formed and a fixed point of simplification. */
  lemma ExpandImplResult(f: Expr, x: string, point: Expr, difference: Expr, order: JavaInt, fuel: nat)
    ensures var r := Expand(Impl(fuel), f, x, point, difference, order);
      r.Success? ==> Valid(r.value) && EquationFree(r.value) && Round(r.value) == r.value
  {
    var n: nat := if order > 0 then order else 0;
    var all := Terms(Impl(fuel), f, x, point, difference, n);
    if Capacity(order) >= 0 && all.Success? {
      ImplSimplify(Implode(Addition, all.value), fuel);
    }
  }

  /**
   * Over well-formed trees an expansion by the implementation fails only by
   * the capacity check or as the facade does.
   */
  lemma ExpandImplFaults(f: Expr, x: string, point: Expr, difference: Expr, order: JavaInt, fuel: nat)
    requires Valid(f) && EquationFree(f)
    requires Valid(point) && EquationFree(point) && Valid(difference) && EquationFree(difference)
    ensures var r := Expand(Impl(fuel), f, x, point, difference, order);
      r.Failure? ==>
        if Capacity(order) < 0 then r.error == IllegalArgument(CapacityMessage(Capacity(order)))
        else r.error == Unsupported || r.error == OutOfFuel
  {
    if Capacity(order) < 0 {
      return;
    }
    var fw := Impl(fuel);
    var n: nat := if order > 0 then order else 0;
    var all := Terms(fw, f, x, point, difference, n);
    if all.Success? {
      assert Expand(fw, f, x, point, difference, order) == fw.simplify(Implode(Addition, all.value));
      TermsImplValid(f, x, point, difference, n, fuel);
      ImplSimplifySum(all.value, fuel);
    } else {
      assert Expand(fw, f, x, point, difference, order) == Failure(all.error);
      TermsImplFaults(f, x, point, difference, n, fuel);
    }
  }

  /** The sum of well-formed terms is simplified or runs out of fuel. */
  lemma ImplSimplifySum(ts: seq<Expr>, fuel: nat)
    requires AllValid(ts) && forall i :: 0 <= i < |ts| ==> EquationFree(ts[i])
    ensures var r := Impl(fuel).simplify(Implode(Addition, ts));
      r.Failure? ==> r.error == OutOfFuel
  {
    ImplSimplify(Implode(Addition, ts), fuel);
  }

  /** A failing loop over well-formed trees fails as the facade does. */
  lemma TermsImplFaults(f: Expr, x: string, point: Expr, difference: Expr, n: nat, fuel: nat)
    requires Valid(f) && EquationFree(f)
    requires Valid(point) && EquationFree(point) && Valid(difference) && EquationFree(difference)
    requires Terms(Impl(fuel), f, x, point, difference, n).Failure?
    ensures var e := Terms(Impl(fuel), f, x, point, difference, n).error;
      e == Unsupported || e == OutOfFuel
  {
    var fw := Impl(fuel);
    TermsFailure(fw, f, x, point, difference, n);
    var k :| 0 <= k <= n && TermOf(fw, f, x, point, difference, k) == Failure(Terms(fw, f, x, point, difference, n).error);
    TermImpl(f, x, point, difference, k, fuel);
  }

  /**
   * The expansion by the implementation: an equation is refused; a result is
   * well formed and a fixed point of simplification; and over well-formed
   * trees the only faults are an unsupported function, a simplification that
   * did not settle, and a negative term-list capacity.
   */
  lemma ExpandImpl(input: Expr, x: string, point: Expr, difference: Expr, order: JavaInt, fuel: nat)
    requires Valid(input) && (input.Equation? || EquationFree(input))
    ensures var r := ExpandSeries(Impl(fuel), input, x, point, difference, order);
      && (input.Equation? ==> r == Failure(IllegalArgument(EQUATION_MESSAGE)))
      && (r.Success? ==> Valid(r.value) && EquationFree(r.value) && Round(r.value) == r.value)
      && ((!input.Equation? && Valid(point) && EquationFree(point) && Valid(difference) && EquationFree(difference)
           && r.Failure?) ==>
           (r.error == Unsupported || r.error == OutOfFuel
            || (Capacity(order) < 0 && r.error == IllegalArgument(CapacityMessage(Capacity(order))))))
  {
    if !input.Equation? {
      ImplSimplify(input, fuel);
      var made := New(Impl(fuel), input);
      if made.Success? {
        ExpandImplResult(made.value, x, point, difference, order, fuel);
        if Valid(point) && EquationFree(point) && Valid(difference) && EquationFree(difference) {
          ExpandImplFaults(made.value, x, point, difference, order, fuel);
        }
      }
    }
  }

  /**
   * The expansion of order 0 (or -1, which also keeps term 0 alone) is the
   * function's value at the point: with x bound to the value of point, the
   * result has the input's value.
   */
  lemma ExpandOrderZeroSound(input: Expr, x: string, point: Expr, difference: Expr, order: JavaInt, fuel: nat, env: Env, fn: Interp)
    requires Valid(input) && EquationFree(input) && -1 <= order <= 0 && x != "e"
    requires FunctionLaws(env, fn) && Eval(point, env, fn).Some?
    requires ExpandSeries(Impl(fuel), input, x, point, difference, order).Success?
    requires Eval(input, Substitutor.Updated(env, map[x := point], fn), fn).Some?
    ensures Eval(ExpandSeries(Impl(fuel), input, x, point, difference, order).value, env, fn)
      == Eval(input, Substitutor.Updated(env, map[x := point], fn), fn)
  {
    var fw := Impl(fuel);
    var m := map[x := point];
    var env' := Substitutor.Updated(env, m, fn);
    assert env'("e") == env("e");
    ImplSimplify(input, fuel);
    var f := New(fw, input).value;
    LowOrders(fw, f, x, point, difference, order);
    assert Capacity(0) == 1;
    SimplifySound(input, fuel, env', fn);
    ImplSubstitute(f, m, fuel);
    var t := Substitutor.Substitute(f, m);
    Substitutor.SubstituteEval(f, m, env, fn);
    assert Terms(fw, f, x, point, difference, 0) == Success([t]);
    ImplSimplify(Implode(Addition, [t]), fuel);
    SimplifySound(t, fuel, env, fn);
  }
}
