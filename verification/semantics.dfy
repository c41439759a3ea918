/**
 * A reference meaning for expression trees: their value over the reals.
 * Variables take their value from an environment and functions from an
 * interpretation; a division by zero, a power whose exponent is no integer
 * (or that divides by zero), and an equation have no value. This is the
 * yardstick the rewrite passes are measured against: a pass is sound when
 * every tree that has a value is rewritten to one with the same value.
 */
module Semantics {
  import opened Wrappers
  import opened Expressions
  import MathUtils
  import opened ExpressionFactory

  type Env = string -> real
  type Interp = (Function, real) -> Option<real>

  function RealPow(x: real, n: nat): (r: real)
    ensures x != 0.0 ==> r != 0.0
  {
    if n == 0 then 1.0 else x * RealPow(x, n - 1)
  }

  /** Real division, kept behind a function so that it is unfolded only where a proof needs it. */
  function Quotient(x: real, y: real): real
    requires y != 0.0
  {
    x / y
  }

  /** x^k for an integer k; a negative power of zero has no value. */
  function IntPow(x: real, k: int): Option<real> {
    if k >= 0 then Some(RealPow(x, k))
    else if x == 0.0 then None
    else Some(Quotient(1.0, RealPow(x, -k)))
  }

  predicate IsInteger(r: real) {
    r.Floor as real == r
  }

  function Sum(xs: seq<real>): real {
    if |xs| == 0 then 0.0 else Sum(xs[..|xs| - 1]) + xs[|xs| - 1]
  }

  function Prod(xs: seq<real>): real {
    if |xs| == 0 then 1.0 else Prod(xs[..|xs| - 1]) * xs[|xs| - 1]
  }

  /** The values of all operands, when every one of them has a value. */
  function Values(vs: seq<Option<real>>): (r: Option<seq<real>>)
    ensures r.Some? <==> forall i :: 0 <= i < |vs| ==> vs[i].Some?
    ensures r.Some? ==> |r.value| == |vs| && forall i :: 0 <= i < |vs| ==> r.value[i] == vs[i].value
  {
    if |vs| == 0 then Some([])
    else
      match Values(vs[..|vs| - 1])
      case None => None
      case Some(xs) =>
        if vs[|vs| - 1].Some? then Some(xs + [vs[|vs| - 1].value]) else None
  }

  function Fold(op: NAryOperator, xs: seq<real>): real {
    if op == Addition then Sum(xs) else Prod(xs)
  }

  function Eval(e: Expr, env: Env, fn: Interp): Option<real> {
    match e
    case Variable(n) => Some(env(n))
    case Constant(v) => Some(v as real)
    case BinaryOperation(op, a, b) =>
      (match (Eval(a, env, fn), Eval(b, env, fn))
       case (Some(x), Some(y)) =>
         if op == Division then (if y == 0.0 then None else Some(Quotient(x, y)))
         else if IsInteger(y) then IntPow(x, y.Floor)
         else None
       case _ => None)
    case NAryOperation(op, ops) =>
      (match Values(EvalAll(ops, env, fn))
       case None => None
       case Some(xs) => Some(Fold(op, xs)))
    case FunctionOperation(f, a) =>
      (match Eval(a, env, fn)
       case None => None
       case Some(x) => fn(f, x))
    case Equation(_, _) => None
  }

  /** The operands' values, in order. */
  function EvalAll(ops: seq<Expr>, env: Env, fn: Interp): (r: seq<Option<real>>)
    ensures |r| == |ops| && forall i :: 0 <= i < |ops| ==> r[i] == Eval(ops[i], env, fn)
    decreases ops
  {
    seq(|ops|, i requires 0 <= i < |ops| => Eval(ops[i], env, fn))
  }

  /** The binary form of an n-ary operator. */
  function Apply(op: NAryOperator, x: real, y: real): real {
    if op == Addition then x + y else x * y
  }

  function Unit(op: NAryOperator): real {
    if op == Addition then 0.0 else 1.0
  }

  lemma {:induction false} FoldAppend(op: NAryOperator, xs: seq<real>, ys: seq<real>)
    ensures Fold(op, xs + ys) == Apply(op, Fold(op, xs), Fold(op, ys))
    decreases |ys|
  {
    if |ys| == 0 {
      assert xs + ys == xs;
    } else {
      var init := ys[..|ys| - 1];
      FoldAppend(op, xs, init);
      assert (xs + ys)[..|xs + ys| - 1] == xs + init;
      if op == Product {
        assert Prod(xs + ys) == Prod(xs + init) * ys[|ys| - 1];
        assert Prod(xs) * Prod(init) * ys[|ys| - 1] == Prod(xs) * (Prod(init) * ys[|ys| - 1]);
      }
    }
  }

  lemma FoldSingle(op: NAryOperator, x: real)
    ensures Fold(op, [x]) == x
  {
    assert [x][..0] == [];
    if op == Addition {
      assert Sum([x]) == Sum([]) + x;
    } else {
      assert Prod([x]) == Prod([]) * x;
    }
  }

  /** Taking out one operand: the rest, combined with it, gives the same value. */
  lemma FoldRemove(op: NAryOperator, ys: seq<real>, j: nat)
    requires j < |ys|
    ensures Fold(op, ys) == Apply(op, Fold(op, ys[..j] + ys[j + 1..]), ys[j])
  {
    var a, x, b := ys[..j], ys[j], ys[j + 1..];
    assert ys == a + [x] + b;
    FoldAppend(op, a + [x], b);
    FoldAppend(op, a, [x]);
    FoldAppend(op, a, b);
    FoldSingle(op, x);
  }

  /** The value of an n-ary node does not depend on the order of its operands. */
  lemma {:induction false} FoldPermutation(op: NAryOperator, xs: seq<real>, ys: seq<real>)
    requires multiset(xs) == multiset(ys)
    ensures Fold(op, xs) == Fold(op, ys)
    decreases |xs|
  {
    if |xs| == 0 {
      assert |multiset(ys)| == 0;
    } else {
      var init, x := xs[..|xs| - 1], xs[|xs| - 1];
      assert xs == init + [x];
      assert x in multiset(ys);
      var j :| 0 <= j < |ys| && ys[j] == x;
      var rest := ys[..j] + ys[j + 1..];
      assert ys == ys[..j] + [x] + ys[j + 1..];
      assert multiset(init) == multiset(rest) by {
        assert multiset(ys) == multiset(ys[..j]) + multiset{x} + multiset(ys[j + 1..]);
        assert multiset(rest) == multiset(ys[..j]) + multiset(ys[j + 1..]);
        assert multiset(xs) == multiset(init) + multiset{x};
        forall z ensures multiset(init)[z] == multiset(rest)[z] {
          assert multiset(xs)[z] == multiset(init)[z] + multiset{x}[z];
          assert multiset(ys)[z] == multiset(rest)[z] + multiset{x}[z];
        }
      }
      FoldPermutation(op, init, rest);
      FoldRemove(op, ys, j);
      FoldAppend(op, init, [x]);
      FoldSingle(op, x);
    }
  }

  /** The value of an n-ary node with operator op over the given operands. */
  function EvalFold(op: NAryOperator, ops: seq<Expr>, env: Env, fn: Interp): (r: Option<real>)
  {
    match Values(EvalAll(ops, env, fn))
    case None => None
    case Some(xs) => Some(Fold(op, xs))
  }

  /** Both values combined with op, when both exist. */
  function Lift(op: NAryOperator, x: Option<real>, y: Option<real>): Option<real> {
    if x.Some? && y.Some? then Some(Apply(op, x.value, y.value)) else None
  }

  lemma ValuesAppend(u: seq<Option<real>>, v: seq<Option<real>>)
    ensures Values(u + v) == if Values(u).Some? && Values(v).Some? then Some(Values(u).value + Values(v).value) else None
  {
    if Values(u).Some? && Values(v).Some? {
      assert Values(u + v).value == Values(u).value + Values(v).value;
    } else if Values(u).None? {
      var i :| 0 <= i < |u| && u[i].None?;
      assert (u + v)[i].None?;
    } else {
      var i :| 0 <= i < |v| && v[i].None?;
      assert (u + v)[|u| + i].None?;
    }
  }

  /** An n-ary node over a ++ b has the combined values of the nodes over a and over b. */
  lemma EvalFoldAppend(op: NAryOperator, a: seq<Expr>, b: seq<Expr>, env: Env, fn: Interp)
    ensures EvalFold(op, a + b, env, fn) == Lift(op, EvalFold(op, a, env, fn), EvalFold(op, b, env, fn))
  {
    var u, v := EvalAll(a, env, fn), EvalAll(b, env, fn);
    assert EvalAll(a + b, env, fn) == u + v;
    ValuesAppend(u, v);
    if Values(u).Some? && Values(v).Some? {
      FoldAppend(op, Values(u).value, Values(v).value);
    }
  }

  /** A single operand contributes its own value. */
  lemma EvalFoldSingle(op: NAryOperator, x: Expr, env: Env, fn: Interp)
    ensures EvalFold(op, [x], env, fn) == Eval(x, env, fn)
  {
    if Eval(x, env, fn).Some? {
      assert Values(EvalAll([x], env, fn)).value == [Eval(x, env, fn).value];
      FoldSingle(op, Eval(x, env, fn).value);
    } else {
      assert EvalAll([x], env, fn)[0].None?;
    }
  }

  /** Folding a then x then b is folding a then b then x. */
  lemma LiftSwap(op: NAryOperator, a: Option<real>, x: Option<real>, b: Option<real>)
    ensures Lift(op, Lift(op, a, x), b) == Lift(op, Lift(op, a, b), x)
  {
    if a.Some? && x.Some? && b.Some? {
      var p, q, r := a.value, x.value, b.value;
      var ax, ab := Lift(op, a, x), Lift(op, a, b);
      assert ax.value == Apply(op, p, q) && ab.value == Apply(op, p, r);
      var u, v := Lift(op, ax, b), Lift(op, ab, x);
      assert u.value == Apply(op, Apply(op, p, q), r);
      assert v.value == Apply(op, Apply(op, p, r), q);
      if op == Product {
        assert (p * q) * r == (p * r) * q;
      }
      assert u.value == v.value;
    }
  }

  /** The last element of xs, found in ys, and the rest of ys, which holds the rest of xs. */
  lemma MatchLast<T>(xs: seq<T>, ys: seq<T>) returns (j: nat)
    requires |xs| > 0 && multiset(xs) == multiset(ys)
    ensures j < |ys| && ys[j] == xs[|xs| - 1]
    ensures multiset(xs[..|xs| - 1]) == multiset(ys[..j] + ys[j + 1..])
  {
    var init, x := xs[..|xs| - 1], xs[|xs| - 1];
    assert xs == init + [x];
    assert x in multiset(ys);
    j :| 0 <= j < |ys| && ys[j] == x;
    var rest := ys[..j] + ys[j + 1..];
    assert ys == ys[..j] + [x] + ys[j + 1..];
    assert multiset(ys) == multiset(ys[..j]) + multiset{x} + multiset(ys[j + 1..]);
    assert multiset(rest) == multiset(ys[..j]) + multiset(ys[j + 1..]);
    assert multiset(xs) == multiset(init) + multiset{x};
    forall z ensures multiset(init)[z] == multiset(rest)[z] {
      assert multiset(xs)[z] == multiset(init)[z] + multiset{x}[z];
      assert multiset(ys)[z] == multiset(rest)[z] + multiset{x}[z];
    }
  }

  /** An n-ary node over a rearrangement of the operands has the same value, or none when it had none. */
  lemma {:induction false} EvalFoldPermutation(op: NAryOperator, xs: seq<Expr>, ys: seq<Expr>, env: Env, fn: Interp)
    requires multiset(xs) == multiset(ys)
    ensures EvalFold(op, xs, env, fn) == EvalFold(op, ys, env, fn)
    decreases |xs|
  {
    if |xs| == 0 {
      assert |multiset(ys)| == 0;
    } else {
      var init, x := xs[..|xs| - 1], xs[|xs| - 1];
      var j := MatchLast(xs, ys);
      var a, b := ys[..j], ys[j + 1..];
      EvalFoldPermutation(op, init, a + b, env, fn);
      assert xs == init + [x];
      assert ys == (a + [x]) + b;
      EvalFoldAppend(op, init, [x], env, fn);
      EvalFoldAppend(op, a + [x], b, env, fn);
      EvalFoldAppend(op, a, [x], env, fn);
      EvalFoldAppend(op, a, b, env, fn);
      EvalFoldSingle(op, x, env, fn);
      LiftSwap(op, EvalFold(op, a, env, fn), Eval(x, env, fn), EvalFold(op, b, env, fn));
    }
  }

  function Square(x: real): real {
    x * x
  }

  /**
   * What the rewrite passes assume of the mathematical functions: the
   * special values the simplifier folds, |x| for abs, the non-negative
   * root of a square for sqrt, and ln(e) = 1 for the variable e.
   */
  ghost predicate FunctionLaws(env: Env, fn: Interp) {
    && fn(Sin, 0.0) == Some(0.0)
    && fn(Arcsin, 0.0) == Some(0.0)
    && fn(Tan, 0.0) == Some(0.0)
    && fn(Arctan, 0.0) == Some(0.0)
    && fn(Cos, 0.0) == Some(1.0)
    && fn(Arccos, 1.0) == Some(0.0)
    && fn(Ln, 1.0) == Some(0.0)
    && fn(Ln, env("e")) == Some(1.0)
    && (forall x: real :: fn(Abs, x) == Some(if x < 0.0 then -x else x))
    && (forall x: real :: 0.0 <= x ==> fn(Sqrt, Square(x)) == Some(x))
  }

  lemma {:induction false} RealPowOne(n: nat)
    ensures RealPow(1.0, n) == 1.0
  {
    if n > 0 {
      RealPowOne(n - 1);
    }
  }

  /** Integer powers agree with their real counterparts. */
  lemma {:induction false} PowAsReal(b: int, n: nat)
    ensures (MathUtils.Pow(b, n) as real) == RealPow(b as real, n)
  {
    if n > 0 {
      PowAsReal(b, n - 1);
      assert MathUtils.Pow(b, n) == b * MathUtils.Pow(b, n - 1);
      MulAsReal(b, MathUtils.Pow(b, n - 1));
    }
  }

  lemma MulAsReal(a: int, b: int)
    ensures (a * b) as real == (a as real) * (b as real)
  {
  }

  /** A product with a zero factor is zero. */
  lemma {:induction false} ProdZero(xs: seq<real>, i: nat)
    requires i < |xs| && xs[i] == 0.0
    ensures Prod(xs) == 0.0
  {
    if i < |xs| - 1 {
      ProdZero(xs[..|xs| - 1], i);
    }
  }

  /** The values of a list of two operands. */
  lemma EvalPair(op: NAryOperator, a: Expr, b: Expr, x: real, y: real, env: Env, fn: Interp)
    requires Eval(a, env, fn) == Some(x) && Eval(b, env, fn) == Some(y)
    ensures Eval(NAryOperation(op, [a, b]), env, fn) == Some(Apply(op, x, y))
  {
    EvalFoldAppend(op, [a], [b], env, fn);
    EvalFoldSingle(op, a, env, fn);
    EvalFoldSingle(op, b, env, fn);
    assert [a] + [b] == [a, b];
  }

  /** A non-empty operand list: the node over all but the last operand, combined with the last. */
  lemma EvalFoldLast(op: NAryOperator, xs: seq<Expr>, env: Env, fn: Interp)
    requires |xs| > 0
    ensures EvalFold(op, xs, env, fn) == Lift(op, EvalFold(op, xs[..|xs| - 1], env, fn), Eval(xs[|xs| - 1], env, fn))
  {
    assert xs == xs[..|xs| - 1] + [xs[|xs| - 1]];
    EvalFoldAppend(op, xs[..|xs| - 1], [xs[|xs| - 1]], env, fn);
    EvalFoldSingle(op, xs[|xs| - 1], env, fn);
  }

  /** A two-operand node combines the operands' values, and has none when either has none. */
  lemma EvalPairLift(op: NAryOperator, a: Expr, b: Expr, env: Env, fn: Interp)
    ensures Eval(NAryOperation(op, [a, b]), env, fn) == Lift(op, Eval(a, env, fn), Eval(b, env, fn))
  {
    EvalFoldAppend(op, [a], [b], env, fn);
    EvalFoldSingle(op, a, env, fn);
    EvalFoldSingle(op, b, env, fn);
    assert [a] + [b] == [a, b];
  }

  /** A non-empty operand list imploded has the value of the n-ary node over it. */
  lemma ImplodeEval(op: NAryOperator, xs: seq<Expr>, env: Env, fn: Interp)
    requires |xs| >= 1
    ensures Eval(Implode(op, xs), env, fn) == EvalFold(op, xs, env, fn)
  {
    if |xs| == 1 {
      assert xs == [xs[0]];
      EvalFoldSingle(op, xs[0], env, fn);
    }
  }

  /** p = n/d and v = a/b give p*v = (n*a)/(d*b). */
  lemma QuotientProduct(n: real, d: real, a: real, b: real, p: real, v: real)
    requires d != 0.0 && b != 0.0 && p == Quotient(n, d) && v == Quotient(a, b)
    ensures d * b != 0.0 && Quotient(n * a, d * b) == p * v
  {
  }

  /** p = n/d gives p*a = (n*a)/d. */
  lemma QuotientScale(n: real, d: real, a: real, p: real)
    requires d != 0.0 && p == Quotient(n, d)
    ensures Quotient(n * a, d) == p * a
  {
  }

  /** (p/q)/y = p/(q*y). */
  lemma QuotientOfQuotient(p: real, q: real, y: real)
    requires q != 0.0 && y != 0.0
    ensures q * y != 0.0 && Quotient(Quotient(p, q), y) == Quotient(p, q * y)
  {
  }

  /** x/(q/r) = (x*r)/q when q/r is not zero. */
  lemma QuotientByQuotient(x: real, q: real, r: real)
    requires r != 0.0 && Quotient(q, r) != 0.0
    ensures q != 0.0 && Quotient(x, Quotient(q, r)) == Quotient(x * r, q)
  {
  }

  // Laws of exponents and of coefficients, as the collector uses them.

  lemma MulRotate(x: real, a: real, b: real)
    ensures x * (a * b) == a * (x * b)
  {
  }

  lemma MulCommutes(p: real, q: real)
    ensures p * q == q * p
  {
  }

  lemma ScaleByOne(u: real, t: real)
    requires t == 1.0
    ensures u * t == u
  {
  }

  lemma {:induction false} RealPowAdd(x: real, m: nat, n: nat)
    ensures RealPow(x, m + n) == RealPow(x, m) * RealPow(x, n)
  {
    if n > 0 {
      RealPowAdd(x, m, n - 1);
      var a, b, c := RealPow(x, m), RealPow(x, n - 1), RealPow(x, m + n - 1);
      assert RealPow(x, m + n) == x * c;
      assert RealPow(x, n) == x * b;
      MulRotate(x, a, b);
    }
  }

  /** RealPowAdd with the sum given by name. */
  lemma RealPowSplit(x: real, s: nat, m: nat, n: nat)
    requires s == m + n
    ensures RealPow(x, s) == RealPow(x, m) * RealPow(x, n)
  {
    RealPowAdd(x, m, n);
  }

  lemma InverseTimes(w: real)
    requires w != 0.0
    ensures Quotient(1.0, w) * w == 1.0
  {
  }

  /** a/b is the c with c*b = a. */
  lemma QuotientUnique(a: real, b: real, c: real)
    requires b != 0.0 && c * b == a
    ensures Quotient(a, b) == c
  {
  }

  /** q = 1/w and b = k*w give q*b = k. */
  lemma CancelFactor(q: real, w: real, b: real, k: real)
    requires q * w == 1.0 && b == k * w
    ensures q * b == k
  {
    assert q * b == q * (k * w);
    assert q * (k * w) == k * (q * w);
    ScaleByOne(k, q * w);
  }

  /** 1/(u*w) times w is 1/u. */
  lemma QuotientCancelInverse(u: real, w: real)
    requires u != 0.0 && w != 0.0
    ensures u * w != 0.0 && Quotient(1.0, u * w) * w == Quotient(1.0, u)
  {
    var q := Quotient(1.0, u * w);
    InverseTimes(u * w);
    assert (q * w) * u == q * (u * w);
    QuotientUnique(1.0, u, q * w);
  }

  /** 1/u times 1/w is 1/(u*w). */
  lemma QuotientOfUnits(u: real, w: real)
    requires u != 0.0 && w != 0.0
    ensures u * w != 0.0 && Quotient(1.0, u) * Quotient(1.0, w) == Quotient(1.0, u * w)
  {
    var p, q := Quotient(1.0, u), Quotient(1.0, w);
    InverseTimes(u);
    InverseTimes(w);
    assert (p * q) * (u * w) == (p * u) * (q * w);
    ScaleByOne(p * u, q * w);
    QuotientUnique(1.0, u * w, p * q);
  }

  /** 1/x^n * x^b = x^(b-n) when b >= n. */
  lemma PowerQuotientHigh(x: real, n: nat, b: nat)
    requires x != 0.0 && b >= n
    ensures Quotient(1.0, RealPow(x, n)) * RealPow(x, b) == RealPow(x, b - n)
  {
    var k: nat := b - n;
    RealPowSplit(x, b, k, n);
    InverseTimes(RealPow(x, n));
    CancelFactor(Quotient(1.0, RealPow(x, n)), RealPow(x, n), RealPow(x, b), RealPow(x, k));
  }

  /** 1/x^n * x^b = 1/x^(n-b) when b < n. */
  lemma PowerQuotientLow(x: real, n: nat, b: nat)
    requires x != 0.0 && b < n
    ensures Quotient(1.0, RealPow(x, n)) * RealPow(x, b) == Quotient(1.0, RealPow(x, n - b))
  {
    var k: nat := n - b;
    RealPowSplit(x, n, k, b);
    QuotientCancelInverse(RealPow(x, k), RealPow(x, b));
  }

  /** x^(-n) * x^b = x^s for s = b-n. */
  lemma NegativePlusNatural(x: real, n: nat, b: nat, s: int)
    requires x != 0.0 && n > 0 && s == b - n
    ensures IntPow(x, s).Some? && IntPow(x, s).value == Quotient(1.0, RealPow(x, n)) * RealPow(x, b)
  {
    if b >= n {
      PowerQuotientHigh(x, n, b);
    } else {
      PowerQuotientLow(x, n, b);
    }
  }

  /** x^(-m) * x^(-n) = x^s for s = -(m+n). */
  lemma NegativePlusNegative(x: real, m: nat, n: nat, s: int)
    requires x != 0.0 && m > 0 && n > 0 && s == -(m + n)
    ensures IntPow(x, s).Some? && IntPow(x, s).value == Quotient(1.0, RealPow(x, m)) * Quotient(1.0, RealPow(x, n))
  {
    RealPowSplit(x, -s, m, n);
    QuotientOfUnits(RealPow(x, m), RealPow(x, n));
  }

  lemma ExponentsNatural(x: real, a: int, b: int)
    requires IntPow(x, a).Some? && IntPow(x, b).Some? && a >= 0 && b >= 0
    ensures IntPow(x, a + b).Some? && IntPow(x, a + b).value == IntPow(x, a).value * IntPow(x, b).value
  {
    RealPowSplit(x, a + b, a, b);
  }

  lemma ExponentsNegative(x: real, a: int, b: int)
    requires IntPow(x, a).Some? && IntPow(x, b).Some? && a < 0 && b < 0
    ensures IntPow(x, a + b).Some? && IntPow(x, a + b).value == IntPow(x, a).value * IntPow(x, b).value
  {
    NegativePlusNegative(x, -a, -b, a + b);
  }

  lemma ExponentsMixed(x: real, a: int, b: int)
    requires IntPow(x, a).Some? && IntPow(x, b).Some? && a < 0 <= b
    ensures IntPow(x, a + b).Some? && IntPow(x, a + b).value == IntPow(x, a).value * IntPow(x, b).value
  {
    NegativePlusNatural(x, -a, b, a + b);
  }

  /** x^a * x^b = x^(a+b) for integer exponents, whenever both factors have a value. */
  lemma IntPowAdd(x: real, a: int, b: int)
    requires IntPow(x, a).Some? && IntPow(x, b).Some?
    ensures IntPow(x, a + b).Some? && IntPow(x, a + b).value == IntPow(x, a).value * IntPow(x, b).value
  {
    if a >= 0 && b >= 0 {
      ExponentsNatural(x, a, b);
    } else if a < 0 && b < 0 {
      ExponentsNegative(x, a, b);
    } else if a < 0 {
      ExponentsMixed(x, a, b);
    } else {
      ExponentsMixed(x, b, a);
      assert a + b == b + a;
      MulCommutes(IntPow(x, a).value, IntPow(x, b).value);
    }
  }

  /** The sum of two integers is an integer, and its floor is the sum of the floors. */
  lemma FloorAdd(y: real, z: real)
    requires IsInteger(y) && IsInteger(z)
    ensures IsInteger(y + z) && (y + z).Floor == y.Floor + z.Floor
  {
    assert y + z == (y.Floor + z.Floor) as real;
  }

  lemma Distribute(a: real, b: real, w: real)
    ensures a * w + b * w == (a + b) * w
  {
  }

  /** w to the power e, rounded down to an integer; 0 where that power has no value. */
  function PowerOf(w: real, e: real): real {
    var p := IntPow(w, e.Floor);
    if p.Some? then p.value else 0.0
  }

  /** w raised to each exponent. */
  function Powers(w: real, es: seq<real>): (r: seq<real>)
    ensures |r| == |es| && forall i :: 0 <= i < |es| ==> r[i] == PowerOf(w, es[i])
  {
    seq(|es|, i requires 0 <= i < |es| => PowerOf(w, es[i]))
  }

  /** The last step of PowersSum, on scalars. */
  lemma PowersStep(w: real, y: real, e: real, s: real, p: real, q: real, r: real)
    requires IsInteger(y) && IsInteger(e) && s == y + e && r == p * q
    requires IntPow(w, y.Floor).Some? && IntPow(w, y.Floor).value == p
    requires IntPow(w, e.Floor).Some? && IntPow(w, e.Floor).value == q
    ensures IsInteger(s) && IntPow(w, s.Floor).Some? && IntPow(w, s.Floor).value == r
  {
    FloorAdd(y, e);
    IntPowAdd(w, y.Floor, e.Floor);
  }

  /** The powers of all but the last exponent are the powers without the last one. */
  lemma PowersPrefix(w: real, es: seq<real>)
    requires |es| > 0
    ensures Powers(w, es)[..|es| - 1] == Powers(w, es[..|es| - 1])
  {
    var ps, qs := Powers(w, es), Powers(w, es[..|es| - 1]);
    assert forall i :: 0 <= i < |es| - 1 ==> ps[..|es| - 1][i] == qs[i];
  }

  /** Powers of a non-empty list: the powers of all but the last, times the last power. */
  lemma ProdPowersLast(w: real, es: seq<real>)
    requires |es| > 0
    ensures Prod(Powers(w, es)) == Prod(Powers(w, es[..|es| - 1])) * PowerOf(w, es[|es| - 1])
  {
    PowersPrefix(w, es);
    ProdLast(Powers(w, es), Powers(w, es[..|es| - 1]), PowerOf(w, es[|es| - 1]));
  }

  lemma ProdLast(xs: seq<real>, init: seq<real>, x: real)
    requires |xs| > 0 && xs[..|xs| - 1] == init && xs[|xs| - 1] == x
    ensures Prod(xs) == Prod(init) * x
  {
  }

  /** The product of w^e_i is w to the sum of the e_i. */
  lemma {:induction false} PowersSum(w: real, es: seq<real>)
    requires forall i :: 0 <= i < |es| ==> IsInteger(es[i]) && IntPow(w, es[i].Floor).Some?
    ensures IsInteger(Sum(es)) && IntPow(w, Sum(es).Floor).Some?
    ensures IntPow(w, Sum(es).Floor).value == Prod(Powers(w, es))
  {
    if |es| == 0 {
      assert Sum(es) == 0.0;
      assert Prod(Powers(w, es)) == 1.0;
    } else {
      PowersSum(w, es[..|es| - 1]);
      PowersSumStep(w, es);
    }
  }

  /** PowersSum for es from PowersSum for all but its last exponent. */
  lemma PowersSumStep(w: real, es: seq<real>)
    requires |es| > 0
    requires forall i :: 0 <= i < |es| ==> IsInteger(es[i]) && IntPow(w, es[i].Floor).Some?
    requires var init := es[..|es| - 1];
      IsInteger(Sum(init)) && IntPow(w, Sum(init).Floor).Some? && IntPow(w, Sum(init).Floor).value == Prod(Powers(w, init))
    ensures IsInteger(Sum(es)) && IntPow(w, Sum(es).Floor).Some?
    ensures IntPow(w, Sum(es).Floor).value == Prod(Powers(w, es))
  {
    var init, e := es[..|es| - 1], es[|es| - 1];
    ProdPowersLast(w, es);
    assert IsInteger(e) && IntPow(w, e.Floor).Some?;
    PowersStep(w, Sum(init), e, Sum(es), Prod(Powers(w, init)), PowerOf(w, e), Prod(Powers(w, es)));
  }
}
