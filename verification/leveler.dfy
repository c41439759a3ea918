/**
 * The two structural traversals: the identity rebuild every expression
 * visitor starts from, and the tree leveler, which splices an n-ary
 * operand into its parent when both have the same operator.
 * Neither visitor has a case for Equation (dispatching one recurses without
 * end), so both are defined on equation-free trees.
 */
module Leveler {
  import opened Expressions
  import opened Semantics

  /** `AbstractExpressionVisitor`: leaves returned, inner nodes rebuilt around visited children. */
  function Rebuild(e: Expr): Expr
    requires EquationFree(e)
  {
    match e
    case Variable(_) => e
    case Constant(_) => e
    case BinaryOperation(op, a, b) => BinaryOperation(op, Rebuild(a), Rebuild(b))
    case NAryOperation(op, ops) => NAryOperation(op, seq(|ops|, i requires 0 <= i < |ops| => Rebuild(ops[i])))
    case FunctionOperation(f, a) => FunctionOperation(f, Rebuild(a))
    case Equation(_, _) => e
  }

  /** A visitor that overrides nothing gives back a tree equal to its input. */
  lemma {:induction false} RebuildIdentity(e: Expr)
    requires EquationFree(e)
    ensures Rebuild(e) == e
  {
    match e
    case Variable(_) =>
    case Constant(_) =>
    case BinaryOperation(op, a, b) =>
      RebuildIdentity(a);
      RebuildIdentity(b);
    case NAryOperation(op, ops) =>
      forall i | 0 <= i < |ops| ensures Rebuild(ops[i]) == ops[i] {
        RebuildIdentity(ops[i]);
      }
    case FunctionOperation(f, a) =>
      RebuildIdentity(a);
  }

  /** The operands x contributes to a parent with operator op. */
  function Splice(op: NAryOperator, x: Expr): seq<Expr> {
    if x.NAryOperation? && x.nop == op then x.operands else [x]
  }

  /** The levelled operand list: each operand's contribution, in order. */
  function Flatten(op: NAryOperator, xs: seq<Expr>): seq<Expr> {
    if |xs| == 0 then [] else Flatten(op, xs[..|xs| - 1]) + Splice(op, xs[|xs| - 1])
  }

  /** `TreeLeveler`: children first, then same-operator operands spliced in. */
  function Level(e: Expr): Expr
    requires EquationFree(e)
  {
    match e
    case Variable(_) => e
    case Constant(_) => e
    case BinaryOperation(op, a, b) => BinaryOperation(op, Level(a), Level(b))
    case NAryOperation(op, ops) =>
      NAryOperation(op, Flatten(op, seq(|ops|, i requires 0 <= i < |ops| => Level(ops[i]))))
    case FunctionOperation(f, a) => FunctionOperation(f, Level(a))
    case Equation(_, _) => e
  }

  /** No n-ary node has a direct operand with its own operator. */
  predicate Levelled(e: Expr) {
    match e
    case Variable(_) => true
    case Constant(_) => true
    case BinaryOperation(_, a, b) => Levelled(a) && Levelled(b)
    case NAryOperation(op, ops) =>
      forall i :: 0 <= i < |ops| ==> Levelled(ops[i]) && !(ops[i].NAryOperation? && ops[i].nop == op)
    case FunctionOperation(_, a) => Levelled(a)
    case Equation(a, b) => Levelled(a) && Levelled(b)
  }

  // Facts about Flatten.

  lemma {:induction false} FlattenLength(op: NAryOperator, xs: seq<Expr>)
    requires forall i :: 0 <= i < |xs| ==> Valid(xs[i])
    ensures |Flatten(op, xs)| >= |xs|
  {
    if |xs| > 0 {
      FlattenLength(op, xs[..|xs| - 1]);
      assert Valid(xs[|xs| - 1]);
    }
  }

  /** An element of the flattened list is an element of xs or an operand of one. */
  lemma {:induction false} FlattenMembers(op: NAryOperator, xs: seq<Expr>, y: Expr)
    requires y in Flatten(op, xs)
    ensures y in xs || exists x :: x in xs && x.NAryOperation? && x.nop == op && y in x.operands
  {
    if |xs| > 0 {
      var init, last := xs[..|xs| - 1], xs[|xs| - 1];
      assert last in xs;
      if y in Flatten(op, init) {
        FlattenMembers(op, init, y);
        if y in init {
          assert y in xs;
        } else {
          var x :| x in init && x.NAryOperation? && x.nop == op && y in x.operands;
          assert x in xs;
        }
      }
    }
  }

  /** Without same-operator elements, flattening changes nothing. */
  lemma {:induction false} FlattenNoop(op: NAryOperator, xs: seq<Expr>)
    requires forall i :: 0 <= i < |xs| ==> !(xs[i].NAryOperation? && xs[i].nop == op)
    ensures Flatten(op, xs) == xs
  {
    if |xs| > 0 {
      FlattenNoop(op, xs[..|xs| - 1]);
      assert xs[..|xs| - 1] + [xs[|xs| - 1]] == xs;
    }
  }

  // Properties of the leveler.

  /** Levelling keeps the two-operand invariant, since no operand list gets shorter. */
  lemma {:induction false} LevelValid(e: Expr)
    requires EquationFree(e) && Valid(e)
    ensures Valid(Level(e)) && EquationFree(Level(e))
    ensures e.NAryOperation? ==> Level(e).NAryOperation? && |Level(e).operands| >= |e.operands|
  {
    match e
    case Variable(_) =>
    case Constant(_) =>
    case BinaryOperation(op, a, b) =>
      LevelValid(a);
      LevelValid(b);
    case NAryOperation(op, ops) =>
      var leveled := seq(|ops|, i requires 0 <= i < |ops| => Level(ops[i]));
      forall i | 0 <= i < |ops| ensures Valid(leveled[i]) && EquationFree(leveled[i]) {
        LevelValid(ops[i]);
      }
      var flat := Flatten(op, leveled);
      FlattenLength(op, leveled);
      forall y | y in flat ensures Valid(y) && EquationFree(y) {
        FlattenMembers(op, leveled, y);
        if y in leveled {
          var j :| 0 <= j < |leveled| && leveled[j] == y;
        } else {
          var x :| x in leveled && x.NAryOperation? && x.nop == op && y in x.operands;
          var j :| 0 <= j < |leveled| && leveled[j] == x;
          var k :| 0 <= k < |x.operands| && x.operands[k] == y;
        }
      }
      assert forall i :: 0 <= i < |flat| ==> flat[i] in flat;
    case FunctionOperation(f, a) =>
      LevelValid(a);
  }

  /** After levelling, no n-ary node has a direct child with the same operator. */
  lemma {:induction false} LevelLevelled(e: Expr)
    requires EquationFree(e) && Valid(e)
    ensures Levelled(Level(e))
  {
    match e
    case Variable(_) =>
    case Constant(_) =>
    case BinaryOperation(op, a, b) =>
      LevelLevelled(a);
      LevelLevelled(b);
    case NAryOperation(op, ops) =>
      var leveled := seq(|ops|, i requires 0 <= i < |ops| => Level(ops[i]));
      forall i | 0 <= i < |ops| ensures Levelled(leveled[i]) {
        LevelLevelled(ops[i]);
      }
      FlattenLevelled(op, leveled);
    case FunctionOperation(f, a) =>
      LevelLevelled(a);
  }

  /** Flattening levelled elements gives levelled elements none of which has the operator. */
  lemma {:induction false} FlattenLevelled(op: NAryOperator, xs: seq<Expr>)
    requires forall j :: 0 <= j < |xs| ==> Levelled(xs[j])
    ensures forall y :: y in Flatten(op, xs) ==> Levelled(y) && !(y.NAryOperation? && y.nop == op)
  {
    if |xs| > 0 {
      var init, last := xs[..|xs| - 1], xs[|xs| - 1];
      FlattenLevelled(op, init);
      assert Levelled(last);
      forall y | y in Splice(op, last) ensures Levelled(y) && !(y.NAryOperation? && y.nop == op) {
        if last.NAryOperation? && last.nop == op {
          var k :| 0 <= k < |last.operands| && last.operands[k] == y;
        }
      }
    }
  }

  /** Levelling an already levelled tree returns an equal tree. */
  lemma {:induction false} LevelOfLevelled(e: Expr)
    requires EquationFree(e) && Levelled(e)
    ensures Level(e) == e
  {
    match e
    case Variable(_) =>
    case Constant(_) =>
    case BinaryOperation(op, a, b) =>
      LevelOfLevelled(a);
      LevelOfLevelled(b);
    case NAryOperation(op, ops) =>
      var leveled := seq(|ops|, i requires 0 <= i < |ops| => Level(ops[i]));
      forall i | 0 <= i < |ops| ensures leveled[i] == ops[i] {
        LevelOfLevelled(ops[i]);
      }
      assert leveled == ops;
      FlattenNoop(op, ops);
    case FunctionOperation(f, a) =>
      LevelOfLevelled(a);
  }

  /** Levelling is idempotent. */
  lemma LevelIdempotent(e: Expr)
    requires EquationFree(e) && Valid(e)
    ensures EquationFree(Level(e)) && Level(Level(e)) == Level(e)
  {
    LevelValid(e);
    LevelLevelled(e);
    LevelOfLevelled(Level(e));
  }

  /** (a+b)+(c+d)+e levels to a+b+c+d+e. */
  lemma LevelExample(a: string, b: string, c: string, d: string, x: string)
    ensures var ab := NAryOperation(Addition, [Variable(a), Variable(b)]);
      var cd := NAryOperation(Addition, [Variable(c), Variable(d)]);
      Level(NAryOperation(Addition, [ab, cd, Variable(x)]))
        == NAryOperation(Addition, [Variable(a), Variable(b), Variable(c), Variable(d), Variable(x)])
  {
    var ab := NAryOperation(Addition, [Variable(a), Variable(b)]);
    var cd := NAryOperation(Addition, [Variable(c), Variable(d)]);
    var ops := [ab, cd, Variable(x)];
    assert Levelled(ab) && Levelled(cd) && Levelled(Variable(x));
    LevelOperands(Addition, ops);
    FlattenStep(Addition, [ab], [], ab);
    FlattenStep(Addition, [ab, cd], [Variable(a), Variable(b)], cd);
    FlattenStep(Addition, ops, [Variable(a), Variable(b), Variable(c), Variable(d)], Variable(x));
  }

  /** Over levelled operands, levelling only flattens. */
  lemma LevelOperands(op: NAryOperator, ops: seq<Expr>)
    requires forall i :: 0 <= i < |ops| ==> EquationFree(ops[i]) && Levelled(ops[i])
    ensures EquationFree(NAryOperation(op, ops))
    ensures Level(NAryOperation(op, ops)) == NAryOperation(op, Flatten(op, ops))
  {
    var leveled := seq(|ops|, i requires 0 <= i < |ops| => Level(ops[i]));
    forall i | 0 <= i < |ops| ensures leveled[i] == ops[i] {
      LevelOfLevelled(ops[i]);
    }
    assert leveled == ops;
  }

  lemma FlattenStep(op: NAryOperator, xs: seq<Expr>, init: seq<Expr>, last: Expr)
    requires |xs| > 0 && xs[|xs| - 1] == last && Flatten(op, xs[..|xs| - 1]) == init
    ensures Flatten(op, xs) == init + Splice(op, last)
  {
  }

  // Soundness: levelling relies only on the associativity of + and *.

  lemma {:induction false} FlattenEval(op: NAryOperator, xs: seq<Expr>, env: Env, fn: Interp)
    ensures EvalFold(op, Flatten(op, xs), env, fn) == EvalFold(op, xs, env, fn)
  {
    if |xs| > 0 {
      var init, last := xs[..|xs| - 1], xs[|xs| - 1];
      FlattenEval(op, init, env, fn);
      EvalFoldAppend(op, Flatten(op, init), Splice(op, last), env, fn);
      EvalFoldLast(op, xs, env, fn);
      SpliceEval(op, last, env, fn);
    }
  }

  /** The operands x contributes fold to the value of x. */
  lemma SpliceEval(op: NAryOperator, x: Expr, env: Env, fn: Interp)
    ensures EvalFold(op, Splice(op, x), env, fn) == Eval(x, env, fn)
  {
    if !(x.NAryOperation? && x.nop == op) {
      EvalFoldSingle(op, x, env, fn);
    }
  }

  /** A levelled tree has the value of the original, and no value when the original has none. */
  lemma {:induction false} LevelSound(e: Expr, env: Env, fn: Interp)
    requires EquationFree(e)
    ensures Eval(Level(e), env, fn) == Eval(e, env, fn)
  {
    match e
    case Variable(_) =>
    case Constant(_) =>
    case BinaryOperation(op, a, b) =>
      LevelSound(a, env, fn);
      LevelSound(b, env, fn);
    case NAryOperation(op, ops) =>
      var leveled := seq(|ops|, i requires 0 <= i < |ops| => Level(ops[i]));
      forall i | 0 <= i < |ops| ensures Eval(leveled[i], env, fn) == Eval(ops[i], env, fn) {
        LevelSound(ops[i], env, fn);
      }
      assert EvalAll(leveled, env, fn) == EvalAll(ops, env, fn);
      assert EvalFold(op, leveled, env, fn) == EvalFold(op, ops, env, fn);
      FlattenEval(op, leveled, env, fn);
    case FunctionOperation(f, a) =>
      LevelSound(a, env, fn);
  }
}
