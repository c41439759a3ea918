/**
 * The substitutor: every variable whose name the map holds is replaced by
 * the mapped expression, all variables at once; the inserted expressions are
 * not traversed again. Every other node is rebuilt around its substituted
 * children, as the identity traversal does.
 */
module Substitutor {
  import opened Wrappers
  import opened Expressions
  import opened Semantics

  /** The substitutor applied to e with map m (keys are variable names). */
  function Substitute(e: Expr, m: map<string, Expr>): (r: Expr)
    requires EquationFree(e)
  {
    match e
    case Variable(n) => if n in m then m[n] else e
    case Constant(_) => e
    case BinaryOperation(op, a, b) => BinaryOperation(op, Substitute(a, m), Substitute(b, m))
    case NAryOperation(op, ops) =>
      NAryOperation(op, seq(|ops|, i requires 0 <= i < |ops| => Substitute(ops[i], m)))
    case FunctionOperation(f, a) => FunctionOperation(f, Substitute(a, m))
    case Equation(_, _) => e
  }

  /** A map none of whose keys occurs in the tree changes nothing; the empty map is one. */
  lemma {:induction false} SubstituteUnmapped(e: Expr, m: map<string, Expr>)
    requires EquationFree(e)
    requires forall x :: x in Vars(e) ==> x !in m
    ensures Substitute(e, m) == e
  {
    match e
    case Variable(_) =>
    case Constant(_) =>
    case BinaryOperation(_, a, b) =>
      SubstituteUnmapped(a, m);
      SubstituteUnmapped(b, m);
    case NAryOperation(op, ops) =>
      var s := seq(|ops|, i requires 0 <= i < |ops| => Substitute(ops[i], m));
      forall i | 0 <= i < |ops| ensures s[i] == ops[i] {
        forall x | x in Vars(ops[i]) ensures x !in m {
          VarsOfAllMember(ops, x);
        }
        SubstituteUnmapped(ops[i], m);
      }
      assert s == ops;
    case FunctionOperation(_, a) =>
      SubstituteUnmapped(a, m);
  }

  lemma SubstituteEmpty(e: Expr)
    requires EquationFree(e)
    ensures Substitute(e, map[]) == e
  {
    SubstituteUnmapped(e, map[]);
  }

  /**
   * The variables of the result: those of the tree the map leaves alone, and
   * those of every expression put in for a variable of the tree.
   */
  lemma {:induction false} SubstituteVars(e: Expr, m: map<string, Expr>, y: string)
    requires EquationFree(e)
    ensures y in Vars(Substitute(e, m)) <==>
      (y in Vars(e) && y !in m) || exists x :: x in Vars(e) && x in m && y in Vars(m[x])
  {
    match e
    case Variable(_) =>
    case Constant(_) =>
    case BinaryOperation(_, a, b) =>
      SubstituteVars(a, m, y);
      SubstituteVars(b, m, y);
    case NAryOperation(op, ops) =>
      var s := seq(|ops|, i requires 0 <= i < |ops| => Substitute(ops[i], m));
      forall i | 0 <= i < |ops| ensures (y in Vars(s[i])) ==
        ((y in Vars(ops[i]) && y !in m) || exists x :: x in Vars(ops[i]) && x in m && y in Vars(m[x])) {
        SubstituteVars(ops[i], m, y);
      }
      VarsOfAllMember(s, y);
      VarsOfAllMember(ops, y);
      forall x | x in Vars(e) && x in m && y in Vars(m[x])
        ensures exists i :: 0 <= i < |ops| && y in Vars(s[i])
      {
        VarsOfAllMember(ops, x);
      }
      forall i | 0 <= i < |ops| && y in Vars(s[i]) && (y !in Vars(ops[i]) || y in m)
        ensures exists x :: x in Vars(e) && x in m && y in Vars(m[x])
      {
        var x :| x in Vars(ops[i]) && x in m && y in Vars(m[x]);
        VarsOfAllMember(ops, x);
      }
    case FunctionOperation(_, a) =>
      SubstituteVars(a, m, y);
  }

  /** The environment in which each mapped name takes the value of its expression. */
  function Updated(env: Env, m: map<string, Expr>, fn: Interp): Env {
    x => if x in m && Eval(m[x], env, fn).Some? then Eval(m[x], env, fn).value else env(x)
  }

  /**
   * Substitution is evaluation in the updated environment: when every mapped
   * expression has a value, the result's value is the input's value with each
   * mapped variable bound to that value.
   */
  lemma {:induction false} SubstituteEval(e: Expr, m: map<string, Expr>, env: Env, fn: Interp)
    requires EquationFree(e)
    requires forall x :: x in m ==> Eval(m[x], env, fn).Some?
    ensures Eval(Substitute(e, m), env, fn) == Eval(e, Updated(env, m, fn), fn)
  {
    var env' := Updated(env, m, fn);
    match e
    case Variable(n) =>
    case Constant(_) =>
    case BinaryOperation(_, a, b) =>
      SubstituteEval(a, m, env, fn);
      SubstituteEval(b, m, env, fn);
    case NAryOperation(op, ops) =>
      var s := seq(|ops|, i requires 0 <= i < |ops| => Substitute(ops[i], m));
      forall i | 0 <= i < |ops| ensures Eval(s[i], env, fn) == Eval(ops[i], env', fn) {
        SubstituteEval(ops[i], m, env, fn);
      }
      assert EvalAll(s, env, fn) == EvalAll(ops, env', fn);
    case FunctionOperation(_, a) =>
      SubstituteEval(a, m, env, fn);
  }

  /** Equation-free replacements give an equation-free result. */
  lemma {:induction false} SubstituteEquationFree(e: Expr, m: map<string, Expr>)
    requires EquationFree(e)
    requires forall x :: x in m ==> EquationFree(m[x])
    ensures EquationFree(Substitute(e, m))
  {
    match e
    case Variable(_) =>
    case Constant(_) =>
    case BinaryOperation(_, a, b) =>
      SubstituteEquationFree(a, m);
      SubstituteEquationFree(b, m);
    case NAryOperation(op, ops) =>
      forall i | 0 <= i < |ops| ensures EquationFree(Substitute(ops[i], m)) {
        SubstituteEquationFree(ops[i], m);
      }
    case FunctionOperation(_, a) =>
      SubstituteEquationFree(a, m);
  }

  /** Valid replacements give a valid result: no node loses an operand. */
  lemma {:induction false} SubstituteValid(e: Expr, m: map<string, Expr>)
    requires EquationFree(e) && Valid(e)
    requires forall x :: x in m ==> Valid(m[x])
    ensures Valid(Substitute(e, m))
  {
    match e
    case Variable(_) =>
    case Constant(_) =>
    case BinaryOperation(_, a, b) =>
      SubstituteValid(a, m);
      SubstituteValid(b, m);
    case NAryOperation(op, ops) =>
      var s := seq(|ops|, i requires 0 <= i < |ops| => Substitute(ops[i], m));
      forall i | 0 <= i < |ops| ensures Valid(s[i]) {
        SubstituteValid(ops[i], m);
      }
      assert AllValid(s);
    case FunctionOperation(_, a) =>
      SubstituteValid(a, m);
  }

  /** The map that does in one pass what m followed by n does in two. */
  function Compose(m: map<string, Expr>, n: map<string, Expr>): (c: map<string, Expr>)
    requires forall x :: x in m ==> EquationFree(m[x])
    ensures c.Keys == m.Keys + n.Keys
  {
    map x | x in m.Keys + n.Keys :: if x in m then Substitute(m[x], n) else n[x]
  }

  /**
   * Substitution is simultaneous: a second pass reaches the inserted
   * expressions, but the first pass never revisits them, so two passes are
   * one pass with the composed map.
   */
  lemma {:induction false} SubstituteTwice(e: Expr, m: map<string, Expr>, n: map<string, Expr>)
    requires EquationFree(e)
    requires forall x :: x in m ==> EquationFree(m[x])
    ensures EquationFree(Substitute(e, m))
    ensures Substitute(Substitute(e, m), n) == Substitute(e, Compose(m, n))
  {
    SubstituteEquationFree(e, m);
    match e
    case Variable(_) =>
    case Constant(_) =>
    case BinaryOperation(_, a, b) =>
      SubstituteTwice(a, m, n);
      SubstituteTwice(b, m, n);
    case NAryOperation(op, ops) =>
      var s := seq(|ops|, i requires 0 <= i < |ops| => Substitute(ops[i], m));
      var c := Compose(m, n);
      forall i | 0 <= i < |ops| ensures EquationFree(s[i]) && Substitute(s[i], n) == Substitute(ops[i], c) {
        SubstituteTwice(ops[i], m, n);
      }
    case FunctionOperation(_, a) =>
      SubstituteTwice(a, m, n);
  }

  /** x := x*y, y := 2 applied to x gives x*y: the y put in for x is not replaced. */
  lemma SimultaneousExample()
    ensures var xy := NAryOperation(Product, [Variable("x"), Variable("y")]);
      Substitute(Variable("x"), map["x" := xy, "y" := Constant(2)]) == xy
  {
  }
}
