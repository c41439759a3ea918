/**
 * The collector: under a product it gathers the exponents of operands that
 * share a base (x^2 * x^3 becomes x^(2+3)), and under an addition it gathers
 * the coefficients of addends that share a term (x + 2*x becomes (1+2)*x).
 * Both rules file (key, value) pairs into groups; the source keeps the
 * groups in a hash map, whose iteration order is unspecified, so the model
 * keeps them in order of first arrival and the properties below do not
 * depend on that order.
 */
module Collector {
  import opened Wrappers
  import opened Expressions
  import opened ExpressionFactory
  import opened Semantics
  import opened Grouping

  /** Keys with the values filed under them. */
  type Groups = Grouping.Groups<Expr, Expr>

  // The two rules and the pass.

  /**
   * The (key, value) pair an operand is filed under: (base, exponent) under
   * a product, with exponent 1 for anything but a power; (term, coefficient)
   * under an addition, where only a two-factor product p*q has a coefficient
   * other than 1 (p, for the term q).
   */
  function KeyValue(op: NAryOperator, x: Expr): (Expr, Expr) {
    if op == Product then
      if x.BinaryOperation? && x.bop == Power then (x.first, x.second) else (x, ONE)
    else
      if x.NAryOperation? && x.nop == Product && |x.operands| == 2 then (x.operands[1], x.operands[0]) else (x, ONE)
  }

  function KeyValues(op: NAryOperator, ops: seq<Expr>): (r: seq<(Expr, Expr)>)
    ensures |r| == |ops| && forall i :: 0 <= i < |ops| ==> r[i] == KeyValue(op, ops[i])
  {
    seq(|ops|, i requires 0 <= i < |ops| => KeyValue(op, ops[i]))
  }

  /**
   * One group back as an expression: a key whose only value is 1 stays bare;
   * otherwise the values are summed, as the exponent of the base or as the
   * coefficient in front of the term.
   */
  function Emit(op: NAryOperator, k: Expr, vs: seq<Expr>): Expr {
    if vs == [ONE] then k
    else if op == Product then BinaryOperation(Power, k, Implode(Addition, vs))
    else NAryOperation(Product, [Implode(Addition, vs), k])
  }

  function EmitAll(op: NAryOperator, g: Groups): (r: seq<Expr>)
    ensures |r| == |g| && forall i :: 0 <= i < |g| ==> r[i] == Emit(op, g[i].0, g[i].1)
  {
    seq(|g|, i requires 0 <= i < |g| => Emit(op, g[i].0, g[i].1))
  }

  /** `visitProduct` and `visitAddition`: group, emit each group, implode. */
  function CollectRule(op: NAryOperator, ops: seq<Expr>): Expr {
    Implode(op, EmitAll(op, GroupAll(KeyValues(op, ops))))
  }

  /** The pass: children first; binary and function nodes have no rule of their own. */
  function Collect(e: Expr): Expr
    requires EquationFree(e)
  {
    match e
    case Variable(_) => e
    case Constant(_) => e
    case BinaryOperation(op, a, b) => BinaryOperation(op, Collect(a), Collect(b))
    case NAryOperation(op, ops) => CollectRule(op, seq(|ops|, i requires 0 <= i < |ops| => Collect(ops[i])))
    case FunctionOperation(f, a) => FunctionOperation(f, Collect(a))
    case Equation(_, _) => e
  }

  // Well-formedness and variables.

  /** An operand's key and value are well formed when it is, and share out its variables. */
  lemma KeyValueFacts(op: NAryOperator, x: Expr)
    requires Valid(x) && EquationFree(x)
    ensures Valid(KeyValue(op, x).0) && EquationFree(KeyValue(op, x).0)
    ensures Valid(KeyValue(op, x).1) && EquationFree(KeyValue(op, x).1)
    ensures Vars(x) == Vars(KeyValue(op, x).0) + Vars(KeyValue(op, x).1)
  {
    if op == Addition && x.NAryOperation? && x.nop == Product && |x.operands| == 2 {
      assert x == NAryOperation(Product, [x.operands[0], x.operands[1]]);
      PairFacts(Product, x.operands[0], x.operands[1]);
      assert x.operands[0] in x.operands && x.operands[1] in x.operands;
    }
  }

  /** An emitted group is well formed and has the variables of its key and values. */
  lemma EmitFacts(op: NAryOperator, k: Expr, vs: seq<Expr>)
    requires |vs| >= 1 && Valid(k) && EquationFree(k)
    requires forall i :: 0 <= i < |vs| ==> Valid(vs[i]) && EquationFree(vs[i])
    ensures Valid(Emit(op, k, vs)) && EquationFree(Emit(op, k, vs))
    ensures Vars(Emit(op, k, vs)) == Vars(k) + VarsOfAll(vs)
  {
    if vs == [ONE] {
      assert vs[..0] == [];
    } else if op == Addition {
      PairFacts(Product, Implode(Addition, vs), k);
    }
  }

  /** The pairs of well-formed operands are well formed and share out the operands' variables. */
  lemma PairsFacts(op: NAryOperator, ops: seq<Expr>)
    requires forall i :: 0 <= i < |ops| ==> Valid(ops[i]) && EquationFree(ops[i])
    ensures var pairs := KeyValues(op, ops);
      forall j :: 0 <= j < |ops| ==>
        && Valid(pairs[j].0) && EquationFree(pairs[j].0) && Valid(pairs[j].1) && EquationFree(pairs[j].1)
        && Vars(ops[j]) == Vars(pairs[j].0) + Vars(pairs[j].1)
  {
    forall j | 0 <= j < |ops| {
      KeyValueFacts(op, ops[j]);
    }
  }

  /** Group i of a regrouping, emitted, is well formed and mentions the variables of its key and values. */
  lemma EmittedFacts(op: NAryOperator, ops: seq<Expr>, g: Groups, i: nat)
    requires forall i :: 0 <= i < |ops| ==> Valid(ops[i]) && EquationFree(ops[i])
    requires Regroups(g, KeyValues(op, ops)) && i < |g|
    ensures && Valid(Emit(op, g[i].0, g[i].1)) && EquationFree(Emit(op, g[i].0, g[i].1))
      && Vars(Emit(op, g[i].0, g[i].1)) == Vars(g[i].0) + VarsOfAll(g[i].1)
  {
    var pairs := KeyValues(op, ops);
    PairsFacts(op, ops);
    forall m | 0 <= m < |g[i].1| ensures Valid(g[i].1[m]) && EquationFree(g[i].1[m]) {
      var j := GroupedFrom(pairs, g, i, m);
    }
    var j := GroupedFrom(pairs, g, i, 0);
    EmitFacts(op, g[i].0, g[i].1);
  }

  /** A variable of emitted group i is a variable of some operand. */
  lemma EmittedVarFrom(op: NAryOperator, ops: seq<Expr>, g: Groups, i: nat, x: string) returns (j: nat)
    requires forall i :: 0 <= i < |ops| ==> Valid(ops[i]) && EquationFree(ops[i])
    requires Regroups(g, KeyValues(op, ops)) && i < |g|
    requires x in Vars(Emit(op, g[i].0, g[i].1))
    ensures j < |ops| && x in Vars(ops[j])
  {
    var pairs := KeyValues(op, ops);
    PairsFacts(op, ops);
    EmittedFacts(op, ops, g, i);
    var m: nat := 0;
    if x !in Vars(g[i].0) {
      VarsOfAllMember(g[i].1, x);
      m :| 0 <= m < |g[i].1| && x in Vars(g[i].1[m]);
    }
    j := GroupedFrom(pairs, g, i, m);
  }

  /** A variable of operand j is a variable of some emitted group. */
  lemma EmittedVarInto(op: NAryOperator, ops: seq<Expr>, g: Groups, j: nat, x: string) returns (i: nat)
    requires forall i :: 0 <= i < |ops| ==> Valid(ops[i]) && EquationFree(ops[i])
    requires Regroups(g, KeyValues(op, ops))
    requires j < |ops| && x in Vars(ops[j])
    ensures i < |g| && x in Vars(Emit(op, g[i].0, g[i].1))
  {
    var pairs := KeyValues(op, ops);
    PairsFacts(op, ops);
    var m;
    i, m := GroupedInto(pairs, g, j);
    EmittedFacts(op, ops, g, i);
    VarsOfAllMember(g[i].1, x);
  }

  /** The emitted groups mention exactly the variables of the operands. */
  lemma EmittedVars(op: NAryOperator, ops: seq<Expr>, g: Groups, x: string)
    requires forall i :: 0 <= i < |ops| ==> Valid(ops[i]) && EquationFree(ops[i])
    requires Regroups(g, KeyValues(op, ops))
    ensures x in VarsOfAll(EmitAll(op, g)) <==> x in VarsOfAll(ops)
  {
    var emitted := EmitAll(op, g);
    VarsOfAllMember(emitted, x);
    VarsOfAllMember(ops, x);
    if i :| 0 <= i < |emitted| && x in Vars(emitted[i]) {
      var j := EmittedVarFrom(op, ops, g, i, x);
    }
    if j :| 0 <= j < |ops| && x in Vars(ops[j]) {
      var i := EmittedVarInto(op, ops, g, j, x);
      assert x in Vars(emitted[i]);
    }
  }

  /**
   * Emitting the groups in any order the hash map may iterate them keeps the
   * tree well formed and mentions exactly the operands' variables.
   */
  lemma AnyOrderFacts(op: NAryOperator, ops: seq<Expr>, g: Groups)
    requires forall i :: 0 <= i < |ops| ==> Valid(ops[i]) && EquationFree(ops[i])
    requires Regroups(g, KeyValues(op, ops))
    ensures Valid(Implode(op, EmitAll(op, g))) && EquationFree(Implode(op, EmitAll(op, g)))
    ensures Vars(Implode(op, EmitAll(op, g))) == VarsOfAll(ops)
  {
    var emitted := EmitAll(op, g);
    forall i | 0 <= i < |emitted| ensures Valid(emitted[i]) && EquationFree(emitted[i]) {
      EmittedFacts(op, ops, g, i);
    }
    forall x ensures x in VarsOfAll(emitted) <==> x in VarsOfAll(ops) {
      EmittedVars(op, ops, g, x);
    }
  }

  /** Collecting keeps the tree well formed and mentions exactly the same variables. */
  lemma CollectRuleFacts(op: NAryOperator, ops: seq<Expr>)
    requires forall i :: 0 <= i < |ops| ==> Valid(ops[i]) && EquationFree(ops[i])
    ensures Valid(CollectRule(op, ops)) && EquationFree(CollectRule(op, ops))
    ensures Vars(CollectRule(op, ops)) == VarsOfAll(ops)
  {
    GroupAllFacts(KeyValues(op, ops));
    AnyOrderFacts(op, ops, GroupAll(KeyValues(op, ops)));
  }

  /** The pass keeps the tree well formed and mentions exactly the same variables. */
  lemma {:induction false} CollectFacts(e: Expr)
    requires Valid(e) && EquationFree(e)
    ensures Valid(Collect(e)) && EquationFree(Collect(e)) && Vars(Collect(e)) == Vars(e)
  {
    match e
    case Variable(_) =>
    case Constant(_) =>
    case BinaryOperation(op, a, b) =>
      CollectFacts(a);
      CollectFacts(b);
    case NAryOperation(op, ops) =>
      var s := seq(|ops|, i requires 0 <= i < |ops| => Collect(ops[i]));
      forall i | 0 <= i < |ops| ensures Valid(s[i]) && EquationFree(s[i]) && Vars(s[i]) == Vars(ops[i]) {
        CollectFacts(ops[i]);
      }
      CollectRuleFacts(op, s);
      forall x ensures x in VarsOfAll(s) <==> x in VarsOfAll(ops) {
        VarsOfAllMember(s, x);
        VarsOfAllMember(ops, x);
      }
    case FunctionOperation(f, a) =>
      CollectFacts(a);
  }

  // Soundness: every tree with a value is collected to one with the same value.

  /** What a (key, value) pair stands for: key^value under a product, value*key under an addition. */
  function PairExpr(op: NAryOperator, p: (Expr, Expr)): Expr {
    if op == Product then BinaryOperation(Power, p.0, p.1) else NAryOperation(Product, [p.1, p.0])
  }

  function PairExprs(op: NAryOperator, ps: seq<(Expr, Expr)>): (r: seq<Expr>)
    ensures |r| == |ps| && forall i :: 0 <= i < |ps| ==> r[i] == PairExpr(op, ps[i])
  {
    seq(|ps|, i requires 0 <= i < |ps| => PairExpr(op, ps[i]))
  }

  lemma PairExprsAppend(op: NAryOperator, a: seq<(Expr, Expr)>, b: seq<(Expr, Expr)>)
    ensures PairExprs(op, a + b) == PairExprs(op, a) + PairExprs(op, b)
  {
    assert forall i :: 0 <= i < |a + b| ==> PairExprs(op, a + b)[i] == (PairExprs(op, a) + PairExprs(op, b))[i];
  }

  /** Regrouping the pairs regroups the expressions they stand for. */
  lemma {:induction false} PairExprsPermutation(op: NAryOperator, a: seq<(Expr, Expr)>, b: seq<(Expr, Expr)>)
    requires multiset(a) == multiset(b)
    ensures multiset(PairExprs(op, a)) == multiset(PairExprs(op, b))
    decreases |a|
  {
    if |a| == 0 {
      assert |multiset(b)| == 0;
    } else {
      var init, x := a[..|a| - 1], a[|a| - 1];
      var j := MatchLast(a, b);
      var u, w := b[..j], b[j + 1..];
      PairExprsPermutation(op, init, u + w);
      assert a == init + [x];
      assert b == u + [x] + w;
      PairExprsAppend(op, init, [x]);
      PairExprsAppend(op, u + [x], w);
      PairExprsAppend(op, u, [x]);
      PairExprsAppend(op, u, w);
    }
  }

  /** An operand with a value has the value of the expression its pair stands for. */
  lemma KeyValueSound(op: NAryOperator, x: Expr, env: Env, fn: Interp)
    requires Eval(x, env, fn).Some?
    ensures Eval(PairExpr(op, KeyValue(op, x)), env, fn) == Eval(x, env, fn)
  {
    if op == Product {
      if x.BinaryOperation? && x.bop == Power {
        assert PairExpr(op, KeyValue(op, x)) == x;
      } else {
        assert PairExpr(op, KeyValue(op, x)) == BinaryOperation(Power, x, ONE);
        PowerOfOne(x, env, fn);
      }
    } else if x.NAryOperation? && x.nop == Product && |x.operands| == 2 {
      assert x.operands == [x.operands[0], x.operands[1]];
      assert PairExpr(op, KeyValue(op, x)) == x;
    } else {
      assert PairExpr(op, KeyValue(op, x)) == NAryOperation(Product, [ONE, x]);
      OneTimes(x, env, fn);
    }
  }

  /** x^1 has the value of x. */
  lemma PowerOfOne(x: Expr, env: Env, fn: Interp)
    requires Eval(x, env, fn).Some?
    ensures Eval(BinaryOperation(Power, x, ONE), env, fn) == Eval(x, env, fn)
  {
    var v := Eval(x, env, fn).value;
    assert (1.0).Floor == 1;
    assert RealPow(v, 1) == v * RealPow(v, 0);
  }

  /** 1*x has the value of x. */
  lemma OneTimes(x: Expr, env: Env, fn: Interp)
    requires Eval(x, env, fn).Some?
    ensures Eval(NAryOperation(Product, [ONE, x]), env, fn) == Eval(x, env, fn)
  {
    EvalPair(Product, ONE, x, 1.0, Eval(x, env, fn).value, env, fn);
  }

  /** A power pair k^c with a value: both parts have one, c is an integer and the value is the integer power. */
  lemma PowerPairFacts(k: Expr, c: Expr, env: Env, fn: Interp)
    requires Eval(BinaryOperation(Power, k, c), env, fn).Some?
    ensures Eval(k, env, fn).Some? && Eval(c, env, fn).Some? && IsInteger(Eval(c, env, fn).value)
    ensures IntPow(Eval(k, env, fn).value, Eval(c, env, fn).value.Floor).Some?
    ensures Eval(BinaryOperation(Power, k, c), env, fn).value == IntPow(Eval(k, env, fn).value, Eval(c, env, fn).value.Floor).value
  {
  }

  /** Values all present and each w^c_i: the values are the powers of w. */
  lemma ValuesPowers(pv: seq<Option<real>>, cs: seq<real>, w: real)
    requires |pv| == |cs|
    requires forall i :: 0 <= i < |cs| ==> IntPow(w, cs[i].Floor).Some?
    requires forall i :: 0 <= i < |pv| ==> pv[i].Some? && pv[i].value == IntPow(w, cs[i].Floor).value
    ensures Values(pv).Some? && Values(pv).value == Powers(w, cs)
  {
  }

  /** (s + l) * k = s * k + l * k, for values that may be missing. */
  lemma LiftDistribute(s: Option<real>, l: Option<real>, k: Option<real>)
    requires k.Some?
    ensures Lift(Addition, Lift(Product, s, k), Lift(Product, l, k)) == Lift(Product, Lift(Addition, s, l), k)
  {
    if s.Some? && l.Some? {
      Distribute(s.value, l.value, k.value);
      var u, v := Lift(Addition, Lift(Product, s, k), Lift(Product, l, k)), Lift(Product, Lift(Addition, s, l), k);
      assert u.value == s.value * k.value + l.value * k.value;
      assert v.value == (s.value + l.value) * k.value;
    }
  }

  /** SumPairsValue for vs from SumPairsValue for all but its last coefficient. */
  lemma SumPairsStep(k: Expr, vs: seq<Expr>, env: Env, fn: Interp)
    requires |vs| > 0 && Eval(k, env, fn).Some?
    requires EvalFold(Addition, PairExprs(Addition, Members(k, vs[..|vs| - 1])), env, fn)
          == Lift(Product, EvalFold(Addition, vs[..|vs| - 1], env, fn), Eval(k, env, fn))
    ensures EvalFold(Addition, PairExprs(Addition, Members(k, vs)), env, fn)
         == Lift(Product, EvalFold(Addition, vs, env, fn), Eval(k, env, fn))
  {
    SumPairsLast(k, vs, env, fn);
    EvalFoldLast(Addition, vs, env, fn);
    LiftDistribute(EvalFold(Addition, vs[..|vs| - 1], env, fn), Eval(vs[|vs| - 1], env, fn), Eval(k, env, fn));
  }

  lemma ZeroTimes(z: Option<real>, k: Option<real>)
    requires z.Some? && z.value == 0.0 && k.Some?
    ensures Lift(Product, z, k) == Some(0.0)
  {
    assert Lift(Product, z, k).value == 0.0 * k.value;
  }

  /** The coefficient pairs of a group: those of all but the last coefficient c, plus c*k. */
  lemma SumPairsLast(k: Expr, vs: seq<Expr>, env: Env, fn: Interp)
    requires |vs| > 0
    ensures EvalFold(Addition, PairExprs(Addition, Members(k, vs)), env, fn)
         == Lift(Addition, EvalFold(Addition, PairExprs(Addition, Members(k, vs[..|vs| - 1])), env, fn),
                 Lift(Product, Eval(vs[|vs| - 1], env, fn), Eval(k, env, fn)))
  {
    var init, c := vs[..|vs| - 1], vs[|vs| - 1];
    assert Members(k, vs) == Members(k, init) + [(k, c)];
    PairExprsAppend(Addition, Members(k, init), [(k, c)]);
    var p := NAryOperation(Product, [c, k]);
    assert PairExprs(Addition, [(k, c)]) == [p];
    EvalFoldAppend(Addition, PairExprs(Addition, Members(k, init)), [p], env, fn);
    EvalFoldSingle(Addition, p, env, fn);
    EvalPairLift(Product, c, k, env, fn);
  }

  /**
   * The coefficient pairs of a group add up to the sum of the coefficients
   * times the term, and have no value exactly when that has none.
   */
  lemma {:induction false} SumPairsValue(k: Expr, vs: seq<Expr>, env: Env, fn: Interp)
    requires Eval(k, env, fn).Some?
    ensures EvalFold(Addition, PairExprs(Addition, Members(k, vs)), env, fn)
         == Lift(Product, EvalFold(Addition, vs, env, fn), Eval(k, env, fn))
  {
    if |vs| == 0 {
      assert PairExprs(Addition, Members(k, vs)) == [];
      ZeroTimes(EvalFold(Addition, vs, env, fn), Eval(k, env, fn));
    } else {
      SumPairsValue(k, vs[..|vs| - 1], env, fn);
      SumPairsStep(k, vs, env, fn);
    }
  }

  /** The power pairs of a group with a value: the base and every exponent have one, and the pair values are the powers. */
  lemma PowerPairsFacts(k: Expr, vs: seq<Expr>, env: Env, fn: Interp)
    requires |vs| >= 1 && Values(EvalAll(PairExprs(Product, Members(k, vs)), env, fn)).Some?
    ensures Eval(k, env, fn).Some? && Values(EvalAll(vs, env, fn)).Some?
    ensures var cs := Values(EvalAll(vs, env, fn)).value;
      forall i :: 0 <= i < |cs| ==> IsInteger(cs[i]) && IntPow(Eval(k, env, fn).value, cs[i].Floor).Some?
    ensures Values(EvalAll(PairExprs(Product, Members(k, vs)), env, fn)).value
         == Powers(Eval(k, env, fn).value, Values(EvalAll(vs, env, fn)).value)
  {
    var ps := PairExprs(Product, Members(k, vs));
    var pv := EvalAll(ps, env, fn);
    forall i | 0 <= i < |vs| ensures Eval(vs[i], env, fn).Some? && Eval(k, env, fn).Some?
      ensures IsInteger(Eval(vs[i], env, fn).value)
      ensures IntPow(Eval(k, env, fn).value, Eval(vs[i], env, fn).value.Floor).Some?
      ensures pv[i].value == IntPow(Eval(k, env, fn).value, Eval(vs[i], env, fn).value.Floor).value
    {
      assert pv[i].Some? && ps[i] == BinaryOperation(Power, k, vs[i]);
      PowerPairFacts(k, vs[i], env, fn);
    }
    var cs := Values(EvalAll(vs, env, fn)).value;
    ValuesPowers(pv, cs, Eval(k, env, fn).value);
  }

  /** The value of a group's expression under an addition: the sum of the coefficients times the term. */
  lemma EmitSumSound(k: Expr, vs: seq<Expr>, env: Env, fn: Interp)
    requires |vs| >= 1
    requires EvalFold(Addition, PairExprs(Addition, Members(k, vs)), env, fn).Some?
    ensures Eval(Emit(Addition, k, vs), env, fn) == EvalFold(Addition, PairExprs(Addition, Members(k, vs)), env, fn)
  {
    var ps := PairExprs(Addition, Members(k, vs));
    assert EvalAll(ps, env, fn)[0].Some?;
    assert ps[0] == NAryOperation(Product, [vs[0], k]);
    EvalPairLift(Product, vs[0], k, env, fn);
    SumPairsValue(k, vs, env, fn);
    EmitSumValue(k, vs, env, fn);
  }

  /** A group's expression under a sum is the sum of its coefficients times the key. */
  lemma EmitSumValue(k: Expr, vs: seq<Expr>, env: Env, fn: Interp)
    requires |vs| >= 1 && Eval(k, env, fn).Some?
    ensures Eval(Emit(Addition, k, vs), env, fn) == Lift(Product, EvalFold(Addition, vs, env, fn), Eval(k, env, fn))
  {
    if vs == [ONE] {
      EvalFoldSingle(Addition, ONE, env, fn);
      assert 1.0 * Eval(k, env, fn).value == Eval(k, env, fn).value;
    } else {
      ImplodeEval(Addition, vs, env, fn);
      EvalPairLift(Product, Implode(Addition, vs), k, env, fn);
    }
  }

  /** The value of a group's expression under a product: the base to the sum of the exponents. */
  lemma EmitPowerSound(k: Expr, vs: seq<Expr>, env: Env, fn: Interp)
    requires |vs| >= 1
    requires EvalFold(Product, PairExprs(Product, Members(k, vs)), env, fn).Some?
    ensures Eval(Emit(Product, k, vs), env, fn) == EvalFold(Product, PairExprs(Product, Members(k, vs)), env, fn)
  {
    var p := EvalFold(Product, PairExprs(Product, Members(k, vs)), env, fn);
    PowerPairsFacts(k, vs, env, fn);
    var w := Eval(k, env, fn).value;
    var cs := Values(EvalAll(vs, env, fn)).value;
    assert p.value == Prod(Powers(w, cs));
    if vs == [ONE] {
      assert cs[0] == 1.0;
      SinglePower(cs, w);
      assert Emit(Product, k, vs) == k;
    } else {
      EmitPowerMany(k, vs, w, cs, env, fn);
    }
  }

  /** A group of several exponents, or one that is not 1: the base to their sum. */
  lemma EmitPowerMany(k: Expr, vs: seq<Expr>, w: real, cs: seq<real>, env: Env, fn: Interp)
    requires |vs| >= 1 && vs != [ONE] && Eval(k, env, fn) == Some(w)
    requires Values(EvalAll(vs, env, fn)).Some? && Values(EvalAll(vs, env, fn)).value == cs
    requires forall i :: 0 <= i < |cs| ==> IsInteger(cs[i]) && IntPow(w, cs[i].Floor).Some?
    ensures Eval(Emit(Product, k, vs), env, fn).Some? && Eval(Emit(Product, k, vs), env, fn).value == Prod(Powers(w, cs))
  {
    ImplodeEval(Addition, vs, env, fn);
    PowersSum(w, cs);
    EmitPowerValue(k, Implode(Addition, vs), w, Sum(cs), Prod(Powers(w, cs)), env, fn);
  }

  lemma SinglePower(cs: seq<real>, w: real)
    requires |cs| == 1 && cs[0] == 1.0
    ensures IntPow(w, cs[0].Floor).Some? && Prod(Powers(w, cs)) == w
  {
    assert (1.0).Floor == 1;
    assert RealPow(w, 1) == w * RealPow(w, 0);
    assert Powers(w, cs)[..0] == [];
  }

  /** k^s for an integer s whose power has the value p. */
  lemma EmitPowerValue(k: Expr, s: Expr, w: real, y: real, p: real, env: Env, fn: Interp)
    requires Eval(k, env, fn) == Some(w) && Eval(s, env, fn) == Some(y)
    requires IsInteger(y) && IntPow(w, y.Floor).Some? && IntPow(w, y.Floor).value == p
    ensures Eval(BinaryOperation(Power, k, s), env, fn) == Some(p)
  {
  }

  lemma EmitAllLast(op: NAryOperator, g: Groups)
    requires |g| > 0
    ensures EmitAll(op, g) == EmitAll(op, g[..|g| - 1]) + [Emit(op, g[|g| - 1].0, g[|g| - 1].1)]
  {
  }

  /** A group's expression has the value of the pairs it gathers, whenever those have one. */
  lemma EmitSound(op: NAryOperator, k: Expr, vs: seq<Expr>, env: Env, fn: Interp)
    requires |vs| >= 1
    requires EvalFold(op, PairExprs(op, Members(k, vs)), env, fn).Some?
    ensures Eval(Emit(op, k, vs), env, fn) == EvalFold(op, PairExprs(op, Members(k, vs)), env, fn)
  {
    if op == Addition {
      EmitSumSound(k, vs, env, fn);
    } else {
      EmitPowerSound(k, vs, env, fn);
    }
  }

  /** The emitted groups have the value of all the pairs, whenever those have one. */
  lemma {:induction false} GroupsSound(op: NAryOperator, g: Groups, env: Env, fn: Interp)
    requires forall i :: 0 <= i < |g| ==> |g[i].1| >= 1
    requires EvalFold(op, PairExprs(op, Ungroup(g)), env, fn).Some?
    ensures EvalFold(op, EmitAll(op, g), env, fn) == EvalFold(op, PairExprs(op, Ungroup(g)), env, fn)
  {
    if |g| == 0 {
      assert EmitAll(op, g) == [];
    } else {
      var init, last := g[..|g| - 1], g[|g| - 1];
      var a, b := PairExprs(op, Ungroup(init)), PairExprs(op, Members(last.0, last.1));
      PairExprsAppend(op, Ungroup(init), Members(last.0, last.1));
      EvalFoldAppend(op, a, b, env, fn);
      GroupsSound(op, init, env, fn);
      EmitSound(op, last.0, last.1, env, fn);
      var em := Emit(op, last.0, last.1);
      EmitAllLast(op, g);
      EvalFoldAppend(op, EmitAll(op, init), [em], env, fn);
      EvalFoldSingle(op, em, env, fn);
    }
  }

  /**
   * Emitting the groups in any order the hash map may iterate them keeps
   * the value of a non-empty operand list that has one.
   */
  lemma AnyOrderSound(op: NAryOperator, ops: seq<Expr>, g: Groups, env: Env, fn: Interp)
    requires |ops| >= 1 && EvalFold(op, ops, env, fn).Some?
    requires Regroups(g, KeyValues(op, ops))
    ensures Eval(Implode(op, EmitAll(op, g)), env, fn) == EvalFold(op, ops, env, fn)
  {
    var pairs := KeyValues(op, ops);
    var ps := PairExprs(op, pairs);
    var ov := EvalAll(ops, env, fn);
    forall i | 0 <= i < |ops| ensures Eval(ps[i], env, fn) == Eval(ops[i], env, fn) {
      assert ov[i].Some?;
      KeyValueSound(op, ops[i], env, fn);
    }
    assert EvalAll(ps, env, fn) == ov;
    PairExprsPermutation(op, Ungroup(g), pairs);
    EvalFoldPermutation(op, PairExprs(op, Ungroup(g)), ps, env, fn);
    GroupsSound(op, g, env, fn);
    assert |g| >= 1 by {
      assert pairs[0] in multiset(Ungroup(g));
    }
    ImplodeEval(op, EmitAll(op, g), env, fn);
  }

  /** One application of the rule: a non-empty operand list with a value keeps it. */
  lemma CollectRuleSound(op: NAryOperator, ops: seq<Expr>, env: Env, fn: Interp)
    requires |ops| >= 1 && EvalFold(op, ops, env, fn).Some?
    ensures Eval(CollectRule(op, ops), env, fn) == EvalFold(op, ops, env, fn)
  {
    GroupAllFacts(KeyValues(op, ops));
    AnyOrderSound(op, ops, GroupAll(KeyValues(op, ops)), env, fn);
  }

  /** The pass is sound: a tree with a value is collected to a tree with the same value. */
  lemma {:induction false} CollectSound(e: Expr, env: Env, fn: Interp)
    requires Valid(e) && EquationFree(e) && Eval(e, env, fn).Some?
    ensures Eval(Collect(e), env, fn) == Eval(e, env, fn)
  {
    match e
    case Variable(_) =>
    case Constant(_) =>
    case BinaryOperation(op, a, b) =>
      CollectSound(a, env, fn);
      CollectSound(b, env, fn);
    case NAryOperation(op, ops) =>
      var s := seq(|ops|, i requires 0 <= i < |ops| => Collect(ops[i]));
      var ov := EvalAll(ops, env, fn);
      forall i | 0 <= i < |ops| ensures Eval(s[i], env, fn) == Eval(ops[i], env, fn) {
        assert ov[i].Some?;
        assert ops[i] in ops;
        CollectSound(ops[i], env, fn);
      }
      assert EvalAll(s, env, fn) == ov;
      CollectRuleSound(op, s, env, fn);
    case FunctionOperation(f, a) =>
      CollectSound(a, env, fn);
  }
}
