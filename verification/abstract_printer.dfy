/**
 * The printer template: precedence-aware parentheses and signed sums, with
 * the concrete layout left to hooks. The stack of enclosing operators is
 * modelled by passing each node the operator of its parent (None at the top
 * and inside a function's argument). The hooks are given the texts of the
 * operands, printed in the node's own context.
 */
module AbstractPrinter {
  import opened Wrappers
  import opened Expressions
  import opened Decimal
  import opened Text
  import opened Environment
  import opened ExpressionFactory
  import opened Semantics

  /** The constructor's arguments and the subclass's hooks. */
  datatype Style = Style(
    parenthesizeDivision: bool,
    additionConcatenator: string,
    subtractionConcatenator: string,
    parenthesize: string -> string,
    printBinary: (BinaryOperator, string, string) -> string,
    printNAry: (NAryOperator, seq<string>) -> string,
    printFunction: (Function, string) -> string)

  /** An operand of a sum: its sign and what is printed after the sign. */
  datatype Addend = Addend(positive: bool, content: Expr)

  /** `parenthesizeIfNeeded`: the text of a node with operator current, whose parent is parent. */
  function ParenthesizeIfNeeded(st: Style, parent: Option<Operator>, current: Operator, s: string): string {
    if parent == Some(BinaryOp(Division)) && !st.parenthesizeDivision then s
    else if parent.Some? && parent.value.Precedence() >= current.Precedence() then st.parenthesize(s)
    else s
  }

  /**
   * The trees the printer can print below the top: valid and without an
   * equation. An equation reached through the generic `visit` is dispatched
   * back to that same `visit` and never printed.
   */
  predicate Printable(e: Expr) {
    Valid(e) && EquationFree(e)
  }

  predicate AllPrintable(ops: seq<Expr>) {
    forall i :: 0 <= i < |ops| ==> Printable(ops[i])
  }

  /**
   * `visit(Equation)`, the only way an equation is printed: called on an
   * equation at the top, it prints each member as a tree of its own.
   */
  function PrintTop(st: Style, e: Expr): (r: string)
    requires Printable(e) || (e.Equation? && Printable(e.firstMember) && Printable(e.secondMember))
    ensures !e.Equation? ==> r == Print(st, e, None)
  {
    if e.Equation? then Print(st, e.firstMember, None) + " = " + Print(st, e.secondMember, None)
    else Print(st, e, None)
  }

  /** An equation's text is its members' texts as trees of their own, around " = ". */
  lemma EquationSides(st: Style, a: Expr, b: Expr)
    requires Printable(a) && Printable(b)
    ensures PrintTop(st, Equation(a, b)) == PrintTop(st, a) + " = " + PrintTop(st, b)
  {
  }

  /** The text of a tree whose parent has operator parent. */
  function Print(st: Style, e: Expr, parent: Option<Operator>): string
    requires Printable(e)
    decreases Size(e), 0
  {
    match e
    case Variable(n) => n
    case Constant(v) => if v < 0 then st.parenthesize(IntToString(v)) else IntToString(v)
    case BinaryOperation(op, a, b) =>
      var s := st.printBinary(op, Print(st, a, Some(BinaryOp(op))), Print(st, b, Some(BinaryOp(op))));
      if op != Division || st.parenthesizeDivision then ParenthesizeIfNeeded(st, parent, BinaryOp(op), s) else s
    case NAryOperation(op, ops) =>
      assert AllPrintable(ops) by {
        assert AllValid(ops) && forall i :: 0 <= i < |ops| ==> EquationFree(ops[i]);
      }
      var s := if op == Addition then AdditionText(st, Terms(st, ops))
        else st.printNAry(op, Prints(st, ops, Some(NAryOp(op))));
      ParenthesizeIfNeeded(st, parent, NAryOp(op), s)
    case FunctionOperation(f, a) => st.printFunction(f, Print(st, a, None))
    case Equation(_, _) => assert false; ""
  }

  /** The operands' texts, each printed under the same parent. */
  function Prints(st: Style, ops: seq<Expr>, parent: Option<Operator>): (r: seq<string>)
    requires AllPrintable(ops)
    ensures |r| == |ops|
    decreases SizeOfAll(ops), 1
  {
    if |ops| == 0 then []
    else
      assert SizeOfAll(ops) == SizeOfAll(ops[..|ops| - 1]) + Size(ops[|ops| - 1]);
      Prints(st, ops[..|ops| - 1], parent) + [Print(st, ops[|ops| - 1], parent)]
  }

  /** The signed operands of a sum, each content printed under the addition. */
  function Terms(st: Style, ops: seq<Expr>): (r: seq<(bool, string)>)
    requires AllPrintable(ops)
    ensures |r| == |ops|
    decreases SizeOfAll(ops), 1
  {
    if |ops| == 0 then []
    else
      var a := AddendOf(ops[|ops| - 1]);
      assert SizeOfAll(ops) == SizeOfAll(ops[..|ops| - 1]) + Size(ops[|ops| - 1]);
      Terms(st, ops[..|ops| - 1]) + [(a.positive, Print(st, a.content, Some(NAryOp(Addition))))]
  }

  /** Each operand's text is its own print under the parent. */
  lemma {:induction false} PrintsAt(st: Style, ops: seq<Expr>, parent: Option<Operator>, i: nat)
    requires AllPrintable(ops) && i < |ops|
    ensures Prints(st, ops, parent)[i] == Print(st, ops[i], parent)
    decreases |ops|
  {
    if i < |ops| - 1 {
      PrintsAt(st, ops[..|ops| - 1], parent, i);
    }
  }

  /** Each term is the sign and the printed content of the operand's addend. */
  lemma {:induction false} TermsAt(st: Style, ops: seq<Expr>, i: nat)
    requires AllPrintable(ops) && i < |ops|
    ensures Terms(st, ops)[i] == (AddendOf(ops[i]).positive, Print(st, AddendOf(ops[i]).content, Some(NAryOp(Addition))))
    decreases |ops|
  {
    if i < |ops| - 1 {
      TermsAt(st, ops[..|ops| - 1], i);
    }
  }

  /** The sign printed before the i-th operand of a sum; first tells whether i is 0. */
  function Sign(st: Style, positive: bool, first: bool): string {
    if positive then (if first then "" else " " + st.additionConcatenator + " ")
    else if first then st.subtractionConcatenator
    else " " + st.subtractionConcatenator + " "
  }

  /** `printAddition`: each operand's sign, then its text. */
  function AdditionText(st: Style, terms: seq<(bool, string)>): string {
    if |terms| == 0 then ""
    else
      var t := terms[|terms| - 1];
      AdditionText(st, terms[..|terms| - 1]) + Sign(st, t.0, |terms| == 1) + t.1
  }

  /** The product after its leading negative constant c is made positive; -1 is dropped. */
  function Unsigned(c: int, rest: seq<Expr>): Expr {
    if c == -1 then Implode(Product, rest) else Implode(Product, [Constant(-c)] + rest)
  }

  /** `unNegate`: the tree without its minus sign, or None when it has none to remove. */
  function UnNegate(e: Expr): (r: Option<Expr>)
    requires Valid(e)
    ensures r.Some? ==> Valid(r.value) && Size(r.value) <= Size(e)
    ensures r.Some? && EquationFree(e) ==> EquationFree(r.value)
  {
    match e
    case NAryOperation(Product, ops) =>
      if ops[0].Constant? && ops[0].value < 0 then
        UnsignedSize(ops);
        Some(Unsigned(ops[0].value, ops[1..]))
      else None
    case Constant(v) => if v < 0 then Some(Constant(-v)) else None
    case BinaryOperation(Division, a, b) =>
      var n, d := UnNegate(a), UnNegate(b);
      if n.Some? != d.Some? then
        Some(BinaryOperation(Division, if n.Some? then n.value else a, if d.Some? then d.value else b))
      else None
    case _ => None
  }

  lemma UnsignedSize(ops: seq<Expr>)
    requires Valid(NAryOperation(Product, ops)) && ops[0].Constant? && ops[0].value < 0
    ensures Valid(Unsigned(ops[0].value, ops[1..]))
    ensures Size(Unsigned(ops[0].value, ops[1..])) <= Size(NAryOperation(Product, ops))
    ensures EquationFree(NAryOperation(Product, ops)) ==> EquationFree(Unsigned(ops[0].value, ops[1..]))
  {
    var rest := ops[1..];
    var c := ops[0].value;
    assert AllValid(rest) by {
      assert forall i :: 0 <= i < |rest| ==> rest[i] == ops[i + 1];
    }
    SizeOfAllFront(ops);
    if c == -1 {
      if |rest| == 1 {
        assert SizeOfAll(rest) == Size(rest[0]) by {
          assert rest[..0] == [];
        }
      }
    } else {
      var xs := [Constant(-c)] + rest;
      assert AllValid(xs) by {
        assert forall i :: 1 <= i < |xs| ==> xs[i] == rest[i - 1];
      }
      SizeOfAllAppend([Constant(-c)], rest);
      assert SizeOfAll([Constant(-c)]) == 1 by {
        assert [Constant(-c)][..0] == [];
      }
    }
  }

  /** `new Addend(e)`. */
  function AddendOf(e: Expr): (a: Addend)
    requires Valid(e)
    ensures Valid(a.content) && Size(a.content) <= Size(e)
    ensures EquationFree(e) ==> EquationFree(a.content)
  {
    match UnNegate(e)
    case Some(u) => Addend(false, u)
    case None => Addend(true, e)
  }

  // Parentheses come from the context alone.

  /** The operator a node pushes: defined for binary and n-ary nodes. */
  function OperatorOf(e: Expr): Operator
    requires e.BinaryOperation? || e.NAryOperation?
  {
    if e.BinaryOperation? then BinaryOp(e.bop) else NAryOp(e.nop)
  }

  /**
   * When a node is parenthesised: it is an operation, its parent binds at
   * least as tightly, and neither the parent nor the node is a fraction
   * whose operands the style leaves bare.
   */
  predicate Wrapped(st: Style, parent: Option<Operator>, e: Expr) {
    && (e.BinaryOperation? || e.NAryOperation?)
    && parent.Some?
    && parent.value.Precedence() >= OperatorOf(e).Precedence()
    && (st.parenthesizeDivision || (parent.value != BinaryOp(Division) && !(e.BinaryOperation? && e.bop == Division)))
  }

  /**
   * The parent changes nothing but the outermost parentheses: a node prints
   * as it would at the top, parenthesised exactly when it is wrapped.
   */
  lemma ContextWraps(st: Style, e: Expr, parent: Option<Operator>)
    requires Printable(e)
    ensures Print(st, e, parent) == if Wrapped(st, parent, e) then st.parenthesize(Print(st, e, None)) else Print(st, e, None)
  {
  }

  /** Without division parentheses, a fraction's operands print as they would at the top. */
  lemma FractionOperandsBare(st: Style, e: Expr)
    requires Printable(e) && !st.parenthesizeDivision
    ensures Print(st, e, Some(BinaryOp(Division))) == Print(st, e, None)
  {
    ContextWraps(st, e, Some(BinaryOp(Division)));
  }

  /** An operation under a parent that binds at least as tightly is parenthesised. */
  lemma LooserOperandWrapped(st: Style, e: Expr, q: Operator)
    requires Printable(e) && (e.BinaryOperation? || e.NAryOperation?)
    requires q.Precedence() >= OperatorOf(e).Precedence()
    requires st.parenthesizeDivision || (q != BinaryOp(Division) && !(e.BinaryOperation? && e.bop == Division))
    ensures Print(st, e, Some(q)) == st.parenthesize(Print(st, e, None))
  {
    ContextWraps(st, e, Some(q));
  }

  /** An operation under a parent that binds less tightly prints bare. */
  lemma TighterOperandBare(st: Style, e: Expr, q: Operator)
    requires Printable(e) && (e.BinaryOperation? || e.NAryOperation?)
    requires q.Precedence() < OperatorOf(e).Precedence()
    ensures Print(st, e, Some(q)) == Print(st, e, None)
  {
    ContextWraps(st, e, Some(q));
  }

  // The sign extraction keeps the value.

  function Neg(x: Option<real>): Option<real> {
    if x.Some? then Some(-x.value) else None
  }

  /** Whatever unNegate returns has the opposite value of the tree it came from. */
  lemma {:induction false} UnNegateMeaning(e: Expr, env: Env, fn: Interp)
    requires Valid(e) && UnNegate(e).Some?
    ensures Eval(UnNegate(e).value, env, fn) == Neg(Eval(e, env, fn))
  {
    match e
    case NAryOperation(_, ops) =>
      UnNegateProduct(ops, env, fn);
      EvalNAry(Product, ops, env, fn);
    case Constant(_) =>
    case BinaryOperation(_, a, b) =>
      if UnNegate(a).Some? {
        UnNegateMeaning(a, env, fn);
        NegatedNumerator(a, UnNegate(a).value, b, env, fn);
      } else {
        UnNegateMeaning(b, env, fn);
        NegatedDenominator(a, b, UnNegate(b).value, env, fn);
      }
  }

  lemma UnNegateProduct(ops: seq<Expr>, env: Env, fn: Interp)
    requires |ops| >= 2 && ops[0].Constant? && ops[0].value < 0
    ensures Eval(Unsigned(ops[0].value, ops[1..]), env, fn) == Neg(EvalFold(Product, ops, env, fn))
  {
    var c, rest := ops[0].value, ops[1..];
    var f := EvalFold(Product, rest, env, fn);
    LeadingConstant(ops, env, fn);
    LiftNeg(c, -c, f);
    if c == -1 {
      UnsignedMinusOne(rest, env, fn);
    } else {
      UnsignedOther(c, rest, env, fn);
    }
  }

  lemma UnsignedMinusOne(rest: seq<Expr>, env: Env, fn: Interp)
    requires |rest| >= 1
    ensures Eval(Unsigned(-1, rest), env, fn) == EvalFold(Product, rest, env, fn)
  {
    ImplodeEval(Product, rest, env, fn);
  }

  lemma UnsignedOther(c: int, rest: seq<Expr>, env: Env, fn: Interp)
    requires |rest| >= 1 && c != -1
    ensures Eval(Unsigned(c, rest), env, fn) == Lift(Product, Some((-c) as real), EvalFold(Product, rest, env, fn))
  {
    var k := -c;
    var xs := [Constant(k)] + rest;
    assert Unsigned(c, rest) == NAryOperation(Product, xs);
    EvalNAry(Product, xs, env, fn);
    ProductFront(k, rest, env, fn);
  }

  /** A product led by the constant c: c times the product of the rest. */
  lemma ProductFront(c: int, rest: seq<Expr>, env: Env, fn: Interp)
    ensures EvalFold(Product, [Constant(c)] + rest, env, fn) == Lift(Product, Some(c as real), EvalFold(Product, rest, env, fn))
  {
    EvalFoldAppend(Product, [Constant(c)], rest, env, fn);
    EvalFoldSingle(Product, Constant(c), env, fn);
  }

  lemma LeadingConstant(ops: seq<Expr>, env: Env, fn: Interp)
    requires |ops| > 0 && ops[0].Constant?
    ensures EvalFold(Product, ops, env, fn) == Lift(Product, Some(ops[0].value as real), EvalFold(Product, ops[1..], env, fn))
  {
    Cons(ops);
    ProductFront(ops[0].value, ops[1..], env, fn);
  }

  lemma EvalNAry(op: NAryOperator, ops: seq<Expr>, env: Env, fn: Interp)
    ensures Eval(NAryOperation(op, ops), env, fn) == EvalFold(op, ops, env, fn)
  {
  }

  lemma LiftNeg(c: int, d: int, f: Option<real>)
    requires d == -c
    ensures Lift(Product, Some(d as real), f) == Neg(Lift(Product, Some(c as real), f))
    ensures c == -1 ==> Neg(Lift(Product, Some(c as real), f)) == f
  {
    if f.Some? {
      assert Lift(Product, Some(d as real), f) == Some(Apply(Product, d as real, f.value));
      assert Lift(Product, Some(c as real), f) == Some(Apply(Product, c as real, f.value));
      assert Apply(Product, d as real, f.value) == -Apply(Product, c as real, f.value);
      assert c == -1 ==> Apply(Product, c as real, f.value) == -f.value;
    }
  }

  /** The value of a fraction from the values of its operands. */
  function DivideValues(x: Option<real>, y: Option<real>): Option<real> {
    if x.Some? && y.Some? && y.value != 0.0 then Some(Quotient(x.value, y.value)) else None
  }

  lemma EvalDivision(a: Expr, b: Expr, env: Env, fn: Interp)
    ensures Eval(BinaryOperation(Division, a, b), env, fn) == DivideValues(Eval(a, env, fn), Eval(b, env, fn))
  {
  }

  lemma DivideNeg(x: Option<real>, y: Option<real>)
    ensures DivideValues(Neg(x), y) == Neg(DivideValues(x, y))
    ensures DivideValues(x, Neg(y)) == Neg(DivideValues(x, y))
  {
    if x.Some? && y.Some? && y.value != 0.0 {
      var p, q := x.value, y.value;
      assert Quotient(-p, q) == -Quotient(p, q);
      assert Quotient(p, -q) == -Quotient(p, q);
    }
  }

  lemma NegatedNumerator(a: Expr, n: Expr, b: Expr, env: Env, fn: Interp)
    requires Eval(n, env, fn) == Neg(Eval(a, env, fn))
    ensures Eval(BinaryOperation(Division, n, b), env, fn) == Neg(Eval(BinaryOperation(Division, a, b), env, fn))
  {
    EvalDivision(n, b, env, fn);
    EvalDivision(a, b, env, fn);
    DivideNeg(Eval(a, env, fn), Eval(b, env, fn));
  }

  lemma NegatedDenominator(a: Expr, b: Expr, d: Expr, env: Env, fn: Interp)
    requires Eval(d, env, fn) == Neg(Eval(b, env, fn))
    ensures Eval(BinaryOperation(Division, a, d), env, fn) == Neg(Eval(BinaryOperation(Division, a, b), env, fn))
  {
    EvalDivision(a, d, env, fn);
    EvalDivision(a, b, env, fn);
    DivideNeg(Eval(a, env, fn), Eval(b, env, fn));
  }

  /** The value an addend stands for: its content's, negated when the sign is minus. */
  function SignedValue(a: Addend, env: Env, fn: Interp): Option<real> {
    if a.positive then Eval(a.content, env, fn) else Neg(Eval(a.content, env, fn))
  }

  /** An addend stands for the operand it was made from. */
  lemma AddendMeaning(e: Expr, env: Env, fn: Interp)
    requires Valid(e)
    ensures SignedValue(AddendOf(e), env, fn) == Eval(e, env, fn)
  {
    match UnNegate(e)
    case None =>
    case Some(u) =>
      UnNegateMeaning(e, env, fn);
      NegNeg(Eval(e, env, fn));
  }

  lemma NegNeg(x: Option<real>)
    ensures Neg(Neg(x)) == x
  {
  }

  /** The addends of a sum's operands. */
  function Addends(ops: seq<Expr>): (r: seq<Addend>)
    requires AllValid(ops)
    ensures |r| == |ops| && forall i :: 0 <= i < |ops| ==> r[i] == AddendOf(ops[i])
  {
    seq(|ops|, i requires 0 <= i < |ops| => AddendOf(ops[i]))
  }

  /** The sum of the signed addends, when each has a value. */
  function SignedSum(addends: seq<Addend>, env: Env, fn: Interp): Option<real> {
    match Values(seq(|addends|, i requires 0 <= i < |addends| => SignedValue(addends[i], env, fn)))
    case None => None
    case Some(xs) => Some(Sum(xs))
  }

  /** Reading the printed signs back gives the sum's value: the signs lose nothing. */
  lemma SumMeaning(ops: seq<Expr>, env: Env, fn: Interp)
    requires AllValid(ops)
    ensures SignedSum(Addends(ops), env, fn) == Eval(NAryOperation(Addition, ops), env, fn)
  {
    var addends := Addends(ops);
    var signed := seq(|addends|, i requires 0 <= i < |addends| => SignedValue(addends[i], env, fn));
    forall i | 0 <= i < |ops| ensures signed[i] == EvalAll(ops, env, fn)[i] {
      AddendMeaning(ops[i], env, fn);
    }
    assert signed == EvalAll(ops, env, fn);
  }

  // The text of a sum.

  function Texts(terms: seq<(bool, string)>): (r: seq<string>)
    ensures |r| == |terms| && forall i :: 0 <= i < |terms| ==> r[i] == terms[i].1
  {
    seq(|terms|, i requires 0 <= i < |terms| => terms[i].1)
  }

  /** With no negative operand, a sum is its operands joined by the addition concatenator. */
  lemma {:induction false} AllPositiveJoin(st: Style, terms: seq<(bool, string)>)
    requires forall i :: 0 <= i < |terms| ==> terms[i].0
    ensures AdditionText(st, terms) == Join(Texts(terms), " " + st.additionConcatenator + " ")
  {
    var sep := " " + st.additionConcatenator + " ";
    if |terms| == 1 {
      assert AdditionText(st, terms) == AdditionText(st, []) + "" + terms[0].1;
    } else if |terms| > 1 {
      var init := terms[..|terms| - 1];
      AllPositiveJoin(st, init);
      assert Texts(terms)[..|terms| - 1] == Texts(init);
    }
  }
}
