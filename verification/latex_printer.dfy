/**
 * The LaTeX printer: a fraction as \frac{..}{..}, a power as base^exponent
 * with no braces, a sum always inside \left( .. \right) joined by " + ", a
 * product joined by {\cdot}, a function as name\left(arg\right), and a
 * constant in its decimal form, negative ones without parentheses. Like the
 * basic printer it has no case for equations. Its partner is bracket
 * nesting: braces and parentheses in the output are balanced, so every
 * \frac group and every \left( .. \right) pair is well formed.
 */
module LatexPrinter {
  import opened Expressions
  import opened Decimal
  import opened Text
  import opened Environment
  import opened Brackets
  import BasicPrinter

  /** The LaTeX text of a tree. */
  function Latex(e: Expr): (s: string)
    requires EquationFree(e)
  {
    match e
    case Variable(n) => n
    case Constant(v) => IntToString(v)
    case BinaryOperation(op, a, b) => BinaryText(op, Latex(a), Latex(b))
    case NAryOperation(op, ops) => NAryText(op, Latexes(ops))
    case FunctionOperation(f, a) => f.Name() + "\\left(" + Latex(a) + "\\right)"
  }

  function Latexes(ops: seq<Expr>): (r: seq<string>)
    requires forall i :: 0 <= i < |ops| ==> EquationFree(ops[i])
    ensures |r| == |ops| && forall i :: 0 <= i < |ops| ==> r[i] == Latex(ops[i])
  {
    if |ops| == 0 then [] else Latexes(ops[..|ops| - 1]) + [Latex(ops[|ops| - 1])]
  }

  /** `visitDivision` and `visitPower`, on the operands' texts. */
  function BinaryText(op: BinaryOperator, o1: string, o2: string): string {
    match op
    case Division => "\\frac{" + o1 + "}{" + o2 + "}"
    case Power => o1 + "^" + o2
  }

  /** `visitAddition` and `visitProduct`, on the operands' texts. */
  function NAryText(op: NAryOperator, ts: seq<string>): string {
    match op
    case Addition => JoinWrapped(ts, " + ", "\\left(", "\\right)")
    case Product => Join(ts, "{\\cdot}")
  }

  /** The two kinds of bracket the printer writes. */
  predicate Pair(open: char, close: char) {
    (open == '{' && close == '}') || (open == '(' && close == ')')
  }

  /** How deep the printer's opening pieces nest each kind of bracket. */
  function FracDepth(open: char): nat {
    if open == '{' then 1 else 0
  }

  function LeftDepth(open: char): nat {
    if open == '(' then 1 else 0
  }

  /** The literal pieces of the output, scanned for each kind of bracket. */
  lemma FracOpen(open: char, close: char)
    requires Pair(open, close)
    ensures Reach("\\frac{", open, close, 0, FracDepth(open))
  {
  }

  lemma FracMiddle(open: char, close: char)
    requires Pair(open, close)
    ensures Reach("}{", open, close, FracDepth(open), FracDepth(open))
  {
  }

  lemma FracClose(open: char, close: char)
    requires Pair(open, close)
    ensures Reach("}", open, close, FracDepth(open), 0)
  {
  }

  lemma LeftOpen(open: char, close: char)
    requires Pair(open, close)
    ensures Reach("\\left(", open, close, 0, LeftDepth(open))
  {
  }

  lemma RightClose(open: char, close: char)
    requires Pair(open, close)
    ensures Reach("\\right)", open, close, LeftDepth(open), 0)
  {
  }

  lemma PowerSign(open: char, close: char)
    requires Pair(open, close)
    ensures Balanced("^", open, close)
  {
  }

  lemma PlusSign(open: char, close: char)
    requires Pair(open, close)
    ensures Balanced(" + ", open, close)
  {
  }

  lemma DotSign(open: char, close: char)
    requires Pair(open, close)
    ensures Balanced("{\\cdot}", open, close)
  {
  }

  /** A variable name the parser builds holds no bracket. */
  lemma NameFree(n: string, open: char, close: char)
    requires BasicPrinter.IsWord(n) && Pair(open, close)
    ensures Balanced(n, open, close)
  {
    assert Free(n, open, close) by {
      forall i | 0 <= i < |n| ensures n[i] != open && n[i] != close {
        assert BasicPrinter.IsNameChar(n[i]);
      }
    }
    ReachFree(n, open, close, 0);
  }

  /** A constant's decimal text holds no bracket. */
  lemma ConstantFree(v: int, open: char, close: char)
    requires Pair(open, close)
    ensures Balanced(IntToString(v), open, close)
  {
    var s := IntToString(v);
    assert Free(s, open, close) by {
      forall i | 0 <= i < |s| ensures s[i] != open && s[i] != close {
        if v < 0 && i > 0 {
          assert s[i] == s[1..][i - 1];
        }
      }
    }
    ReachFree(s, open, close, 0);
  }

  /**
   * Braces and parentheses in the LaTeX text are balanced, whatever the
   * tree, provided its variables are named by words.
   */
  lemma {:induction false} LatexBalanced(e: Expr, open: char, close: char)
    requires EquationFree(e) && BasicPrinter.NamedByWords(e) && Pair(open, close)
    ensures Balanced(Latex(e), open, close)
  {
    match e
    case Variable(n) =>
      NameFree(n, open, close);
    case Constant(v) =>
      ConstantFree(v, open, close);
    case BinaryOperation(op, a, b) =>
      LatexBalanced(a, open, close);
      LatexBalanced(b, open, close);
      BinaryBalanced(op, Latex(a), Latex(b), open, close);
    case NAryOperation(op, ops) =>
      var ts := Latexes(ops);
      forall i | 0 <= i < |ts| ensures Balanced(ts[i], open, close) {
        LatexBalanced(ops[i], open, close);
      }
      NAryBalanced(op, ts, open, close);
    case FunctionOperation(f, a) =>
      LatexBalanced(a, open, close);
      FunctionBalanced(f, Latex(a), open, close);
  }

  lemma BinaryBalanced(op: BinaryOperator, o1: string, o2: string, open: char, close: char)
    requires Pair(open, close) && Balanced(o1, open, close) && Balanced(o2, open, close)
    ensures Balanced(BinaryText(op, o1, o2), open, close)
  {
    match op
    case Division =>
      var k := FracDepth(open);
      FracOpen(open, close);
      FracMiddle(open, close);
      FracClose(open, close);
      ReachShift(o1, open, close, 0, 0, k);
      ReachShift(o2, open, close, 0, 0, k);
      ReachAppend("\\frac{", o1, open, close, 0, k, k);
      ReachAppend("\\frac{" + o1, "}{", open, close, 0, k, k);
      ReachAppend("\\frac{" + o1 + "}{", o2, open, close, 0, k, k);
      ReachAppend("\\frac{" + o1 + "}{" + o2, "}", open, close, 0, k, 0);
    case Power =>
      PowerSign(open, close);
      BalancedAppend(o1, "^", open, close);
      BalancedAppend(o1 + "^", o2, open, close);
  }

  lemma NAryBalanced(op: NAryOperator, ts: seq<string>, open: char, close: char)
    requires Pair(open, close) && forall i :: 0 <= i < |ts| ==> Balanced(ts[i], open, close)
    ensures Balanced(NAryText(op, ts), open, close)
  {
    match op
    case Addition =>
      PlusSign(open, close);
      JoinBalanced(ts, " + ", open, close);
      LeftOpen(open, close);
      RightClose(open, close);
      Enclosed("\\left(", Join(ts, " + "), "\\right)", open, close, LeftDepth(open));
    case Product =>
      DotSign(open, close);
      JoinBalanced(ts, "{\\cdot}", open, close);
  }

  lemma FunctionBalanced(f: Function, t: string, open: char, close: char)
    requires Pair(open, close) && Balanced(t, open, close)
    ensures Balanced(f.Name() + "\\left(" + t + "\\right)", open, close)
  {
    BasicPrinter.NameIsWord(f);
    NameFree(f.Name(), open, close);
    LeftOpen(open, close);
    RightClose(open, close);
    Enclosed("\\left(", t, "\\right)", open, close, LeftDepth(open));
    var n := f.Name();
    BalancedAppend(n, "\\left(" + t + "\\right)", open, close);
    Assoc(n, "\\left(" + t, "\\right)");
    Assoc(n, "\\left(", t);
  }

  /**
   * The exponent is not braced, so a power of a power and a power whose
   * exponent is a power print alike: both trees give "x^y^z".
   */
  lemma NestedPowersPrintAlike()
    ensures var x, y, z := Variable("x"), Variable("y"), Variable("z");
      Latex(BinaryOperation(Power, BinaryOperation(Power, x, y), z)) == "x^y^z"
      && Latex(BinaryOperation(Power, x, BinaryOperation(Power, y, z))) == "x^y^z"
  {
    assert "x" + "^" + "y" + "^" + "z" == "x^y^z";
    assert "x" + "^" + ("y" + "^" + "z") == "x^y^z";
  }

  /** x + 1 prints as "\left(x + 1\right)": a sum is always delimited. */
  lemma SumExample()
    ensures Latex(NAryOperation(Addition, [Variable("x"), Constant(1)])) == "\\left(x + 1\\right)"
  {
    assert NatToString(1) == "1";
    assert Latexes([Variable("x"), Constant(1)]) == ["x", "1"];
    assert ["x", "1"][..1] == ["x"];
    assert Join(["x", "1"], " + ") == "x + 1";
  }

  /** x/2 prints as "\frac{x}{2}". */
  lemma FractionExample()
    ensures Latex(BinaryOperation(Division, Variable("x"), Constant(2))) == "\\frac{x}{2}"
  {
    assert NatToString(2) == "2";
  }

  /** x * (-3) prints as "x{\cdot}-3": a negative constant is not parenthesised. */
  lemma ProductExample()
    ensures Latex(NAryOperation(Product, [Variable("x"), Constant(-3)])) == "x{\\cdot}-3"
  {
    assert NatToString(3) == "3";
    assert IntToString(-3) == "-3";
    assert Latexes([Variable("x"), Constant(-3)]) == ["x", "-3"];
    assert ["x", "-3"][..1] == ["x"];
    assert Join(["x", "-3"], "{\\cdot}") == "x{\\cdot}-3";
  }
}
