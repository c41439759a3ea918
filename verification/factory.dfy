/**
 * Smart constructors shared by the rewrite passes: negation as a product
 * with -1, rational numbers as a constant or a constant fraction, and the
 * safe n-ary builder that never violates the two-operand invariant.
 * The framework-package `MathUtils.negate` and `MathUtils.implode`, which
 * the collector, the rational simplifier, the differentiator and the tree
 * builder call, have the same text and are modelled by the same functions.
 */
module ExpressionFactory {
  import opened Expressions
  import opened MathUtils

  /** `negate`: -1 times the expression, as a two-operand product. */
  function Negate(e: Expr): (r: Expr)
    ensures Valid(r) <==> Valid(e)
    ensures Vars(r) == Vars(e)
    ensures Operands(Product, r) == [Constant(-1), e]
  {
    var r := NAryOperation(Product, [Constant(-1), e]);
    assert r.operands[0] == Constant(-1) && r.operands[1] == e;
    assert AllValid(r.operands) <==> Valid(e);
    assert VarsOfAll([Constant(-1), e]) == Vars(e) by {
      assert [Constant(-1), e][..1] == [Constant(-1)];
      assert [Constant(-1)][..0] == [];
    }
    r
  }

  /** `makeRational`: x alone when y is 1, otherwise the unreduced fraction x/y. */
  function MakeRational(x: int, y: int): (r: Expr)
    ensures r.Constant? || IsFractional(r)
    ensures IsRationalNumber(r) && Valid(r) && Vars(r) == {}
    ensures y != 0 ==> Numerator(r) * y == x * Denominator(r)
  {
    if y == 1 then Constant(x) else BinaryOperation(Division, Constant(x), Constant(y))
  }

  /** A constant or a constant fraction. */
  predicate IsRationalNumber(e: Expr) {
    e.Constant? || IsFractional(e)
  }

  function Numerator(e: Expr): int
    requires IsRationalNumber(e)
  {
    if e.Constant? then e.value else e.first.value
  }

  function Denominator(e: Expr): int
    requires IsRationalNumber(e)
  {
    if e.Constant? then 1 else e.second.value
  }

  /** The operands `implode(op, .)` would have to receive to rebuild e. */
  function Operands(op: NAryOperator, e: Expr): seq<Expr> {
    if e.NAryOperation? && e.nop == op then e.operands else [e]
  }

  /**
   * `implode`: Constant 0 for no operands (for either operator), the sole
   * operand alone, and an n-ary node otherwise.
   */
  function Implode(op: NAryOperator, operands: seq<Expr>): (r: Expr)
    ensures AllValid(operands) ==> Valid(r)
    ensures (forall i :: 0 <= i < |operands| ==> EquationFree(operands[i])) ==> EquationFree(r)
    ensures Vars(r) == VarsOfAll(operands)
    ensures |operands| == 0 ==> r == ZERO
    ensures |operands| == 1 ==> r == operands[0]
    ensures (|operands| >= 2 || (|operands| == 1 && Operands(op, operands[0]) == [operands[0]]))
              ==> Operands(op, r) == operands
  {
    if |operands| == 0 then ZERO
    else if |operands| == 1 then
      assert VarsOfAll(operands) == Vars(operands[0]) by {
        assert operands[..0] == [];
      }
      operands[0]
    else NAryOperation(op, operands)
  }

  /** Imploding never breaks the two-operand invariant, whatever the count. */
  lemma ImplodeValid(op: NAryOperator, operands: seq<Expr>)
    requires AllValid(operands)
    ensures Valid(Implode(op, operands))
    ensures |operands| >= 2 ==> |Implode(op, operands).operands| == |operands|
  {
  }
}
