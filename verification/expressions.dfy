/**
 * The expression tree: an immutable value with structural equality.
 * Dafny's datatype equality is the structural `equals` of every node class,
 * so no node kind ever equals a node of another kind.
 */
module Expressions {
  import opened Wrappers
  import opened Decimal
  import opened Text

  /** The operators a tree may hold; SUBTRACTION exists only while parsing. */
  datatype BinaryOperator = Division | Power {
    function Symbol(): string {
      match this
      case Division => "/"
      case Power => "^"
    }

    function Precedence(): nat {
      match this
      case Division => 2
      case Power => 3
    }
  }

  datatype NAryOperator = Addition | Product {
    function Symbol(): string {
      match this
      case Addition => "+"
      case Product => "*"
    }

    function Precedence(): nat {
      match this
      case Addition => 1
      case Product => 2
    }
  }

  /** The unary functions, with the names the registry knows them by. */
  datatype Function = Sin | Cos | Tan | Arcsin | Arccos | Arctan | Ln | Abs | Sqrt {
    function Name(): string {
      match this
      case Sin => "sin"
      case Cos => "cos"
      case Tan => "tan"
      case Arcsin => "asin"
      case Arccos => "acos"
      case Arctan => "atan"
      case Ln => "ln"
      case Abs => "abs"
      case Sqrt => "sqrt"
    }
  }

  const AllFunctions: seq<Function> := [Sin, Cos, Tan, Arcsin, Arccos, Arctan, Ln, Abs, Sqrt]

  /** Irrational constants, which appear in trees as variables named after them. */
  datatype SpecialConstant = Pi | E {
    function Name(): string {
      match this
      case Pi => "pi"
      case E => "e"
    }

    function AsVariable(): (v: Expr)
      ensures v.Variable? && v.name == Name()
    {
      Variable(Name())
    }
  }

  const AllSpecialConstants: seq<SpecialConstant> := [Pi, E]

  datatype Expr =
    | Variable(name: string)
    | Constant(value: int)
    | BinaryOperation(bop: BinaryOperator, first: Expr, second: Expr)
    | NAryOperation(nop: NAryOperator, operands: seq<Expr>)
    | FunctionOperation(fn: Function, argument: Expr)
    | Equation(firstMember: Expr, secondMember: Expr)

  const ZERO: Expr := Constant(0)
  const ONE: Expr := Constant(1)

  /**
   * The NAryOperation constructor: it copies the operand list and rejects
   * fewer than two operands with an IllegalArgumentException.
   */
  function NewNAry(op: NAryOperator, operands: seq<Expr>): (r: Result<Expr, string>)
    ensures r.Success? <==> |operands| >= 2
    ensures r.Success? ==> r.value.NAryOperation? && r.value.nop == op && r.value.operands == operands
    ensures r.Success? && AllValid(operands) ==> Valid(r.value)
  {
    if |operands| < 2 then Failure("IllegalArgumentException") else Success(NAryOperation(op, operands))
  }

  /** The invariant the NAryOperation constructor enforces: at least two operands, everywhere. */
  predicate Valid(e: Expr) {
    match e
    case Variable(_) => true
    case Constant(_) => true
    case BinaryOperation(_, a, b) => Valid(a) && Valid(b)
    case NAryOperation(_, ops) => |ops| >= 2 && AllValid(ops)
    case FunctionOperation(_, a) => Valid(a)
    case Equation(a, b) => Valid(a) && Valid(b)
  }

  predicate AllValid(ops: seq<Expr>) {
    forall i :: 0 <= i < |ops| ==> Valid(ops[i])
  }

  /** No Equation anywhere: the trees the rewrite passes are defined on. */
  predicate EquationFree(e: Expr) {
    match e
    case Variable(_) => true
    case Constant(_) => true
    case BinaryOperation(_, a, b) => EquationFree(a) && EquationFree(b)
    case NAryOperation(_, ops) => forall i :: 0 <= i < |ops| ==> EquationFree(ops[i])
    case FunctionOperation(_, a) => EquationFree(a)
    case Equation(_, _) => false
  }

  /** Every variable name occurring in the tree, equation members included. */
  function Vars(e: Expr): set<string> {
    match e
    case Variable(n) => {n}
    case Constant(_) => {}
    case BinaryOperation(_, a, b) => Vars(a) + Vars(b)
    case NAryOperation(_, ops) => VarsOfAll(ops)
    case FunctionOperation(_, a) => Vars(a)
    case Equation(a, b) => Vars(a) + Vars(b)
  }

  function VarsOfAll(ops: seq<Expr>): set<string> {
    if |ops| == 0 then {} else VarsOfAll(ops[..|ops| - 1]) + Vars(ops[|ops| - 1])
  }

  lemma VarsOfAllMember(ops: seq<Expr>, x: string)
    ensures x in VarsOfAll(ops) <==> exists i :: 0 <= i < |ops| && x in Vars(ops[i])
  {
    if |ops| > 0 {
      VarsOfAllMember(ops[..|ops| - 1], x);
      if x in VarsOfAll(ops[..|ops| - 1]) {
        var i :| 0 <= i < |ops| - 1 && x in Vars(ops[..|ops| - 1][i]);
        assert x in Vars(ops[i]);
      }
      if i :| 0 <= i < |ops| && x in Vars(ops[i]) {
        if i < |ops| - 1 {
          assert ops[..|ops| - 1][i] == ops[i];
        }
      }
    }
  }

  /** A two-operand node is valid, equation-free or has variables exactly as its operands do. */
  lemma PairFacts(op: NAryOperator, a: Expr, b: Expr)
    ensures Valid(NAryOperation(op, [a, b])) <==> Valid(a) && Valid(b)
    ensures EquationFree(NAryOperation(op, [a, b])) <==> EquationFree(a) && EquationFree(b)
    ensures Vars(NAryOperation(op, [a, b])) == Vars(a) + Vars(b)
  {
    var ops := [a, b];
    assert ops[..1] == [a];
    assert [a][..0] == [];
    assert VarsOfAll(ops) == VarsOfAll([a]) + Vars(b);
    assert VarsOfAll([a]) == Vars(a);
    assert AllValid(ops) <==> Valid(a) && Valid(b) by {
      assert ops[0] == a && ops[1] == b;
    }
    assert (forall i :: 0 <= i < |ops| ==> EquationFree(ops[i])) <==> EquationFree(a) && EquationFree(b) by {
      assert ops[0] == a && ops[1] == b;
    }
  }

  /** Node count, with function nodes weighing two (see AlgebraicSimplifier). */
  function Size(e: Expr): (r: nat)
    ensures r >= 1
  {
    match e
    case Variable(_) => 1
    case Constant(_) => 1
    case BinaryOperation(_, a, b) => 1 + Size(a) + Size(b)
    case NAryOperation(_, ops) => 1 + SizeOfAll(ops)
    case FunctionOperation(_, a) => 2 + Size(a)
    case Equation(a, b) => 1 + Size(a) + Size(b)
  }

  function SizeOfAll(ops: seq<Expr>): nat {
    if |ops| == 0 then 0 else SizeOfAll(ops[..|ops| - 1]) + Size(ops[|ops| - 1])
  }

  lemma SizeOfAllAppend(a: seq<Expr>, b: seq<Expr>)
    ensures SizeOfAll(a + b) == SizeOfAll(a) + SizeOfAll(b)
    decreases |b|
  {
    if |b| > 0 {
      assert (a + b)[..|a + b| - 1] == a + b[..|b| - 1];
      SizeOfAllAppend(a, b[..|b| - 1]);
    } else {
      assert a + b == a;
    }
  }

  /** The first operand's size plus the size of the rest. */
  lemma SizeOfAllFront(ops: seq<Expr>)
    requires |ops| > 0
    ensures SizeOfAll(ops) == Size(ops[0]) + SizeOfAll(ops[1..])
  {
    assert ops == [ops[0]] + ops[1..];
    SizeOfAllAppend([ops[0]], ops[1..]);
    assert [ops[0]][..0] == [];
  }

  /** Elementwise no larger means no larger in total. */
  lemma {:induction false} SizeOfAllPointwise(xs: seq<Expr>, ys: seq<Expr>)
    requires |xs| == |ys| && forall i :: 0 <= i < |xs| ==> Size(xs[i]) <= Size(ys[i])
    ensures SizeOfAll(xs) <= SizeOfAll(ys)
  {
    if |xs| > 0 {
      SizeOfAllPointwise(xs[..|xs| - 1], ys[..|ys| - 1]);
    }
  }

  lemma SizeOfAllBound(ops: seq<Expr>, i: int)
    requires 0 <= i < |ops|
    ensures Size(ops[i]) <= SizeOfAll(ops)
  {
    if i < |ops| - 1 {
      SizeOfAllBound(ops[..|ops| - 1], i);
    }
  }

  /**
   * `toString` of every node class: decimal digits for a constant, the name
   * for a variable, fully parenthesised operations, `name(arg)` for a
   * function and `lhs = rhs` for an equation.
   */
  function ToString(e: Expr): string {
    match e
    case Variable(n) => n
    case Constant(v) => IntToString(v)
    case BinaryOperation(op, a, b) => "(" + ToString(a) + op.Symbol() + ToString(b) + ")"
    case NAryOperation(op, ops) => JoinWrapped(ToStrings(ops), op.Symbol(), "(", ")")
    case FunctionOperation(f, a) => f.Name() + "(" + ToString(a) + ")"
    case Equation(a, b) => ToString(a) + " = " + ToString(b)
  }

  function ToStrings(ops: seq<Expr>): (r: seq<string>)
    ensures |r| == |ops|
    ensures forall i :: 0 <= i < |ops| ==> r[i] == ToString(ops[i])
  {
    if |ops| == 0 then [] else ToStrings(ops[..|ops| - 1]) + [ToString(ops[|ops| - 1])]
  }
}
