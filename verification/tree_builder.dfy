/**
 * The postfix tree builder: a fold over the parser's output tokens that
 * carries a stack of subtrees. An operator pops its right operand, then its
 * left one; a subtraction a - b becomes the sum a + (-1)*b.
 */
module TreeBuilder {
  import opened Wrappers
  import opened Decimal
  import opened Expressions
  import opened Environment
  import opened ExpressionFactory
  import opened Tokens
  import ShuntingYard

  /** The exceptions the builder can raise, with their messages. */
  datatype Fault =
    | EmptyStack
    | IllegalArgument(message: string)
    | NoSuchElement(message: string)
    | IllegalState(message: string)

  /** The message of `NumberFormatException.forInputString`. */
  function NumberFormatMessage(s: string): string {
    "For input string: \"" + s + "\""
  }

  /** The tree an operator builds from its two operands. */
  function Combine(o: Operator, left: Expr, right: Expr): Expr {
    match o
    case BinaryOp(b) => BinaryOperation(b, left, right)
    case Subtraction => NAryOperation(Addition, [left, Negate(right)])
    case NAryOp(n) => NAryOperation(n, [left, right])
  }

  /** One iteration of `build`. The top of the stack is its last element. */
  function PushToken(stack: seq<Expr>, t: Token): Result<seq<Expr>, Fault> {
    if t.ttype == OperatorToken then
      if |stack| < 2 then Failure(EmptyStack)
      else
        var right := stack[|stack| - 1];
        var left := stack[|stack| - 2];
        match GetOperator(t.content)
        case Failure(m) => Failure(NoSuchElement(m))
        case Success(o) => Success(stack[..|stack| - 2] + [Combine(o, left, right)])
    else if t.ttype == FunctionToken then
      if |stack| < 1 then Failure(EmptyStack)
      else
        match GetFunction(t.content)
        case Failure(m) => Failure(NoSuchElement(m))
        case Success(f) => Success(stack[..|stack| - 1] + [FunctionOperation(f, stack[|stack| - 1])])
    else if t.ttype == NumberToken then
      match ParseInt(t.content)
      case None => Failure(IllegalArgument(NumberFormatMessage(t.content)))
      case Some(v) => Success(stack + [Constant(v)])
    else if t.ttype == VariableToken then
      Success(stack + [Variable(t.content)])
    else
      Failure(IllegalState("Internal error (unexpected token)"))
  }

  function BuildAll(stack: seq<Expr>, tokens: seq<Token>): Result<seq<Expr>, Fault>
    decreases |tokens|
  {
    if |tokens| == 0 then Success(stack)
    else
      match PushToken(stack, tokens[0])
      case Failure(f) => Failure(f)
      case Success(s1) => BuildAll(s1, tokens[1..])
  }

  /** `build`: the tree on top of the stack once every token is consumed; the rest is ignored. */
  function Build(tokens: seq<Token>): Result<Expr, Fault> {
    match BuildAll([], tokens)
    case Failure(f) => Failure(f)
    case Success(stack) => if |stack| == 0 then Failure(EmptyStack) else Success(stack[|stack| - 1])
  }

  // Every tree the builder makes is valid and free of equations.

  predicate Sound(e: Expr) {
    Valid(e) && EquationFree(e)
  }

  predicate AllSound(stack: seq<Expr>) {
    forall e :: e in stack ==> Sound(e)
  }

  lemma CombineSound(o: Operator, left: Expr, right: Expr)
    requires Sound(left) && Sound(right)
    ensures Sound(Combine(o, left, right))
  {
    match o
    case BinaryOp(_) =>
    case Subtraction =>
      var n := Negate(right);
      assert n == NAryOperation(Product, [Constant(-1), right]);
      assert EquationFree(n);
    case NAryOp(_) =>
  }

  lemma PushTokenSound(stack: seq<Expr>, t: Token)
    requires AllSound(stack)
    ensures PushToken(stack, t).Success? ==> AllSound(PushToken(stack, t).value)
  {
    var r := PushToken(stack, t);
    if r.Success? {
      if t.ttype == OperatorToken {
        assert stack[|stack| - 1] in stack && stack[|stack| - 2] in stack;
        CombineSound(GetOperator(t.content).value, stack[|stack| - 2], stack[|stack| - 1]);
        forall e | e in stack[..|stack| - 2] ensures e in stack {
        }
      } else if t.ttype == FunctionToken {
        assert stack[|stack| - 1] in stack;
        forall e | e in stack[..|stack| - 1] ensures e in stack {
        }
      }
    }
  }

  lemma {:induction false} BuildAllSound(stack: seq<Expr>, tokens: seq<Token>)
    requires AllSound(stack)
    ensures BuildAll(stack, tokens).Success? ==> AllSound(BuildAll(stack, tokens).value)
    decreases |tokens|
  {
    if |tokens| > 0 {
      PushTokenSound(stack, tokens[0]);
      if PushToken(stack, tokens[0]).Success? {
        BuildAllSound(PushToken(stack, tokens[0]).value, tokens[1..]);
      }
    }
  }

  /** Whatever the tokens, a built tree keeps the two-operand invariant and holds no equation. */
  lemma BuildSound(tokens: seq<Token>)
    ensures Build(tokens).Success? ==> Valid(Build(tokens).value) && EquationFree(Build(tokens).value)
  {
    BuildAllSound([], tokens);
    var r := BuildAll([], tokens);
    if r.Success? && |r.value| > 0 {
      assert r.value[|r.value| - 1] in r.value;
    }
  }

  // On the parser's output only two faults remain.

  /** A fault the facade turns into an IllegalArgumentException. */
  predicate ParseFault(f: Fault, tokens: seq<Token>) {
    f == EmptyStack
    || exists t :: t in tokens && t.ttype == NumberToken && ParseInt(t.content).None?
                   && f == IllegalArgument(NumberFormatMessage(t.content))
  }

  lemma PushTokenFault(stack: seq<Expr>, t: Token)
    requires ShuntingYard.OutputToken(t)
    ensures PushToken(stack, t).Failure? ==> ParseFault(PushToken(stack, t).error, [t])
  {
    assert t in [t];
  }

  lemma {:induction false} BuildAllFault(stack: seq<Expr>, tokens: seq<Token>)
    requires ShuntingYard.AllOutput(tokens)
    ensures BuildAll(stack, tokens).Failure? ==> ParseFault(BuildAll(stack, tokens).error, tokens)
    decreases |tokens|
  {
    if |tokens| > 0 {
      assert tokens[0] in tokens;
      PushTokenFault(stack, tokens[0]);
      var r := PushToken(stack, tokens[0]);
      if r.Failure? {
        if r.error != EmptyStack {
          var t :| t in [tokens[0]] && t.ttype == NumberToken && ParseInt(t.content).None?
                   && r.error == IllegalArgument(NumberFormatMessage(t.content));
          assert t in tokens;
        }
      } else {
        forall t | t in tokens[1..] ensures t in tokens {
        }
        BuildAllFault(r.value, tokens[1..]);
        if BuildAll(r.value, tokens[1..]).Failure? {
          var e := BuildAll(r.value, tokens[1..]).error;
          if e != EmptyStack {
            var t :| t in tokens[1..] && t.ttype == NumberToken && ParseInt(t.content).None?
                     && e == IllegalArgument(NumberFormatMessage(t.content));
            assert t in tokens;
          }
        }
      }
    }
  }

  /**
   * On tokens the parser can emit, building fails only for too few
   * operands or a number that is no 32-bit integer: the registry lookups
   * always succeed and no unexpected token type occurs.
   */
  lemma BuildFault(tokens: seq<Token>)
    requires ShuntingYard.AllOutput(tokens)
    ensures Build(tokens).Failure? ==> ParseFault(Build(tokens).error, tokens)
  {
    BuildAllFault([], tokens);
  }

  // The builder inverts the postfix rendering of a tree.

  /** Trees the postfix rendering can express: 32-bit constants, two-operand n-ary nodes, no equation. */
  predicate Buildable(e: Expr) {
    match e
    case Variable(_) => true
    case Constant(v) => IntMin <= v <= IntMax
    case BinaryOperation(_, a, b) => Buildable(a) && Buildable(b)
    case NAryOperation(_, ops) => |ops| == 2 && Buildable(ops[0]) && Buildable(ops[1])
    case FunctionOperation(_, a) => Buildable(a)
    case Equation(_, _) => false
  }

  /** The tree in reverse Polish notation: operands first, then their operator or function. */
  function Postfix(e: Expr): seq<Token>
    requires Buildable(e)
  {
    match e
    case Variable(n) => [Token(n, VariableToken)]
    case Constant(v) => [Token(IntToString(v), NumberToken)]
    case BinaryOperation(op, a, b) => Postfix(a) + Postfix(b) + [Token(op.Symbol(), OperatorToken)]
    case NAryOperation(op, ops) => Postfix(ops[0]) + Postfix(ops[1]) + [Token(op.Symbol(), OperatorToken)]
    case FunctionOperation(f, a) => Postfix(a) + [Token(f.Name(), FunctionToken)]
  }

  lemma BuildAllAppend(stack: seq<Expr>, a: seq<Token>, b: seq<Token>)
    requires BuildAll(stack, a).Success?
    ensures BuildAll(stack, a + b) == BuildAll(BuildAll(stack, a).value, b)
    decreases |a|
  {
    if |a| > 0 {
      assert (a + b)[1..] == a[1..] + b;
      BuildAllAppend(PushToken(stack, a[0]).value, a[1..], b);
    } else {
      assert a + b == b;
    }
  }

  /** Two operand renderings followed by one token: the token acts on both results. */
  lemma BuildTwoThen(stack: seq<Expr>, pa: seq<Token>, pb: seq<Token>, a: Expr, b: Expr, t: Token)
    requires BuildAll(stack, pa) == Success(stack + [a])
    requires BuildAll(stack + [a], pb) == Success(stack + [a] + [b])
    ensures BuildAll(stack, pa + pb + [t]) == BuildAll(stack + [a] + [b], [t])
  {
    BuildAllAppend(stack, pa, pb);
    BuildAllAppend(stack, pa + pb, [t]);
  }

  lemma BuildOneThen(stack: seq<Expr>, pa: seq<Token>, a: Expr, t: Token)
    requires BuildAll(stack, pa) == Success(stack + [a])
    ensures BuildAll(stack, pa + [t]) == BuildAll(stack + [a], [t])
  {
    BuildAllAppend(stack, pa, [t]);
  }

  /** A registered operator replaces the two top trees by their combination. */
  lemma PushOperatorToken(stack: seq<Expr>, a: Expr, b: Expr, o: Operator)
    ensures BuildAll(stack + [a] + [b], [Token(o.Symbol(), OperatorToken)]) == Success(stack + [Combine(o, a, b)])
  {
    OperatorRegistered(o);
    var s := stack + [a] + [b];
    assert s[..|s| - 2] == stack;
    assert s[|s| - 1] == b && s[|s| - 2] == a;
  }

  lemma PushFunctionToken(stack: seq<Expr>, a: Expr, f: Function)
    ensures BuildAll(stack + [a], [Token(f.Name(), FunctionToken)]) == Success(stack + [FunctionOperation(f, a)])
  {
    FunctionRegistered(f);
    var s := stack + [a];
    assert s[..|s| - 1] == stack;
  }

  /** Building the postfix rendering of e pushes exactly e, whatever lies below. */
  lemma {:induction false} BuildAllPostfix(stack: seq<Expr>, e: Expr)
    requires Buildable(e)
    ensures BuildAll(stack, Postfix(e)) == Success(stack + [e])
    decreases e
  {
    match e
    case Variable(n) =>
    case Constant(v) =>
      ParseIntOfIntToString(v);
    case BinaryOperation(op, a, b) =>
      BuildAllPostfix(stack, a);
      BuildAllPostfix(stack + [a], b);
      BuildTwoThen(stack, Postfix(a), Postfix(b), a, b, Token(BinaryOp(op).Symbol(), OperatorToken));
      PushOperatorToken(stack, a, b, BinaryOp(op));
    case NAryOperation(op, ops) =>
      BuildAllPostfix(stack, ops[0]);
      BuildAllPostfix(stack + [ops[0]], ops[1]);
      BuildTwoThen(stack, Postfix(ops[0]), Postfix(ops[1]), ops[0], ops[1], Token(NAryOp(op).Symbol(), OperatorToken));
      PushOperatorToken(stack, ops[0], ops[1], NAryOp(op));
      assert [ops[0], ops[1]] == ops;
    case FunctionOperation(f, a) =>
      BuildAllPostfix(stack, a);
      BuildOneThen(stack, Postfix(a), a, Token(f.Name(), FunctionToken));
      PushFunctionToken(stack, a, f);
  }

  /** Round trip: building a tree's postfix rendering gives back the tree. */
  lemma BuildPostfix(e: Expr)
    requires Buildable(e)
    ensures Build(Postfix(e)) == Success(e)
  {
    BuildAllPostfix([], e);
  }

  /** "a b -" builds a + (-1)*b: no subtraction node is ever created. */
  lemma SubtractionBuildsSum(a: Expr, b: Expr)
    requires Buildable(a) && Buildable(b)
    ensures Build(Postfix(a) + Postfix(b) + [Token("-", OperatorToken)])
      == Success(NAryOperation(Addition, [a, NAryOperation(Product, [Constant(-1), b])]))
  {
    BuildAllPostfix([], a);
    assert [] + [a] == [a];
    BuildAllPostfix([a], b);
    BuildTwoThen([], Postfix(a), Postfix(b), a, b, Token(Subtraction.Symbol(), OperatorToken));
    PushOperatorToken([], a, b, Subtraction);
  }

  /** With operands left over, the result is the top one and the rest are dropped. */
  lemma SurplusIgnored(a: Expr, b: Expr)
    requires Buildable(a) && Buildable(b)
    ensures Build(Postfix(a) + Postfix(b)) == Success(b)
  {
    BuildAllPostfix([], a);
    assert [] + [a] == [a];
    BuildAllAppend([], Postfix(a), Postfix(b));
    BuildAllPostfix([a], b);
    assert [a] + [b] == [a, b];
  }

  /** Too few operands is an empty stack; a number beyond `int` fails to parse. */
  lemma BuildFaultExamples()
    ensures Build([]) == Failure(EmptyStack)
    ensures Build([Token("+", OperatorToken)]) == Failure(EmptyStack)
    ensures Build([Token("2.5", NumberToken)]) == Failure(IllegalArgument(NumberFormatMessage("2.5")))
  {
    assert !AllDigits("2.5") by { assert !IsDigit("2.5"[1]); }
  }
}
