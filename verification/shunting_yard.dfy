/**
 * Dijkstra's shunting-yard algorithm as the parser runs it: a fold over
 * the tokenizer's strings that carries an output stack, an operator stack
 * and the two flags `expectUnaryMinus` and `hasCoefficient`. The top of a
 * stack is the last element of its sequence. Every failure is an
 * IllegalArgumentException, represented by its message.
 */
module ShuntingYard {
  import opened Wrappers
  import opened Expressions
  import opened Environment
  import opened Tokens
  import Tokenizer

  datatype State = State(output: seq<Token>, stack: seq<Token>, expectUnaryMinus: bool, hasCoefficient: bool)

  const Initial: State := State([], [], true, false)

  const MISMATCHED: string := "Mismatched parentheses"

  // Token classifiers.

  function CountOf(s: string, c: char): nat {
    if |s| == 0 then 0 else CountOf(s[..|s| - 1], c) + (if s[|s| - 1] == c then 1 else 0)
  }

  function DigitCount(s: string): nat {
    if |s| == 0 then 0 else DigitCount(s[..|s| - 1]) + (if Tokenizer.IsDigitChar(s[|s| - 1]) then 1 else 0)
  }

  /**
   * `isNumber` on the strings the tokenizer produces: `Double.parseDouble`
   * accepts a run of digits and dots with at least one digit and at most
   * one dot, and the words "NaN" and "Infinity".
   */
  predicate IsNumber(s: string) {
    ((forall i :: 0 <= i < |s| ==> Tokenizer.IsDigitChar(s[i]) || s[i] == '.')
      && DigitCount(s) >= 1 && CountOf(s, '.') <= 1)
    || s == "NaN" || s == "Infinity"
  }

  /** `isName`: the regular expression [a-zA-Z]+. */
  predicate IsName(s: string) {
    |s| > 0 && forall i :: 0 <= i < |s| ==> Tokenizer.IsLetter(s[i])
  }

  /** `isSymbol`: exactly one character. */
  predicate IsSymbol(s: string) {
    |s| == 1
  }

  /** The parser's `getOperator`: a registered operator or "Unknown operator: " and the symbol. */
  function ParserOperator(symbol: string): (r: Result<Operator, string>)
    ensures r.Success? <==> HasOperator(symbol)
    ensures r.Success? ==> r.value.Symbol() == symbol && r.value == Operators[symbol]
    ensures r.Failure? ==> r.error == "Unknown operator: " + symbol
  {
    match GetOperator(symbol)
    case Success(o) => Success(o)
    case Failure(_) => Failure("Unknown operator: " + symbol)
  }

  /** Whether an incoming operator o pops `top`: by precedence, ties broken by associativity. */
  predicate PopsOver(o: Operator, top: Operator) {
    (o.Associativity() == Left && o.Precedence() <= top.Precedence())
    || (o.Associativity() == Right && o.Precedence() < top.Precedence())
  }

  /** The tokens of s from top to bottom, the order popping moves them in. */
  function Reverse(s: seq<Token>): (r: seq<Token>)
    ensures |r| == |s|
    ensures forall i :: 0 <= i < |s| ==> r[i] == s[|s| - 1 - i]
  {
    if |s| == 0 then [] else [s[|s| - 1]] + Reverse(s[..|s| - 1])
  }

  /** Whether a stack token is an operator that o pops. */
  predicate Poppable(o: Operator, t: Token) {
    t.ttype == OperatorToken && HasOperator(t.content) && PopsOver(o, Operators[t.content])
  }

  /**
   * The loop of `pushOperator`: operators are moved from the top of the
   * stack to the output while o pops them; a non-operator stops the loop.
   * An operator symbol on the stack that is not registered fails as the
   * parser's `getOperator` does.
   */
  function PopOperators(o: Operator, output: seq<Token>, stack: seq<Token>): (r: Result<(seq<Token>, seq<Token>), string>)
    ensures r.Success? ==> |r.value.1| <= |stack| && r.value.1 == stack[..|r.value.1|]
    decreases |stack|
  {
    if |stack| == 0 then Success((output, stack))
    else
      var top := stack[|stack| - 1];
      if top.ttype == OperatorToken && !HasOperator(top.content) then Failure("Unknown operator: " + top.content)
      else if Poppable(o, top) then PopOperators(o, output + [top], stack[..|stack| - 1])
      else Success((output, stack))
  }

  lemma ReversePop(s: seq<Token>, k: nat)
    requires k < |s|
    ensures Reverse(s[k..]) == [s[|s| - 1]] + Reverse(s[..|s| - 1][k..])
  {
    assert s[k..][..|s[k..]| - 1] == s[..|s| - 1][k..];
  }

  /** One iteration of the popping loop, when it pops the top. */
  lemma PopOperatorsStep(o: Operator, output: seq<Token>, stack: seq<Token>)
    requires |stack| > 0
    requires var top := stack[|stack| - 1]; !(top.ttype == OperatorToken && !HasOperator(top.content)) && Poppable(o, top)
    ensures PopOperators(o, output, stack) == PopOperators(o, output + [stack[|stack| - 1]], stack[..|stack| - 1])
  {
  }

  /** The popping loop ends at a top it does not pop. */
  lemma PopOperatorsHalt(o: Operator, output: seq<Token>, stack: seq<Token>)
    requires |stack| > 0
    requires var top := stack[|stack| - 1]; !(!(top.ttype == OperatorToken && !HasOperator(top.content)) && Poppable(o, top))
    ensures var r := PopOperators(o, output, stack); r.Success? ==> r.value.1 == stack && !Poppable(o, stack[|stack| - 1])
  {
  }

  /** The popped operators reach the output topmost first. */
  lemma {:induction false} PopOperatorsOutput(o: Operator, output: seq<Token>, stack: seq<Token>)
    ensures var r := PopOperators(o, output, stack);
      r.Success? ==> r.value.0 == output + Reverse(stack[|r.value.1|..])
    decreases |stack|
  {
    if |stack| > 0 {
      var top := stack[|stack| - 1];
      var below := stack[..|stack| - 1];
      if !(top.ttype == OperatorToken && !HasOperator(top.content)) && Poppable(o, top) {
        PopOperatorsOutput(o, output + [top], below);
        PopOperatorsStep(o, output, stack);
        var r := PopOperators(o, output, stack);
        if r.Success? {
          var k := |r.value.1|;
          ReversePop(stack, k);
          assert output + [top] + Reverse(below[k..]) == output + Reverse(stack[k..]);
        }
      }
    }
  }

  /** Exactly the operators o pops are moved: the loop stops at the first one it does not pop. */
  lemma {:induction false} PopOperatorsStops(o: Operator, output: seq<Token>, stack: seq<Token>)
    ensures var r := PopOperators(o, output, stack); r.Success? ==>
      (forall i :: |r.value.1| <= i < |stack| ==> Poppable(o, stack[i]))
      && (|r.value.1| > 0 ==> !Poppable(o, stack[|r.value.1| - 1]))
    decreases |stack|
  {
    if |stack| > 0 {
      var top := stack[|stack| - 1];
      var below := stack[..|stack| - 1];
      if !(top.ttype == OperatorToken && !HasOperator(top.content)) && Poppable(o, top) {
        PopOperatorsStops(o, output + [top], below);
        PopOperatorsStep(o, output, stack);
        var r := PopOperators(o, output, stack);
        if r.Success? {
          var k := |r.value.1|;
          InitLast(stack);
          PoppableRun(o, below, top, k);
          if k > 0 {
            assert stack[k - 1] == below[k - 1];
          }
        }
      } else {
        PopOperatorsHalt(o, output, stack);
      }
    }
  }

  lemma InitLast<T>(s: seq<T>)
    requires |s| > 0
    ensures s == s[..|s| - 1] + [s[|s| - 1]]
  {
  }

  /** A run of poppable operators stays one when a poppable operator is pushed on it. */
  lemma PoppableRun(o: Operator, below: seq<Token>, top: Token, k: nat)
    requires k <= |below| && Poppable(o, top)
    requires forall i :: k <= i < |below| ==> Poppable(o, below[i])
    ensures forall i :: k <= i < |below| + 1 ==> Poppable(o, (below + [top])[i])
  {
  }

  /** Popping fails only on an unregistered operator symbol on the stack. */
  lemma {:induction false} PopOperatorsFails(o: Operator, output: seq<Token>, stack: seq<Token>)
    ensures var r := PopOperators(o, output, stack);
      r.Failure? ==> exists i :: 0 <= i < |stack| && stack[i].ttype == OperatorToken && !HasOperator(stack[i].content)
    decreases |stack|
  {
    if |stack| > 0 {
      var top := stack[|stack| - 1];
      var below := stack[..|stack| - 1];
      if !(top.ttype == OperatorToken && !HasOperator(top.content)) && Poppable(o, top) {
        PopOperatorsFails(o, output + [top], below);
        PopOperatorsStep(o, output, stack);
        if PopOperators(o, output, stack).Failure? {
          var i :| 0 <= i < |below| && below[i].ttype == OperatorToken && !HasOperator(below[i].content);
          assert stack[i] == below[i];
        }
      }
    }
  }

  /**
   * `pushOperator`: a minus where a unary minus is expected becomes the
   * number -1 and a product pushed without popping; any other operator
   * first pops what it should and is then pushed.
   */
  function PushOperator(st: State, o: Operator): (r: Result<State, string>)
    ensures r.Success? ==> r.value.expectUnaryMinus == st.expectUnaryMinus && r.value.hasCoefficient == st.hasCoefficient
    ensures st.expectUnaryMinus && o == Subtraction ==>
      r == Success(st.(output := st.output + [Token("-1", NumberToken)], stack := st.stack + [Token("*", OperatorToken)]))
    ensures r.Success? && !(st.expectUnaryMinus && o == Subtraction) ==>
      |r.value.stack| >= 1 && r.value.stack[|r.value.stack| - 1] == Token(o.Symbol(), OperatorToken)
  {
    if st.expectUnaryMinus && o == Subtraction then
      Success(st.(output := st.output + [Token("-1", NumberToken)], stack := st.stack + [Token("*", OperatorToken)]))
    else
      match PopOperators(o, st.output, st.stack)
      case Failure(m) => Failure(m)
      case Success((out, rest)) => Success(st.(output := out, stack := rest + [Token(o.Symbol(), OperatorToken)]))
  }

  /**
   * The ")" loop: operators move to the output until the "(" on top,
   * which is discarded; running out of stack means mismatched parentheses.
   */
  function CloseParenthesis(output: seq<Token>, stack: seq<Token>): (r: Result<(seq<Token>, seq<Token>), string>)
    ensures r.Success? <==> LEFT_PARENTHESIS in stack
    ensures r.Failure? ==> r.error == MISMATCHED
    ensures r.Success? ==>
      var (out, rest) := r.value;
      |rest| < |stack| && rest == stack[..|rest|] && stack[|rest|] == LEFT_PARENTHESIS
      && LEFT_PARENTHESIS !in stack[|rest| + 1..]
      && out == output + Reverse(stack[|rest| + 1..])
    decreases |stack|
  {
    if |stack| == 0 then Failure(MISMATCHED)
    else
      var top := stack[|stack| - 1];
      if top == LEFT_PARENTHESIS then
        assert stack[|stack| - 1..] == [top];
        Success((output, stack[..|stack| - 1]))
      else
        InLast(stack, LEFT_PARENTHESIS);
        var r := CloseParenthesis(output + [top], stack[..|stack| - 1]);
        if r.Success? then
          var (out, rest) := r.value;
          SuffixOfInit(stack, |rest| + 1, LEFT_PARENTHESIS);
          ReversePop(stack, |rest| + 1);
          r
        else r
  }

  lemma InLast<T>(s: seq<T>, x: T)
    requires |s| > 0
    ensures x in s <==> x in s[..|s| - 1] || x == s[|s| - 1]
  {
    assert s == s[..|s| - 1] + [s[|s| - 1]];
  }

  lemma SuffixOfInit<T>(s: seq<T>, j: nat, x: T)
    requires j <= |s| - 1 && x != s[|s| - 1] && x !in s[..|s| - 1][j..]
    ensures x !in s[j..]
  {
    assert s[j..] == s[..|s| - 1][j..] + [s[|s| - 1]];
  }

  /** After the "(" is discarded, a function token on top goes to the output. */
  function AfterParenthesis(output: seq<Token>, stack: seq<Token>): State {
    if |stack| > 0 && stack[|stack| - 1].ttype == FunctionToken then
      State(output + [stack[|stack| - 1]], stack[..|stack| - 1], false, false)
    else
      State(output, stack, false, false)
  }

  /** One iteration of `parse`. A string that is no number, no name and no symbol is skipped. */
  function ParseToken(st: State, token: string): Result<State, string> {
    if IsNumber(token) then
      Success(State(st.output + [Token(token, NumberToken)], st.stack, false, true))
    else if IsName(token) then
      var pushed := if st.hasCoefficient then PushOperator(st, NAryOp(Product)) else Success(st);
      match pushed
      case Failure(m) => Failure(m)
      case Success(s1) =>
        if HasFunction(token) then Success(State(s1.output, s1.stack + [Token(token, FunctionToken)], false, false))
        else Success(State(s1.output + [Token(token, VariableToken)], s1.stack, false, false))
    else if IsSymbol(token) then
      if token == LEFT_PARENTHESIS.content then
        Success(State(st.output, st.stack + [LEFT_PARENTHESIS], true, false))
      else if token == RIGHT_PARENTHESIS.content then
        match CloseParenthesis(st.output, st.stack)
        case Failure(m) => Failure(m)
        case Success((out, rest)) => Success(AfterParenthesis(out, rest))
      else
        match ParserOperator(token)
        case Failure(m) => Failure(m)
        case Success(o) =>
          match PushOperator(st, o)
          case Failure(m) => Failure(m)
          case Success(s1) => Success(s1.(expectUnaryMinus := false, hasCoefficient := false))
    else
      Success(st)
  }

  function ParseAll(st: State, tokens: seq<string>): Result<State, string>
    decreases |tokens|
  {
    if |tokens| == 0 then Success(st)
    else
      match ParseToken(st, tokens[0])
      case Failure(m) => Failure(m)
      case Success(s1) => ParseAll(s1, tokens[1..])
  }

  /** `complete`: the stack is emptied onto the output; a parenthesis left on it is an error. */
  function Complete(output: seq<Token>, stack: seq<Token>): (r: Result<seq<Token>, string>)
    ensures r.Success? <==> forall i :: 0 <= i < |stack| ==> !IsParenthesis(stack[i])
    ensures r.Success? ==> r.value == output + Reverse(stack)
    ensures r.Failure? ==> r.error == MISMATCHED
    decreases |stack|
  {
    if |stack| == 0 then Success(output)
    else
      var top := stack[|stack| - 1];
      if IsParenthesis(top) then Failure(MISMATCHED)
      else
        var r := Complete(output + [top], stack[..|stack| - 1]);
        assert forall i :: 0 <= i < |stack| - 1 ==> stack[..|stack| - 1][i] == stack[i];
        r
  }

  /** `parse` followed by `getOutputList`: the tokens in postfix order. */
  function Parse(tokens: seq<string>): Result<seq<Token>, string> {
    match ParseAll(Initial, tokens)
    case Failure(m) => Failure(m)
    case Success(st) => Complete(st.output, st.stack)
  }

  // The invariant of the two stacks.

  /** What may reach the output: numbers, variables, and registered functions and operators. */
  predicate OutputToken(t: Token) {
    t.ttype == NumberToken || t.ttype == VariableToken
    || (t.ttype == FunctionToken && HasFunction(t.content))
    || (t.ttype == OperatorToken && HasOperator(t.content))
  }

  /** What may be on the operator stack: the shared "(", registered functions and operators. */
  predicate StackToken(t: Token) {
    t == LEFT_PARENTHESIS
    || (t.ttype == FunctionToken && HasFunction(t.content))
    || (t.ttype == OperatorToken && HasOperator(t.content))
  }

  predicate AllOutput(s: seq<Token>) {
    forall t :: t in s ==> OutputToken(t)
  }

  predicate AllStack(s: seq<Token>) {
    forall t :: t in s ==> StackToken(t)
  }

  predicate Good(st: State) {
    AllOutput(st.output) && AllStack(st.stack)
  }

  lemma ReverseMembers(s: seq<Token>)
    ensures forall t :: t in Reverse(s) <==> t in s
  {
    forall t | t in s ensures t in Reverse(s) {
      var i :| 0 <= i < |s| && s[i] == t;
      assert Reverse(s)[|s| - 1 - i] == t;
    }
  }

  /** On a well-formed stack popping cannot fail, and it only moves registered operators. */
  lemma PopOperatorsGood(o: Operator, output: seq<Token>, stack: seq<Token>)
    requires AllOutput(output) && AllStack(stack)
    ensures PopOperators(o, output, stack).Success?
    ensures AllOutput(PopOperators(o, output, stack).value.0)
    ensures AllStack(PopOperators(o, output, stack).value.1)
  {
    var r := PopOperators(o, output, stack);
    PopOperatorsFails(o, output, stack);
    forall i | 0 <= i < |stack| ensures !(stack[i].ttype == OperatorToken && !HasOperator(stack[i].content)) {
      assert stack[i] in stack;
    }
    var k := |r.value.1|;
    PopOperatorsStops(o, output, stack);
    PopOperatorsOutput(o, output, stack);
    ReverseMembers(stack[k..]);
    forall t | t in stack[k..] ensures OutputToken(t) {
      var i :| k <= i < |stack| && stack[i] == t;
      assert Poppable(o, stack[i]);
    }
    forall t | t in r.value.1 ensures t in stack {
    }
  }

  lemma PushOperatorGood(st: State, o: Operator)
    requires Good(st)
    ensures PushOperator(st, o).Success?
    ensures Good(PushOperator(st, o).value)
  {
    if st.expectUnaryMinus && o == Subtraction {
      OperatorRegistered(NAryOp(Product));
    } else {
      PopOperatorsGood(o, st.output, st.stack);
      OperatorRegistered(o);
    }
  }

  /** Each step keeps the invariant and fails only for a parenthesis or an unknown symbol. */
  lemma ParseTokenGood(st: State, token: string)
    requires Good(st)
    ensures ParseToken(st, token).Success? ==> Good(ParseToken(st, token).value)
    ensures ParseToken(st, token).Failure? ==>
      ParseToken(st, token).error == MISMATCHED
      || (IsSymbol(token) && !HasOperator(token) && ParseToken(st, token).error == "Unknown operator: " + token)
  {
    if IsNumber(token) {
    } else if IsName(token) {
      NameGood(st, token);
    } else if IsSymbol(token) {
      if token == LEFT_PARENTHESIS.content {
      } else if token == RIGHT_PARENTHESIS.content {
        CloseGood(st);
        var r := CloseParenthesis(st.output, st.stack);
        if r.Success? {
          AfterParenthesisGood(r.value.0, r.value.1);
        }
      } else if HasOperator(token) {
        PushOperatorGood(st, Operators[token]);
      }
    }
  }

  /** A name never fails: the implicit product pops only registered operators. */
  lemma NameGood(st: State, token: string)
    requires Good(st) && !IsNumber(token) && IsName(token)
    ensures ParseToken(st, token).Success? && Good(ParseToken(st, token).value)
  {
    if st.hasCoefficient {
      PushOperatorGood(st, NAryOp(Product));
    }
  }

  lemma AfterParenthesisGood(output: seq<Token>, stack: seq<Token>)
    requires AllOutput(output) && AllStack(stack)
    ensures Good(AfterParenthesis(output, stack))
  {
    if |stack| > 0 && stack[|stack| - 1].ttype == FunctionToken {
      assert stack[|stack| - 1] in stack;
      forall t | t in stack[..|stack| - 1] ensures t in stack {
      }
    }
  }

  /** ")" either fails as mismatched or moves registered operators and functions only. */
  lemma CloseGood(st: State)
    requires Good(st)
    ensures var r := CloseParenthesis(st.output, st.stack);
      r.Success? ==> AllOutput(r.value.0) && AllStack(r.value.1)
  {
    var r := CloseParenthesis(st.output, st.stack);
    if r.Success? {
      var k := |r.value.1|;
      ReverseMembers(st.stack[k + 1..]);
      forall t | t in st.stack[k + 1..] ensures OutputToken(t) {
        assert t in st.stack && t != LEFT_PARENTHESIS;
      }
      forall t | t in r.value.1 ensures t in st.stack {
      }
    }
  }

  lemma {:induction false} ParseAllGood(st: State, tokens: seq<string>)
    requires Good(st)
    ensures ParseAll(st, tokens).Success? ==> Good(ParseAll(st, tokens).value)
    decreases |tokens|
  {
    if |tokens| > 0 {
      ParseTokenGood(st, tokens[0]);
      if ParseToken(st, tokens[0]).Success? {
        ParseAllGood(ParseToken(st, tokens[0]).value, tokens[1..]);
      }
    }
  }

  /**
   * The postfix output never holds a parenthesis, and every operator and
   * function token in it is registered, so the tree builder can resolve it.
   */
  lemma ParseOutput(tokens: seq<string>)
    ensures Parse(tokens).Success? ==> AllOutput(Parse(tokens).value)
  {
    ParseAllGood(Initial, tokens);
    var r := ParseAll(Initial, tokens);
    if r.Success? && Parse(tokens).Success? {
      var st := r.value;
      ReverseMembers(st.stack);
      forall t | t in st.stack ensures OutputToken(t) {
        var i :| 0 <= i < |st.stack| && st.stack[i] == t;
        assert !IsParenthesis(st.stack[i]);
      }
    }
  }

  /** An operator symbol on top of the stack is moved exactly when the incoming operator pops it. */
  lemma PopOperatorsTop(o: Operator, output: seq<Token>, stack: seq<Token>, p: Operator)
    ensures var t := Token(p.Symbol(), OperatorToken);
      PopOperators(o, output, stack + [t])
        == if PopsOver(o, p) then PopOperators(o, output + [t], stack) else Success((output, stack + [t]))
  {
    OperatorRegistered(p);
    var t := Token(p.Symbol(), OperatorToken);
    assert (stack + [t])[..|stack|] == stack;
  }

  /**
   * "^" does not pop another "^" (2^3^2 groups to the right), "-" pops
   * another "-" (1-2-3 groups to the left), "+" pops "*" and "*" does not
   * pop "+".
   */
  lemma Associativity(output: seq<Token>, stack: seq<Token>)
    ensures PopOperators(BinaryOp(Power), output, stack + [Token("^", OperatorToken)]) == Success((output, stack + [Token("^", OperatorToken)]))
    ensures PopOperators(Subtraction, output, stack + [Token("-", OperatorToken)]) == PopOperators(Subtraction, output + [Token("-", OperatorToken)], stack)
    ensures PopOperators(NAryOp(Addition), output, stack + [Token("*", OperatorToken)]) == PopOperators(NAryOp(Addition), output + [Token("*", OperatorToken)], stack)
    ensures PopOperators(NAryOp(Product), output, stack + [Token("+", OperatorToken)]) == Success((output, stack + [Token("+", OperatorToken)]))
  {
    PopOperatorsTop(BinaryOp(Power), output, stack, BinaryOp(Power));
    PopOperatorsTop(Subtraction, output, stack, Subtraction);
    PopOperatorsTop(NAryOp(Addition), output, stack, NAryOp(Product));
    PopOperatorsTop(NAryOp(Product), output, stack, NAryOp(Addition));
  }

  /** A one-character symbol that is no operator, such as "=", is an error. */
  lemma UnknownSymbol(st: State)
    ensures ParseToken(st, "=") == Failure("Unknown operator: =")
  {
    OperatorSymbols("=");
    assert ParserOperator("=") == Failure("Unknown operator: =") by {
      assert "Unknown operator: " + "=" == "Unknown operator: =";
    }
    assert !IsNumber("=") by { assert DigitCount("=") == 0; }
    assert !IsName("=") by { assert !Tokenizer.IsLetter("="[0]); }
  }

  /** A word with an apostrophe is no number, name or symbol, so the parser skips it. */
  lemma Skipped(st: State)
    ensures ParseToken(st, "x'") == Success(st)
  {
    assert !IsNumber("x'") by { assert !Tokenizer.IsDigitChar("x'"[0]); }
    assert !IsName("x'") by { assert !Tokenizer.IsLetter("x'"[1]); }
  }

  /** A minus where an operand is expected becomes -1 times what follows. */
  lemma UnaryMinus(st: State)
    requires st.expectUnaryMinus
    ensures ParseToken(st, "-") == Success(State(st.output + [Token("-1", NumberToken)], st.stack + [Token("*", OperatorToken)], false, false))
  {
    OperatorRegistered(Subtraction);
    assert !IsNumber("-") by { assert DigitCount("-") == 0; }
    assert !IsName("-") by { assert !Tokenizer.IsLetter("-"[0]); }
  }

  /** An unopened ")" and an unclosed "(" are both mismatched parentheses. */
  lemma Mismatched()
    ensures Parse([")"]) == Failure(MISMATCHED)
    ensures Parse(["("]) == Failure(MISMATCHED)
  {
    assert !IsNumber(")") by { assert DigitCount(")") == 0; }
    assert !IsName(")") by { assert !Tokenizer.IsLetter(")"[0]); }
    assert !IsNumber("(") by { assert DigitCount("(") == 0; }
    assert !IsName("(") by { assert !Tokenizer.IsLetter("("[0]); }
    assert ParseAll(Initial, ["("]) == Success(State([], [LEFT_PARENTHESIS], true, false)) by {
      assert ["("][1..] == [];
      assert Initial.stack + [LEFT_PARENTHESIS] == [LEFT_PARENTHESIS];
      assert ParseToken(Initial, "(") == Success(State([], [LEFT_PARENTHESIS], true, false));
    }
    assert ParseAll(Initial, [")"]) == Failure(MISMATCHED);
  }

  /** After a number, a variable name is multiplied in: "3x" reads as 3 * x. */
  lemma ImplicitProduct(st: State)
    requires Good(st) && st.hasCoefficient
    ensures ParseToken(st, "x").Success?
    ensures var s1 := ParseToken(st, "x").value;
      |s1.output| > 0 && s1.output[|s1.output| - 1] == Token("x", VariableToken)
      && |s1.stack| > 0 && s1.stack[|s1.stack| - 1] == Token("*", OperatorToken)
  {
    FunctionNames("x");
    assert !IsNumber("x") by { assert !Tokenizer.IsDigitChar("x"[0]); }
    assert IsName("x");
    PushOperatorGood(st, NAryOp(Product));
  }
}
