/**
 * The basic printer: plain text with every operation fully parenthesised,
 * a negative constant in parentheses, and a function applied as name(arg).
 * It has no case for equations (see README). Its partner is a reader for
 * exactly this layout: reading the text back yields the tree, so the
 * printer loses nothing.
 */
module BasicPrinter {
  import opened Wrappers
  import opened Expressions
  import opened Decimal
  import opened Text
  import opened Environment
  import Tokenizer

  /** The plain text of a tree. */
  function PlainText(e: Expr): (s: string)
    requires EquationFree(e)
  {
    match e
    case Variable(n) => n
    case Constant(v) => if v < 0 then "(" + IntToString(v) + ")" else IntToString(v)
    case BinaryOperation(op, a, b) => "(" + PlainText(a) + op.Symbol() + PlainText(b) + ")"
    case NAryOperation(op, ops) => JoinWrapped(PlainTexts(ops), op.Symbol(), "(", ")")
    case FunctionOperation(f, a) => f.Name() + "(" + PlainText(a) + ")"
  }

  function PlainTexts(ops: seq<Expr>): (r: seq<string>)
    requires forall i :: 0 <= i < |ops| ==> EquationFree(ops[i])
    ensures |r| == |ops| && forall i :: 0 <= i < |ops| ==> r[i] == PlainText(ops[i])
  {
    if |ops| == 0 then [] else PlainTexts(ops[..|ops| - 1]) + [PlainText(ops[|ops| - 1])]
  }

  // Reading the text back.

  /** A character the tokenizer puts in a word: a letter or an apostrophe. */
  predicate IsNameChar(c: char) {
    Tokenizer.ClassOf(c) == Tokenizer.Word
  }

  predicate IsWord(n: string) {
    |n| > 0 && forall i :: 0 <= i < |n| ==> IsNameChar(n[i])
  }

  /** Every variable is named by a word, as every variable the parser builds is. */
  predicate NamedByWords(e: Expr) {
    match e
    case Variable(n) => IsWord(n)
    case Constant(_) => true
    case BinaryOperation(_, a, b) => NamedByWords(a) && NamedByWords(b)
    case NAryOperation(_, ops) => forall i :: 0 <= i < |ops| ==> NamedByWords(ops[i])
    case FunctionOperation(_, a) => NamedByWords(a)
    case Equation(a, b) => NamedByWords(a) && NamedByWords(b)
  }

  /** The trees the reader is meant for: word names, no equation, two operands or more per n-ary node. */
  predicate Readable(e: Expr) {
    EquationFree(e) && Valid(e) && NamedByWords(e)
  }

  /** A character of a digit run, or of a word run when `word` holds. */
  predicate InRun(c: char, word: bool) {
    if word then IsNameChar(c) else IsDigit(c)
  }

  /** The length of the longest run at the front of s. */
  function Span(s: string, word: bool): (n: nat)
    ensures n <= |s|
    ensures forall i :: 0 <= i < n ==> InRun(s[i], word)
    ensures n < |s| ==> !InRun(s[n], word)
  {
    if |s| == 0 || !InRun(s[0], word) then 0 else 1 + Span(s[1..], word)
  }

  /** A closing parenthesis after a tree. */
  function Closed(e: Expr, rest: string): (r: Option<(Expr, string)>)
    ensures r.Some? ==> |r.value.1| < |rest|
  {
    if |rest| > 0 && rest[0] == ')' then Some((e, rest[1..])) else None
  }

  /** One tree at the front of s, and the text after it. */
  function Read(s: string): (r: Option<(Expr, string)>)
    ensures r.Some? ==> |r.value.1| < |s|
    decreases |s|, 3
  {
    if |s| == 0 then None
    else if IsDigit(s[0]) then ReadNumber(s)
    else if IsNameChar(s[0]) then ReadWord(s)
    else if s[0] == '(' then ReadGroup(s)
    else None
  }

  /** A run of digits: a constant. */
  function ReadNumber(s: string): (r: Option<(Expr, string)>)
    ensures r.Some? ==> |r.value.1| < |s|
  {
    var n := Span(s, false);
    if n == 0 then None else Some((Constant(DigitsValue(s[..n])), s[n..]))
  }

  /** A word: a variable, or a function name followed by its parenthesised argument. */
  function ReadWord(s: string): (r: Option<(Expr, string)>)
    ensures r.Some? ==> |r.value.1| < |s|
    decreases |s|, 2
  {
    var n := Span(s, true);
    if n == 0 then None
    else if n < |s| && s[n] == '(' then ReadApplication(s[..n], s[n..])
    else Some((Variable(s[..n]), s[n..]))
  }

  /** The function a name stands for, if any. */
  function FunctionCalled(name: string): (r: Option<Function>)
    ensures r.Some? ==> r.value.Name() == name
  {
    if name == "sin" then Some(Sin) else if name == "cos" then Some(Cos) else if name == "tan" then Some(Tan)
    else if name == "asin" then Some(Arcsin) else if name == "acos" then Some(Arccos)
    else if name == "atan" then Some(Arctan) else if name == "ln" then Some(Ln)
    else if name == "abs" then Some(Abs) else if name == "sqrt" then Some(Sqrt)
    else None
  }

  /** Every function is called by its own name. */
  lemma FunctionCalledName(f: Function)
    ensures FunctionCalled(f.Name()) == Some(f)
  {
  }

  /** The parenthesised argument of the function called name. */
  function ReadApplication(name: string, s: string): (r: Option<(Expr, string)>)
    requires |s| > 0
    ensures r.Some? ==> |r.value.1| < |s|
    decreases |s|, 4
  {
    match FunctionCalled(name)
    case None => None
    case Some(f) =>
      match Read(s[1..])
      case None => None
      case Some((a, rest)) => Closed(FunctionOperation(f, a), rest)
  }

  /** What starts with an opening parenthesis: a negative constant, or a binary or n-ary node. */
  function ReadGroup(s: string): (r: Option<(Expr, string)>)
    requires |s| > 0
    ensures r.Some? ==> |r.value.1| < |s|
    decreases |s|, 2
  {
    if |s| > 1 && s[1] == '-' then ReadNegative(s[2..])
    else
      match Read(s[1..])
      case None => None
      case Some((a, rest)) => ReadRest(a, rest)
  }

  /** The digits and closing parenthesis of a negative constant, after "(-". */
  function ReadNegative(s: string): (r: Option<(Expr, string)>)
    ensures r.Some? ==> |r.value.1| < |s|
  {
    var n := Span(s, false);
    if 0 < n < |s| && s[n] == ')' then Some((Constant(0 - DigitsValue(s[..n])), s[n + 1..])) else None
  }

  /** What follows the first operand of a parenthesised node. */
  function ReadRest(a: Expr, s: string): (r: Option<(Expr, string)>)
    ensures r.Some? ==> |r.value.1| < |s|
    decreases |s|, 5
  {
    if |s| == 0 then None
    else if s[0] == '/' then ReadSecond(Division, a, s[1..])
    else if s[0] == '^' then ReadSecond(Power, a, s[1..])
    else if s[0] == '+' then ReadFurther(Addition, a, s)
    else if s[0] == '*' then ReadFurther(Product, a, s)
    else None
  }

  /** The second operand of a binary node, and its closing parenthesis. */
  function ReadSecond(op: BinaryOperator, a: Expr, s: string): (r: Option<(Expr, string)>)
    ensures r.Some? ==> |r.value.1| < |s|
    decreases |s|, 4
  {
    match Read(s)
    case None => None
    case Some((b, rest)) => Closed(BinaryOperation(op, a, b), rest)
  }

  /** The operands of an n-ary node after its first one. */
  function ReadFurther(op: NAryOperator, a: Expr, s: string): (r: Option<(Expr, string)>)
    ensures r.Some? ==> |r.value.1| < |s|
    decreases |s|, 4
  {
    match ReadTail(op, s)
    case None => None
    case Some((bs, rest)) => Some((NAryOperation(op, [a] + bs), rest))
  }

  /** The further operands of an n-ary node, each after the operator's symbol, up to the closing parenthesis. */
  function ReadTail(op: NAryOperator, s: string): (r: Option<(seq<Expr>, string)>)
    ensures r.Some? ==> |r.value.1| < |s|
    decreases |s|, 3
  {
    if |s| == 0 then None
    else if s[0] == ')' then Some(([], s[1..]))
    else if s[0] != op.Symbol()[0] then None
    else
      match Read(s[1..])
      case None => None
      case Some((b, rest)) => ReadMore(op, b, rest)
  }

  function ReadMore(op: NAryOperator, b: Expr, s: string): (r: Option<(seq<Expr>, string)>)
    ensures r.Some? ==> |r.value.1| < |s|
    decreases |s|, 4
  {
    match ReadTail(op, s)
    case None => None
    case Some((bs, rest)) => Some(([b] + bs, rest))
  }

  /** What may follow a printed tree: nothing, a closing parenthesis or an operator symbol. */
  predicate Follows(rest: string) {
    |rest| == 0 || rest[0] in {')', '/', '^', '+', '*'}
  }

  lemma SpanOf(w: string, rest: string, word: bool)
    requires forall i :: 0 <= i < |w| ==> InRun(w[i], word)
    requires |rest| == 0 || !InRun(rest[0], word)
    ensures Span(w + rest, word) == |w|
  {
    var s := w + rest;
    assert forall i :: 0 <= i < |w| ==> s[i] == w[i];
    assert |w| < |s| ==> s[|w|] == rest[0];
  }

  /** Printed text starts with a digit, a word character or an opening parenthesis. */
  lemma PlainTextStart(e: Expr)
    requires Readable(e)
    ensures |PlainText(e)| > 0
    ensures var c := PlainText(e)[0]; IsDigit(c) || IsNameChar(c) || c == '('
  {
    match e
    case Variable(_) =>
    case Constant(_) =>
    case BinaryOperation(_, _, _) =>
    case NAryOperation(_, _) =>
    case FunctionOperation(f, _) =>
      assert f.Name()[0] in "sctaloq";
  }

  /** Reading the plain text of a tree, whatever may follow it, gives back the tree. */
  lemma {:induction false} ReadPlainText(e: Expr, rest: string)
    requires Readable(e) && Follows(rest)
    ensures Read(PlainText(e) + rest) == Some((e, rest))
    decreases Size(e), 0
  {
    match e
    case Variable(n) =>
      ReadVariable(n, rest);
    case Constant(v) =>
      ReadConstant(v, rest);
    case BinaryOperation(op, a, b) =>
      ReadPlainText(a, op.Symbol() + (PlainText(b) + (")" + rest)));
      ReadPlainText(b, ")" + rest);
      ReadBinary(op, a, b, rest);
    case NAryOperation(op, ops) =>
      ReadNAryPlainText(op, ops, rest);
    case FunctionOperation(f, a) =>
      ReadPlainText(a, ")" + rest);
      ReadFunction(f, a, rest);
  }

  lemma {:induction false} ReadNAryPlainText(op: NAryOperator, ops: seq<Expr>, rest: string)
    requires Readable(NAryOperation(op, ops)) && Follows(rest)
    ensures Read(PlainText(NAryOperation(op, ops)) + rest) == Some((NAryOperation(op, ops), rest))
    decreases SizeOfAll(ops), 2
  {
    var ts := PlainTexts(ops);
    var tail := Prefixed(ts[1..], op.Symbol()) + (")" + rest);
    ReadableOperands(op, ops);
    SizeOfAllFront(ops);
    TailStart(ts[1..], op, rest);
    ReadPlainText(ops[0], tail);
    ReadTailPlainText(op, ops[1..], rest);
    PlainTextStart(ops[0]);
    PlainTextsTail(ops);
    ReadNAryText(op, ts[0], tail, ops[0], ops[1..], rest);
    Cons(ops);
    NAryShape(op, ops, rest);
  }

  lemma {:induction false} ReadTailPlainText(op: NAryOperator, ops: seq<Expr>, rest: string)
    requires forall i :: 0 <= i < |ops| ==> EquationFree(ops[i]) && Valid(ops[i]) && NamedByWords(ops[i])
    requires Follows(rest)
    ensures ReadTail(op, Prefixed(PlainTexts(ops), op.Symbol()) + (")" + rest)) == Some((ops, rest))
    decreases SizeOfAll(ops), 1
  {
    if |ops| == 0 {
      assert Prefixed(PlainTexts(ops), op.Symbol()) + (")" + rest) == ")" + rest;
      SplitAt(")", rest);
    } else {
      var ts := PlainTexts(ops);
      SizeOfAllFront(ops);
      TailStart(ts[1..], op, rest);
      ReadPlainText(ops[0], Prefixed(ts[1..], op.Symbol()) + (")" + rest));
      ReadTailPlainText(op, ops[1..], rest);
      ReadTailStep(op, ops, rest);
    }
  }

  // Single unfoldings of the reader.

  lemma ReadOpening(s: string)
    requires |s| > 0 && s[0] == '('
    ensures Read(s) == ReadGroup(s)
  {
  }

  lemma ReadWordStart(s: string)
    requires |s| > 0 && IsNameChar(s[0])
    ensures Read(s) == ReadWord(s)
  {
  }

  lemma ReadDigitStart(s: string)
    requires |s| > 0 && IsDigit(s[0])
    ensures Read(s) == ReadNumber(s)
  {
  }

  lemma ReadGroupCompound(s: string, a: Expr, tail: string)
    requires |s| > 1 && s[1] != '-'
    requires Read(s[1..]) == Some((a, tail))
    ensures ReadGroup(s) == ReadRest(a, tail)
  {
  }

  // The round trip on text: each kind of node, its operands' round trips given.

  lemma ReadVariable(n: string, rest: string)
    requires IsWord(n) && Follows(rest)
    ensures Read(n + rest) == Some((Variable(n), rest))
  {
    var s := n + rest;
    assert s[0] == n[0];
    ReadWordStart(s);
    SpanOf(n, rest, true);
    SplitAt(n, rest);
  }

  lemma ReadDigits(t: string, rest: string)
    requires |t| > 0 && AllDigits(t) && Follows(rest)
    ensures Read(t + rest) == Some((Constant(DigitsValue(t)), rest))
  {
    var s := t + rest;
    assert s[0] == t[0];
    ReadDigitStart(s);
    SpanOf(t, rest, false);
    SplitAt(t, rest);
  }

  lemma ReadNegativeDigits(d: string, rest: string)
    requires |d| > 0 && AllDigits(d)
    ensures Read("(-" + (d + (")" + rest))) == Some((Constant(0 - DigitsValue(d)), rest))
  {
    var u := d + (")" + rest);
    var s := "(-" + u;
    ReadOpening(s);
    SplitAt("(-", u);
    SpanOf(d, ")" + rest, false);
    SplitAt(d, ")" + rest);
    SplitAt(")", rest);
  }

  /** An opening parenthesis, then the first operand: what follows decides the node. */
  lemma ReadGroupFirst(t: string, tail: string, a: Expr)
    requires |t| > 0 && t[0] != '-'
    requires Read(t + tail) == Some((a, tail))
    ensures Read("(" + (t + tail)) == ReadRest(a, tail)
  {
    var s := "(" + (t + tail);
    SplitAt("(", t + tail);
    assert s[1] == t[0];
    ReadOpening(s);
    ReadGroupCompound(s, a, tail);
  }

  lemma ReadBinaryText(op: BinaryOperator, ta: string, tb: string, a: Expr, b: Expr, rest: string)
    requires |ta| > 0 && ta[0] != '-'
    requires Read(ta + (op.Symbol() + (tb + (")" + rest)))) == Some((a, op.Symbol() + (tb + (")" + rest))))
    requires Read(tb + (")" + rest)) == Some((b, ")" + rest))
    ensures Read("(" + (ta + (op.Symbol() + (tb + (")" + rest))))) == Some((BinaryOperation(op, a, b), rest))
  {
    var tail := op.Symbol() + (tb + (")" + rest));
    ReadGroupFirst(ta, tail, a);
    SplitAt(op.Symbol(), tb + (")" + rest));
    SplitAt(")", rest);
    assert ReadRest(a, tail) == ReadSecond(op, a, tail[1..]);
  }

  lemma ReadNAryText(op: NAryOperator, t: string, tail: string, a: Expr, bs: seq<Expr>, rest: string)
    requires |t| > 0 && t[0] != '-'
    requires Read(t + tail) == Some((a, tail))
    requires |tail| > 0 && tail[0] == op.Symbol()[0]
    requires ReadTail(op, tail) == Some((bs, rest))
    ensures Read("(" + (t + tail)) == Some((NAryOperation(op, [a] + bs), rest))
  {
    ReadGroupFirst(t, tail, a);
    assert ReadRest(a, tail) == ReadFurther(op, a, tail);
  }

  lemma ReadFunctionText(f: Function, t: string, a: Expr, rest: string)
    requires Read(t + (")" + rest)) == Some((a, ")" + rest))
    ensures Read(f.Name() + ("(" + (t + (")" + rest)))) == Some((FunctionOperation(f, a), rest))
  {
    var name := f.Name();
    var arg := "(" + (t + (")" + rest));
    var s := name + arg;
    NameIsWord(f);
    assert s[0] == name[0];
    ReadWordStart(s);
    SpanOf(name, arg, true);
    SplitAt(name, arg);
    SplitAt("(", t + (")" + rest));
    SplitAt(")", rest);
    FunctionCalledName(f);
    assert ReadWord(s) == ReadApplication(name, arg);
  }

  lemma ReadTailText(op: NAryOperator, t: string, tail: string, b: Expr, bs: seq<Expr>, rest: string)
    requires Read(t + tail) == Some((b, tail))
    requires ReadTail(op, tail) == Some((bs, rest))
    ensures ReadTail(op, op.Symbol() + (t + tail)) == Some(([b] + bs, rest))
  {
    var s := op.Symbol() + (t + tail);
    SplitAt(op.Symbol(), t + tail);
    assert ReadTail(op, s) == ReadMore(op, b, tail);
  }

  // The same steps on printed trees.

  lemma ReadConstant(v: int, rest: string)
    requires Follows(rest)
    ensures Read(PlainText(Constant(v)) + rest) == Some((Constant(v), rest))
  {
    var t := IntToString(v);
    if v >= 0 {
      ReadDigits(t, rest);
    } else {
      var d := t[1..];
      assert DigitsValue(d) == -v;
      assert PlainText(Constant(v)) + rest == "(-" + (d + (")" + rest)) by {
        assert t == "-" + d;
      }
      ReadNegativeDigits(d, rest);
    }
  }

  lemma ReadBinary(op: BinaryOperator, a: Expr, b: Expr, rest: string)
    requires Readable(a) && Readable(b)
    requires Read(PlainText(a) + (op.Symbol() + (PlainText(b) + (")" + rest))))
      == Some((a, op.Symbol() + (PlainText(b) + (")" + rest))))
    requires Read(PlainText(b) + (")" + rest)) == Some((b, ")" + rest))
    ensures Read(PlainText(BinaryOperation(op, a, b)) + rest) == Some((BinaryOperation(op, a, b), rest))
  {
    var ta, tb := PlainText(a), PlainText(b);
    PlainTextStart(a);
    ReadBinaryText(op, ta, tb, a, b, rest);
    assert PlainText(BinaryOperation(op, a, b)) + rest == "(" + (ta + (op.Symbol() + (tb + (")" + rest)))) by {
      Assoc("(" + ta + op.Symbol() + tb, ")", rest);
      Assoc("(" + ta + op.Symbol(), tb, ")" + rest);
      Assoc("(" + ta, op.Symbol(), tb + (")" + rest));
      Assoc("(", ta, op.Symbol() + (tb + (")" + rest)));
    }
  }

  /** The operands of a readable n-ary node: at least two, each readable. */
  lemma ReadableOperands(op: NAryOperator, ops: seq<Expr>)
    requires Readable(NAryOperation(op, ops))
    ensures |ops| >= 2 && Readable(ops[0])
    ensures forall i :: 0 <= i < |ops[1..]| ==>
      EquationFree(ops[1..][i]) && Valid(ops[1..][i]) && NamedByWords(ops[1..][i])
  {
    assert EquationFree(NAryOperation(op, ops)) && Valid(NAryOperation(op, ops));
    assert NamedByWords(NAryOperation(op, ops)) && AllValid(ops);
    forall i | 0 <= i < |ops[1..]|
      ensures EquationFree(ops[1..][i]) && Valid(ops[1..][i]) && NamedByWords(ops[1..][i])
    {
      assert ops[1..][i] == ops[i + 1];
    }
  }

  lemma PlainTextsTail(ops: seq<Expr>)
    requires |ops| > 0 && forall i :: 0 <= i < |ops| ==> EquationFree(ops[i])
    ensures PlainTexts(ops)[1..] == PlainTexts(ops[1..])
  {
    var ts, us := PlainTexts(ops), PlainTexts(ops[1..]);
    forall i | 0 <= i < |us| ensures ts[1..][i] == us[i] {
      assert ops[1..][i] == ops[i + 1];
      assert ts[i + 1] == PlainText(ops[i + 1]);
    }
  }

  /** The plain text of an n-ary node, cut after its first operand. */
  lemma NAryShape(op: NAryOperator, ops: seq<Expr>, rest: string)
    requires |ops| > 0 && forall i :: 0 <= i < |ops| ==> EquationFree(ops[i])
    ensures var ts := PlainTexts(ops);
      PlainText(NAryOperation(op, ops)) + rest == "(" + (ts[0] + (Prefixed(ts[1..], op.Symbol()) + (")" + rest)))
  {
    var ts := PlainTexts(ops);
    JoinFront(ts, op.Symbol());
    var j := Join(ts, op.Symbol());
    Assoc("(" + j, ")", rest);
    Assoc("(", j, ")" + rest);
    Assoc(ts[0], Prefixed(ts[1..], op.Symbol()), ")" + rest);
  }

  /** What comes after an operand of an n-ary node: its symbol, or the closing parenthesis. */
  lemma TailStart(ts: seq<string>, op: NAryOperator, rest: string)
    ensures var tail := Prefixed(ts, op.Symbol()) + (")" + rest);
      |tail| > 0 && tail[0] == (if |ts| == 0 then ')' else op.Symbol()[0]) && Follows(tail)
  {
    assert op.Symbol() == "+" || op.Symbol() == "*";
  }

  /** A function's name is a word. */
  lemma NameIsWord(f: Function)
    ensures IsWord(f.Name())
  {
    match f
    case Sin =>
    case Cos =>
    case Tan =>
    case Arcsin =>
    case Arccos =>
    case Arctan =>
    case Ln =>
    case Abs =>
    case Sqrt =>
  }

  lemma ReadFunction(f: Function, a: Expr, rest: string)
    requires Readable(a)
    requires Read(PlainText(a) + (")" + rest)) == Some((a, ")" + rest))
    ensures Read(PlainText(FunctionOperation(f, a)) + rest) == Some((FunctionOperation(f, a), rest))
  {
    var ta := PlainText(a);
    ReadFunctionText(f, ta, a, rest);
    assert PlainText(FunctionOperation(f, a)) + rest == f.Name() + ("(" + (ta + (")" + rest))) by {
      Assoc(f.Name() + "(" + ta, ")", rest);
      Assoc(f.Name() + "(", ta, ")" + rest);
      Assoc(f.Name(), "(", ta + (")" + rest));
    }
  }

  lemma ReadTailStep(op: NAryOperator, ops: seq<Expr>, rest: string)
    requires |ops| > 0 && forall i :: 0 <= i < |ops| ==> EquationFree(ops[i])
    requires var ts := PlainTexts(ops); var tail := Prefixed(ts[1..], op.Symbol()) + (")" + rest);
      Read(ts[0] + tail) == Some((ops[0], tail))
    requires ReadTail(op, Prefixed(PlainTexts(ops[1..]), op.Symbol()) + (")" + rest)) == Some((ops[1..], rest))
    ensures ReadTail(op, Prefixed(PlainTexts(ops), op.Symbol()) + (")" + rest)) == Some((ops, rest))
  {
    var ts := PlainTexts(ops);
    var tail := Prefixed(ts[1..], op.Symbol()) + (")" + rest);
    PlainTextsTail(ops);
    ReadTailText(op, ts[0], tail, ops[0], ops[1..], rest);
    Cons(ops);
    assert Prefixed(ts, op.Symbol()) + (")" + rest) == op.Symbol() + (ts[0] + tail) by {
      var p := Prefixed(ts[1..], op.Symbol());
      Assoc(op.Symbol() + ts[0], p, ")" + rest);
      Assoc(op.Symbol(), ts[0], p + (")" + rest));
    }
  }

  /** The printer is injective on readable trees: different trees never print alike. */
  lemma PlainTextInjective(e1: Expr, e2: Expr)
    requires Readable(e1) && Readable(e2)
    requires PlainText(e1) == PlainText(e2)
    ensures e1 == e2
  {
    ReadPlainText(e1, "");
    ReadPlainText(e2, "");
    assert PlainText(e1) + "" == PlainText(e1);
    assert PlainText(e2) + "" == PlainText(e2);
  }

  /** A negative constant is parenthesised: -3 prints as "(-3)". */
  lemma NegativeConstantExample()
    ensures PlainText(Constant(-3)) == "(-3)"
  {
    assert NatToString(3) == "3";
  }

  /** Every node is parenthesised: x*2 + y prints as "((x*2)+y)". */
  lemma PlainTextExample()
    ensures PlainText(NAryOperation(Addition, [NAryOperation(Product, [Variable("x"), Constant(2)]), Variable("y")]))
      == "((x*2)+y)"
  {
    var x2 := NAryOperation(Product, [Variable("x"), Constant(2)]);
    assert NatToString(2) == "2";
    assert PlainTexts([Variable("x"), Constant(2)]) == ["x", "2"];
    assert PlainText(x2) == "(x*2)";
    assert PlainTexts([x2, Variable("y")]) == ["(x*2)", "y"];
  }
}
