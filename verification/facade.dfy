/**
 * The live facade: parsing as tokenizer, shunting-yard and tree builder in
 * a row; simplification as the six rewrite passes repeated until a round
 * changes nothing; differentiation between two simplifications; substitution
 * and variable enumeration passed straight to their visitors.
 *
 * The simplification loop has no iteration cap, so it is modelled with a
 * fuel bound: running out of fuel stands for a loop that would not have
 * stopped within that many rounds, and is reported as `OutOfFuel`.
 */
module CasFrameworkImpl {
  import opened Wrappers
  import opened Expressions
  import opened Semantics
  import opened Environment
  import Tokenizer
  import ShuntingYard
  import TreeBuilder
  import Leveler
  import AlgebraicSimplifier
  import RationalSimplifier
  import Collector
  import ConstantFolder
  import TreeSorter
  import Differentiator
  import Substitutor
  import VariableEnumerator

  /**
   * How a facade call fails: an IllegalArgumentException with its message,
   * the UnsupportedOperationException of a function the differentiator has
   * no rule for, a simplification that did not settle within its fuel, or
   * no result at all: a visitor handed an equation dispatches back to itself
   * without end.
   */
  datatype Fault = IllegalArgument(message: string) | Unsupported | OutOfFuel | NoResult

  const SYNTAX_ERROR: string := "Syntax error"

  // Parsing.

  /** The exception the facade rethrows for a fault of the tree builder. */
  function BuilderFault(f: TreeBuilder.Fault): Fault {
    match f
    case EmptyStack => IllegalArgument(SYNTAX_ERROR)
    case IllegalArgument(m) => IllegalArgument(m)
    case NoSuchElement(m) => IllegalArgument(m)
    case IllegalState(m) => IllegalArgument(m)
  }

  /** A message the parser can fail with on the given tokens. */
  predicate ParserMessage(m: string, tokens: seq<string>) {
    m == ShuntingYard.MISMATCHED
    || exists t :: t in tokens && ShuntingYard.IsSymbol(t) && !HasOperator(t) && m == "Unknown operator: " + t
  }

  /**
   * `parse`: every tree it returns is valid and equation-free; every failure
   * is an IllegalArgumentException saying "Mismatched parentheses", "Unknown
   * operator: " and a symbol of the input, "Syntax error" for an operand stack
   * that ran dry, or the number-format message of a token `Integer.parseInt` rejects.
   */
  function Parse(input: string): (r: Result<Expr, Fault>)
    ensures r.Success? ==> Valid(r.value) && EquationFree(r.value)
    ensures r.Failure? ==> r.error.IllegalArgument?
    ensures r.Failure? ==>
      var tokens := Tokenizer.Tokenize(input);
      var m := r.error.message;
      ParserMessage(m, tokens)
      || m == SYNTAX_ERROR
      || exists s :: m == TreeBuilder.NumberFormatMessage(s)
  {
    var tokens := Tokenizer.Tokenize(input);
    match ShuntingYard.Parse(tokens)
    case Failure(m) =>
      ParseFails(tokens);
      Failure(IllegalArgument(m))
    case Success(postfix) =>
      ShuntingYard.ParseOutput(tokens);
      TreeBuilder.BuildSound(postfix);
      TreeBuilder.BuildFault(postfix);
      match TreeBuilder.Build(postfix)
      case Failure(f) => Failure(BuilderFault(f))
      case Success(e) => Success(e)
  }

  /** The parser fails only for parentheses and unknown symbols. */
  lemma ParseFails(tokens: seq<string>)
    ensures ShuntingYard.Parse(tokens).Failure? ==> ParserMessage(ShuntingYard.Parse(tokens).error, tokens)
  {
    ParseAllFails(ShuntingYard.Initial, tokens);
  }

  lemma {:induction false} ParseAllFails(st: ShuntingYard.State, tokens: seq<string>)
    requires ShuntingYard.Good(st)
    ensures ShuntingYard.ParseAll(st, tokens).Failure? ==> ParserMessage(ShuntingYard.ParseAll(st, tokens).error, tokens)
    decreases |tokens|
  {
    if |tokens| > 0 {
      ShuntingYard.ParseTokenGood(st, tokens[0]);
      var r := ShuntingYard.ParseToken(st, tokens[0]);
      if r.Success? {
        ParseAllFails(r.value, tokens[1..]);
        var all := ShuntingYard.ParseAll(st, tokens);
        if all.Failure? && all.error != ShuntingYard.MISMATCHED {
          var m := all.error;
          var t :| t in tokens[1..] && ShuntingYard.IsSymbol(t) && !HasOperator(t) && m == "Unknown operator: " + t;
          assert t in tokens;
        }
      } else {
        assert tokens[0] in tokens;
      }
    }
  }

  // Simplification.

  /** One round of the loop: leveler, algebraic, rational, collector, folder and sorter, in this order. */
  function Round(e: Expr): (r: Expr)
    requires EquationFree(e) && Valid(e)
    ensures EquationFree(r) && Valid(r)
  {
    Leveler.LevelValid(e);
    var a := Leveler.Level(e);
    AlgebraicSimplifier.SimplifyValid(a);
    var b := AlgebraicSimplifier.Simplify(a);
    RationalSimplifier.RationalizeValid(b);
    var c := RationalSimplifier.Rationalize(b);
    Collector.CollectFacts(c);
    var d := Collector.Collect(c);
    ConstantFolder.FoldEquationFree(d);
    ConstantFolder.FoldValid(d);
    var f := ConstantFolder.Fold(d);
    TreeSorter.SortEquationFree(f);
    TreeSorter.SortValid(f);
    TreeSorter.Sort(f)
  }

  /**
   * The loop of `simplify` over any round: at most fuel rounds, stopping at
   * the first tree a round leaves unchanged; None when fuel rounds were not
   * enough.
   */
  function Loop(round: Expr -> Expr, e: Expr, fuel: nat): (r: Option<Expr>)
    ensures r.Some? ==> fuel > 0 && round(r.value) == r.value
    decreases fuel
  {
    if fuel == 0 then None
    else
      var next := round(e);
      if next == e then Some(e) else Loop(round, next, fuel - 1)
  }

  /** A property every round keeps holds of the loop's result. */
  lemma {:induction false} LoopKeeps(round: Expr -> Expr, keep: Expr -> bool, e: Expr, fuel: nat)
    requires keep(e) && forall t :: keep(t) ==> keep(round(t))
    ensures Loop(round, e, fuel).Some? ==> keep(Loop(round, e, fuel).value)
    decreases fuel
  {
    if fuel > 0 && round(e) != e {
      LoopKeeps(round, keep, round(e), fuel - 1);
    }
  }

  /** Fuel decides only whether the loop is seen to stop, never what it returns. */
  lemma {:induction false} LoopMoreFuel(round: Expr -> Expr, e: Expr, fuel: nat, more: nat)
    requires Loop(round, e, fuel).Some? && fuel <= more
    ensures Loop(round, e, more) == Loop(round, e, fuel)
    decreases fuel
  {
    if round(e) != e {
      LoopMoreFuel(round, round(e), fuel - 1, more - 1);
    }
  }

  /** The round of the facade, on the trees it is defined for. */
  function RoundStep(e: Expr): Expr {
    if EquationFree(e) && Valid(e) then Round(e) else e
  }

  /**
   * `simplify` with at most fuel rounds: the first tree a round leaves
   * unchanged, or None when fuel rounds were not enough.
   */
  function Simplify(e: Expr, fuel: nat): (r: Option<Expr>)
    requires EquationFree(e) && Valid(e)
    ensures r.Some? ==> EquationFree(r.value) && Valid(r.value) && Round(r.value) == r.value
    ensures r.Some? ==> fuel > 0
  {
    LoopKeeps(RoundStep, t => EquationFree(t) && Valid(t), e, fuel);
    Loop(RoundStep, e, fuel)
  }

  /** With enough fuel, simplify returns the same tree whatever the budget. */
  lemma SimplifyMoreFuel(e: Expr, fuel: nat, more: nat)
    requires EquationFree(e) && Valid(e)
    requires Simplify(e, fuel).Some? && fuel <= more
    ensures Simplify(e, more) == Simplify(e, fuel)
  {
    LoopMoreFuel(RoundStep, e, fuel, more);
  }

  /** simplify(simplify(e)) = simplify(e): a fixed point stops after its first round. */
  lemma SimplifyIdempotent(e: Expr, fuel: nat, fuel': nat)
    requires EquationFree(e) && Valid(e)
    requires Simplify(e, fuel).Some? && fuel' > 0
    ensures Simplify(Simplify(e, fuel).value, fuel') == Simplify(e, fuel)
  {
  }

  /** A round keeps the value of every tree that has one. */
  lemma RoundSound(e: Expr, env: Env, fn: Interp)
    requires EquationFree(e) && Valid(e)
    requires FunctionLaws(env, fn) && Eval(e, env, fn).Some?
    ensures Eval(Round(e), env, fn) == Eval(e, env, fn)
  {
    Leveler.LevelValid(e);
    var a := Leveler.Level(e);
    Leveler.LevelSound(e, env, fn);
    AlgebraicSimplifier.SimplifyValid(a);
    var b := AlgebraicSimplifier.Simplify(a);
    AlgebraicSimplifier.SimplifySound(a, env, fn);
    RationalSimplifier.RationalizeValid(b);
    var c := RationalSimplifier.Rationalize(b);
    RationalSimplifier.RationalizeSound(b, env, fn);
    Collector.CollectFacts(c);
    var d := Collector.Collect(c);
    Collector.CollectSound(c, env, fn);
    ConstantFolder.FoldEquationFree(d);
    ConstantFolder.FoldValid(d);
    var f := ConstantFolder.Fold(d);
    ConstantFolder.FoldSound(d, env, fn);
    TreeSorter.SortSound(f, env, fn);
  }

  /** Simplification is sound: a tree with a value simplifies to one with the same value. */
  lemma {:induction false} SimplifySound(e: Expr, fuel: nat, env: Env, fn: Interp)
    requires EquationFree(e) && Valid(e) && Simplify(e, fuel).Some?
    requires FunctionLaws(env, fn) && Eval(e, env, fn).Some?
    ensures Eval(Simplify(e, fuel).value, env, fn) == Eval(e, env, fn)
    decreases fuel
  {
    RoundSound(e, env, fn);
    if RoundStep(e) != e {
      SimplifySound(Round(e), fuel - 1, env, fn);
    }
  }

  // Differentiation, substitution and enumeration.

  /**
   * `differentiate`: the input simplified, its derivative taken, and the
   * derivative simplified. The result is a fixed point of the loop; the call
   * fails as unsupported exactly when the simplified input holds a function
   * the differentiator has no rule for.
   */
  function Differentiate(e: Expr, x: string, fuel: nat): (r: Result<Expr, Fault>)
    requires EquationFree(e) && Valid(e)
    ensures r.Success? ==> EquationFree(r.value) && Valid(r.value) && Round(r.value) == r.value
    ensures r.Failure? ==> r.error == Unsupported || r.error == OutOfFuel
    ensures r == Failure(Unsupported) <==>
      Simplify(e, fuel).Some? && !Differentiator.Supported(Simplify(e, fuel).value)
  {
    match Simplify(e, fuel)
    case None => Failure(OutOfFuel)
    case Some(s) =>
      Differentiator.DeriveDefined(s, x);
      match Differentiator.Derive(s, x)
      case None => Failure(Unsupported)
      case Some(d) =>
        Differentiator.DeriveWellFormed(s, x);
        match Simplify(d, fuel)
        case None => Failure(OutOfFuel)
        case Some(r) => Success(r)
  }

  /** The result of differentiate has the value of the raw derivative of the simplified input. */
  lemma DifferentiateSound(e: Expr, x: string, fuel: nat, env: Env, fn: Interp)
    requires EquationFree(e) && Valid(e) && Differentiate(e, x, fuel).Success?
    requires FunctionLaws(env, fn)
    ensures var s := Simplify(e, fuel).value;
      EquationFree(s) && Differentiator.Derive(s, x).Some? &&
      (Eval(Differentiator.Derive(s, x).value, env, fn).Some? ==>
        Eval(Differentiate(e, x, fuel).value, env, fn) == Eval(Differentiator.Derive(s, x).value, env, fn))
  {
    var s := Simplify(e, fuel).value;
    var d := Differentiator.Derive(s, x).value;
    Differentiator.DeriveWellFormed(s, x);
    if Eval(d, env, fn).Some? {
      SimplifySound(d, fuel, env, fn);
    }
  }

  /**
   * `substitute`: the names become variable keys and the substitutor runs,
   * with no simplification. The result's variables are the unmapped ones of
   * the input and those of every expression put in; the empty map changes
   * nothing.
   */
  function Substitute(e: Expr, m: map<string, Expr>): (r: Expr)
    requires EquationFree(e)
    ensures forall y :: y in Vars(r) <==>
      (y in Vars(e) && y !in m) || exists x :: x in Vars(e) && x in m && y in Vars(m[x])
    ensures m == map[] ==> r == e
  {
    SubstituteFacts(e, m);
    Substitutor.Substitute(e, m)
  }

  lemma SubstituteFacts(e: Expr, m: map<string, Expr>)
    requires EquationFree(e)
    ensures var r := Substitutor.Substitute(e, m);
      (forall y :: y in Vars(r) <==>
        (y in Vars(e) && y !in m) || exists x :: x in Vars(e) && x in m && y in Vars(m[x]))
      && (m == map[] ==> r == e)
  {
    var r := Substitutor.Substitute(e, m);
    forall y ensures y in Vars(r) <==>
      (y in Vars(e) && y !in m) || exists x :: x in Vars(e) && x in m && y in Vars(m[x])
    {
      Substitutor.SubstituteVars(e, m, y);
    }
    if m == map[] {
      Substitutor.SubstituteEmpty(e);
    }
  }

  /**
   * `enumerateVariables`: the names of the tree's variables except the
   * registered constants pi and e, in increasing order, each once.
   */
  method EnumerateVariables(e: Expr) returns (r: seq<string>)
    ensures VariableEnumerator.StrictlySorted(r)
    ensures forall y :: y in r <==> y in Vars(e) && y != "pi" && y != "e"
  {
    VariableEnumerator.CollectVars(e);
    r := VariableEnumerator.SortedNames(VariableEnumerator.Collect(e));
  }
}
