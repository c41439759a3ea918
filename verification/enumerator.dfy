/**
 * The variable enumerator: the names of all variables in a tree, except the
 * registered mathematical constants, returned as a sorted copy of the
 * collected set. Unlike the rewrite passes it has a case for equations and
 * visits both members.
 */
module VariableEnumerator {
  import opened Expressions
  import opened Environment

  /** The names `visit` adds to the enumerator's set. */
  function Collect(e: Expr): set<string> {
    match e
    case Variable(n) => if HasConstant(n) then {} else {n}
    case Constant(_) => {}
    case BinaryOperation(_, a, b) => Collect(a) + Collect(b)
    case NAryOperation(_, ops) => CollectAll(ops)
    case FunctionOperation(_, a) => Collect(a)
    case Equation(a, b) => Collect(a) + Collect(b)
  }

  function CollectAll(ops: seq<Expr>): set<string> {
    if |ops| == 0 then {} else CollectAll(ops[..|ops| - 1]) + Collect(ops[|ops| - 1])
  }

  /** The collected names are exactly the tree's variables other than pi and e. */
  lemma {:induction false} CollectVars(e: Expr)
    ensures Collect(e) == Vars(e) - {"pi", "e"}
  {
    ConstantTable();
    match e
    case Variable(_) =>
    case Constant(_) =>
    case BinaryOperation(_, a, b) =>
      CollectVars(a);
      CollectVars(b);
    case NAryOperation(_, ops) =>
      CollectAllVars(ops);
    case FunctionOperation(_, a) =>
      CollectVars(a);
    case Equation(a, b) =>
      CollectVars(a);
      CollectVars(b);
  }

  lemma {:induction false} CollectAllVars(ops: seq<Expr>)
    ensures CollectAll(ops) == VarsOfAll(ops) - {"pi", "e"}
    decreases ops, 0
  {
    if |ops| > 0 {
      CollectAllVars(ops[..|ops| - 1]);
      CollectVars(ops[|ops| - 1]);
    }
  }

  /** "pi + e*x + 2", as the parser builds it, enumerates to x alone. */
  lemma EnumerationExample()
    ensures var ex := NAryOperation(Product, [Variable("e"), Variable("x")]);
      Collect(NAryOperation(Addition, [NAryOperation(Addition, [Variable("pi"), ex]), Constant(2)])) == {"x"}
  {
    ConstantTable();
    var ex := NAryOperation(Product, [Variable("e"), Variable("x")]);
    var inner := NAryOperation(Addition, [Variable("pi"), ex]);
    assert [Variable("e"), Variable("x")][..1] == [Variable("e")];
    assert [Variable("pi"), ex][..1] == [Variable("pi")];
    assert [inner, Constant(2)][..1] == [inner];
    assert HasConstant("pi") && HasConstant("e") && !HasConstant("x");
    assert CollectAll([Variable("e")]) == {};
    assert Collect(ex) == {"x"};
    assert CollectAll([Variable("pi")]) == {};
    assert Collect(inner) == {"x"};
    assert CollectAll([inner]) == {"x"};
    assert CollectAll([inner, Constant(2)]) == {"x"};
  }

  // The sorted copy: Java's String.compareTo order.

  /** a comes strictly before b: at the first differing character, or as a proper prefix. */
  predicate Before(a: string, b: string) {
    if |a| == 0 then |b| > 0
    else if |b| == 0 then false
    else if a[0] == b[0] then Before(a[1..], b[1..])
    else a[0] < b[0]
  }

  lemma {:induction false} BeforeIrreflexive(a: string)
    ensures !Before(a, a)
  {
    if |a| > 0 {
      BeforeIrreflexive(a[1..]);
    }
  }

  lemma {:induction false} BeforeTransitive(a: string, b: string, c: string)
    requires Before(a, b) && Before(b, c)
    ensures Before(a, c)
  {
    if |a| > 0 && |b| > 0 && |c| > 0 && a[0] == b[0] && b[0] == c[0] {
      BeforeTransitive(a[1..], b[1..], c[1..]);
    }
  }

  lemma {:induction false} BeforeTotal(a: string, b: string)
    requires a != b
    ensures Before(a, b) || Before(b, a)
  {
    if |a| > 0 && |b| > 0 && a[0] == b[0] {
      assert a == [a[0]] + a[1..] && b == [b[0]] + b[1..];
      BeforeTotal(a[1..], b[1..]);
    }
  }

  predicate StrictlySorted(r: seq<string>) {
    forall i, j :: 0 <= i < j < |r| ==> Before(r[i], r[j])
  }

  /** The TreeSet copy: the names of s in increasing order, each once. */
  method SortedNames(s: set<string>) returns (r: seq<string>)
    ensures StrictlySorted(r)
    ensures forall x :: x in r <==> x in s
    ensures |r| == |s|
  {
    r := [];
    var rest := s;
    while rest != {}
      invariant rest <= s
      invariant forall x :: x in r <==> x in s && x !in rest
      invariant |r| + |rest| == |s|
      invariant StrictlySorted(r)
      invariant forall i, y :: 0 <= i < |r| && y in rest ==> Before(r[i], y)
      decreases |rest|
    {
      var m := Least(rest);
      forall i | 0 <= i < |r| ensures Before(r[i], m) {
      }
      r := r + [m];
      rest := rest - {m};
    }
  }

  /** The first name of a non-empty set. */
  method Least(s: set<string>) returns (m: string)
    requires s != {}
    ensures m in s
    ensures forall y :: y in s && y != m ==> Before(m, y)
  {
    m :| m in s;
    var seen := {m};
    while seen != s
      invariant m in seen && seen <= s
      invariant forall y :: y in seen && y != m ==> Before(m, y)
      decreases |s - seen|
    {
      var y :| y in s - seen;
      if Before(y, m) {
        forall z | z in seen && z != y ensures Before(y, z) {
          if z != m {
            BeforeTransitive(y, m, z);
          }
        }
        m := y;
      } else {
        BeforeTotal(y, m);
      }
      seen := seen + {y};
    }
  }
}
