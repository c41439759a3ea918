/**
 * The tree sorter: the operands of every n-ary node are regrouped by node
 * kind (constants, variables, n-ary nodes, binary nodes, functions), each
 * group keeping the operands' original order, and every operand is sorted
 * in turn. An operand of no listed kind (an equation) is in no group and is
 * dropped.
 */
module TreeSorter {
  import opened Wrappers
  import opened Expressions
  import opened Semantics

  /** The operand groups, in the order the sorter emits them. */
  datatype Kind = ConstantKind | VariableKind | NAryKind | BinaryKind | FunctionKind

  const KindOrder: seq<Kind> := [ConstantKind, VariableKind, NAryKind, BinaryKind, FunctionKind]

  /** The group an operand belongs to; an equation belongs to none. */
  function KindOf(e: Expr): Option<Kind> {
    match e
    case Constant(_) => Some(ConstantKind)
    case Variable(_) => Some(VariableKind)
    case NAryOperation(_, _) => Some(NAryKind)
    case BinaryOperation(_, _, _) => Some(BinaryKind)
    case FunctionOperation(_, _) => Some(FunctionKind)
    case Equation(_, _) => None
  }

  /** The operands of kind k, in their original order: one of the five loops. */
  function OfKind(ops: seq<Expr>, k: Kind): (r: seq<Expr>)
    ensures |r| <= |ops|
  {
    if |ops| == 0 then []
    else
      var last := ops[|ops| - 1];
      OfKind(ops[..|ops| - 1], k) + (if KindOf(last) == Some(k) then [last] else [])
  }

  /** The five loops of `visit(NAryOperation)` one after the other. */
  function Arrange(ops: seq<Expr>): seq<Expr> {
    OfKind(ops, ConstantKind) + OfKind(ops, VariableKind) + OfKind(ops, NAryKind)
      + OfKind(ops, BinaryKind) + OfKind(ops, FunctionKind)
  }

  /** The pass: every n-ary node's operands are sorted, then regrouped. */
  function Sort(e: Expr): (r: Expr)
    requires EquationFree(e)
    ensures KindOf(r) == KindOf(e)
  {
    match e
    case Variable(_) => e
    case Constant(_) => e
    case BinaryOperation(op, a, b) => BinaryOperation(op, Sort(a), Sort(b))
    case NAryOperation(op, ops) =>
      var s := seq(|ops|, i requires 0 <= i < |ops| => Sort(ops[i]));
      NAryOperation(op, Arrange(s))
    case FunctionOperation(f, a) => FunctionOperation(f, Sort(a))
    case Equation(_, _) => e
  }

  // The regrouping is a stable partition.

  lemma OfKindAppend(a: seq<Expr>, b: seq<Expr>, k: Kind)
    ensures OfKind(a + b, k) == OfKind(a, k) + OfKind(b, k)
    decreases |b|
  {
    if |b| == 0 {
      assert a + b == a;
    } else {
      assert (a + b)[..|a + b| - 1] == a + b[..|b| - 1];
      OfKindAppend(a, b[..|b| - 1], k);
    }
  }

  /** Picking kind k out of the operands of kind j gives them all when j = k and none otherwise. */
  lemma {:induction false} OfKindOfKind(ops: seq<Expr>, j: Kind, k: Kind)
    ensures OfKind(OfKind(ops, j), k) == if j == k then OfKind(ops, k) else []
  {
    if |ops| > 0 {
      var init, last := ops[..|ops| - 1], ops[|ops| - 1];
      OfKindOfKind(init, j, k);
      var tail := if KindOf(last) == Some(j) then [last] else [];
      OfKindAppend(OfKind(init, j), tail, k);
      if KindOf(last) == Some(j) {
        assert [last][..0] == [];
      }
    }
  }

  /** Within each group the sorter keeps the operands' original order. */
  lemma ArrangeStable(ops: seq<Expr>, k: Kind)
    ensures OfKind(Arrange(ops), k) == OfKind(ops, k)
  {
    var c, v, n, b, f := OfKind(ops, ConstantKind), OfKind(ops, VariableKind), OfKind(ops, NAryKind),
      OfKind(ops, BinaryKind), OfKind(ops, FunctionKind);
    OfKindConcat(c, v, n, b, f, k);
    OfKindOfKind(ops, ConstantKind, k);
    OfKindOfKind(ops, VariableKind, k);
    OfKindOfKind(ops, NAryKind, k);
    OfKindOfKind(ops, BinaryKind, k);
    OfKindOfKind(ops, FunctionKind, k);
    Collapse(OfKind(c, k), OfKind(v, k), OfKind(n, k), OfKind(b, k), OfKind(f, k), OfKind(ops, k), k);
  }

  /** Five groups of which only group k may be non-empty concatenate to group k. */
  lemma Collapse(c: seq<Expr>, v: seq<Expr>, n: seq<Expr>, b: seq<Expr>, f: seq<Expr>, g: seq<Expr>, k: Kind)
    requires c == (if k == ConstantKind then g else []) && v == (if k == VariableKind then g else [])
    requires n == (if k == NAryKind then g else []) && b == (if k == BinaryKind then g else [])
    requires f == (if k == FunctionKind then g else [])
    ensures c + v + n + b + f == g
  {
  }

  lemma OfKindConcat(c: seq<Expr>, v: seq<Expr>, n: seq<Expr>, b: seq<Expr>, f: seq<Expr>, k: Kind)
    ensures OfKind(c + v + n + b + f, k) == OfKind(c, k) + OfKind(v, k) + OfKind(n, k) + OfKind(b, k) + OfKind(f, k)
  {
    OfKindAppend(c + v + n + b, f, k);
    OfKindAppend(c + v + n, b, k);
    OfKindAppend(c + v, n, k);
    OfKindAppend(c, v, k);
  }

  /** The groups come out in kind order: regrouping a regrouped list changes nothing. */
  lemma ArrangeIdempotent(ops: seq<Expr>)
    ensures Arrange(Arrange(ops)) == Arrange(ops)
  {
    ArrangeStable(ops, ConstantKind);
    ArrangeStable(ops, VariableKind);
    ArrangeStable(ops, NAryKind);
    ArrangeStable(ops, BinaryKind);
    ArrangeStable(ops, FunctionKind);
  }

  function Rank(k: Kind): nat {
    match k
    case ConstantKind => 0
    case VariableKind => 1
    case NAryKind => 2
    case BinaryKind => 3
    case FunctionKind => 4
  }

  /** The position of an operand's group in the output; an equation, in no group, ranks last. */
  function RankOf(e: Expr): nat {
    match KindOf(e)
    case Some(k) => Rank(k)
    case None => 5
  }

  /** No operand is followed by one of an earlier group. */
  predicate InKindOrder(ops: seq<Expr>) {
    forall i, j :: 0 <= i <= j < |ops| ==> RankOf(ops[i]) <= RankOf(ops[j])
  }

  /** The result lists the groups in the sorter's order. */
  lemma ArrangeOrdered(ops: seq<Expr>)
    ensures InKindOrder(Arrange(ops))
  {
    var c, v, n, b, f := OfKind(ops, ConstantKind), OfKind(ops, VariableKind), OfKind(ops, NAryKind),
      OfKind(ops, BinaryKind), OfKind(ops, FunctionKind);
    OfKindMembers(ops, ConstantKind);
    OfKindMembers(ops, VariableKind);
    OfKindMembers(ops, NAryKind);
    OfKindMembers(ops, BinaryKind);
    OfKindMembers(ops, FunctionKind);
    OrderedAppend(c, v, 0);
    OrderedAppend(c + v, n, 1);
    OrderedAppend(c + v + n, b, 2);
    OrderedAppend(c + v + n + b, f, 3);
  }

  /** Two lists in kind order, the first of groups no later than m, the second of later ones. */
  lemma OrderedAppend(a: seq<Expr>, b: seq<Expr>, m: nat)
    requires InKindOrder(a) && (forall t :: 0 <= t < |a| ==> RankOf(a[t]) <= m)
    requires forall t :: 0 <= t < |b| ==> RankOf(b[t]) == m + 1
    ensures InKindOrder(a + b)
    ensures forall t :: 0 <= t < |a + b| ==> RankOf((a + b)[t]) <= m + 1
  {
  }

  /** Every operand picked for kind k has kind k. */
  lemma {:induction false} OfKindMembers(ops: seq<Expr>, k: Kind)
    ensures forall t :: 0 <= t < |OfKind(ops, k)| ==> KindOf(OfKind(ops, k)[t]) == Some(k)
    ensures forall x :: x in OfKind(ops, k) <==> x in ops && KindOf(x) == Some(k)
  {
    if |ops| > 0 {
      var init, last := ops[..|ops| - 1], ops[|ops| - 1];
      OfKindMembers(init, k);
      assert ops == init + [last];
    }
  }

  /** An operand of kind k adds itself to group k and to no other. */
  lemma OfKindSnoc(ops: seq<Expr>, x: Expr, k: Kind)
    ensures OfKind(ops + [x], k) == OfKind(ops, k) + (if KindOf(x) == Some(k) then [x] else [])
    ensures multiset(OfKind(ops + [x], k)) == multiset(OfKind(ops, k)) + (if KindOf(x) == Some(k) then multiset{x} else multiset{})
  {
    assert (ops + [x])[..|ops|] == ops;
  }

  /** Without equations, the regrouped operands are a rearrangement of the operands. */
  lemma {:induction false} ArrangePermutes(ops: seq<Expr>)
    requires forall i :: 0 <= i < |ops| ==> KindOf(ops[i]).Some?
    ensures multiset(Arrange(ops)) == multiset(ops)
  {
    if |ops| > 0 {
      var init, x := ops[..|ops| - 1], ops[|ops| - 1];
      ArrangePermutes(init);
      assert ops == init + [x];
      ArrangeSnoc(init, x);
    }
  }

  /** One more operand, of some kind, adds itself to the regrouped list. */
  lemma ArrangeSnoc(init: seq<Expr>, x: Expr)
    requires KindOf(x).Some?
    ensures multiset(Arrange(init + [x])) == multiset(Arrange(init)) + multiset{x}
  {
    OfKindSnoc(init, x, ConstantKind);
    OfKindSnoc(init, x, VariableKind);
    OfKindSnoc(init, x, NAryKind);
    OfKindSnoc(init, x, BinaryKind);
    OfKindSnoc(init, x, FunctionKind);
    AddToOne(multiset(OfKind(init, ConstantKind)), multiset(OfKind(init, VariableKind)),
      multiset(OfKind(init, NAryKind)), multiset(OfKind(init, BinaryKind)), multiset(OfKind(init, FunctionKind)),
      multiset(OfKind(init + [x], ConstantKind)), multiset(OfKind(init + [x], VariableKind)),
      multiset(OfKind(init + [x], NAryKind)), multiset(OfKind(init + [x], BinaryKind)),
      multiset(OfKind(init + [x], FunctionKind)), x);
  }

  /** Adding x to its own group of five adds it once to their union. */
  lemma AddToOne(c: multiset<Expr>, v: multiset<Expr>, n: multiset<Expr>, b: multiset<Expr>, f: multiset<Expr>,
                 c': multiset<Expr>, v': multiset<Expr>, n': multiset<Expr>, b': multiset<Expr>, f': multiset<Expr>,
                 x: Expr)
    requires KindOf(x).Some?
    requires c' == c + (if KindOf(x) == Some(ConstantKind) then multiset{x} else multiset{})
    requires v' == v + (if KindOf(x) == Some(VariableKind) then multiset{x} else multiset{})
    requires n' == n + (if KindOf(x) == Some(NAryKind) then multiset{x} else multiset{})
    requires b' == b + (if KindOf(x) == Some(BinaryKind) then multiset{x} else multiset{})
    requires f' == f + (if KindOf(x) == Some(FunctionKind) then multiset{x} else multiset{})
    ensures c' + v' + n' + b' + f' == c + v + n + b + f + multiset{x}
  {
  }

  /** An equation operand is in no group, so the sorter drops it. */
  lemma ArrangeDropsEquations(ops: seq<Expr>)
    ensures forall x :: x in Arrange(ops) <==> x in ops && !x.Equation?
  {
    OfKindMembers(ops, ConstantKind);
    OfKindMembers(ops, VariableKind);
    OfKindMembers(ops, NAryKind);
    OfKindMembers(ops, BinaryKind);
    OfKindMembers(ops, FunctionKind);
  }

  // The pass over a whole tree.

  /** No equation anywhere means no operand is dropped: every operand has a group. */
  lemma GroupedOperands(ops: seq<Expr>)
    requires forall i :: 0 <= i < |ops| ==> EquationFree(ops[i])
    ensures forall i :: 0 <= i < |ops| ==> KindOf(ops[i]).Some?
  {
  }

  /** Sorting introduces no equation. */
  lemma {:induction false} SortEquationFree(e: Expr)
    requires EquationFree(e)
    ensures EquationFree(Sort(e))
  {
    match e
    case Variable(_) =>
    case Constant(_) =>
    case BinaryOperation(_, a, b) =>
      SortEquationFree(a);
      SortEquationFree(b);
    case NAryOperation(op, ops) =>
      var s := seq(|ops|, i requires 0 <= i < |ops| => Sort(ops[i]));
      forall i | 0 <= i < |s| ensures EquationFree(s[i]) {
        SortEquationFree(ops[i]);
      }
      ArrangeDropsEquations(s);
      forall x | x in Arrange(s) ensures EquationFree(x) {
      }
    case FunctionOperation(_, a) =>
      SortEquationFree(a);
  }

  /** Sorting an equation-free tree keeps every node's operand count, so it keeps validity. */
  lemma {:induction false} SortValid(e: Expr)
    requires EquationFree(e) && Valid(e)
    ensures Valid(Sort(e))
  {
    match e
    case Variable(_) =>
    case Constant(_) =>
    case BinaryOperation(_, a, b) =>
      SortValid(a);
      SortValid(b);
    case NAryOperation(op, ops) =>
      var s := seq(|ops|, i requires 0 <= i < |ops| => Sort(ops[i]));
      forall i | 0 <= i < |s| ensures EquationFree(s[i]) && Valid(s[i]) {
        SortEquationFree(ops[i]);
        SortValid(ops[i]);
      }
      GroupedOperands(s);
      ArrangePermutes(s);
      assert |Arrange(s)| == |multiset(Arrange(s))| == |s|;
      ArrangeDropsEquations(s);
      forall i | 0 <= i < |Arrange(s)| ensures Valid(Arrange(s)[i]) {
        assert Arrange(s)[i] in s;
      }
    case FunctionOperation(_, a) =>
      SortValid(a);
  }

  /** Sorting keeps the value of every tree, and the absence of one. */
  lemma {:induction false} SortSound(e: Expr, env: Env, fn: Interp)
    requires EquationFree(e)
    ensures Eval(Sort(e), env, fn) == Eval(e, env, fn)
  {
    match e
    case Variable(_) =>
    case Constant(_) =>
    case BinaryOperation(_, a, b) =>
      SortSound(a, env, fn);
      SortSound(b, env, fn);
    case NAryOperation(op, ops) =>
      var s := seq(|ops|, i requires 0 <= i < |ops| => Sort(ops[i]));
      forall i | 0 <= i < |s| ensures EquationFree(s[i]) && Eval(s[i], env, fn) == Eval(ops[i], env, fn) {
        SortEquationFree(ops[i]);
        SortSound(ops[i], env, fn);
      }
      assert EvalAll(s, env, fn) == EvalAll(ops, env, fn);
      GroupedOperands(s);
      ArrangePermutes(s);
      EvalFoldPermutation(op, Arrange(s), s, env, fn);
      assert Eval(Sort(e), env, fn) == EvalFold(op, Arrange(s), env, fn);
    case FunctionOperation(_, a) =>
      SortSound(a, env, fn);
  }

  /** Every n-ary node lists its operands grouped by kind, each of them sorted. */
  predicate Sorted(e: Expr) {
    match e
    case Variable(_) => true
    case Constant(_) => true
    case BinaryOperation(_, a, b) => Sorted(a) && Sorted(b)
    case NAryOperation(_, ops) => Arrange(ops) == ops && forall i :: 0 <= i < |ops| ==> Sorted(ops[i])
    case FunctionOperation(_, a) => Sorted(a)
    case Equation(a, b) => Sorted(a) && Sorted(b)
  }

  /** The pass leaves a sorted tree. */
  lemma {:induction false} SortSorted(e: Expr)
    requires EquationFree(e)
    ensures Sorted(Sort(e))
  {
    match e
    case Variable(_) =>
    case Constant(_) =>
    case BinaryOperation(_, a, b) =>
      SortSorted(a);
      SortSorted(b);
    case NAryOperation(op, ops) =>
      var s := seq(|ops|, i requires 0 <= i < |ops| => Sort(ops[i]));
      forall i | 0 <= i < |s| ensures Sorted(s[i]) {
        SortSorted(ops[i]);
      }
      ArrangeIdempotent(s);
      ArrangeDropsEquations(s);
      forall i | 0 <= i < |Arrange(s)| ensures Sorted(Arrange(s)[i]) {
        assert Arrange(s)[i] in s;
      }
    case FunctionOperation(_, a) =>
      SortSorted(a);
  }

  /** A sorted tree is left as it is. */
  lemma {:induction false} SortedFixed(e: Expr)
    requires EquationFree(e) && Sorted(e)
    ensures Sort(e) == e
  {
    match e
    case Variable(_) =>
    case Constant(_) =>
    case BinaryOperation(_, a, b) =>
      SortedFixed(a);
      SortedFixed(b);
    case NAryOperation(op, ops) =>
      var s := seq(|ops|, i requires 0 <= i < |ops| => Sort(ops[i]));
      forall i | 0 <= i < |s| ensures s[i] == ops[i] {
        SortedFixed(ops[i]);
      }
      assert s == ops;
    case FunctionOperation(_, a) =>
      SortedFixed(a);
  }

  /** Sorting twice is sorting once. */
  lemma SortIdempotent(e: Expr)
    requires EquationFree(e)
    ensures EquationFree(Sort(e)) && Sort(Sort(e)) == Sort(e)
  {
    SortEquationFree(e);
    SortSorted(e);
    SortedFixed(Sort(e));
  }
}
