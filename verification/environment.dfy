/**
 * The registry: operator symbols, function names and special-constant names,
 * filled once from the enumerations' value lists and never changed after.
 */
module Environment {
  import opened Wrappers
  import opened Expressions

  datatype Associativity = Left | Right

  /** Every registered operator, including the parse-only subtraction. */
  datatype Operator = BinaryOp(bop: BinaryOperator) | Subtraction | NAryOp(nop: NAryOperator) {
    function Symbol(): string {
      match this
      case BinaryOp(b) => b.Symbol()
      case Subtraction => "-"
      case NAryOp(n) => n.Symbol()
    }

    function Precedence(): nat {
      match this
      case BinaryOp(b) => b.Precedence()
      case Subtraction => 1
      case NAryOp(n) => n.Precedence()
    }

    /** Power is right-associative, so 2^3^2 is 2^(3^2); all others are left-associative. */
    function Associativity(): Associativity {
      if this == BinaryOp(Power) then Right else Left
    }
  }

  /** Enumeration order of BinaryOperator.values() followed by NAryOperator.values(). */
  const AllOperators: seq<Operator> :=
    [BinaryOp(Division), BinaryOp(Power), Subtraction, NAryOp(Addition), NAryOp(Product)]

  /** Successive `map.put(key(x), x)` over the items, a later key overriding an earlier one. */
  function KeysOf<T>(items: seq<T>, key: T -> string): set<string> {
    if |items| == 0 then {} else KeysOf(items[..|items| - 1], key) + {key(items[|items| - 1])}
  }

  function PutAll<T>(items: seq<T>, key: T -> string): (m: map<string, T>)
    ensures m.Keys == KeysOf(items, key)
  {
    if |items| == 0 then map[]
    else PutAll(items[..|items| - 1], key)[key(items[|items| - 1]) := items[|items| - 1]]
  }

  /** Every entry of the map is one of the items, stored under its own key. */
  lemma {:induction false} PutAllFrom<T>(items: seq<T>, key: T -> string, k: string)
    requires k in PutAll(items, key)
    ensures exists i :: 0 <= i < |items| && key(items[i]) == k && PutAll(items, key)[k] == items[i]
  {
    var prefix := items[..|items| - 1];
    var last := items[|items| - 1];
    if k != key(last) {
      PutAllFrom(prefix, key, k);
      var i :| 0 <= i < |prefix| && key(prefix[i]) == k && PutAll(prefix, key)[k] == prefix[i];
      assert prefix[i] == items[i];
    } else {
      assert key(items[|items| - 1]) == k;
    }
  }

  /** With distinct keys, every item is found under its own key. */
  lemma PutAllFinds<T>(items: seq<T>, key: T -> string, j: int)
    requires forall i, k :: 0 <= i < k < |items| ==> key(items[i]) != key(items[k])
    requires 0 <= j < |items|
    ensures key(items[j]) in PutAll(items, key)
    ensures PutAll(items, key)[key(items[j])] == items[j]
  {
    var m := PutAll(items, key);
    assert key(items[j]) in m by {
      PutAllKeys(items, key, j);
    }
    PutAllFrom(items, key, key(items[j]));
    var i :| 0 <= i < |items| && key(items[i]) == key(items[j]) && m[key(items[j])] == items[i];
    assert i == j;
  }

  lemma PutAllKeys<T>(items: seq<T>, key: T -> string, j: int)
    requires 0 <= j < |items|
    ensures key(items[j]) in KeysOf(items, key)
  {
    if j < |items| - 1 {
      PutAllKeys(items[..|items| - 1], key, j);
    }
  }

  function OperatorSymbol(o: Operator): string { o.Symbol() }
  function FunctionName(f: Function): string { f.Name() }
  function ConstantName(c: SpecialConstant): string { c.Name() }

  const Operators: map<string, Operator> := PutAll(AllOperators, OperatorSymbol)
  const Functions: map<string, Function> := PutAll(AllFunctions, FunctionName)
  const Constants: map<string, SpecialConstant> := PutAll(AllSpecialConstants, ConstantName)

  predicate HasOperator(s: string) { s in Operators }
  predicate HasFunction(s: string) { s in Functions }
  predicate HasConstant(s: string) { s in Constants }

  /** `getOperator`: the registered operator, or the NoSuchElementException message. */
  function GetOperator(s: string): (r: Result<Operator, string>)
    ensures r.Success? <==> HasOperator(s)
    ensures r.Success? ==> r.value.Symbol() == s
    ensures r.Failure? ==> r.error == "Unknown operator"
  {
    if s in Operators then
      PutAllFrom(AllOperators, OperatorSymbol, s);
      Success(Operators[s])
    else Failure("Unknown operator")
  }

  function GetFunction(s: string): (r: Result<Function, string>)
    ensures r.Success? <==> HasFunction(s)
    ensures r.Success? ==> r.value.Name() == s
    ensures r.Failure? ==> r.error == "Unknown function"
  {
    if s in Functions then
      PutAllFrom(AllFunctions, FunctionName, s);
      Success(Functions[s])
    else Failure("Unknown function")
  }

  function GetConstant(s: string): (r: Result<SpecialConstant, string>)
    ensures r.Success? <==> HasConstant(s)
    ensures r.Success? ==> r.value.Name() == s
    ensures r.Failure? ==> r.error == "Unknown mathematical constant"
  {
    if s in Constants then Success(Constants[s]) else Failure("Unknown mathematical constant")
  }

  lemma OperatorSymbolsDistinct()
    ensures forall i, k :: 0 <= i < k < |AllOperators| ==> AllOperators[i].Symbol() != AllOperators[k].Symbol()
  {
  }

  lemma FunctionNamesDistinct()
    ensures forall i, k :: 0 <= i < k < |AllFunctions| ==> AllFunctions[i].Name() != AllFunctions[k].Name()
  {
  }

  function OperatorIndex(o: Operator): (j: nat)
    ensures j < |AllOperators| && AllOperators[j] == o
  {
    match o
    case BinaryOp(Division) => 0
    case BinaryOp(Power) => 1
    case Subtraction => 2
    case NAryOp(Addition) => 3
    case NAryOp(Product) => 4
  }

  function FunctionIndex(f: Function): (j: nat)
    ensures j < |AllFunctions| && AllFunctions[j] == f
  {
    match f
    case Sin => 0
    case Cos => 1
    case Tan => 2
    case Arcsin => 3
    case Arccos => 4
    case Arctan => 5
    case Ln => 6
    case Abs => 7
    case Sqrt => 8
  }

  /** Every operator is registered under its own symbol. */
  lemma OperatorRegistered(o: Operator)
    ensures HasOperator(o.Symbol()) && Operators[o.Symbol()] == o
  {
    OperatorSymbolsDistinct();
    PutAllFinds(AllOperators, OperatorSymbol, OperatorIndex(o));
  }

  /** A symbol is registered exactly when it is the symbol of some operator. */
  lemma OperatorTable(s: string)
    ensures HasOperator(s) <==> exists o: Operator :: o.Symbol() == s
  {
    if HasOperator(s) {
      PutAllFrom(AllOperators, OperatorSymbol, s);
      var i :| 0 <= i < |AllOperators| && OperatorSymbol(AllOperators[i]) == s;
      assert AllOperators[i].Symbol() == s;
    }
    if o: Operator :| o.Symbol() == s {
      OperatorRegistered(o);
    }
  }

  /** The registered operator symbols, spelled out. */
  lemma OperatorSymbols(s: string)
    ensures HasOperator(s) <==> s == "/" || s == "^" || s == "-" || s == "+" || s == "*"
  {
    if HasOperator(s) {
      PutAllFrom(AllOperators, OperatorSymbol, s);
      var i :| 0 <= i < |AllOperators| && OperatorSymbol(AllOperators[i]) == s && Operators[s] == AllOperators[i];
      assert i == 0 || i == 1 || i == 2 || i == 3 || i == 4;
    }
    if s == "/" { OperatorRegistered(BinaryOp(Division)); }
    if s == "^" { OperatorRegistered(BinaryOp(Power)); }
    if s == "-" { OperatorRegistered(Subtraction); }
    if s == "+" { OperatorRegistered(NAryOp(Addition)); }
    if s == "*" { OperatorRegistered(NAryOp(Product)); }
  }

  /** Every function is registered under its own name. */
  lemma FunctionRegistered(f: Function)
    ensures HasFunction(f.Name()) && Functions[f.Name()] == f
  {
    FunctionNamesDistinct();
    PutAllFinds(AllFunctions, FunctionName, FunctionIndex(f));
  }

  /** A name is registered exactly when it is the name of some function. */
  lemma FunctionTable(s: string)
    ensures HasFunction(s) <==> exists f: Function :: f.Name() == s
  {
    if HasFunction(s) {
      PutAllFrom(AllFunctions, FunctionName, s);
      var i :| 0 <= i < |AllFunctions| && FunctionName(AllFunctions[i]) == s;
      assert AllFunctions[i].Name() == s;
    }
    if f: Function :| f.Name() == s {
      FunctionRegistered(f);
    }
  }

  /** The registered function names, spelled out. */
  lemma FunctionNames(s: string)
    ensures HasFunction(s) <==>
      (s == "sin" || s == "cos" || s == "tan" || s == "asin" || s == "acos"
       || s == "atan" || s == "ln" || s == "abs" || s == "sqrt")
  {
    if HasFunction(s) {
      PutAllFrom(AllFunctions, FunctionName, s);
      var i :| 0 <= i < |AllFunctions| && FunctionName(AllFunctions[i]) == s && Functions[s] == AllFunctions[i];
      assert 0 <= i < 9;
    }
    if s == "sin" { FunctionRegistered(Sin); }
    if s == "cos" { FunctionRegistered(Cos); }
    if s == "tan" { FunctionRegistered(Tan); }
    if s == "asin" { FunctionRegistered(Arcsin); }
    if s == "acos" { FunctionRegistered(Arccos); }
    if s == "atan" { FunctionRegistered(Arctan); }
    if s == "ln" { FunctionRegistered(Ln); }
    if s == "abs" { FunctionRegistered(Abs); }
    if s == "sqrt" { FunctionRegistered(Sqrt); }
  }

  /** Exactly the two special constants pi and e are registered. */
  lemma ConstantTable()
    ensures Constants.Keys == {"pi", "e"}
    ensures Constants["pi"] == Pi && Constants["e"] == E
  {
    PutAllFinds(AllSpecialConstants, ConstantName, 0);
    PutAllFinds(AllSpecialConstants, ConstantName, 1);
    var expected: set<string> := {"pi", "e"};
    forall s | s in Constants.Keys ensures s in expected {
      PutAllFrom(AllSpecialConstants, ConstantName, s);
      var i :| 0 <= i < |AllSpecialConstants| && ConstantName(AllSpecialConstants[i]) == s;
    }
  }
}
