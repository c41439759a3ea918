# Converger symbolic core in Dafny

This project models the symbolic core of the Converger computer-algebra
system:

- the expression tree and its operator, function and constant registries;
- the three-stage parser (tokenizer, shunting-yard parser, tree builder);
- the six rewrite passes that `simplify` repeats to a fixed point;
- the differentiator, the substitutor and the variable enumerator;
- the printers;
- the `CasFrameworkImpl` facade;
- the Taylor-series algorithm built on that facade.

Everything is a pure function over an immutable `Expr` datatype.
Dafny's structural datatype equality stands in for the `equals` and
`hashCode` of every node class.

**Meaning.** Besides the structural contracts, every rewrite pass gets a
meaning. `Semantics.Eval` evaluates a tree over the reals:

- a variable takes its value from an environment;
- a function application is looked up in an uninterpreted table;
- division by zero gives no value;
- a power has a value only when its exponent's value is an integer, and
  0 to a negative power has none. So 2^(1/2), or x^y where y is 0.5, has
  no value here.

`FunctionLaws` lists the few facts about that table that the simplifier's
rules rely on, such as sin 0 = 0, ln e = 1, |x| and the square root of a
square. Each pass is proved to keep the value of every tree that has one.
A tree with a power whose exponent is not an integer has no value here,
so for such trees the soundness lemmas say nothing.

**Modules** (one per source class or group of classes):

| module | what it models |
|---|---|
| `Expressions` | the node classes and the operator, function and special-constant enums |
| `Environment` | the registry of operators, functions and constants |
| `ExpressionFactory` | `negate`, `makeRational`, `implode`; also the framework-package `MathUtils.negate` and `implode`, which have the same text and are what `Collector`, `RationalSimplifier`, `Differentiator` and `TreeBuilder` call |
| `MathUtils` | exact integer power, gcd, lcm, Java's truncating division; the older framework-package `integerPower` as written |
| `Tokenizer` | the character-class tokenizer |
| `Tokens` | the typed tokens passed from parser to builder |
| `ShuntingYard` | the infix-to-postfix parser with its output and operator stacks |
| `TreeBuilder` | the postfix-to-tree builder, with a `Postfix` partner for its round trip |
| `Leveler`, `AlgebraicSimplifier`, `RationalSimplifier`, `Collector`, `ConstantFolder`, `TreeSorter` | the six passes of a simplification round |
| `Differentiator`, `Substitutor`, `VariableEnumerator` | the remaining visitors of the facade |
| `AbstractPrinter` | the precedence-aware printer template, with its hooks as a `Style` record |
| `BasicPrinter` | the plain-text printer, with a reader as its partner |
| `LatexPrinter` | the LaTeX printer, with bracket balance as its partner |
| `CasFrameworkImpl` | the facade: parse, simplify (loop with fuel), differentiate, substitute, enumerate |
| `TaylorSeries` | the algorithm over any `Framework` record, and over the facade (`Impl`) |
| `Semantics` | real-valued evaluation, used only to state soundness |
| `Wrappers`, `Decimal`, `Text`, `Grouping`, `Brackets` | helpers: results, decimal text, joining strings, grouping pairs, bracket depth |

**Loop fuel.** The facade's simplify loop has no cap in the source, so it
takes a `fuel` bound here. It answers `None` only when fuel rounds were
not enough. `SimplifyMoreFuel` shows that the fuel never changes the tree
returned.

**Taylor series.** `TaylorSeries` is written against a `Framework` record
of three functions, which stands for the `CasFramework` interface.
`Impl(fuel)` is the facade as that record. A facade call on a tree the
passes are not defined for fails with the fault `NoResult`. An example is
a tree holding an `Equation` below the top: `Equation.accept` dispatches
back to the visitor's generic `visit`, which does not end.

## Model

| member | source | states |
|---|---|---|
| Expressions.NewNAry | src/org/converger/framework/core/NAryOperation.java:25-32 | the constructor succeeds exactly when there are at least two operands; it then keeps the operator and the operands in order, and keeps validity |
| Expressions.SpecialConstant.AsVariable | src/org/converger/framework/core/SpecialConstant.java:20-24 | a special constant stands in a tree as the variable with its registered name |
| Expressions.PairFacts | src/org/converger/framework/core/NAryOperation.java:25-32 | a two-operand node is valid, equation-free and has the variables exactly as its two operands do |
| Expressions.ToStrings | src/org/converger/framework/core/NAryOperation.java:65-69 | the operand texts an n-ary node joins are one per operand, in order |
| Environment.PutAll | src/org/converger/framework/Environment.java:35-69 | a table filled from a list has exactly the keys of the list's items |
| Environment.PutAllFinds | src/org/converger/framework/Environment.java:59-69 | when keys are distinct, each item is found under its own key |
| Environment.GetOperator | src/org/converger/framework/Environment.java:76-91 | lookup succeeds exactly for a registered symbol, returns the operator with that symbol, and otherwise fails with "Unknown operator" |
| Environment.GetFunction | src/org/converger/framework/Environment.java:98-113 | lookup succeeds exactly for a registered name, returns that function, and otherwise fails with "Unknown function" |
| Environment.GetConstant | src/org/converger/framework/Environment.java:120-135 | lookup succeeds exactly for "pi" and "e", returns that constant, and otherwise fails with "Unknown mathematical constant" |
| Environment.OperatorSymbolsDistinct | src/org/converger/framework/core/BinaryOperator.java:10-31 | no two operators share a symbol |
| Environment.OperatorRegistered | src/org/converger/framework/Environment.java:41-46 | every binary and n-ary operator is registered under its symbol |
| Environment.OperatorTable | src/org/converger/framework/Environment.java:41-46 | a symbol is registered exactly when some operator has it |
| Environment.OperatorSymbols | src/org/converger/framework/Environment.java:41-46 | "/", "^", "-", "+" and "*" are the only operator symbols |
| Environment.FunctionRegistered | src/org/converger/framework/Environment.java:49-51 | every function is registered under its name |
| Environment.FunctionTable | src/org/converger/framework/Environment.java:49-51 | a name is registered exactly when some function has it |
| Environment.FunctionNames | src/org/converger/framework/Environment.java:49-51 | the nine function names are the only registered ones |
| Environment.ConstantTable | src/org/converger/framework/Environment.java:54-56 | the constant table has exactly the keys "pi" and "e", each mapped to its constant |
| ExpressionFactory.Negate | src/org/converger/framework/core/ExpressionFactory.java:22-28 | the negation is a product whose operands are exactly -1 and the tree, with the tree's validity and variables; the framework-package `negate` at src/org/converger/framework/MathUtils.java:26-32, which the passes call, has the same text |
| ExpressionFactory.MakeRational | src/org/converger/framework/core/ExpressionFactory.java:37-42 | the result is a constant or a fraction of two constants, with no variables, and for y ≠ 0 it stands for x/y |
| ExpressionFactory.Implode | src/org/converger/framework/core/ExpressionFactory.java:53-63 | zero operands give 0; one operand gives itself; two or more give a node with the same operands in order; validity and variables are kept; the framework-package `implode` at src/org/converger/framework/MathUtils.java:43-53, which the passes call, has the same text |
| ExpressionFactory.ImplodeValid | src/org/converger/framework/core/ExpressionFactory.java:60-63 | imploding valid operands never breaks the two-operand invariant |
| MathUtils.IntegerPower | src/org/converger/framework/core/MathUtils.java:14-36 | exponentiation by squaring equals the mathematical power for every exponent ≥ 0 |
| MathUtils.Gcd | src/org/converger/framework/core/MathUtils.java:45-52 | the gcd divides both arguments, every common divisor divides it, gcd(a, 0) = \|a\|, and it is 0 only for two zeros |
| MathUtils.ComputeGcd | src/org/converger/framework/core/MathUtils.java:49-52 | Euclid's recursion yields a common divisor that every common divisor divides |
| MathUtils.GcdGreatest | src/org/converger/framework/core/MathUtils.java:45-52 | unless both arguments are 0, no common divisor exceeds the gcd |
| MathUtils.Lcm | src/org/converger/framework/core/MathUtils.java:60-62 | \|a\| / gcd · \|b\| is a common multiple, zero exactly when an argument is zero |
| MathUtils.JavaDiv | src/org/converger/framework/core/MathUtils.java:60-62 | Java's `/` truncates toward zero: the magnitude is \|a\| / \|b\| and the sign follows the operands |
| MathUtils.JavaDivExact | src/org/converger/framework/visitors/ConstantFolder.java:139-143 | an exact Java division multiplies back to the dividend |
| MathUtils.IsFractionalShape | src/org/converger/framework/core/MathUtils.java:71-80 | `isFractional` holds exactly for a division of two constants |
| MathUtils.LegacyPowerOfZero | src/org/converger/framework/MathUtils.java:62-66 | the older `integerPower` gives 1 for 0^2, where the exact power is 0 |
| MathUtils.LegacyPowerZeroExponentDiverges | src/org/converger/framework/MathUtils.java:62-77 | the older `integerPower` with a nonzero base and exponent 0 reaches no base case within any fuel |
| Tokenizer.ClassOf | src/org/converger/framework/parser/Tokenizer.java:57-67 | letters and the apostrophe are word characters, digits and '.' number characters, whitespace none, the rest symbols |
| Tokenizer.RunLength | src/org/converger/framework/parser/Tokenizer.java:35-48 | a run is the longest prefix of one character class |
| Tokenizer.TokenizeIsRuns | src/org/converger/framework/parser/Tokenizer.java:31-55 | the character loop produces exactly the maximal word and number runs, one token per symbol, with whitespace separating |
| Tokenizer.TokenizeProperties | src/org/converger/framework/parser/Tokenizer.java:31-55 | no token is empty or mixes classes, and the tokens concatenate to the input without its whitespace |
| Tokenizer.TokenizeExamples | src/org/converger/framework/parser/Tokenizer.java:38-53 | "2 3" gives "2" and "3"; "((" gives two tokens; "3x" gives "3" and "x" |
| Decimal.NatToString | src/org/converger/framework/core/Constant.java:47-49 | the decimal text of a natural is nonempty digits with no leading zero, whose value is the number |
| Decimal.IntToString | src/org/converger/framework/core/Constant.java:47-49 | a negative number's text starts with '-' followed by the digits of its magnitude |
| Decimal.ParseIntOfIntToString | src/org/converger/framework/parser/TreeBuilder.java:51-57 | `Integer.parseInt` reads back the text of every 32-bit integer |
| Decimal.ParseInt | src/org/converger/framework/parser/TreeBuilder.java:51-57 | a number token is accepted only within the 32-bit range |
| ShuntingYard.ParserOperator | src/org/converger/framework/parser/ShuntingYardParser.java:150-155 | a symbol is an operator exactly when registered; otherwise the parser fails with "Unknown operator: " and the symbol |
| ShuntingYard.PopOperators | src/org/converger/framework/parser/ShuntingYardParser.java:113-134 | popping only removes operators from the top of the stack |
| ShuntingYard.PopOperatorsOutput | src/org/converger/framework/parser/ShuntingYardParser.java:113-134 | the popped operators reach the output in stack order |
| ShuntingYard.PopOperatorsStops | src/org/converger/framework/parser/ShuntingYardParser.java:113-134 | every popped operator was poppable, and popping stops at the first that is not |
| ShuntingYard.PopOperatorsTop | src/org/converger/framework/parser/ShuntingYardParser.java:113-134 | an operator on top is popped exactly when the precedence rule says so |
| ShuntingYard.Associativity | src/org/converger/framework/parser/ShuntingYardParser.java:113-134 | "^" does not pop another "^" (right-associative), while "-" pops "-" (left-associative) |
| ShuntingYard.PushOperator | src/org/converger/framework/parser/ShuntingYardParser.java:92-111 | a unary minus outputs "-1" and pushes "*" without popping; any other operator pops and is then pushed |
| ShuntingYard.CloseParenthesis | src/org/converger/framework/parser/ShuntingYardParser.java:75-92 | ')' succeeds exactly when a '(' is on the stack; it moves everything above the nearest '(' to the output and drops it; otherwise "Mismatched parentheses" |
| ShuntingYard.Complete | src/org/converger/framework/parser/ShuntingYardParser.java:137-148 | the end succeeds exactly when no parenthesis is left, and appends the stack in pop order |
| ShuntingYard.ParseTokenGood | src/org/converger/framework/parser/ShuntingYardParser.java:46-99 | every step keeps the parser's stacks well formed; a step fails only with a parenthesis mismatch or an unregistered symbol |
| ShuntingYard.ParseOutput | src/org/converger/framework/parser/ShuntingYardParser.java:137-148 | the postfix output holds only numbers, variables, operators and functions |
| ShuntingYard.UnknownSymbol | src/org/converger/framework/parser/ShuntingYardParser.java:150-155 | '=' fails with "Unknown operator: =", so no equation is ever parsed |
| ShuntingYard.Skipped | src/org/converger/framework/parser/ShuntingYardParser.java:157-172 | an unrecognised multi-character token such as "x'" is skipped |
| ShuntingYard.UnaryMinus | src/org/converger/framework/parser/ShuntingYardParser.java:92-96 | where a unary minus is expected, "-" outputs -1 and pushes "*" |
| ShuntingYard.Mismatched | src/org/converger/framework/parser/ShuntingYardParser.java:85-88 | ")" alone and "(" alone both fail with "Mismatched parentheses" |
| ShuntingYard.ImplicitProduct | src/org/converger/framework/parser/ShuntingYardParser.java:46-68 | a name after a number gets an implicit "*" |
| TreeBuilder.BuildSound | src/org/converger/framework/parser/TreeBuilder.java:43-69 | every built tree is valid and holds no equation |
| TreeBuilder.BuildFault | src/org/converger/framework/parser/TreeBuilder.java:43-102 | on parser output, the only faults are an empty stack or a rejected number |
| TreeBuilder.BuildPostfix | src/org/converger/framework/parser/TreeBuilder.java:43-102 | building the postfix form of a buildable tree gives the tree back |
| TreeBuilder.PushOperatorToken | src/org/converger/framework/parser/TreeBuilder.java:67-92 | an operator pops the right operand, then the left, and pushes their combination |
| TreeBuilder.SubtractionBuildsSum | src/org/converger/framework/parser/TreeBuilder.java:76-82 | "a b -" builds a + (-1)·b, never a subtraction node |
| TreeBuilder.PushFunctionToken | src/org/converger/framework/parser/TreeBuilder.java:97-102 | a function pops one operand and wraps it |
| TreeBuilder.SurplusIgnored | src/org/converger/framework/parser/TreeBuilder.java:43-69 | surplus operands are discarded and the top of the stack is the result |
| TreeBuilder.BuildFaultExamples | src/org/converger/framework/parser/TreeBuilder.java:51-69 | no tokens or a lone "+" give an empty stack; "2.5" is rejected with the number-format message |
| Leveler.RebuildIdentity | src/org/converger/framework/visitors/AbstractExpressionVisitor.java:18-52 | the base visitor rebuilds every tree as an equal tree |
| Leveler.FlattenMembers | src/org/converger/framework/visitors/TreeLeveler.java:47-60 | every spliced operand comes from the node or from a same-operator child |
| Leveler.LevelValid | src/org/converger/framework/visitors/TreeLeveler.java:44-63 | levelling keeps validity, and an n-ary node keeps at least as many operands |
| Leveler.LevelLevelled | src/org/converger/framework/visitors/TreeLeveler.java:44-63 | after levelling, no n-ary node has a child with its own operator |
| Leveler.LevelIdempotent | src/org/converger/framework/visitors/TreeLeveler.java:44-63 | levelling twice equals levelling once |
| Leveler.LevelExample | src/org/converger/framework/visitors/TreeLeveler.java:13-19 | (a+b)+(c+d)+x levels to a+b+c+d+x |
| Leveler.LevelSound | src/org/converger/framework/visitors/TreeLeveler.java:22-63 | levelling keeps the value of every tree |
| AlgebraicSimplifier.ISqrt | src/org/converger/framework/visitors/AlgebraicSimplifier.java:208-220 | the integer square root r satisfies r² ≤ n < (r+1)² |
| AlgebraicSimplifier.Simplify | src/org/converger/framework/visitors/AlgebraicSimplifier.java:30-50 | the pass never grows a tree and never introduces an equation |
| AlgebraicSimplifier.SimplifyValid | src/org/converger/framework/visitors/AlgebraicSimplifier.java:30-50 | the pass keeps validity and introduces no variable |
| AlgebraicSimplifier.SimplifySound | src/org/converger/framework/visitors/AlgebraicSimplifier.java:30-220 | under the function laws, the pass keeps the value of every tree that has one |
| AlgebraicSimplifier.DivisionRules | src/org/converger/framework/visitors/AlgebraicSimplifier.java:56-74 | x/1 → x, 0/x → 0 and x/x → 1 for x not 0 |
| AlgebraicSimplifier.PowerRules | src/org/converger/framework/visitors/AlgebraicSimplifier.java:76-90 | x^0 → 1 (0^0 included), x^1 → x simplified again, 1^x → 1 |
| AlgebraicSimplifier.ConstantPower | src/org/converger/framework/visitors/AlgebraicSimplifier.java:91-108 | a constant power is folded, and a negative exponent gives 1 over the positive power |
| AlgebraicSimplifier.ZeroFactor | src/org/converger/framework/visitors/AlgebraicSimplifier.java:115-131 | a product with a 0 operand becomes 0 |
| AlgebraicSimplifier.ValuesAtZero | src/org/converger/framework/visitors/AlgebraicSimplifier.java:137-170 | sin, tan, asin and atan of 0 give 0; cos 0 gives 1 |
| AlgebraicSimplifier.ValuesAtOneAndE | src/org/converger/framework/visitors/AlgebraicSimplifier.java:160-196 | acos 1 → 0, ln 1 → 0, ln e → 1 |
| AlgebraicSimplifier.AbsOfConstant | src/org/converger/framework/visitors/AlgebraicSimplifier.java:198-206 | abs of c ≥ 0 is c; for negative c it is (-1)·c, not -c |
| AlgebraicSimplifier.SqrtOfConstant | src/org/converger/framework/visitors/AlgebraicSimplifier.java:208-220 | sqrt of a perfect square gives its root; anything else is unchanged |
| RationalSimplifier.SplitShape | src/org/converger/framework/visitors/RationalSimplifier.java:89-112 | each product operand contributes exactly one numerator factor, in order; the denominators are the divisions' denominators |
| RationalSimplifier.RationalizeNoNestedDivision | src/org/converger/framework/visitors/RationalSimplifier.java:23-113 | after the pass, no division has a division as a direct operand, at any depth of the tree |
| RationalSimplifier.RationalizeValid | src/org/converger/framework/visitors/RationalSimplifier.java:23-113 | the pass keeps validity and exactly the variables |
| RationalSimplifier.NumeratorFractionSound | src/org/converger/framework/visitors/RationalSimplifier.java:48-64 | (a/b)/c → a/(b·c) keeps the value |
| RationalSimplifier.DenominatorFractionSound | src/org/converger/framework/visitors/RationalSimplifier.java:65-80 | a/(b/c) → (a·c)/b keeps the value |
| RationalSimplifier.ProductSound | src/org/converger/framework/visitors/RationalSimplifier.java:89-113 | gathering a product into one fraction keeps its value |
| RationalSimplifier.RationalizeSound | src/org/converger/framework/visitors/RationalSimplifier.java:23-113 | the pass keeps the value of every tree that has one |
| Grouping.GroupAllFacts | src/org/converger/framework/visitors/Collector.java:128-133 | grouping by key leaves no key twice and keeps the pairs as a multiset |
| Grouping.GroupKeys | src/org/converger/framework/visitors/Collector.java:128-133 | a key has a group exactly when some pair carries it |
| Collector.KeyValueFacts | src/org/converger/framework/visitors/Collector.java:50-68 | splitting an operand into base and exponent (or coefficient and term) loses no variable |
| Collector.KeyValueSound | src/org/converger/framework/visitors/Collector.java:50-68 | an operand rebuilt from its key and value has its original value |
| Collector.CollectFacts | src/org/converger/framework/visitors/Collector.java:26-196 | collecting keeps validity and exactly the variables |
| Collector.EmitSumValue | src/org/converger/framework/visitors/Collector.java:179-194 | a collected term means (sum of its coefficients) · term |
| Collector.CollectRuleSound | src/org/converger/framework/visitors/Collector.java:128-196 | regrouping an n-ary node in first-seen group order keeps its value |
| Collector.AnyOrderSound | src/org/converger/framework/visitors/Collector.java:128-196 | emitting any regrouping of the operands' key–value pairs, whatever the order of the groups and of the values in them, keeps the node's value |
| Collector.AnyOrderFacts | src/org/converger/framework/visitors/Collector.java:128-196 | emitting any regrouping of the operands' key–value pairs gives a valid, equation-free tree with the node's variables |
| Collector.CollectSound | src/org/converger/framework/visitors/Collector.java:26-196 | the pass keeps the value of every tree that has one |
| ConstantFolder.DivisionRuleReduces | src/org/converger/framework/visitors/ConstantFolder.java:51-64 | a constant fraction with a nonzero denominator goes to lowest terms with the same value and the denominator's sign |
| ConstantFolder.DivisionRuleKeeps | src/org/converger/framework/visitors/ConstantFolder.java:56-63 | division by 0, or with a non-constant operand, is unchanged |
| ConstantFolder.DivisionRuleSound | src/org/converger/framework/visitors/ConstantFolder.java:51-64 | the division rule keeps the value |
| ConstantFolder.ProductFactorsFolded | src/org/converger/framework/visitors/ConstantFolder.java:74-93 | a folded product has at most one constant, and it comes last; nothing else is invented |
| ConstantFolder.ProductSound | src/org/converger/framework/visitors/ConstantFolder.java:74-93 | folding a product's constants keeps its value |
| ConstantFolder.LcmOf | src/org/converger/framework/visitors/ConstantFolder.java:122-137 | the common denominator is positive and a multiple of every denominator |
| ConstantFolder.AdditionRuleFolded | src/org/converger/framework/visitors/ConstantFolder.java:101-151 | a folded sum is one of its addends, a rational, or a sum of the original non-rational addends ending in at most one nonzero rational |
| ConstantFolder.AdditionSound | src/org/converger/framework/visitors/ConstantFolder.java:101-151 | folding a sum's rationals keeps its value |
| ConstantFolder.FoldSound | src/org/converger/framework/visitors/ConstantFolder.java:51-151 | the pass keeps the value of every tree |
| ConstantFolder.FoldValid | src/org/converger/framework/visitors/ConstantFolder.java:51-151 | the pass keeps validity |
| ConstantFolder.FoldFolded | src/org/converger/framework/visitors/ConstantFolder.java:51-151 | after the pass, a product's only constant is its last operand and is not 1, and a sum's only rational is its last addend and is not 0, unless a zero denominator stopped the folding |
| ConstantFolder.DivisionExamples | src/org/converger/framework/visitors/ConstantFolder.java:51-64 | 10/100 → 1/10 and 6/-4 → 3/-2, with the sign not normalised |
| ConstantFolder.ProductExample | src/org/converger/framework/visitors/ConstantFolder.java:74-93 | 3·5·sin x·2 → sin x·30 |
| ConstantFolder.AdditionExample | src/org/converger/framework/visitors/ConstantFolder.java:101-151 | 3/4 + 2/5 + 1 → 43/20 |
| TreeSorter.ArrangeStable | src/org/converger/framework/visitors/TreeSorter.java:21-46 | within each kind, operands keep their original order |
| TreeSorter.ArrangeOrdered | src/org/converger/framework/visitors/TreeSorter.java:19-48 | operands come as constants, variables, n-ary, binary, functions |
| TreeSorter.ArrangePermutes | src/org/converger/framework/visitors/TreeSorter.java:19-48 | without equations, sorting is a permutation of the operands |
| TreeSorter.ArrangeDropsEquations | src/org/converger/framework/visitors/TreeSorter.java:21-48 | an operand is kept exactly when it is not an equation |
| TreeSorter.ArrangeIdempotent | src/org/converger/framework/visitors/TreeSorter.java:19-48 | arranging twice equals arranging once |
| TreeSorter.SortValid | src/org/converger/framework/visitors/TreeSorter.java:17-50 | sorting keeps validity |
| TreeSorter.SortSound | src/org/converger/framework/visitors/TreeSorter.java:17-50 | sorting keeps the value of every tree |
| TreeSorter.SortSorted | src/org/converger/framework/visitors/TreeSorter.java:17-50 | after sorting, every n-ary node is in kind order |
| TreeSorter.SortIdempotent | src/org/converger/framework/visitors/TreeSorter.java:19-50 | sorting twice equals sorting once |
| Substitutor.SubstituteUnmapped | src/org/converger/framework/visitors/Substitutor.java:26-32 | a tree with no mapped variable is unchanged |
| Substitutor.SubstituteEmpty | src/org/converger/framework/visitors/Substitutor.java:14-33 | the empty map changes nothing |
| Substitutor.SubstituteVars | src/org/converger/framework/visitors/Substitutor.java:26-31 | the variables after substitution are the unmapped ones and those of the inserted expressions |
| Substitutor.SubstituteEval | src/org/converger/framework/visitors/Substitutor.java:26-32 | the substituted tree has the value of the original in the environment updated with the inserted values |
| Substitutor.SubstituteTwice | src/org/converger/framework/visitors/Substitutor.java:26-32 | two substitutions in a row equal one with the composed map, since inserted trees are not traversed again |
| Substitutor.SimultaneousExample | src/org/converger/framework/visitors/Substitutor.java:26-32 | x ↦ x·y with y ↦ 2 gives x·y, not x·2 |
| VariableEnumerator.CollectVars | src/org/converger/framework/visitors/VariableEnumerator.java:39-77 | the enumerator collects every variable of every subtree except "pi" and "e" |
| VariableEnumerator.EnumerationExample | src/org/converger/framework/test/EnumerationTest.java:39 | pi + e·x + 2 enumerates to {x} |
| VariableEnumerator.SortedNames | src/org/converger/framework/visitors/VariableEnumerator.java:35-37 | the sorted copy holds each name of the set exactly once, in increasing order |
| VariableEnumerator.BeforeTotal | src/org/converger/framework/visitors/VariableEnumerator.java:35-37 | the name order is total on distinct names |
| Differentiator.Outer | src/org/converger/framework/visitors/Differentiator.java:174-218 | an outer derivative exists exactly for sin, cos, ln, abs and sqrt |
| Differentiator.DeriveDefined | src/org/converger/framework/visitors/Differentiator.java:39-218 | a derivative exists exactly when the tree holds no function without a rule |
| Differentiator.DeriveNAry | src/org/converger/framework/visitors/Differentiator.java:138-168 | a sum derives to the sum of its addends' derivatives in order, and a product to one product per factor |
| Differentiator.ProductRuleShape | src/org/converger/framework/visitors/Differentiator.java:149-168 | the i-th term of a product's derivative has only factor i differentiated |
| Differentiator.PowerViaLogProduct | src/org/converger/framework/visitors/Differentiator.java:104-132 | f^g with a non-constant g derives through d[ln f · g] |
| Differentiator.DeriveWellFormed | src/org/converger/framework/visitors/Differentiator.java:18-218 | a derivative is valid, holds no equation, and has no new variable |
| Differentiator.DeriveFree | src/org/converger/framework/visitors/Differentiator.java:39-218 | the derivative with respect to a variable the tree lacks is 0 wherever it has a value |
| Differentiator.DerivativeExamples | src/org/converger/framework/visitors/Differentiator.java:104-132 | d/dx x^2 = 2·x^1·1, unsimplified |
| AbstractPrinter.PrintTop | src/org/converger/framework/visitors/AbstractPrinter.java:181-184 | an equation is printed only at the top, its members printed with no parent operator; any other tree prints as under no parent |
| AbstractPrinter.EquationSides | src/org/converger/framework/visitors/AbstractPrinter.java:181-184 | an equation's text is its two members' top-level texts joined by " = " |
| AbstractPrinter.ContextWraps | src/org/converger/framework/visitors/AbstractPrinter.java:100-123 | a node is printed bare or parenthesised whole, depending only on its parent |
| AbstractPrinter.LooserOperandWrapped | src/org/converger/framework/visitors/AbstractPrinter.java:100-123 | a node whose parent binds at least as tightly is parenthesised |
| AbstractPrinter.TighterOperandBare | src/org/converger/framework/visitors/AbstractPrinter.java:100-123 | a node whose parent binds more loosely is not parenthesised |
| AbstractPrinter.FractionOperandsBare | src/org/converger/framework/visitors/AbstractPrinter.java:110-114 | without division parentheses, a fraction's operands are printed bare |
| AbstractPrinter.UnNegate | src/org/converger/framework/visitors/AbstractPrinter.java:234-291 | removing the minus sign keeps validity and never grows the tree |
| AbstractPrinter.UnNegateMeaning | src/org/converger/framework/visitors/AbstractPrinter.java:234-291 | an un-negated tree has the opposite value of the original |
| AbstractPrinter.AddendMeaning | src/org/converger/framework/visitors/AbstractPrinter.java:82-97 | the sign and text printed for an addend together mean the addend |
| AbstractPrinter.SumMeaning | src/org/converger/framework/visitors/AbstractPrinter.java:82-97 | the signed terms of a printed sum add up to the sum |
| AbstractPrinter.AllPositiveJoin | src/org/converger/framework/visitors/AbstractPrinter.java:82-97 | a sum of positive addends prints as their texts joined by the addition sign between spaces |
| BasicPrinter.ReadPlainText | src/org/converger/framework/visitors/BasicPrinter.java:19-57 | reading the plain text of a tree, whatever follows it, gives back the tree |
| BasicPrinter.PlainTextInjective | src/org/converger/framework/visitors/BasicPrinter.java:19-57 | two trees with the same plain text are equal |
| BasicPrinter.NegativeConstantExample | src/org/converger/framework/visitors/BasicPrinter.java:25-31 | -3 prints as "(-3)" |
| BasicPrinter.PlainTextExample | src/org/converger/framework/visitors/BasicPrinter.java:33-52 | x·2 + y prints as "((x*2)+y)" |
| LatexPrinter.LatexBalanced | src/org/converger/framework/visitors/LatexPrinter.java:26-104 | the LaTeX text of a tree has balanced braces and balanced \left( … \right) pairs |
| LatexPrinter.NestedPowersPrintAlike | src/org/converger/framework/visitors/LatexPrinter.java:90-93 | (x^y)^z and x^(y^z) print the same, since powers get no braces |
| LatexPrinter.SumExample | src/org/converger/framework/visitors/LatexPrinter.java:96-99 | a sum is wrapped in \left( … \right) and joined by " + " |
| LatexPrinter.FractionExample | src/org/converger/framework/visitors/LatexPrinter.java:84-88 | a division prints as \frac{a}{b} |
| LatexPrinter.ProductExample | src/org/converger/framework/visitors/LatexPrinter.java:101-104 | a product is joined by {\cdot}, with a negative constant unparenthesised |
| CasFrameworkImpl.Parse | src/org/converger/framework/core/CasFrameworkImpl.java:48-64 | a parsed tree is valid and holds no equation; every failure is an IllegalArgumentException about parentheses, an unknown symbol of the input, a syntax error or a number format |
| CasFrameworkImpl.Round | src/org/converger/framework/core/CasFrameworkImpl.java:66-83 | one round of the six passes keeps validity and introduces no equation |
| CasFrameworkImpl.RoundSound | src/org/converger/framework/core/CasFrameworkImpl.java:66-83 | one round keeps the value of every tree that has one |
| CasFrameworkImpl.Loop | src/org/converger/framework/core/CasFrameworkImpl.java:72-80 | whatever the loop returns, one more round leaves it unchanged |
| CasFrameworkImpl.LoopMoreFuel | src/org/converger/framework/core/CasFrameworkImpl.java:72-80 | more fuel never changes a result the loop has returned |
| CasFrameworkImpl.Simplify | src/org/converger/framework/core/CasFrameworkImpl.java:66-83 | the result is valid, holds no equation, and is a fixed point of the round |
| CasFrameworkImpl.SimplifyMoreFuel | src/org/converger/framework/core/CasFrameworkImpl.java:72-80 | the simplified tree does not depend on the fuel |
| CasFrameworkImpl.SimplifySound | src/org/converger/framework/core/CasFrameworkImpl.java:66-83 | the simplified tree has the value of the input |
| CasFrameworkImpl.Differentiate | src/org/converger/framework/core/CasFrameworkImpl.java:94-99 | the result is a fixed point of simplification; it is unsupported exactly when the simplified input holds a function without a rule |
| CasFrameworkImpl.DifferentiateSound | src/org/converger/framework/core/CasFrameworkImpl.java:94-99 | the result has the value of the raw derivative of the simplified input |
| CasFrameworkImpl.Substitute | src/org/converger/framework/core/CasFrameworkImpl.java:85-92 | the result's variables are the unmapped input variables and those inserted; the empty map changes nothing |
| CasFrameworkImpl.EnumerateVariables | src/org/converger/framework/core/CasFrameworkImpl.java:124-129 | the result is strictly sorted and holds exactly the tree's variables other than pi and e |
| TaylorSeries.New | src/org/converger/framework/algorithms/TaylorSeries.java:35-41 | an equation is refused with "Cannot expand an equation"; anything else is simplified once |
| TaylorSeries.Factorial | src/org/converger/framework/algorithms/TaylorSeries.java:52-59 | i! is at least 1 and at least i |
| TaylorSeries.FailurePersists | src/org/converger/framework/algorithms/TaylorSeries.java:58-75 | once a derivative fails, every higher derivative fails the same way |
| TaylorSeries.Terms | src/org/converger/framework/algorithms/TaylorSeries.java:51-76 | exactly order+1 terms are collected |
| TaylorSeries.TermsShape | src/org/converger/framework/algorithms/TaylorSeries.java:53-75 | term 0 is f at the point, and term i is f⁽ⁱ⁾ at the point times (x - point)^i over i! |
| TaylorSeries.TermsSucceed | src/org/converger/framework/algorithms/TaylorSeries.java:51-76 | when every term can be formed, the whole list is |
| TaylorSeries.TermsFailure | src/org/converger/framework/algorithms/TaylorSeries.java:51-76 | a failed list fails with the error of its first failing term |
| TaylorSeries.CapacityNegative | src/org/converger/framework/algorithms/TaylorSeries.java:51 | the term list's capacity order + 1, in 32-bit arithmetic, is negative exactly for orders below -1 and for Integer.MAX_VALUE |
| TaylorSeries.Expand | src/org/converger/framework/algorithms/TaylorSeries.java:50-78 | a negative capacity fails with the list's "Illegal Capacity" `IllegalArgumentException` before any term is formed; otherwise a successful expansion formed every term up to the order |
| TaylorSeries.NegativeOrderExample | src/org/converger/framework/algorithms/TaylorSeries.java:51 | order -2 fails with "Illegal Capacity: -1" whatever the function |
| TaylorSeries.LowOrders | src/org/converger/framework/algorithms/TaylorSeries.java:51-58 | orders -1 and 0 give the same expansion: term 0 alone |
| TaylorSeries.ExpandFailure | src/org/converger/framework/algorithms/TaylorSeries.java:50-78 | if some term up to the order fails, the expansion fails; when the term list could be created, the error is that of a term no later than it |
| TaylorSeries.ExpandSeries | src/org/converger/framework/algorithms/TaylorSeries.java:35-78 | expanding an equation fails with "Cannot expand an equation" |
| TaylorSeries.NewImpl | src/org/converger/framework/algorithms/TaylorSeries.java:35-41 | over the facade, the constructor succeeds exactly when simplify does, with its result |
| TaylorSeries.DerivativesImpl | src/org/converger/framework/algorithms/TaylorSeries.java:58-75 | over the facade, every derivative is valid and fails only as unsupported or out of fuel |
| TaylorSeries.TermImpl | src/org/converger/framework/algorithms/TaylorSeries.java:53-75 | over the facade, every term is valid and holds no equation |
| TaylorSeries.ImplSimplify | src/org/converger/framework/core/CasFrameworkImpl.java:66-83 | the facade's simplify succeeds only on well-formed trees, with the loop's fixed point |
| TaylorSeries.ImplSubstitute | src/org/converger/framework/core/CasFrameworkImpl.java:85-92 | the facade's substitute succeeds exactly on equation-free trees, with the substitutor's result |
| TaylorSeries.ExpandImpl | src/org/converger/framework/algorithms/TaylorSeries.java:35-78 | over the facade, an equation is refused; a result is a simplified, valid tree; on a well-formed input the only faults are an unsupported function, running out of fuel, or a negative term-list capacity |
| TaylorSeries.ExpandOrderZeroSound | src/org/converger/framework/algorithms/TaylorSeries.java:53-56 | the expansion of order 0 or -1 has the value of the input at the point |

## Left out

- Semantics.Eval: powers with a non-integer exponent, such as 2^(1/2), get no value, because the model has no real powers or roots. So the soundness lemmas of the passes and of `simplify` promise nothing for trees that hold such powers.
- Tokenizer.ClassOf: `Character.isAlphabetic`, `isDigit` and `isWhitespace` are Unicode-aware, but the model's letter, digit and whitespace classes are ASCII-only, because the Unicode tables are not modelled. A non-ASCII letter, digit or space is a symbol here. So "x\u2003+\u20031", "xé" and "2٣" fail in the model with "Unknown operator", while the source tokenizes them.
- Floating-point code: `Evaluator`, `NumericalSolver`, `NumericalIntegrator` and the facade's `evaluate`. They rest on IEEE doubles and iteration tolerances. `Semantics.Eval` over exact reals is used only to state soundness.
- Java `long` and `int` overflow: integers are unbounded here. This affects `integerPower`, the products and sums of `ConstantFolder`, the factorial in `TaylorSeries` beyond 20!, and `Math.abs` of the least `long`. Only `Integer.parseInt`'s 32-bit range is modelled, in `Decimal.ParseInt`.
- `ShuntingYard`: `isNumber` uses `Double.parseDouble`. It is modelled as a decimal with at least one digit and at most one point, or "NaN" or "Infinity", on tokenizer-shaped tokens only. Hexadecimal and exponent forms never reach it from the tokenizer.
- AlgebraicSimplifier.ISqrt: `Math.sqrt` on a `double` is modelled as the exact integer square root.
- `framework/CasFrameworkImpl.java` and `visitors/Simplifier.java`: the superseded pipeline, reachable only from a console test.
- Equations inside the passes: the visitors have no equation case and dispatch back to themselves without end. The passes and the facade therefore require equation-free trees. An equation below the top of a tree makes the facade model in `TaylorSeries.Impl` fail with `NoResult`.
- CasFrameworkImpl.Simplify: the loop has no cap in the source. Here it takes fuel and answers `None` when the fuel runs out. `SimplifyMoreFuel` shows the fuel never changes the tree returned.
- CasFrameworkImpl.SimplifyIdempotent: the second simplify's fixed point follows directly from the first's contract, so this lemma adds no proof of its own.
- Collector: group order is `HashMap` iteration order, which is unspecified. The pass is modelled in first-seen order. `Collector.AnyOrderSound` and `Collector.AnyOrderFacts` show that emitting any regrouping of the same key–value pairs keeps the value, validity and variables. The exact tree the source returns for a given `HashMap` is not modelled.
- `TaylorSeries`: `ExpressionFactory.subtract` is not part of this model. The term (x - point) is passed in as the `difference` parameter.
- Differentiator: tan, asin, acos and atan have no derivative rule in the source and throw `UnsupportedOperationException`. This is modelled as no derivative (`Unsupported` at the facade).
- ShuntingYard: an operator token clears the unary-minus flag, as the code does. So "2*-3" reads the minus as binary and fails with "Syntax error" in the builder.
- Facade `toPlainText` and `toLatexText` are the printers themselves: `BasicPrinter.PlainText` and `LatexPrinter.Latex`. The basic printer has no equation case, since `BasicPrinter.java` overrides none.
- BasicPrinter.ReadPlainText: the round trip is stated against a reader for the printer's own layout, not against `parse`. In `parse`, a minus where a unary minus is expected becomes the number -1 and a product sign (`ShuntingYard.PushOperator`, ShuntingYardParser.java:106-110). So a printed negative constant such as "(-3)" is read back as a product, not as the constant. No lemma states the full parse of a printed text.
- `AbstractPrinter`: the shown `BasicPrinter` and `LatexPrinter` do not extend it. It is modelled as a template whose hooks are parameters, and the stack of enclosing operators is the `parent` argument.
- AbstractPrinter.Print: an equation reached through the generic `visit(Expression)` is dispatched back to it by `Equation.accept` and never printed, since the visitor interface has no equation method. So `Print` requires an equation-free tree, and `PrintTop` prints an equation only at the top, as a direct call of `visit(Equation)` does. A caller that passes a top-level equation as a plain `Expression` also recurses without end; the model does not tell the two calls apart.
- Cancellation (`AbortedException`), threads, the user interface, controller and plotting: concurrency and I/O.
- Hash codes: Dafny's structural equality replaces `equals`, and the hash mixing only has to agree with it.

## Findings

| source | as written | input that shows it | evidently intended | confidence | as-written member | corrected member |
|---|---|---|---|---|---|---|
| src/org/converger/framework/MathUtils.java:62-77 | the first base case tests `base == 0` and returns 1, and there is no case for exponent 0 | `integerPower(0, 2)` returns 1; `integerPower(3, 0)` recurses on exponent 0 without end (under 64-bit `long` an even base squares to 0 and then returns 1, so only odd bases recurse without end) | 0^n = 0 for n ≥ 1 and b^0 = 1, as in the core package's `integerPower` | not executed | MathUtils.LegacyPowerOfZero, MathUtils.LegacyPowerZeroExponentDiverges | MathUtils.IntegerPower |
