# SolidSharp expression engine in Dafny

This project models the core of SolidSharp's symbolic-expression engine: an
immutable tree of 64-bit integers, the constants π, 𝑒 and 𝑖, named variables,
and unary, binary and variadic (n-ary sum and product) operations. Every
smart constructor (`Negate`, `Add`, `Subtract`, `Multiply`, `Divide`, `Pow`)
first asks a rewrite rule of `ExpressionSimplifier` for a simpler tree and
builds the raw node only when no rule applies. Around the engine the model
covers:

- the interning of the numbers -128..127 in a 256-slot cache;
- per-node sort ranks, the canonical comparer, and text rendering;
- the copy-on-write visitor and variable substitution;
- the binary GCD used to reduce fractions;
- the immutable-array helpers and structural equality;
- comparison equations and intersection/union systems of equations.

Modules, one per part of the program:

| module | file | models |
|---|---|---|
| `Results` | results.dfy | `Result`/`Option`; the exceptions the source throws are the `Err` cases, C# `null` is `None` |
| `Expressions` | expressions.dfy | the node classes, operator tables, ranks, kind predicates, node constructors and the operand accessors |
| `Int64` | int64.dfy | checked 64-bit arithmetic, C# truncating division and remainder, `MathUtil.Pow` |
| `MathUtil` | math_util.dfy | `Gcd(ulong, ulong)` and `Gcd(long, long)` as written, against a reference gcd |
| `NumberCache` | number_cache.dfy | the small-integer cache (a 256-element `array`) and every integer `Create` overload |
| `Comparer` | comparer.dfy | `SymbolicExpressionComparer` |
| `PowerMerging` | power_merging.dfy | the integer loop of `TryMergePowerMultiplication` |
| `Reduction` | reduction.dfy | the stable sort, the do-while loop of the n-ary rules, and the rewrite loop of the division rule, over any pairwise rule |
| `Simplifier` | simplifier.dfy | every `TrySimplify*` rule and the smart constructors, mutually recursive |
| `SimplifierFacts` | simplifier_facts.dfy | what each rule does, stated input by input |
| `Rendering` | rendering.dfy | the `ToString` overrides |
| `Visitor` | visitor.dfy | `ExpressionVisitor`, the node `Update` methods and `VariableSubstitutionVisitor` |
| `SpanExtensions` | span_extensions.dfy | `ReadOnlySpanExtensions` and the immutable-array builder |
| `StructuralEquality` | structural_equality.dfy | `StructuralEqualityComparer` |
| `Equations` | equations.dfy | `SymbolicEquation`, `SymbolicEquationSystem`, `MultipleSymbolicEquationSystem` |

Modelling decisions:

- **Termination.** The rules and the constructors call each other without a
  decreasing measure: `Add` can call `Subtract`, which can call `Add`. Every
  rule and constructor therefore takes a `fuel` argument. A rule spends one
  unit before it calls a constructor. When the fuel is exhausted the result
  is `Err(OutOfFuel)`.
- **Loops that never end.** Two source loops spin forever: `Gcd` with a zero
  argument, and `TryMergePowerMultiplication` with a base of one. The model
  returns `Err(Diverges)` for both.
- **Errors.** A rule returns `Result<Option<Expr>>`: `Ok(None)` is the
  source's `null` ("no rule applies"), and `Err` is the exception it throws.
  The `Err` cases are:
  - `Overflow`, for checked arithmetic;
  - `DivideByZero`;
  - `ArgumentNull`, `ArgumentInvalid` and `ArgumentOutOfRange`;
  - `InvalidCast`, `NotSupported`, `KeyNotFound` and `IndexOutOfRange`.
- **Equality.** Expressions are compared with datatype equality. The
  reference tests `IsZero`, `IsOne` and `IsMinusOne` become value tests. This
  is sound because numbers are only built through `Create`, which interns
  -128..127.
- **Canonical form.** `Expressions.Canonical` is the form of every tree the
  constructors build from canonical parts:
  - every number fits 64 bits;
  - every variable name is valid;
  - a binary addition or multiplication has its operands in rank order;
  - a variadic node has at least three operands, in rank order, and none of
    them is itself a sum (resp. product).

  Each constructor and rule is proved to preserve this form.

## Model

| member | source | states |
|---|---|---|
| `Expressions.IsFunction` | SolidSharp/Expressions/UnaryOperator.cs:21-22 | an operator counts as a mathematical function exactly when it is neither Plus nor Minus, i.e. its code is 128 or more |
| `Expressions.Rank` | SolidSharp/Expressions/BinaryOperationExpression.cs:34-46 | ranks lie in 0..9; every binary node ranks 4 or more; rank 4 means exactly an addition and rank 6 exactly a multiplication, binary or variadic |
| `Expressions.RankTable` | SolidSharp/Expressions/SymbolicExpressionComparer.cs:9-18 | the rank table: number 0, constant 1, variable 2, unary 3, addition 4, subtraction 5, multiplication 6, division 7, root 8, power 9; variadic sum 4 and product 6 |
| `Expressions.GetPrecedence` | SolidSharp/Expressions/Extensions/SymbolicExpressionExtensions.cs:76-77 | defined exactly for operation nodes, NotSupported for the others; a unary node has precedence 0 |
| `Expressions.GetValue` | SolidSharp/Expressions/Extensions/SymbolicExpressionExtensions.cs:83-84 | succeeds exactly on numbers and gives back their value; any other node is an InvalidCast |
| `Expressions.GetOperand` | SolidSharp/Expressions/Extensions/SymbolicExpressionExtensions.cs:94-95 | succeeds exactly on unary nodes and gives back their operand; NotSupported otherwise |
| `Expressions.GetOperands` | SolidSharp/Expressions/Extensions/SymbolicExpressionExtensions.cs:105-106 | one operand for a unary node, first and second for a binary node, the operand array for a variadic node; NotSupported for leaves |
| `Expressions.MakeVariable` | SolidSharp/Expressions/VariableExpression.cs:11-17 | a null name is ArgumentNull, an empty or white-space name is ArgumentInvalid, any other name gives the variable of that name |
| `Expressions.MakeUnary` | SolidSharp/Expressions/UnaryOperationExpression.cs:26-30 | fails with ArgumentNull exactly when the operand is null; otherwise the node of that operator and operand |
| `Expressions.MakeBinary` | SolidSharp/Expressions/BinaryOperationExpression.cs:25-30 | fails with ArgumentNull exactly when either operand is null; otherwise the node of both operands in the given order |
| `Expressions.MakeVariadic` | SolidSharp/Expressions/VariadicOperationExpression.cs:19-25 | succeeds exactly for an initialised array of two or more operands, which it keeps as given; ArgumentInvalid otherwise |
| `Int64.CheckedNeg` | SolidSharp/Expressions/ExpressionSimplifier.cs:21 | the negation when it fits 64 bits, Overflow exactly when it does not |
| `Int64.CheckedAdd` | SolidSharp/Expressions/ExpressionSimplifier.cs:68 | the sum when it fits 64 bits, Overflow exactly when it does not |
| `Int64.CheckedSub` | SolidSharp/Expressions/ExpressionSimplifier.cs:183 | the difference when it fits 64 bits, Overflow exactly when it does not |
| `Int64.CheckedMul` | SolidSharp/Expressions/ExpressionSimplifier.cs:222 | the product when it fits 64 bits, Overflow exactly when it does not |
| `Int64.TruncDiv` | SolidSharp/Expressions/ExpressionSimplifier.cs:507 | C# division: the magnitude of the quotient is the quotient of the magnitudes, rounded toward zero |
| `Int64.TruncRem` | SolidSharp/Expressions/ExpressionSimplifier.cs:306 | C# remainder (`Math.DivRem`): its magnitude is the remainder of the magnitudes |
| `Int64.TruncDivRem` | SolidSharp/Expressions/ExpressionSimplifier.cs:306 | quotient times divisor plus remainder gives the dividend back |
| `Int64.TruncDivShrinks` | SolidSharp/Expressions/ExpressionSimplifier.cs:306-310 | dividing a non-zero number by a divisor of magnitude two or more strictly shrinks its magnitude |
| `Int64.CheckedPow` | SolidSharp/Expressions/ExpressionSimplifier.cs:540 | `MathUtil.Pow`: the exact power when the exponent is not negative and the power fits 64 bits; Overflow in every other case |
| `MathUtil.GcdDividesBoth` | SolidSharp/MathUtil.cs:5-25 | the reference gcd divides both arguments |
| `MathUtil.GcdGreatest` | SolidSharp/MathUtil.cs:5-25 | every common divisor divides the reference gcd |
| `MathUtil.GcdUnique` | SolidSharp/MathUtil.cs:5-25 | a positive common divisor that every common divisor divides is the gcd |
| `MathUtil.GcdDoubles` | SolidSharp/MathUtil.cs:9-14 | halving both arguments halves the gcd, so the first loop keeps gcd · 2^d constant |
| `MathUtil.GcdHalvesEven` | SolidSharp/MathUtil.cs:16-22 | halving the even argument when the other is odd keeps the gcd |
| `MathUtil.GcdSymmetric` | SolidSharp/MathUtil.cs:16-22 | the gcd does not depend on the order of the arguments, so swapping them in the second loop keeps it |
| `MathUtil.GcdSplitsTwos` | SolidSharp/MathUtil.cs:9-14 | the gcd is the odd part left after the first loop times 2 to the count of shared factors of two |
| `MathUtil.StripAndSubtract` | SolidSharp/MathUtil.cs:9-22 | the two loops, with their invariants: the first ends with the count of shared factors of two, the second with the gcd of what is left |
| `MathUtil.BinaryGcd` | SolidSharp/MathUtil.cs:5-25 | `Gcd(ulong, ulong)` as written: a zero argument never terminates; otherwise the result is the odd part times a 32-bit shift of one, wrapped at 2^64 |
| `MathUtil.BinaryGcdCorrected` | SolidSharp/MathUtil.cs:24 | the same loops with a full-width shift compute the greatest common divisor |
| `MathUtil.LongGcd` | SolidSharp/MathUtil.cs:5-33 | succeeds exactly when both arguments are non-zero; for 64-bit arguments the result is a positive common divisor of both magnitudes, and it is their greatest common divisor when they share fewer than 32 factors of two |
| `MathUtil.AsWrittenIsCommonDivisor` | SolidSharp/MathUtil.cs:5-25 | for a first argument below 2^64, the source's unsigned result is positive and divides the gcd and both arguments, so the 32-bit shift never wraps the product |
| `MathUtil.CoprimeAsWritten` | SolidSharp/MathUtil.cs:27-33 | two 64-bit numbers whose magnitudes have gcd one get one from `Gcd(long, long)` as written |
| `MathUtil.SignedGcd` | SolidSharp/MathUtil.cs:27-33 | `Gcd(long, long)` runs `Gcd(ulong, ulong)` as written on the magnitudes, long.MinValue included, and gives `LongGcd` with its guarantees |
| `MathUtil.ReducedCoprime` | SolidSharp/Expressions/ExpressionSimplifier.cs:503-508 | dividing two positive numbers by their greatest common divisor leaves exact quotients whose gcd is one; the fraction rule gets this divisor when fewer than 32 factors of two are shared |
| `MathUtil.GcdShiftTruncation` | SolidSharp/MathUtil.cs:24 | for 2^32 and 2^33 the gcd is 2^32 but the source's result is 1 |
| `MathUtil.GcdAsWrittenAgrees` | SolidSharp/MathUtil.cs:24 | with fewer than 32 shared factors of two the source's result is the gcd |
| `NumberCache.SignedByte` | SolidSharp/Expressions/NumberExpression.cs:19 | `unchecked((sbyte)i)` lies in -128..127 and agrees with i modulo 256 |
| `NumberCache.Slot` | SolidSharp/Expressions/NumberExpression.cs:31 | `unchecked((byte)v)` is a slot below 256 whose signed byte is v for every v in -128..127 |
| `NumberCache.SmallIntegerCache.constructor` | SolidSharp/Expressions/NumberExpression.cs:13-23 | the fill loop leaves slot i holding the number `(sbyte)i` |
| `NumberCache.SmallIntegerCache.Create` | SolidSharp/Expressions/NumberExpression.cs:31-66 | every integer overload keeps the value; it takes the node from slot `(byte)v` exactly when the overload shares v, and builds a fresh node otherwise |
| `NumberCache.SmallIntegerCache.Zero` | SolidSharp/Expressions/NumberExpression.cs:25 | slot 0, the number 0 |
| `NumberCache.SmallIntegerCache.One` | SolidSharp/Expressions/NumberExpression.cs:26 | slot 1, the number 1 |
| `NumberCache.SmallIntegerCache.MinusOne` | SolidSharp/Expressions/NumberExpression.cs:27 | slot 255, the number -1 |
| `NumberCache.CreateShares` | SolidSharp/Expressions/NumberExpression.cs:31-66 | two calls with a shared value, through any overloads, return the same slot, so the same node |
| `NumberCache.CreateFresh` | SolidSharp/Expressions/NumberExpression.cs:48-66 | outside the shared range every call builds a new node of the same value |
| `NumberCache.UnsignedSharesBelow128` | SolidSharp/Expressions/NumberExpression.cs:33-36 | an unsigned overload shares a value exactly when it is below 128 |
| `NumberCache.CreateTotalBelowMaxLong` | SolidSharp/Expressions/NumberExpression.cs:31-61 | every overload except the unsigned 64-bit one succeeds on every value of its type |
| `Comparer.Order` | SolidSharp/Expressions/SymbolicExpressionComparer.cs:26 | `Comparer<T>.Default.Compare` on integers: negative, zero or positive exactly as the first is below, equal to or above the second |
| `Comparer.OrdinalCompare` | SolidSharp/Expressions/SymbolicExpressionComparer.cs:59 | ordinal string comparison is zero exactly for equal strings |
| `Comparer.OrdinalAntisymmetric` | SolidSharp/Expressions/SymbolicExpressionComparer.cs:59 | swapping the strings negates the ordinal comparison |
| `Comparer.OrdinalTransitive` | SolidSharp/Expressions/SymbolicExpressionComparer.cs:59 | the ordinal comparison is transitive |
| `Comparer.CompareApproximation` | SolidSharp/Expressions/SymbolicExpressionComparer.cs:57 | the nullable decimal comparison: zero exactly for equal values, and a missing value sorts first |
| `Comparer.UnwrapFactors` | SolidSharp/Expressions/SymbolicExpressionComparer.cs:43-46 | returns every node unchanged, because no node reports itself as a binary operation |
| `Comparer.CompareUnwrapped` | SolidSharp/Expressions/SymbolicExpressionComparer.cs:48-64 | numbers compare by value, variables are equal exactly when their names are; nodes of different kinds and operation nodes compare 0 |
| `Comparer.Compare` | SolidSharp/Expressions/SymbolicExpressionComparer.cs:24-41 | different ranks decide by rank alone |
| `Comparer.CompareReflexive` | SolidSharp/Expressions/SymbolicExpressionComparer.cs:24-41 | every node compares 0 with itself |
| `Comparer.CompareAntisymmetric` | SolidSharp/Expressions/SymbolicExpressionComparer.cs:24-64 | swapping the arguments negates the comparison |
| `Comparer.CompareTransitive` | SolidSharp/Expressions/SymbolicExpressionComparer.cs:24-64 | the comparison is transitive, so it is the total preorder a sort needs |
| `Comparer.ComparePayloads` | SolidSharp/Expressions/SymbolicExpressionComparer.cs:48-64 | numbers order by value, variables tie exactly on equal names, and 𝑖 sorts before 𝑒, which sorts before π |
| `Comparer.OperationsOfSameRankTie` | SolidSharp/Expressions/SymbolicExpressionComparer.cs:48-64 | two operation nodes of the same rank compare 0 whatever their operands |
| `Comparer.UnwrapIsDead` | SolidSharp/Expressions/SymbolicExpressionComparer.cs:43-46 | 2·x and x·y compare 0 although the unwrapped second operands differ |
| `PowerMerging.DivideOut` | SolidSharp/Expressions/ExpressionSimplifier.cs:304-310 | with no exact division the number is unchanged; the count of divisions and the remaining factor's magnitude never exceed the original number; it fails only for a number above one with a base of zero or one |
| `PowerMerging.DivideOutFactors` | SolidSharp/Expressions/ExpressionSimplifier.cs:304-310 | the loop keeps original = remaining factor · base^count |
| `PowerMerging.DivideOutLoop` | SolidSharp/Expressions/ExpressionSimplifier.cs:306-310 | the `while` loop computes `DivideOut` |
| `PowerMerging.MergeKeepsValue` | SolidSharp/Expressions/ExpressionSimplifier.cs:312-318 | when the remaining factor is kept whenever it is not one, the merged product has the original value |
| `PowerMerging.MergeAsWrittenKeepsValue` | SolidSharp/Expressions/ExpressionSimplifier.cs:312-318 | for a base of two or more the test `na > 1` keeps the remaining factor exactly when it is not one, so the merge as written keeps the value |
| `PowerMerging.NegativeBaseDropsFactor` | SolidSharp/Expressions/ExpressionSimplifier.cs:316 | as written, 8·(-2)^t loses the remaining factor -4 |
| `Reduction.SortByKeySortsAndPermutes` | SolidSharp/Expressions/ExpressionSimplifier.cs:47-53 | the stable sort orders by key and is a permutation of its input |
| `Reduction.SortOfOrdered` | SolidSharp/Expressions/ExpressionSimplifier.cs:47-53 | an already ordered sequence comes back unchanged |
| `Reduction.ReduceSettles` | SolidSharp/Expressions/ExpressionSimplifier.cs:333-350 | when the loop ends, no adjacent pair gives a rule, and the sequence is no longer than it was |
| `Reduction.ReduceOfSettled` | SolidSharp/Expressions/ExpressionSimplifier.cs:333-350 | a sequence whose adjacent pairs all give no rule comes back unchanged |
| `Reduction.ReducePreserves` | SolidSharp/Expressions/ExpressionSimplifier.cs:333-350 | a property that every operand has and every rewrite keeps holds of every element of the result |
| `Reduction.SettledElements` | SolidSharp/Expressions/ExpressionSimplifier.cs:339-341 | in a settled sequence of two or more, every element has what every "no rule" pair guarantees |
| `Reduction.SettledPairs` | SolidSharp/Expressions/ExpressionSimplifier.cs:339-341 | every adjacent pair of a settled sequence has what a "no rule" answer guarantees |
| `Reduction.ReduceLoop` | SolidSharp/Expressions/ExpressionSimplifier.cs:331-350 | the do-while loop over the builder, with `2·count - i` as the measure, computes `Reduce` |
| `Reduction.RewriteEach` | SolidSharp/Expressions/ExpressionSimplifier.cs:474-491 | succeeds exactly when the rule succeeds on every operand; element i is the rewrite of operand i; the mutated flag is set exactly when some rewrite was found |
| `Reduction.RewriteEachFailsAt` | SolidSharp/Expressions/ExpressionSimplifier.cs:477-479 | the walk fails with the failure of the first operand the rule fails on |
| `Reduction.RewriteEachLoop` | SolidSharp/Expressions/ExpressionSimplifier.cs:474-491 | the `for` loop over the builder with its mutated flag computes `RewriteEach` |
| `Reduction.RewriteEachUnique` | SolidSharp/Expressions/ExpressionSimplifier.cs:477-488 | any result with the contract of `RewriteEach` is `RewriteEach` |
| `Simplifier.SortByRank` | SolidSharp/Expressions/ExpressionSimplifier.cs:47-53 | `SortExpressions(array)`: rank-ordered, same length, and a permutation of the operands |
| `Simplifier.Negate` | SolidSharp/Expressions/SymbolicExpression.cs:102-104 | negating a canonical tree gives a canonical tree or an error, never a tree outside the canonical form; the rewrites it uses are stated in `SimplifierFacts` |
| `Simplifier.Add` | SolidSharp/Expressions/SymbolicExpression.cs:106-108 | adding two canonical trees gives a canonical tree or an error: operands in rank order, sums flattened |
| `Simplifier.Combine` | SolidSharp/Expressions/SymbolicExpression.cs:110-124 | `Add` and `Multiply` over an array: canonical operands give a canonical tree or an error |
| `Simplifier.Subtract` | SolidSharp/Expressions/SymbolicExpression.cs:114-116 | subtracting two canonical trees gives a canonical tree or an error |
| `Simplifier.Multiply` | SolidSharp/Expressions/SymbolicExpression.cs:118-120 | multiplying two canonical trees gives a canonical tree or an error: operands in rank order, products flattened |
| `Simplifier.Divide` | SolidSharp/Expressions/SymbolicExpression.cs:126-128 | dividing two canonical trees gives a canonical tree or an error |
| `Simplifier.Pow` | SolidSharp/Expressions/SymbolicMath.cs:8-10 | the power of two canonical trees is a canonical tree or an error |
| `Simplifier.RootOf` | SolidSharp/Expressions/BinaryOperationExpression.cs:61 | the root of two canonical trees, built like `Pow`, is a canonical tree or an error |
| `Simplifier.AbsOf` | SolidSharp/Expressions/ExpressionSimplifier.cs:595 | the absolute value of a canonical tree, built like `Pow`, is a canonical tree or an error |
| `Simplifier.TrySimplifyNegation` | SolidSharp/Expressions/ExpressionSimplifier.cs:13-30 | every rewrite of a canonical node is canonical (the cases are stated in `SimplifierFacts`) |
| `Simplifier.TrySimplifyAddition` | SolidSharp/Expressions/ExpressionSimplifier.cs:55-123 | no rule is found only for a pair already in rank order, neither of them an addition; rewrites of canonical operands are canonical |
| `Simplifier.PairRule` | SolidSharp/Expressions/ExpressionSimplifier.cs:337 | the pairwise rule the loop calls finds no rule only for a rank-ordered pair, neither of them of the loop's operator |
| `Simplifier.TrySimplifyVariadic` | SolidSharp/Expressions/ExpressionSimplifier.cs:325-368 | fewer than two operands is ArgumentInvalid; no rule only for three or more operands already rank-ordered and flat; canonical operands give a canonical rewrite |
| `Simplifier.Settle` | SolidSharp/Expressions/ExpressionSimplifier.cs:331-350 | the loop leaves one or more operands, rank-ordered, flat when two or more remain, unchanged when none merged, and canonical when the operands were |
| `Simplifier.Collapse` | SolidSharp/Expressions/ExpressionSimplifier.cs:352-367 | no rule only when the settled operands equal the input and number three or more; otherwise a canonical node |
| `Simplifier.TrySimplifySubtraction` | SolidSharp/Expressions/ExpressionSimplifier.cs:170-208 | every rewrite of canonical operands is canonical |
| `Simplifier.TrySimplifyMultiplication` | SolidSharp/Expressions/ExpressionSimplifier.cs:210-295 | no rule is found only for a pair already in rank order, neither of them a multiplication; rewrites of canonical operands are canonical |
| `Simplifier.MergePowers` | SolidSharp/Expressions/ExpressionSimplifier.cs:233-257 | the power-merging rewrites of canonical operands are canonical |
| `Simplifier.MergeFactors` | SolidSharp/Expressions/ExpressionSimplifier.cs:259-294 | no rule only for a rank-ordered pair of non-products; rewrites of canonical operands are canonical |
| `Simplifier.TryMergePowerMultiplication` | SolidSharp/Expressions/ExpressionSimplifier.cs:297-323 | the merged power of canonical operands is canonical; the remaining factor is kept only when it is above one, as written |
| `Simplifier.TrySimplifyDivision` | SolidSharp/Expressions/ExpressionSimplifier.cs:370-496 | a literal zero divisor is DivideByZero before anything else; rewrites of canonical operands are canonical |
| `Simplifier.DividePowers` | SolidSharp/Expressions/ExpressionSimplifier.cs:404-436 | the power-division rewrites of canonical operands are canonical |
| `Simplifier.FoldPowerDivisor` | SolidSharp/Expressions/ExpressionSimplifier.cs:424-433 | an Overflow inside the attempt is caught: the result is never Overflow |
| `Simplifier.MergeQuotients` | SolidSharp/Expressions/ExpressionSimplifier.cs:438-496 | the division-merging rewrites of canonical operands are canonical |
| `Simplifier.DistributeDivision` | SolidSharp/Expressions/ExpressionSimplifier.cs:457-493 | dividing the factors of a canonical product gives a canonical rewrite |
| `Simplifier.TrySimplifyFraction` | SolidSharp/Expressions/ExpressionSimplifier.cs:498-511 | 0/x is Zero; x/x is One; the fraction of 64-bit values reduced by the source's gcd is canonical |
| `Simplifier.TrySimplifyPower` | SolidSharp/Expressions/ExpressionSimplifier.cs:513-567 | rewrites of canonical operands are canonical |
| `Simplifier.PowerByLiteral` | SolidSharp/Expressions/ExpressionSimplifier.cs:515-557 | rewrites for a literal exponent are canonical |
| `Simplifier.TrySimplifyRoot` | SolidSharp/Expressions/ExpressionSimplifier.cs:569-610 | rewrites of canonical operands are canonical |
| `Simplifier.RootByLiteral` | SolidSharp/Expressions/ExpressionSimplifier.cs:571-600 | rewrites for a literal index are canonical |
| `Simplifier.TrySimplifyAbs` | SolidSharp/Expressions/ExpressionSimplifier.cs:612-632 | rewrites of a canonical operand are canonical |
| `Simplifier.TrySimplifySin` | SolidSharp/Expressions/ExpressionSimplifier.cs:634-639 | a rewrite exists exactly for 0 and π, and it is Zero |
| `Simplifier.SinOf` | SolidSharp/Expressions/SymbolicMath.cs:12-13 | a sine node of the argument itself, so sin 0 stays a node although the sine rule would give 0; canonical for a canonical argument |
| `Simplifier.CosOf` | SolidSharp/Expressions/SymbolicMath.cs:15-16 | a cosine node of the argument itself, canonical for a canonical argument |
| `Simplifier.LnOf` | SolidSharp/Expressions/SymbolicMath.cs:18-19 | a logarithm node of the argument itself, canonical for a canonical argument |
| `Simplifier.ExpOf` | SolidSharp/Expressions/SymbolicMath.cs:21-22 | exp of a canonical tree is a canonical tree or an error |
| `SimplifierFacts.NegateNumber` | SolidSharp/Expressions/ExpressionSimplifier.cs:19-22 | -n is checked negation: Overflow exactly for the most negative 64-bit value |
| `SimplifierFacts.NegateNegation` | SolidSharp/Expressions/ExpressionSimplifier.cs:15-18 | -(-x) is x itself |
| `SimplifierFacts.NegateSubtraction` | SolidSharp/Expressions/ExpressionSimplifier.cs:23-27 | -(a - b) is b - a |
| `SimplifierFacts.NegateTwice` | SolidSharp/Expressions/ExpressionSimplifier.cs:13-30 | negating twice gives back any node that is neither a negation nor a subtraction |
| `SimplifierFacts.AddNumbers` | SolidSharp/Expressions/ExpressionSimplifier.cs:58-69 | two numbers add to their checked sum, whichever rule fires |
| `SimplifierFacts.SubtractNumbers` | SolidSharp/Expressions/ExpressionSimplifier.cs:173-184 | two numbers subtract to their checked difference |
| `SimplifierFacts.MultiplyNumbers` | SolidSharp/Expressions/ExpressionSimplifier.cs:213-223 | two numbers multiply to their checked product, whichever rule fires |
| `SimplifierFacts.AddZero` | SolidSharp/Expressions/ExpressionSimplifier.cs:58-59 | 0 + x = x + 0 = x |
| `SimplifierFacts.AddSame` | SolidSharp/Expressions/ExpressionSimplifier.cs:62-65 | x + x = 2·x |
| `SimplifierFacts.SubtractSame` | SolidSharp/Expressions/ExpressionSimplifier.cs:177-180 | x - x is the interned Zero |
| `SimplifierFacts.SubtractZero` | SolidSharp/Expressions/ExpressionSimplifier.cs:173-174 | 0 - x = -x and x - 0 = x |
| `SimplifierFacts.SubtractNegation` | SolidSharp/Expressions/ExpressionSimplifier.cs:202-205 | x - (-y) = x + y |
| `SimplifierFacts.MultiplyUnits` | SolidSharp/Expressions/ExpressionSimplifier.cs:213-217 | 0·x = x·0 = 0, 1·x = x·1 = x, (-1)·x = -x |
| `SimplifierFacts.MultiplySame` | SolidSharp/Expressions/ExpressionSimplifier.cs:224-230 | x·x = x² for any node that is not a number |
| `SimplifierFacts.MultiplySameBase` | SolidSharp/Expressions/ExpressionSimplifier.cs:234-243 | x^a · x^b = x^(a+b) |
| `SimplifierFacts.AddOrdersOperands` | SolidSharp/Expressions/ExpressionSimplifier.cs:120-122 | when no other rule fires, the raw addition has the lower-ranked operand first |
| `SimplifierFacts.AddPutsNumberFirst` | SolidSharp/Expressions/ExpressionSimplifier.cs:120-122 | t + 99 is built as 99 + t |
| `SimplifierFacts.MultiplyOrdersOperands` | SolidSharp/Expressions/ExpressionSimplifier.cs:292-294 | when no other rule fires, the raw multiplication has the lower-ranked operand first |
| `SimplifierFacts.CombineTooFew` | SolidSharp/Expressions/ExpressionSimplifier.cs:327 | fewer than two operands are refused with ArgumentInvalid |
| `SimplifierFacts.CombineTwo` | SolidSharp/Expressions/ExpressionSimplifier.cs:329 | two operands go to the binary constructor |
| `SimplifierFacts.CombineSettled` | SolidSharp/Expressions/ExpressionSimplifier.cs:331-367 | rank-ordered operands whose adjacent pairs give no rule are the normal form: the variadic node over them, as given |
| `SimplifierFacts.RankOrderedAll` | SolidSharp/Expressions/ExpressionSimplifier.cs:47-53 | adjacent rank order is the key order the sort produces |
| `SimplifierFacts.MergeBaseZero` | SolidSharp/Expressions/ExpressionSimplifier.cs:306 | a number above one times a power of zero divides by zero |
| `SimplifierFacts.MergeBaseOne` | SolidSharp/Expressions/ExpressionSimplifier.cs:306 | a number above one times a power of one never stops dividing |
| `SimplifierFacts.MergeEightTimesPowerOfTwo` | SolidSharp/Expressions/ExpressionSimplifier.cs:297-323 | 8·2^t = 2^(3+t) |
| `SimplifierFacts.MergeNegativeBaseAsWritten` | SolidSharp/Expressions/ExpressionSimplifier.cs:297-323 | as written, 8·(-2)^t simplifies to (-2)^(1+t), which drops the factor -4 |
| `SimplifierFacts.DivideByLiteralZero` | SolidSharp/Expressions/ExpressionSimplifier.cs:372-376 | a literal zero divisor is DivideByZero whatever the dividend |
| `SimplifierFacts.DivideTrivia` | SolidSharp/Expressions/ExpressionSimplifier.cs:378-402 | x/1 = x, c/c = 1 for a constant c, and 0/c = 0 |
| `SimplifierFacts.ExactTruncDiv` | SolidSharp/Expressions/ExpressionSimplifier.cs:507 | dividing a multiple of g by g is exact, keeps the sign and does not grow |
| `SimplifierFacts.LowestTerms` | SolidSharp/Expressions/ExpressionSimplifier.cs:503-507 | dividing two non-zero 64-bit numbers by the source's gcd gives exact non-zero 64-bit quotients of the same value, in lowest terms when fewer than 32 factors of two are shared |
| `SimplifierFacts.FractionSettled` | SolidSharp/Expressions/ExpressionSimplifier.cs:505-510 | a fraction whose computed gcd is one stays a raw quotient |
| `SimplifierFacts.FractionKeptAsWritten` | SolidSharp/Expressions/ExpressionSimplifier.cs:503-510 | 2^32/2^33 stays a raw quotient although the gcd of its numbers is 2^32 |
| `SimplifierFacts.FractionReduced` | SolidSharp/Expressions/ExpressionSimplifier.cs:505-508 | a fraction whose computed gcd exceeds one is replaced by the quotient of the numbers divided by it |
| `SimplifierFacts.DivideNumbersKeepValue` | SolidSharp/Expressions/ExpressionSimplifier.cs:498-511 | for every pair of 64-bit numbers, a successful division gives a number n with x = n·y or a raw fraction p/q with p·y = q·x |
| `SimplifierFacts.DivideNumbers` | SolidSharp/Expressions/ExpressionSimplifier.cs:498-511 | a division of numbers keeps the value; when x is zero or the magnitudes share fewer than 32 factors of two it succeeds, and a remaining fraction is in lowest terms |
| `SimplifierFacts.LowestFraction` | SolidSharp/Expressions/ExpressionSimplifier.cs:503-510 | with fewer than 32 shared factors of two, a fraction that is not exact succeeds and ends in lowest terms |
| `SimplifierFacts.DistributeBranchesAgree` | SolidSharp/Expressions/ExpressionSimplifier.cs:458-491 | for a two-factor product, the binary branch and the operand-array branch give the same result |
| `SimplifierFacts.PowZeroExponent` | SolidSharp/Expressions/ExpressionSimplifier.cs:519-527 | 0^0 stays a raw node; n^0 is 1 for a non-zero literal n |
| `SimplifierFacts.PowOne` | SolidSharp/Expressions/ExpressionSimplifier.cs:528-531 | x^1 = x |
| `SimplifierFacts.PowNumbers` | SolidSharp/Expressions/ExpressionSimplifier.cs:536-542 | a literal to a literal power folds to the checked power; an overflow or a negative exponent leaves the raw node |
| `SimplifierFacts.ExpOfZeroAndOne` | SolidSharp/Expressions/SymbolicMath.cs:21-22 | exp 1 = 𝑒, and exp 0 stays the raw power 𝑒⁰ because 𝑒 is not a literal |
| `SimplifierFacts.PowAbsEven` | SolidSharp/Expressions/ExpressionSimplifier.cs:532-535 | the absolute value of x to an even literal power is x to that power |
| `SimplifierFacts.PowOfRoot` | SolidSharp/Expressions/ExpressionSimplifier.cs:543-556 | root(x, n)^n = x for a literal n |
| `SimplifierFacts.PowOfPow` | SolidSharp/Expressions/ExpressionSimplifier.cs:559-564 | (x^a)^b = x^(a·b) |
| `SimplifierFacts.RootOne` | SolidSharp/Expressions/ExpressionSimplifier.cs:575-578 | root(x, 1) = x |
| `SimplifierFacts.RootOfPower` | SolidSharp/Expressions/ExpressionSimplifier.cs:579-598 | root(x^n, n) is x for an odd literal n and the absolute value of x for an even one |
| `SimplifierFacts.RootOfRoot` | SolidSharp/Expressions/ExpressionSimplifier.cs:602-607 | root(root(x, a), b) = root(x, a·b) |
| `SimplifierFacts.AbsNumber` | SolidSharp/Expressions/ExpressionSimplifier.cs:614-619 | the absolute value of a literal is its magnitude, never negative; only the most negative 64-bit value overflows |
| `SimplifierFacts.AbsEvenPower` | SolidSharp/Expressions/ExpressionSimplifier.cs:621-629 | the absolute value of x to an even power is that power itself |
| `Rendering.IntToStringRoundTrip` | SolidSharp/Expressions/BinaryOperationExpression.cs:89 | a number's decimal text reads back as its value |
| `Rendering.ToString` | SolidSharp/Expressions/BinaryOperationExpression.cs:69-103 | rendering succeeds exactly when every root index is a literal number; a non-literal index is KeyNotFound |
| `Rendering.RenderAll` | SolidSharp/Expressions/VariadicOperationExpression.cs:56-57 | the text of every operand, in order, or KeyNotFound when one cannot render |
| `Rendering.RenderNames` | SolidSharp/Expressions/ConstantExpression.cs:38 | constants and variables render as their names |
| `Rendering.RenderNumber` | SolidSharp/Expressions/NumberExpression.cs:118 | a number renders as text that reads back as its value |
| `Rendering.RenderUnary` | SolidSharp/Expressions/UnaryOperationExpression.cs:32-45 | the absolute value renders between bars; a function name goes before its parenthesised operand; a prefix sign is parenthesised only when the operand needs it |
| `Rendering.RenderRoots` | SolidSharp/Expressions/BinaryOperationExpression.cs:76-94 | indices 2, 3 and 4 render as √, ∛ and ∜; other literal indices as root(x, n); a non-literal index is KeyNotFound |
| `Rendering.RenderGroupsLeft` | SolidSharp/Expressions/BinaryOperationExpression.cs:73-74 | at equal precedence a left operand is not parenthesised and a right one is |
| `Rendering.RenderSumInProduct` | SolidSharp/Expressions/BinaryOperationExpression.cs:96-102 | a sum inside a product is parenthesised |
| `Rendering.RenderVariadic` | SolidSharp/Expressions/VariadicOperationExpression.cs:10-14 | a variadic sum joins its operands with " + " |
| `Visitor.UpdateUnary` | SolidSharp/Expressions/BinaryOperationExpression.cs:50-67 | the same operand gives the node itself; canonical parts give a canonical node |
| `Visitor.UpdateBinary` | SolidSharp/Expressions/BinaryOperationExpression.cs:50-67 | the same operands give the node itself; otherwise the operator's constructor, canonical for canonical parts |
| `Visitor.UpdateVariadic` | SolidSharp/Expressions/VariadicOperationExpression.cs:41-54 | the same operands give the node itself; otherwise `Add` or `Multiply` over them, canonical for canonical parts |
| `Visitor.Visit` | SolidSharp/Expressions/ExpressionVisitor.cs:42-58 | a walk of a canonical tree with canonical images gives a canonical tree |
| `Visitor.VisitAll` | SolidSharp/Expressions/ExpressionVisitor.cs:13-40 | succeeds exactly when every element does; element i of the result is the visit of element i |
| `Visitor.SubstituteVariables` | SolidSharp/Expressions/SymbolicExpression.cs:39-40 | substituting canonical images into a canonical tree gives a canonical tree or an error |
| `Visitor.VisitUntouched` | SolidSharp/Expressions/ExpressionVisitor.cs:42-58 | a tree that mentions no mapped variable comes back as the same node |
| `Visitor.VisitAllUntouched` | SolidSharp/Expressions/ExpressionVisitor.cs:17-39 | an array whose elements mention no mapped variable comes back unchanged |
| `Visitor.DefaultVisitIsIdentity` | SolidSharp/Expressions/ExpressionVisitor.cs:51-58 | the default visitor returns every tree unchanged |
| `Visitor.EmptyMapUntouched` | SolidSharp/Expressions/VariableSubstitutionVisitor.cs:12-15 | no tree mentions a key of the empty map |
| `Visitor.SubstituteVariable` | SolidSharp/Expressions/VariableSubstitutionVisitor.cs:12-15 | a mapped variable becomes its image; an unmapped one stays |
| `Visitor.SubstituteResimplifies` | SolidSharp/Expressions/BinaryOperationExpression.cs:52-58 | a changed operand rebuilds its parent through the constructor: substituting y for x in x·y gives y² |
| `Visitor.VisitAllFailsAt` | SolidSharp/Expressions/ExpressionVisitor.cs:17-20 | the array visit fails with the failure of the first element that fails |
| `Visitor.VisitAllSucceeds` | SolidSharp/Expressions/ExpressionVisitor.cs:17-39 | element-wise visits determine the array visit |
| `Visitor.VisitArray` | SolidSharp/Expressions/ExpressionVisitor.cs:13-40 | a default array is ArgumentInvalid; otherwise the scan-then-copy loops compute `VisitAll` |
| `Visitor.VisitArrayAsWritten` | SolidSharp/Expressions/ExpressionVisitor.cs:13-40 | the loops as written compute the walk that fails at the first changed element |
| `Visitor.AsWrittenAfterPrefix` | SolidSharp/Expressions/ExpressionVisitor.cs:17-22 | past elements that visit to themselves, the walk as written continues with the rest |
| `Visitor.AsWrittenFailsOnChange` | SolidSharp/Expressions/ExpressionVisitor.cs:24-28 | as written, the array visit agrees with the intended one when nothing changes and is IndexOutOfRange whenever something does |
| `Visitor.AsWrittenFailsOnSubstitution` | SolidSharp/Expressions/ExpressionVisitor.cs:26-28 | substituting 1 for x in [x, y, z]: the intended visit gives [1, y, z], the one as written fails |
| `SpanExtensions.InsertedElements` | SolidSharp/Expressions/Extensions/ReadOnlySpanExtensions.cs:49-58 | an insertion is one longer and holds the old elements before the index, the item at it, and the old elements shifted after it |
| `SpanExtensions.InsertRemoveRoundTrip` | SolidSharp/Expressions/Extensions/ReadOnlySpanExtensions.cs:49-68 | removing what was inserted gives the items back, and inserting what was removed puts it back |
| `SpanExtensions.AsReadOnlySpan` | SolidSharp/Expressions/Extensions/ReadOnlySpanExtensions.cs:24-27 | a default array reads as empty, any other as its elements |
| `SpanExtensions.CopyInto` | SolidSharp/Expressions/Extensions/ReadOnlySpanExtensions.cs:33-34 | `CopyTo` into a slice of the destination replaces that slice and keeps the rest |
| `SpanExtensions.AddRange` | SolidSharp/Expressions/Extensions/ReadOnlySpanExtensions.cs:29-37 | a's elements then b's |
| `SpanExtensions.Add` | SolidSharp/Expressions/Extensions/ReadOnlySpanExtensions.cs:39-47 | the items then the new item |
| `SpanExtensions.Insert` | SolidSharp/Expressions/Extensions/ReadOnlySpanExtensions.cs:49-58 | succeeds exactly for an index in 0..count, with the item at the index; ArgumentOutOfRange otherwise |
| `SpanExtensions.RemoveAt` | SolidSharp/Expressions/Extensions/ReadOnlySpanExtensions.cs:60-68 | succeeds exactly for an index below the count, without the element at it; an empty span, an index outside 0..count, and the index count each fail as the source's slicing does |
| `SpanExtensions.Map` | SolidSharp/Expressions/Extensions/ReadOnlySpanExtensions.cs:70-80 | the same length, with the selector applied to every item in order |
| `SpanExtensions.Builder.constructor` | SolidSharp/Expressions/Extensions/ReadOnlySpanExtensions.cs:88 | a new builder is empty with the requested capacity |
| `SpanExtensions.Builder.Get` | SolidSharp/Expressions/Extensions/ReadOnlySpanExtensions.cs:110 | the builder's indexer reads the element at the index |
| `SpanExtensions.Builder.Add` | SolidSharp/Expressions/Extensions/ReadOnlySpanExtensions.cs:90-93 | appends the item and grows the capacity only when full |
| `SpanExtensions.Builder.AddRange` | SolidSharp/Expressions/Extensions/ReadOnlySpanExtensions.cs:100-113 | Overflow exactly when the capacity must grow and doubling leaves the int range, with the builder unchanged; otherwise the span's items are appended in order |
| `SpanExtensions.ToImmutableArrayBuilder` | SolidSharp/Expressions/Extensions/ReadOnlySpanExtensions.cs:86-98 | a fresh builder holding the items in order, sized to them |
| `StructuralEquality.SameElements` | SolidSharp/StructuralEqualityComparer.cs:18-26 | the element loop answers true exactly when the sequences are equal |
| `StructuralEquality.ArraysEqual` | SolidSharp/StructuralEqualityComparer.cs:8-37 | two arrays are equal exactly when both are default or both hold the same elements |
| `StructuralEquality.ArrayEqualsBuilder` | SolidSharp/StructuralEqualityComparer.cs:39-68 | the same rule, with a null builder in the place of a default array |
| `StructuralEquality.BuilderEqualsArray` | SolidSharp/StructuralEqualityComparer.cs:70-71 | the mirror of the array-builder overload |
| `Equations.Code` | SolidSharp/Expressions/ComparisonOperator.cs:8-15 | every operator's byte is one of the six values 0..5 |
| `Equations.CodeInjective` | SolidSharp/Expressions/ComparisonOperator.cs:8-15 | distinct operators have distinct bytes |
| `Equations.Opposite` | SolidSharp/Expressions/SymbolicEquation.cs:18-19 | the operator whose byte is the given one XOR 1 |
| `Equations.OppositeComplements` | SolidSharp/Expressions/ComparisonOperator.cs:5-15 | the opposite operator holds exactly when the original does not; flipping twice is the identity and never a fixpoint |
| `Equations.KindOf` | SolidSharp/Expressions/SymbolicEquation.cs:9 | an equation is an identity; a multiple system has its stored kind |
| `Equations.MakeMultiple` | SolidSharp/Expressions/MultipleSymbolicEquationSystem.cs:13-30 | succeeds exactly for Intersection and Union, keeping the kind and the equations as given; ArgumentOutOfRange otherwise |
| `Equations.MakeEquation` | SolidSharp/Expressions/SymbolicExpression.cs:172-183 | the comparison operators build an identity equation, never a boolean |
| `Equations.Not` | SolidSharp/Expressions/SymbolicEquation.cs:18-19 | `!` keeps both expressions and flips the operator's lowest bit |
| `Equations.And` | SolidSharp/Expressions/SymbolicEquationSystem.cs:11-14 | the result is an intersection, well formed when both systems are |
| `Equations.Or` | SolidSharp/Expressions/SymbolicEquationSystem.cs:16-19 | the result is a union, well formed when both systems are |
| `Equations.EquationMeaning` | SolidSharp/Expressions/SymbolicEquation.cs:11-16 | an equation holds exactly when its operator relates the values of its expressions |
| `Equations.NotComplements` | SolidSharp/Expressions/SymbolicEquation.cs:18-19 | `!e` holds exactly when e does not, and `!!e` is e |
| `Equations.ComparisonPairs` | SolidSharp/Expressions/SymbolicExpression.cs:172-183 | `!(a == b)` is `a != b`, `!(a < b)` is `a >= b`, `!(a > b)` is `a <= b` |
| `Equations.AndMeansBoth` | SolidSharp/Expressions/SymbolicEquationSystem.cs:11-14 | flattening keeps the meaning: And holds exactly when both systems hold |
| `Equations.OrMeansEither` | SolidSharp/Expressions/SymbolicEquationSystem.cs:16-19 | Or holds exactly when one of the systems holds |
| `Equations.AndFlattensOnlyBoth` | SolidSharp/Expressions/SymbolicEquationSystem.cs:14 | an intersection on one side only is nested as it is, on either side |

## Left out

- Floating-point and decimal values are not modelled. This covers `Create(float/double/decimal)`, `NumberExpression.Half`, `Constant(decimal)` and `SymbolicMath.Sqrt`, which is `Pow(x, Half)`. The constants' decimal approximations are kept only as exact integers, for the comparer.
- `NumberCache.SmallIntegerCache.Create`: an unsigned 64-bit value above 2^63 - 1 is `Overflow` in the model. The source stores it in a `decimal`. Every rule reads the payload with `GetValue`, which returns a `long`, so the model keeps the payload to 64 bits.
- The number payload is a 64-bit integer, read through `GetValue`. The `decimal` storage and the `IsInteger` flags of `NumberExpression` are not modelled.
- `NumberExpression` in this revision has no `ToString`. The model renders a number as its decimal integer, the text the root rendering prints for a literal index.
- `GetHashCode` overrides are not modelled: they promise nothing beyond agreeing with equality.
- The geometry layer, the vectors, the interactive console and `DecimalExtensions`/`FixedLengthArray` are not modelled. They only consume the expression API or reinterpret memory.
- The `Unsafe.As` casts in `ReadOnlySpanExtensions` are not modelled. An immutable array is its sequence of elements, and a default array is `None`.
- The operator overloads of `SymbolicExpression` and `SymbolicEquationSystem` have no members of their own:
  - unary `-` and binary `+ - * /` are `Negate`/`Add`/`Subtract`/`Multiply`/`Divide`, and unary `+` is the identity;
  - `&` and `|` are `And` and `Or`;
  - the comparison operators are `MakeEquation` with the matching operator.
  
  Likewise, the integer `Constant` overloads and the implicit conversions are `Create`.
- `Comparer.OrdinalCompare` compares strings by code point. The source compares UTF-16 code units. The two orders differ only for characters beyond the Basic Multilingual Plane.
- `Comparer.Compare`: only the sign of the result is modelled. The contract states the rank ordering; the payload ordering is stated in `Comparer.ComparePayloads`.
- `Int64.CheckedPow`: `MathUtil.Pow` is not part of this model. Its contract is the one its callers rely on.
- `Simplifier.RootOf`, `Simplifier.AbsOf` and `Visitor.UpdateUnary` are reconstructed: `SymbolicMath.Root`, `SymbolicMath.Abs` and `UnaryOperationExpression.Update` are not part of this model. They are built like `SymbolicMath.Pow` and `BinaryOperationExpression.Update`.
- Reference identity is modelled as value equality:
  - `Update` tests its operands by reference;
  - the array visit tests each element by reference;
  - `VariadicOperationExpression` does not override `Equals(object)`, so a variadic node found inside another node is compared by reference.

  The model's value equality agrees with these tests on every tree that is built once and not copied.
- `Visit(null)` returning `null` is not modelled: an `Expr` is never null.
- `SimplifierFacts.DivideNumbers`: the fraction is in lowest terms only when the magnitudes share fewer than 32 factors of two. Beyond that the source's gcd can be smaller than the greatest common divisor, and the fraction stays partly reduced (`SimplifierFacts.FractionKeptAsWritten`).
- `SimplifierFacts.LowestTerms`: coprime quotients are promised only when fewer than 32 factors of two are shared, for the same reason.
- `Simplifier.TryMergePowerMultiplication`: the merged product keeps the value only for bases of two or more. For a negative base the source drops a negative remaining factor (`SimplifierFacts.MergeNegativeBaseAsWritten`).
- Fuel has no counterpart in the source. Every rewrite property is stated for a fuel large enough to reach the step it describes. A run that exhausts the fuel ends in `OutOfFuel`, which stands for the source's unbounded recursion.
- Equation satisfaction (`Equations.Satisfied`) is a meaning the model gives to systems, with expressions evaluated to integers. The source defines no evaluation.
- The enumerable constructor of `MultipleSymbolicEquationSystem` is `MakeMultiple` over the materialised sequence.
- `SpanExtensions.Builder.Add`: the growth policy of the immutable-array builder (the .NET base library) is reconstructed: double when full, or grow by one where doubling would leave the int range. The count is bounded by the int range.
- Rules asserted only by tests are not modelled: ln/exp cancellation, radical factoring, trigonometric tables beyond sin 0 and sin π, negative-base powers, integer parts of fractions, and 𝑖·𝑖.
- `Simplifier.TrySimplifyAddition` keeps the source's dead branch at `ExpressionSimplifier.cs:113` as written. `b.IsAddition()` was already handled at line 95, so x + (y - z) is never rewritten into x + y - z.
- `Comparer.UnwrapFactors` and `Simplifier.DistributeDivision` follow the source's node flags as written. A binary node reports `IsBinaryOperation` false, so the comparer never unwraps a factor, and the division rule always takes its operand-array branch. `SimplifierFacts.DistributeBranchesAgree` shows that the dead binary branch would give the same result.

## Findings

The engine follows the source as written for the first two rows: the fraction rule reduces by `Gcd(ulong, ulong)` with its 32-bit shift, and the power merge keeps the remaining factor only when it is above one. The corrected members are stated beside the engine, with the intended property proved about them. For the third row the substitution visitor runs on the corrected array walk, since the walk as written fails on every substitution that changes something.

| source | as written | input that shows it | evidently intended | confidence | as-written member | corrected member |
|---|---|---|---|---|---|---|
| SolidSharp/MathUtil.cs:24 | `a * (1u << d)` shifts a 32-bit one, so the shift count is taken modulo 32 | Gcd(2^32, 2^33) returns 1 | the full-width product `a << d`, here 2^32 | high; not executed | `MathUtil.GcdShiftTruncation` | `MathUtil.BinaryGcdCorrected` |
| SolidSharp/Expressions/ExpressionSimplifier.cs:316 | the remaining factor is kept only when it is above one | 8·(-2)^t: one division leaves -4, and the result is (-2)^(1+t), which is -2·(-2)^t | keep the factor whenever it is not one: (-4)·(-2)^(1+t) | medium; not executed | `PowerMerging.NegativeBaseDropsFactor` | `PowerMerging.MergeKeepsValue` |
| SolidSharp/Expressions/ExpressionVisitor.cs:26-28 | the builder receives the first i elements, then `builder[i]` is written one past its count | substituting 1 for x in the operands [x, y, z] throws IndexOutOfRange | every element copied, the changed one replaced: [1, y, z] | high; not executed | `Visitor.AsWrittenFailsOnSubstitution` | `Visitor.VisitArray` |
