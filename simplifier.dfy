// The rewrite engine: the smart constructors of SymbolicExpression and
// SymbolicMath, and the rules of ExpressionSimplifier they consult.
//
// Each rule answers `Ok(Some(e))` with a rewrite, `Ok(None)` when no rule
// applies (the source's null), or `Err` for an exception. Each constructor
// returns the rule's rewrite or else the raw node. The rules call the
// constructors again, so the whole group is mutually recursive without a
// structural measure; every rule spends one unit of `fuel` before it calls a
// constructor, and a rule reached with no fuel left answers OutOfFuel.
// Within one fuel value, calls go from a higher `level` to a lower one:
// constructors 9, the n-ary rule 8, its loop 7, its step 6, the pairwise
// rule of a variadic operator 5, pairwise rules 4, their parts 3 to 1.
module Simplifier {
  import opened Results
  import opened Expressions
  import Int64
  import MathUtil
  import PowerMerging
  import Reduction

  // ---- Small helpers ----

  /** The implicit conversion of a 64-bit integer: NumberExpression.Create. */
  function N(v: int): Expr { Number(v) }

  const Zero: Expr := Number(0)
  const One: Expr := Number(1)

  /** A constructor's result as a rule's rewrite. */
  function Just(r: Result<Expr>): (s: Result<Option<Expr>>)
    ensures s.Ok? <==> r.Ok?
    ensures s.Ok? ==> s.value == Some(r.value)
    ensures s.Err? ==> s.error == r.error
  {
    match r
    case Ok(e) => Ok(Some(e))
    case Err(x) => Err(x)
  }

  /** A checked integer result as a rewrite to that number. */
  function Folded(r: Result<int>): (s: Result<Option<Expr>>)
    ensures s.Ok? <==> r.Ok?
    ensures s.Ok? ==> s.value == Some(Number(r.value))
    ensures s.Err? ==> s.error == r.error
  {
    match r
    case Ok(v) => Ok(Some(Number(v)))
    case Err(x) => Err(x)
  }

  /** A rewrite, when there is one, is canonical. */
  predicate CanonicalRewrite(r: Result<Option<Expr>>)
  {
    r.Ok? && r.value.Some? ==> Canonical(r.value.value)
  }

  predicate CanonicalResult(r: Result<Expr>)
  {
    r.Ok? ==> Canonical(r.value)
  }

  predicate AllCanonical(xs: seq<Expr>)
  {
    forall x :: x in xs ==> Canonical(x)
  }

  /** The operands of a canonical node are canonical. */
  lemma OperandsCanonical(a: Expr)
    ensures (a.Binary? || a.Variadic?) && Canonical(a) ==> AllCanonical(Operands(a))
  {
  }

  /** Joining canonical operand lists keeps them canonical. */
  lemma JoinCanonical(xs: seq<Expr>, ys: seq<Expr>)
    ensures AllCanonical(xs) && AllCanonical(ys) ==> AllCanonical(xs + ys)
  {
  }

  /** The stable sort of the n-ary rules, by rank. */
  function SortByRank(operands: seq<Expr>): (r: seq<Expr>)
    ensures |r| == |operands|
    ensures RankOrdered(r)
    ensures multiset(r) == multiset(operands)
    ensures forall x :: x in r ==> x in operands
  {
    Reduction.SortByKeySortsAndPermutes(operands, Rank, 9);
    var r := Reduction.SortByKey(operands, Rank, 9);
    assert |r| == |multiset(r)|;
    assert forall x :: x in r ==> x in multiset(r);
    r
  }

  // ---- Smart constructors (SymbolicExpression, SymbolicMath) ----

  function Negate(fuel: nat, e: Expr): (r: Result<Expr>)
    ensures Canonical(e) ==> CanonicalResult(r)
    decreases fuel, 9
  {
    var s :- TrySimplifyNegation(fuel, e);
    Ok(if s.Some? then s.value else Unary(Minus, e))
  }

  function Add(fuel: nat, a: Expr, b: Expr): (r: Result<Expr>)
    ensures Canonical(a) && Canonical(b) ==> CanonicalResult(r)
    decreases fuel, 9
  {
    var s :- TrySimplifyAddition(fuel, a, b);
    Ok(if s.Some? then s.value else Binary(Addition, a, b))
  }

  function Subtract(fuel: nat, a: Expr, b: Expr): (r: Result<Expr>)
    ensures Canonical(a) && Canonical(b) ==> CanonicalResult(r)
    decreases fuel, 9
  {
    var s :- TrySimplifySubtraction(fuel, a, b);
    Ok(if s.Some? then s.value else Binary(Subtraction, a, b))
  }

  function Multiply(fuel: nat, a: Expr, b: Expr): (r: Result<Expr>)
    ensures Canonical(a) && Canonical(b) ==> CanonicalResult(r)
    decreases fuel, 9
  {
    var s :- TrySimplifyMultiplication(fuel, a, b);
    Ok(if s.Some? then s.value else Binary(Multiplication, a, b))
  }

  /** Add and Multiply over an operand array: the n-ary rule's rewrite, or
    * else a raw variadic node. */
  function Combine(fuel: nat, op: VariadicOperator, operands: seq<Expr>): (r: Result<Expr>)
    ensures AllCanonical(operands) ==> CanonicalResult(r)
    decreases fuel, 9
  {
    var s :- TrySimplifyVariadic(fuel, op, operands);
    if s.Some? then Ok(s.value)
    else
      assert forall x :: x in operands ==> !SameOperator(op, x);
      Ok(Variadic(op, operands))
  }

  function Divide(fuel: nat, a: Expr, b: Expr): (r: Result<Expr>)
    ensures Canonical(a) && Canonical(b) ==> CanonicalResult(r)
    decreases fuel, 9
  {
    var s :- TrySimplifyDivision(fuel, a, b);
    Ok(if s.Some? then s.value else Binary(Division, a, b))
  }

  /** SymbolicMath.Pow. */
  function Pow(fuel: nat, x: Expr, y: Expr): (r: Result<Expr>)
    ensures Canonical(x) && Canonical(y) ==> CanonicalResult(r)
    decreases fuel, 9
  {
    var s :- TrySimplifyPower(fuel, x, y);
    Ok(if s.Some? then s.value else Binary(Power, x, y))
  }

  /** The root constructor the rules use, built like Pow. */
  function RootOf(fuel: nat, x: Expr, index: Expr): (r: Result<Expr>)
    ensures Canonical(x) && Canonical(index) ==> CanonicalResult(r)
    decreases fuel, 9
  {
    var s :- TrySimplifyRoot(fuel, x, index);
    Ok(if s.Some? then s.value else Binary(Root, x, index))
  }

  /** The absolute-value constructor the rules use, built like Pow. */
  function AbsOf(fuel: nat, x: Expr): (r: Result<Expr>)
    ensures Canonical(x) ==> CanonicalResult(r)
    decreases fuel, 9
  {
    var s :- TrySimplifyAbs(fuel, x);
    Ok(if s.Some? then s.value else Unary(Abs, x))
  }

  // ---- Rules ----

  function TrySimplifyNegation(fuel: nat, e: Expr): (r: Result<Option<Expr>>)
    ensures Canonical(e) ==> CanonicalRewrite(r)
    decreases fuel, 4
  {
    if fuel == 0 then Err(OutOfFuel)
    else if IsNegation(e) then Ok(Some(e.operand))
    else if IsNumber(e) then Folded(Int64.CheckedNeg(e.value))
    else if IsSubtraction(e) then Just(Subtract(fuel - 1, e.second, e.first))
    else Ok(None)
  }

  /** The pairwise addition rule. It finds no rule only for a pair already
    * in rank order, neither of them an addition. */
  function TrySimplifyAddition(fuel: nat, a: Expr, b: Expr): (r: Result<Option<Expr>>)
    ensures r == Ok(None) ==> Rank(a) <= Rank(b) && !IsAddition(a) && !IsAddition(b)
    ensures Canonical(a) && Canonical(b) ==> CanonicalRewrite(r)
    decreases fuel, 4
  {
    if fuel == 0 then Err(OutOfFuel)
    else if IsZero(a) then Ok(Some(b))
    else if IsZero(b) then Ok(Some(a))
    else if Kind(a) == Kind(b) && a == b then Just(Multiply(fuel - 1, N(2), a))
    else if Kind(a) == Kind(b) && IsNumber(a) then Folded(Int64.CheckedAdd(a.value, b.value))
    else if IsNegation(a) && IsNegation(b) then
      var s :- Add(fuel - 1, a.operand, b.operand);
      Just(Negate(fuel - 1, s))
    else if IsNegation(a) then Just(Subtract(fuel - 1, b, a.operand))
    else if IsNegation(b) then Just(Subtract(fuel - 1, a, b.operand))
    else if IsAddition(a) && IsAddition(b) then
      OperandsCanonical(a); OperandsCanonical(b); JoinCanonical(Operands(a), Operands(b));
      Just(Combine(fuel - 1, Sum, Operands(a) + Operands(b)))
    else if IsAddition(a) then
      OperandsCanonical(a); JoinCanonical(Operands(a), [b]);
      Just(Combine(fuel - 1, Sum, Operands(a) + [b]))
    else if IsAddition(b) then
      OperandsCanonical(b); JoinCanonical([a], Operands(b));
      Just(Combine(fuel - 1, Sum, [a] + Operands(b)))
    else if IsSubtraction(a) && IsSubtraction(b) then
      var x :- Add(fuel - 1, a.first, b.first);
      var y :- Add(fuel - 1, a.second, b.second);
      Just(Subtract(fuel - 1, x, y))
    else if IsSubtraction(a) then
      var x :- Add(fuel - 1, a.first, b);
      Just(Subtract(fuel - 1, x, a.second))
    // The source tests `b` for an addition once more at this point; that
    // test already failed above, so the branch it guards never runs.
    else if Rank(a) > Rank(b) then Ok(Some(Binary(Addition, b, a)))
    else Ok(None)
  }

  /** The binary operator of the operation a variadic operator repeats. */
  function PairOperator(op: VariadicOperator): BinaryOperator
  {
    if op == Sum then Addition else Multiplication
  }

  /** The pairwise rule of a variadic operator. */
  function PairRule(fuel: nat, op: VariadicOperator, a: Expr, b: Expr): (r: Result<Option<Expr>>)
    ensures r == Ok(None) ==> Rank(a) <= Rank(b) && !SameOperator(op, a) && !SameOperator(op, b)
    ensures Canonical(a) && Canonical(b) ==> CanonicalRewrite(r)
    decreases fuel, 5
  {
    if op == Sum then TrySimplifyAddition(fuel, a, b) else TrySimplifyMultiplication(fuel, a, b)
  }

  /** The pairwise rule as the step of the n-ary rule's loop. */
  function StepOf(fuel: nat, op: VariadicOperator): (Expr, Expr) -> Result<Option<Expr>>
    decreases fuel, 6
  {
    (x, y) => PairRule(fuel, op, x, y)
  }

  /** The n-ary addition and multiplication rules: fewer than two operands
    * are refused, two go to the binary constructor, more are sorted by rank
    * and their adjacent pairs settled. No rule is found only for three or
    * more operands that are already rank-ordered and flat. */
  function TrySimplifyVariadic(fuel: nat, op: VariadicOperator, operands: seq<Expr>): (r: Result<Option<Expr>>)
    ensures fuel > 0 && |operands| < 2 ==> r == Err(ArgumentInvalid)
    ensures r == Ok(None) ==> |operands| >= 3 && RankOrdered(operands)
    ensures r == Ok(None) ==> forall x :: x in operands ==> !SameOperator(op, x)
    ensures AllCanonical(operands) ==> CanonicalRewrite(r)
    decreases fuel, 8
  {
    if fuel == 0 then Err(OutOfFuel)
    else if |operands| < 2 then Err(ArgumentInvalid)
    else if |operands| == 2 then
      assert AllCanonical(operands) ==> Canonical(operands[0]) && Canonical(operands[1]) by {
        assert operands[0] in operands && operands[1] in operands;
      }
      Just(if op == Sum then Add(fuel - 1, operands[0], operands[1])
           else Multiply(fuel - 1, operands[0], operands[1]))
    else
      var sorted := SortByRank(operands);
      assert AllCanonical(operands) ==> AllCanonical(sorted);
      var b :- Settle(fuel, op, sorted);
      var c := Collapse(op, operands, b);
      assert c.None? ==> b == operands && |operands| >= 3;
      Ok(c)
  }

  /** The do-while loop of the n-ary rule over the sorted operands. What it
    * leaves is in rank order and, with two or more operands left, holds no
    * operand the pairwise rule would flatten. */
  function Settle(fuel: nat, op: VariadicOperator, sorted: seq<Expr>): (r: Result<seq<Expr>>)
    requires fuel > 0 && |sorted| >= 1
    ensures r.Ok? ==> 1 <= |r.value| <= |sorted| && RankOrdered(r.value)
    ensures r.Ok? && |r.value| == |sorted| ==> r.value == sorted
    ensures r.Ok? && |r.value| >= 2 ==> forall x :: x in r.value ==> !SameOperator(op, x)
    ensures r.Ok? && AllCanonical(sorted) ==> AllCanonical(r.value)
    decreases fuel, 7
  {
    var step := StepOf(fuel - 1, op);
    Reduction.ReduceSettles(step, sorted, 1);
    Reduction.ReducePreserves(step, Canonical, sorted, 1);
    var r := Reduction.Reduce(step, sorted, 1);
    if r.Ok? && |r.value| >= 2 then
      Reduction.SettledPairs(step, (x, y) => Rank(x) <= Rank(y), r.value);
      Reduction.SettledElements(step, x => !SameOperator(op, x), r.value);
      r
    else r
  }

  /** What the n-ary rule returns once the loop has settled: the single
    * operand left, a binary node of the two left, a variadic node of the
    * operands left when they differ from the input, or no rule. */
  function Collapse(op: VariadicOperator, operands: seq<Expr>, b: seq<Expr>): (r: Option<Expr>)
    requires 1 <= |b| && RankOrdered(b)
    requires |b| >= 2 ==> forall x :: x in b ==> !SameOperator(op, x)
    ensures r.None? ==> b == operands && |b| >= 3
    ensures r.Some? && AllCanonical(b) ==> Canonical(r.value)
  {
    if |b| == 1 then Some(b[0])
    else if |b| == 2 then Some(Binary(PairOperator(op), b[0], b[1]))
    else if b != operands then Some(Variadic(op, b))
    else None
  }

  function TrySimplifySubtraction(fuel: nat, a: Expr, b: Expr): (r: Result<Option<Expr>>)
    ensures Canonical(a) && Canonical(b) ==> CanonicalRewrite(r)
    decreases fuel, 4
  {
    if fuel == 0 then Err(OutOfFuel)
    else if IsZero(a) then Just(Negate(fuel - 1, b))
    else if IsZero(b) then Ok(Some(a))
    else if Kind(a) == Kind(b) && a == b then Ok(Some(Zero))
    else if Kind(a) == Kind(b) && IsNumber(a) then Folded(Int64.CheckedSub(a.value, b.value))
    else if IsSubtraction(a) then
      var s :- Add(fuel - 1, a.second, b);
      Just(Subtract(fuel - 1, a.first, s))
    else if IsNegation(a) then
      Just(Subtract(fuel - 1, if IsNegation(b) then b.operand else b, a.operand))
    else if IsNegation(b) then Just(Add(fuel - 1, a, b.operand))
    else Ok(None)
  }

  /** The pairwise multiplication rule. It finds no rule only for a pair
    * already in rank order, neither of them a multiplication. */
  function TrySimplifyMultiplication(fuel: nat, a: Expr, b: Expr): (r: Result<Option<Expr>>)
    ensures r == Ok(None) ==> Rank(a) <= Rank(b) && !IsMultiplication(a) && !IsMultiplication(b)
    ensures Canonical(a) && Canonical(b) ==> CanonicalRewrite(r)
    decreases fuel, 4
  {
    if fuel == 0 then Err(OutOfFuel)
    else if IsZero(a) || IsZero(b) then Ok(Some(Zero))
    else if IsOne(a) then Ok(Some(b))
    else if IsMinusOne(a) then Just(Negate(fuel - 1, b))
    else if IsOne(b) then Ok(Some(a))
    else if IsMinusOne(b) then Just(Negate(fuel - 1, a))
    else if Kind(a) == Kind(b) && IsNumber(a) then Folded(Int64.CheckedMul(a.value, b.value))
    else if Kind(a) == Kind(b) && a == b then Just(Pow(fuel - 1, a, N(2)))
    else
      var merged :- MergePowers(fuel, a, b);
      if merged.Some? then Ok(merged) else MergeFactors(fuel, a, b)
  }

  /** The power-merging part of the multiplication rule. */
  function MergePowers(fuel: nat, a: Expr, b: Expr): (r: Result<Option<Expr>>)
    requires fuel > 0
    ensures Canonical(a) && Canonical(b) ==> CanonicalRewrite(r)
    decreases fuel, 3
  {
    if IsPower(a) && IsPower(b) then
      if a.first == b.first then
        var e :- Add(fuel - 1, a.second, b.second);
        Just(Pow(fuel - 1, a.first, e))
      else Ok(None)
    else if IsPower(a) then TryMergePowerMultiplication(fuel, b, a)
    else if IsPower(b) then TryMergePowerMultiplication(fuel, a, b)
    else Ok(None)
  }

  /** The division-merging, multiplication-merging and ordering part of the
    * multiplication rule. */
  function MergeFactors(fuel: nat, a: Expr, b: Expr): (r: Result<Option<Expr>>)
    requires fuel > 0
    ensures r == Ok(None) ==> Rank(a) <= Rank(b) && !IsMultiplication(a) && !IsMultiplication(b)
    ensures Canonical(a) && Canonical(b) ==> CanonicalRewrite(r)
    decreases fuel, 3
  {
    if IsDivision(a) && IsDivision(b) then
      var x :- Multiply(fuel - 1, a.first, b.first);
      var y :- Multiply(fuel - 1, a.second, b.second);
      Just(Divide(fuel - 1, x, y))
    else if IsDivision(a) then
      var x :- Multiply(fuel - 1, a.first, b);
      Just(Divide(fuel - 1, x, a.second))
    else if IsDivision(b) then
      var x :- Multiply(fuel - 1, a, b.first);
      Just(Divide(fuel - 1, x, b.second))
    else if IsMultiplication(a) && IsMultiplication(b) then
      OperandsCanonical(a); OperandsCanonical(b); JoinCanonical(Operands(a), Operands(b));
      Just(Combine(fuel - 1, Product, Operands(a) + Operands(b)))
    else if IsMultiplication(a) then
      OperandsCanonical(a); JoinCanonical(Operands(a), [b]);
      Just(Combine(fuel - 1, Product, Operands(a) + [b]))
    else if IsMultiplication(b) then
      OperandsCanonical(b); JoinCanonical([a], Operands(b));
      Just(Combine(fuel - 1, Product, [a] + Operands(b)))
    else if Rank(a) > Rank(b) then Ok(Some(Binary(Multiplication, b, a)))
    else Ok(None)
  }

  /** A number times a power of a number: divide the number by the base as
    * often as it goes, and move the count into the exponent. */
  function TryMergePowerMultiplication(fuel: nat, x: Expr, power: Expr): (r: Result<Option<Expr>>)
    requires fuel > 0 && power.Binary?
    ensures Canonical(x) && Canonical(power) ==> CanonicalRewrite(r)
    decreases fuel, 2
  {
    if IsNumber(x) && IsNumber(power.first) then
      var d :- PowerMerging.DivideOut(x.value, power.first.value);
      var rest, n := d.0, d.1;
      if n > 0 then
        var e :- Add(fuel - 1, N(n), power.second);
        var pe :- Pow(fuel - 1, power.first, e);
        if PowerMerging.KeepsFactorAsWritten(rest) then Just(Multiply(fuel - 1, N(rest), pe))
        else Ok(Some(pe))
      else Ok(None)
    else Ok(None)
  }

  /** The division rule. A literal zero divisor fails before anything else. */
  function TrySimplifyDivision(fuel: nat, a: Expr, b: Expr): (r: Result<Option<Expr>>)
    ensures fuel > 0 && IsZero(b) ==> r == Err(DivideByZero)
    ensures Canonical(a) && Canonical(b) ==> CanonicalRewrite(r)
    decreases fuel, 4
  {
    if fuel == 0 then Err(OutOfFuel)
    else if IsZero(b) then Err(DivideByZero)
    else if b == One then Ok(Some(a))
    else if Kind(a) == Kind(b) then
      if IsConstant(a) && a == b then Ok(Some(One))
      else if IsNumber(a) then
        var f :- TrySimplifyFraction(fuel, a.value, b.value);
        if f.Some? then Ok(f) else DividePowers(fuel, a, b)
      else DividePowers(fuel, a, b)
    else if IsZero(a) && IsConstant(b) then Ok(Some(Zero))
    else DividePowers(fuel, a, b)
  }

  /** The power, division-merging and distribution parts of the division
    * rule. */
  function DividePowers(fuel: nat, a: Expr, b: Expr): (r: Result<Option<Expr>>)
    requires fuel > 0
    ensures Canonical(a) && Canonical(b) ==> CanonicalRewrite(r)
    decreases fuel, 3
  {
    if IsPower(a) && IsPower(b) then
      if a.first == b.first then
        var e :- Subtract(fuel - 1, a.second, b.second);
        Just(Pow(fuel - 1, a.first, e))
      else MergeQuotients(fuel, a, b)
    else if IsPower(a) then MergeQuotients(fuel, a, b)
    else if IsPower(b) then
      var folded :- FoldPowerDivisor(fuel, a, b);
      if folded.Some? then Ok(folded)
      else
        var ne :- Negate(fuel - 1, b.second);
        var p :- Pow(fuel - 1, b.first, ne);
        Just(Multiply(fuel - 1, a, p))
    else MergeQuotients(fuel, a, b)
  }

  /** A number over a literal power: evaluate the power and reduce the
    * fraction. Overflow anywhere in this attempt only abandons it. */
  function FoldPowerDivisor(fuel: nat, a: Expr, b: Expr): (r: Result<Option<Expr>>)
    requires fuel > 0 && b.Binary?
    ensures r.Err? ==> r.error != Overflow
    ensures Canonical(a) && Canonical(b) ==> CanonicalRewrite(r)
    decreases fuel, 2
  {
    if IsNumber(a) && IsNumber(b.first) && IsNumber(b.second) then
      match Int64.CheckedPow(b.first.value, b.second.value)
      case Err(_) => Ok(None)
      case Ok(v) =>
        var f := TrySimplifyFraction(fuel, a.value, v);
        if f == Err(Overflow) then Ok(None) else f
    else Ok(None)
  }

  /** The division-merging and distribution parts of the division rule. */
  function MergeQuotients(fuel: nat, a: Expr, b: Expr): (r: Result<Option<Expr>>)
    requires fuel > 0
    ensures Canonical(a) && Canonical(b) ==> CanonicalRewrite(r)
    decreases fuel, 2
  {
    if IsDivision(a) && IsDivision(b) then
      var x :- Multiply(fuel - 1, a.first, b.second);
      var y :- Multiply(fuel - 1, a.second, b.first);
      Just(Divide(fuel - 1, x, y))
    else if IsDivision(a) then
      var y :- Multiply(fuel - 1, a.second, b);
      Just(Divide(fuel - 1, a.first, y))
    else if IsDivision(b) then
      var x :- Multiply(fuel - 1, a, b.second);
      Just(Divide(fuel - 1, x, b.first))
    else if IsMultiplication(a) then DistributeDivision(fuel, a, b)
    else Ok(None)
  }

  /** Divides every factor of a product that the division rule rewrites.
    * The source's separate branch for a binary product is never taken,
    * because a binary node does not report itself as a binary operation;
    * the operand-array branch runs for every product. */
  function DistributeDivision(fuel: nat, a: Expr, b: Expr): (r: Result<Option<Expr>>)
    requires fuel > 0 && IsMultiplication(a)
    ensures Canonical(a) && Canonical(b) ==> CanonicalRewrite(r)
    decreases fuel, 1
  {
    var xs := Operands(a);
    var rule := DivideBy(fuel - 1, b);
    var w :- Reduction.RewriteEach(rule, xs);
    assert Canonical(a) && Canonical(b) ==> AllCanonical(w.0) by {
      if Canonical(a) && Canonical(b) {
        forall k | 0 <= k < |xs|
          ensures Canonical(w.0[k])
        {
          assert xs[k] in xs;
          assert rule(xs[k]) == TrySimplifyDivision(fuel - 1, xs[k], b);
        }
      }
    }
    if w.1 then Just(Combine(fuel - 1, Product, w.0)) else Ok(None)
  }

  /** The division rule with a fixed divisor, as the rule of the walk over
    * a product's factors. */
  function DivideBy(fuel: nat, b: Expr): Expr -> Result<Option<Expr>>
    decreases fuel, 5
  {
    x => TrySimplifyDivision(fuel, x, b)
  }

  /** The numeric fraction v1 / v2 divided through by the gcd the source
    * computes, when that gcd exceeds one. */
  function TrySimplifyFraction(fuel: nat, v1: int, v2: int): (r: Result<Option<Expr>>)
    requires fuel > 0
    ensures v1 == 0 ==> r == Ok(Some(Zero))
    ensures v1 != 0 && v1 == v2 ==> r == Ok(Some(One))
    ensures Int64.InLong(v1) && Int64.InLong(v2) ==> CanonicalRewrite(r)
    decreases fuel, 1
  {
    if v1 == 0 then Ok(Some(Zero))
    else if v1 == v2 then Ok(Some(One))
    else
      var g :- MathUtil.LongGcd(v1, v2);
      if g > Int64.MaxLong then Err(Overflow)
      else if g > 1 then
        var q1, q2 := Int64.TruncDiv(v1, g), Int64.TruncDiv(v2, g);
        assert Int64.InLong(v1) && Int64.InLong(v2) ==> Int64.InLong(q1) && Int64.InLong(q2) by {
          if Int64.InLong(v1) && Int64.InLong(v2) {
            Int64.TruncDivInLong(v1, g);
            Int64.TruncDivInLong(v2, g);
          }
        }
        Just(Divide(fuel - 1, N(q1), N(q2)))
      else Ok(None)
  }

  function TrySimplifyPower(fuel: nat, a: Expr, b: Expr): (r: Result<Option<Expr>>)
    ensures Canonical(a) && Canonical(b) ==> CanonicalRewrite(r)
    decreases fuel, 4
  {
    if fuel == 0 then Err(OutOfFuel)
    else
      var byLiteral :- if IsNumber(b) then PowerByLiteral(fuel, a, b) else Ok(None);
      if byLiteral.Some? then Ok(byLiteral)
      else if IsPower(a) then
        var e :- Multiply(fuel - 1, a.second, b);
        Just(Pow(fuel - 1, a.first, e))
      else Ok(None)
  }

  /** The power rules for a literal exponent. */
  function PowerByLiteral(fuel: nat, a: Expr, b: Expr): (r: Result<Option<Expr>>)
    requires fuel > 0 && b.Number?
    ensures Canonical(a) && Canonical(b) ==> CanonicalRewrite(r)
    decreases fuel, 3
  {
    var nb := b.value;
    if nb == 0 then
      if IsNumber(a) && !IsZero(a) then Ok(Some(One)) else Ok(None)
    else if nb == 1 then Ok(Some(a))
    else if IsAbsoluteValue(a) && nb % 2 == 0 then Just(Pow(fuel - 1, a.operand, b))
    else if IsNumber(a) then
      match Int64.CheckedPow(a.value, nb)
      case Ok(v) => Ok(Some(N(v)))
      case Err(_) => Ok(None)
    else if IsRoot(a) && IsNumber(a.second) && a.second.value == nb then Ok(Some(a.first))
    else Ok(None)
  }

  function TrySimplifyRoot(fuel: nat, a: Expr, b: Expr): (r: Result<Option<Expr>>)
    ensures Canonical(a) && Canonical(b) ==> CanonicalRewrite(r)
    decreases fuel, 4
  {
    if fuel == 0 then Err(OutOfFuel)
    else
      var byLiteral :- if IsNumber(b) then RootByLiteral(fuel, a, b.value) else Ok(None);
      if byLiteral.Some? then Ok(byLiteral)
      else if IsRoot(a) then
        var i :- Multiply(fuel - 1, a.second, b);
        Just(RootOf(fuel - 1, a.first, i))
      else Ok(None)
  }

  /** The root rules for a literal index. */
  function RootByLiteral(fuel: nat, a: Expr, nb: int): (r: Result<Option<Expr>>)
    requires fuel > 0
    ensures Canonical(a) ==> CanonicalRewrite(r)
    decreases fuel, 3
  {
    if nb == 1 then Ok(Some(a))
    else if IsPower(a) && IsNumber(a.second) && a.second.value == nb then
      if nb % 2 != 0 then Ok(Some(a.first)) else Just(AbsOf(fuel - 1, a.first))
    else Ok(None)
  }

  function TrySimplifyAbs(fuel: nat, x: Expr): (r: Result<Option<Expr>>)
    ensures Canonical(x) ==> CanonicalRewrite(r)
    decreases fuel, 4
  {
    if fuel == 0 then Err(OutOfFuel)
    else if IsNumber(x) then
      if IsNegativeNumber(x) then Just(Negate(fuel - 1, x)) else Ok(Some(x))
    else if IsPower(x) && IsEvenNumber(x.second) then Ok(Some(x))
    else Ok(None)
  }

  /** The sine rule: sin 0 = sin π = 0. No constructor consults it. */
  function TrySimplifySin(x: Expr): (r: Option<Expr>)
    ensures r.Some? <==> IsZero(x) || x == Constant(Pi)
    ensures r.Some? ==> r.value == Zero
  {
    if IsZero(x) || x == Constant(Pi) then Some(Zero) else None
  }

  // ---- The rest of SymbolicMath ----

  const PiConstant: Expr := Constant(Pi)
  const EConstant: Expr := Constant(E)

  /** Sin, Cos and Ln build raw nodes without consulting any rule. */
  function SinOf(x: Expr): (r: Expr)
    ensures r.Unary? && r.uop == Sin && r.operand == x
    ensures Canonical(x) ==> Canonical(r)
  {
    Unary(Sin, x)
  }

  function CosOf(x: Expr): (r: Expr)
    ensures r.Unary? && r.uop == Cos && r.operand == x
    ensures Canonical(x) ==> Canonical(r)
  {
    Unary(Cos, x)
  }

  function LnOf(x: Expr): (r: Expr)
    ensures r.Unary? && r.uop == Ln && r.operand == x
    ensures Canonical(x) ==> Canonical(r)
  {
    Unary(Ln, x)
  }

  /** Exp is the power of 𝑒, so the power rules apply to it. */
  function ExpOf(fuel: nat, x: Expr): (r: Result<Expr>)
    ensures Canonical(x) ==> CanonicalResult(r)
  {
    Pow(fuel, EConstant, x)
  }
}
