// What the rewrite engine promises, stated over whole constructor calls:
// constant folding, the identities each rule implements, the rank order of
// raw commutative nodes, and the failure cases.
module SimplifierFacts {
  import opened Results
  import opened Expressions
  import opened Simplifier
  import Int64
  import MathUtil
  import PowerMerging
  import Reduction

  // ---- Negation ----

  /** Negating a number is checked negation: only the most negative 64-bit
    * value overflows. */
  lemma NegateNumber(fuel: nat, v: int)
    requires fuel >= 1 && Int64.InLong(v)
    ensures Negate(fuel, N(v)) == if Int64.InLong(-v) then Ok(N(-v)) else Err(Overflow)
    ensures v == Int64.MinLong ==> Negate(fuel, N(v)) == Err(Overflow)
  {
  }

  /** −(−x) is x itself. */
  lemma NegateNegation(fuel: nat, x: Expr)
    requires fuel >= 1
    ensures Negate(fuel, Unary(Minus, x)) == Ok(x)
  {
  }

  /** −(a − b) is b − a. */
  lemma NegateSubtraction(fuel: nat, a: Expr, b: Expr)
    requires fuel >= 1
    ensures Negate(fuel, Binary(Subtraction, a, b)) == Subtract(fuel - 1, b, a)
  {
    assert TrySimplifyNegation(fuel, Binary(Subtraction, a, b)) == Just(Subtract(fuel - 1, b, a));
  }

  /** Negating twice gives back anything that is neither a negation nor a
    * subtraction, numbers included as long as the negation does not
    * overflow. */
  lemma {:induction false} NegateTwice(fuel: nat, e: Expr)
    requires fuel >= 1 && !IsNegation(e) && !IsSubtraction(e)
    requires IsNumber(e) ==> Int64.InLong(e.value) && Int64.InLong(-e.value)
    ensures Negate(fuel, e).Ok? && Negate(fuel, Negate(fuel, e).value) == Ok(e)
  {
    if IsNumber(e) {
      NegateNumber(fuel, e.value);
      NegateNumber(fuel, -e.value);
    } else {
      assert Negate(fuel, e) == Ok(Unary(Minus, e));
      NegateNegation(fuel, e);
    }
  }

  // ---- Constant folding ----

  /** Adding two numbers is checked addition, whichever rule fires: zero,
    * doubling, or the direct sum. */
  lemma {:induction false} AddNumbers(fuel: nat, x: int, y: int)
    requires fuel >= 3 && Int64.InLong(x) && Int64.InLong(y)
    ensures Add(fuel, N(x), N(y)) == if Int64.InLong(x + y) then Ok(N(x + y)) else Err(Overflow)
  {
    if x != 0 && y != 0 && x == y {
      MultiplyNumbers(fuel - 1, 2, x);
      assert TrySimplifyAddition(fuel, N(x), N(y)) == Just(Multiply(fuel - 1, N(2), N(x)));
    }
  }

  /** Subtracting two numbers is checked subtraction. */
  lemma {:induction false} SubtractNumbers(fuel: nat, x: int, y: int)
    requires fuel >= 2 && Int64.InLong(x) && Int64.InLong(y)
    ensures Subtract(fuel, N(x), N(y)) == if Int64.InLong(x - y) then Ok(N(x - y)) else Err(Overflow)
  {
    if x == 0 {
      NegateNumber(fuel - 1, y);
      assert TrySimplifySubtraction(fuel, N(x), N(y)) == Just(Negate(fuel - 1, N(y)));
    }
  }

  /** Multiplying two numbers is checked multiplication, whichever rule
    * fires: zero, one, minus one, or the direct product. */
  lemma {:induction false} MultiplyNumbers(fuel: nat, x: int, y: int)
    requires fuel >= 2 && Int64.InLong(x) && Int64.InLong(y)
    ensures Multiply(fuel, N(x), N(y)) == if Int64.InLong(x * y) then Ok(N(x * y)) else Err(Overflow)
  {
    if x != 0 && y != 0 && x != 1 && x == -1 {
      NegateNumber(fuel - 1, y);
      assert TrySimplifyMultiplication(fuel, N(x), N(y)) == Just(Negate(fuel - 1, N(y)));
    } else if x != 0 && y != 0 && x != 1 && x != -1 && y != 1 && y == -1 {
      NegateNumber(fuel - 1, x);
      assert TrySimplifyMultiplication(fuel, N(x), N(y)) == Just(Negate(fuel - 1, N(x)));
    }
  }

  // ---- Trivial identities ----

  lemma AddZero(fuel: nat, x: Expr)
    requires fuel >= 1
    ensures Add(fuel, Zero, x) == Ok(x)
    ensures Add(fuel, x, Zero) == Ok(x)
  {
  }

  /** x + x is 2·x for anything but zero. */
  lemma AddSame(fuel: nat, x: Expr)
    requires fuel >= 1 && x != Zero
    ensures Add(fuel, x, x) == Multiply(fuel - 1, N(2), x)
  {
    assert TrySimplifyAddition(fuel, x, x) == Just(Multiply(fuel - 1, N(2), x));
  }

  /** x − x is the interned zero. */
  lemma SubtractSame(fuel: nat, x: Expr)
    requires fuel >= 2
    ensures Subtract(fuel, x, x) == Ok(Zero)
  {
    if x == Zero {
      NegateNumber(fuel - 1, 0);
      assert TrySimplifySubtraction(fuel, x, x) == Just(Negate(fuel - 1, Zero));
    }
  }

  /** 0 − x is −x and x − 0 is x. */
  lemma SubtractZero(fuel: nat, x: Expr)
    requires fuel >= 1
    ensures Subtract(fuel, Zero, x) == Negate(fuel - 1, x)
    ensures x != Zero ==> Subtract(fuel, x, Zero) == Ok(x)
  {
    assert TrySimplifySubtraction(fuel, Zero, x) == Just(Negate(fuel - 1, x));
  }

  /** x − (−y) is x + y. */
  lemma SubtractNegation(fuel: nat, x: Expr, y: Expr)
    requires fuel >= 1 && x != Zero && Kind(x) != UnaryOperationKind && !IsSubtraction(x)
    ensures Subtract(fuel, x, Unary(Minus, y)) == Add(fuel - 1, x, y)
  {
    assert TrySimplifySubtraction(fuel, x, Unary(Minus, y)) == Just(Add(fuel - 1, x, y));
  }

  /** 0·x = x·0 = 0, 1·x = x·1 = x, (−1)·x = −x. */
  lemma MultiplyUnits(fuel: nat, x: Expr)
    requires fuel >= 2
    ensures Multiply(fuel, Zero, x) == Ok(Zero) && Multiply(fuel, x, Zero) == Ok(Zero)
    ensures Multiply(fuel, One, x) == Ok(x)
    ensures x != Zero ==> Multiply(fuel, x, One) == Ok(x)
    ensures x != Zero && x != One ==> Multiply(fuel, N(-1), x) == Negate(fuel - 1, x)
  {
    if x != Zero && x != One {
      assert TrySimplifyMultiplication(fuel, N(-1), x) == Just(Negate(fuel - 1, x));
    }
    if x == N(-1) {
      NegateNumber(fuel - 1, 1);
      assert TrySimplifyMultiplication(fuel, x, One) == Just(Negate(fuel - 1, One));
    }
  }

  /** x·x is x² for anything that is not a number. */
  lemma MultiplySame(fuel: nat, x: Expr)
    requires fuel >= 1 && !IsNumber(x)
    ensures Multiply(fuel, x, x) == Pow(fuel - 1, x, N(2))
  {
    assert TrySimplifyMultiplication(fuel, x, x) == Just(Pow(fuel - 1, x, N(2)));
  }

  /** xᵃ·xᵇ is x^(a+b). */
  lemma MultiplySameBase(fuel: nat, x: Expr, e1: Expr, e2: Expr)
    requires fuel >= 1 && e1 != e2
    ensures var s := Add(fuel - 1, e1, e2);
      Multiply(fuel, Binary(Power, x, e1), Binary(Power, x, e2))
        == if s.Ok? then Pow(fuel - 1, x, s.value) else Err(s.error)
  {
    var a, b := Binary(Power, x, e1), Binary(Power, x, e2);
    var s := Add(fuel - 1, e1, e2);
    if s.Ok? {
      assert MergePowers(fuel, a, b) == Just(Pow(fuel - 1, x, s.value));
    } else {
      assert MergePowers(fuel, a, b) == Err(s.error);
    }
  }

  // ---- Order of commutative operands ----

  /** When no other addition rule applies, Add builds the raw node with the
    * lower-ranked operand first. */
  lemma AddOrdersOperands(fuel: nat, a: Expr, b: Expr)
    requires fuel >= 1 && a != Zero && b != Zero && Kind(a) != Kind(b)
    requires !IsNegation(a) && !IsNegation(b) && !IsAddition(a) && !IsAddition(b) && !IsSubtraction(a)
    ensures Add(fuel, a, b) == Ok(if Rank(a) > Rank(b) then Binary(Addition, b, a) else Binary(Addition, a, b))
  {
  }

  /** t + 99 is built as 99 + t. */
  lemma AddPutsNumberFirst(fuel: nat, t: string)
    requires fuel >= 1
    ensures Add(fuel, Variable(t), N(99)) == Ok(Binary(Addition, N(99), Variable(t)))
  {
    AddOrdersOperands(fuel, Variable(t), N(99));
  }

  /** When no other multiplication rule applies, Multiply builds the raw
    * node with the lower-ranked operand first. */
  lemma MultiplyOrdersOperands(fuel: nat, a: Expr, b: Expr)
    requires fuel >= 1 && Kind(a) != Kind(b)
    requires a != Zero && b != Zero && a != One && b != One && a != N(-1) && b != N(-1)
    requires !IsPower(a) && !IsPower(b) && !IsDivision(a) && !IsDivision(b)
    requires !IsMultiplication(a) && !IsMultiplication(b)
    ensures Multiply(fuel, a, b)
      == Ok(if Rank(a) > Rank(b) then Binary(Multiplication, b, a) else Binary(Multiplication, a, b))
  {
    var ordered := if Rank(a) > Rank(b) then Some(Binary(Multiplication, b, a)) else None;
    assert MergePowers(fuel, a, b) == Ok(None);
    assert MergeFactors(fuel, a, b) == Ok(ordered);
    assert TrySimplifyMultiplication(fuel, a, b) == Ok(ordered);
  }

  // ---- The n-ary rules ----

  /** Fewer than two operands are refused. */
  lemma CombineTooFew(fuel: nat, op: VariadicOperator, operands: seq<Expr>)
    requires fuel >= 1 && |operands| < 2
    ensures Combine(fuel, op, operands) == Err(ArgumentInvalid)
  {
  }

  /** Two operands go to the binary constructor. */
  lemma CombineTwo(fuel: nat, op: VariadicOperator, a: Expr, b: Expr)
    requires fuel >= 1
    ensures Combine(fuel, op, [a, b])
      == if op == Sum then Add(fuel - 1, a, b) else Multiply(fuel - 1, a, b)
  {
  }

  /** Operands already in rank order whose adjacent pairs all give no rule
    * are the normal form: the variadic node over them is built as is. */
  lemma CombineSettled(fuel: nat, op: VariadicOperator, operands: seq<Expr>)
    requires fuel >= 1 && |operands| >= 3 && RankOrdered(operands)
    requires forall k :: 0 <= k < |operands| - 1 ==> PairRule(fuel - 1, op, operands[k], operands[k + 1]) == Ok(None)
    ensures Combine(fuel, op, operands) == Ok(Variadic(op, operands))
  {
    SortOfRankOrdered(operands);
    SettleOfSettled(fuel, op, operands);
    assert Collapse(op, operands, operands) == None;
    assert TrySimplifyVariadic(fuel, op, operands) == Ok(None);
  }

  /** Sorting operands already in rank order leaves them as they are. */
  lemma SortOfRankOrdered(operands: seq<Expr>)
    requires RankOrdered(operands)
    ensures SortByRank(operands) == operands
  {
    RankOrderedAll(operands);
    Reduction.SortOfOrdered(operands, Rank, 9);
  }

  /** The loop leaves operands whose adjacent pairs give no rule as they are. */
  lemma SettleOfSettled(fuel: nat, op: VariadicOperator, operands: seq<Expr>)
    requires fuel >= 1 && |operands| >= 1
    requires forall k :: 0 <= k < |operands| - 1 ==> PairRule(fuel - 1, op, operands[k], operands[k + 1]) == Ok(None)
    ensures Settle(fuel, op, operands) == Ok(operands)
  {
    var step := StepOf(fuel - 1, op);
    assert Reduction.Settled(step, operands) by {
      forall k | 0 <= k < |operands| - 1
        ensures step(operands[k], operands[k + 1]) == Ok(None)
      {
        assert step(operands[k], operands[k + 1]) == PairRule(fuel - 1, op, operands[k], operands[k + 1]);
      }
    }
    Reduction.ReduceOfSettled(step, operands, 1);
  }

  lemma {:induction false} RankOrderedAll(s: seq<Expr>)
    requires RankOrdered(s)
    ensures Reduction.KeyOrdered(s, Rank)
  {
    if |s| > 1 {
      var t := s[1..];
      assert RankOrdered(t) by {
        assert forall k :: 0 <= k < |t| ==> t[k] == s[k + 1];
      }
      RankOrderedAll(t);
      forall i, j | 0 <= i < j < |s|
        ensures Rank(s[i]) <= Rank(s[j])
      {
        assert s[j] == t[j - 1];
        if i > 0 {
          assert s[i] == t[i - 1];
        } else if j > 1 {
          assert Rank(s[0]) <= Rank(s[1]) && s[1] == t[0];
        }
      }
    }
  }

  // ---- Power merging ----

  /** A number above one times a power of zero divides by zero. */
  lemma MergeBaseZero(fuel: nat, na: int, e: Expr)
    requires fuel >= 1 && 1 < na
    ensures Multiply(fuel, N(na), Binary(Power, Zero, e)) == Err(DivideByZero)
  {
    assert MergePowers(fuel, N(na), Binary(Power, Zero, e)) == Err(DivideByZero);
  }

  /** A number above one times a power of one never stops dividing. */
  lemma MergeBaseOne(fuel: nat, na: int, e: Expr)
    requires fuel >= 1 && 1 < na
    ensures Multiply(fuel, N(na), Binary(Power, One, e)) == Err(Diverges)
  {
    assert MergePowers(fuel, N(na), Binary(Power, One, e)) == Err(Diverges);
  }

  /** 8·2ᵗ = 2^(3+t). */
  lemma MergeEightTimesPowerOfTwo(fuel: nat, t: string)
    requires fuel >= 2
    ensures Multiply(fuel, N(8), Binary(Power, N(2), Variable(t)))
      == Ok(Binary(Power, N(2), Binary(Addition, N(3), Variable(t))))
  {
    var p := Binary(Power, N(2), Variable(t));
    MergeEightStep(fuel, t);
    assert MergePowers(fuel, N(8), p) == TryMergePowerMultiplication(fuel, N(8), p);
    assert TrySimplifyMultiplication(fuel, N(8), p) == MergePowers(fuel, N(8), p);
  }

  /** The merging step itself: three exact divisions leave the factor one. */
  lemma MergeEightStep(fuel: nat, t: string)
    requires fuel >= 2
    ensures TryMergePowerMultiplication(fuel, N(8), Binary(Power, N(2), Variable(t)))
      == Ok(Some(Binary(Power, N(2), Binary(Addition, N(3), Variable(t)))))
  {
    var e := Binary(Addition, N(3), Variable(t));
    EightIsTwoCubed();
    AddLiteral(fuel - 1, 3, t);
    PowLiteralRaw(fuel - 1, 2, e);
    assert !PowerMerging.KeepsFactorAsWritten(1);
  }

  lemma EightIsTwoCubed()
    ensures PowerMerging.DivideOut(8, 2) == Ok((1, 3))
  {
    assert PowerMerging.DivideOut(1, 2) == Ok((1, 0));
    assert PowerMerging.DivideOut(2, 2) == Ok((1, 1));
    assert PowerMerging.DivideOut(4, 2) == Ok((1, 2));
  }

  /** As written, 8·(-2)ᵗ is built as (-2)^(1+t): one exact division
    * leaves -4, which is not above one, so the factor is dropped. */
  lemma MergeNegativeBaseAsWritten(fuel: nat, t: string)
    requires fuel >= 2
    ensures Multiply(fuel, N(8), Binary(Power, N(-2), Variable(t)))
      == Ok(Binary(Power, N(-2), Binary(Addition, N(1), Variable(t))))
  {
    var p := Binary(Power, N(-2), Variable(t));
    MergeNegativeBaseStep(fuel, t);
    assert MergePowers(fuel, N(8), p) == TryMergePowerMultiplication(fuel, N(8), p);
    assert TrySimplifyMultiplication(fuel, N(8), p) == MergePowers(fuel, N(8), p);
  }

  lemma MergeNegativeBaseStep(fuel: nat, t: string)
    requires fuel >= 2
    ensures TryMergePowerMultiplication(fuel, N(8), Binary(Power, N(-2), Variable(t)))
      == Ok(Some(Binary(Power, N(-2), Binary(Addition, N(1), Variable(t)))))
  {
    var e := Binary(Addition, N(1), Variable(t));
    PowerMerging.NegativeBaseDropsFactor();
    AddLiteral(fuel - 1, 1, t);
    PowLiteralRaw(fuel - 1, -2, e);
  }

  lemma AddLiteral(fuel: nat, v: int, t: string)
    requires fuel >= 1 && v != 0
    ensures Add(fuel, N(v), Variable(t)) == Ok(Binary(Addition, N(v), Variable(t)))
  {
    assert TrySimplifyAddition(fuel, N(v), Variable(t)) == Ok(None);
  }

  lemma PowLiteralRaw(fuel: nat, v: int, e: Expr)
    requires fuel >= 1 && e.Binary? && e.bop == Addition
    ensures Pow(fuel, N(v), e) == Ok(Binary(Power, N(v), e))
  {
    assert TrySimplifyPower(fuel, N(v), e) == Ok(None);
  }

  // ---- Division ----

  /** A literal zero divisor fails whatever the dividend. */
  lemma DivideByLiteralZero(fuel: nat, a: Expr)
    requires fuel >= 1
    ensures Divide(fuel, a, Zero) == Err(DivideByZero)
  {
  }

  /** x/1 = x, c/c = 1 for a constant c, and 0/c = 0. */
  lemma DivideTrivia(fuel: nat, a: Expr, c: ConstantId)
    requires fuel >= 1
    ensures Divide(fuel, a, One) == Ok(a)
    ensures Divide(fuel, Constant(c), Constant(c)) == Ok(One)
    ensures Divide(fuel, Zero, Constant(c)) == Ok(Zero)
  {
  }

  /** Dividing a multiple of g by g truncates nothing: the quotient keeps
    * the sign and is no larger in magnitude. */
  lemma ExactTruncDiv(x: int, g: nat)
    requires g > 0 && Int64.Abs(x) % g == 0
    ensures var p := Int64.TruncDiv(x, g);
      x == p * g && Int64.Abs(p) <= Int64.Abs(x) && (x < 0 <==> p < 0) && (x != 0 <==> p != 0)
  {
    var m := Int64.Abs(x) / g;
    ExactNatDiv(Int64.Abs(x), g);
    assert Int64.TruncDiv(x, g) == if x < 0 then -m else m;
    if x < 0 {
      NegatedFactor(m, g);
    }
  }

  lemma ExactNatDiv(a: nat, g: nat)
    requires g > 0 && a % g == 0
    ensures a == (a / g) * g && a / g <= a && (a / g == 0 <==> a == 0)
  {
    DivisionRecomposes(a, g);
    FactorBound(a / g, g);
  }

  lemma DivisionRecomposes(a: nat, g: nat)
    requires g > 0 && a % g == 0
    ensures a == (a / g) * g
  {
  }

  lemma FactorBound(m: nat, g: nat)
    requires g > 0
    ensures m <= m * g
  {
  }

  lemma NegatedFactor(m: int, g: int)
    ensures -(m * g) == (-m) * g
  {
  }

  /** Dividing both numbers by the gcd the source computes leaves exact,
    * non-zero 64-bit quotients of the same value. They are in lowest terms
    * when the magnitudes share fewer than 32 factors of two; beyond that
    * the computed gcd may be smaller than the true one. */
  lemma LowestTerms(x: int, y: int)
    requires x != 0 && y != 0 && Int64.InLong(x) && Int64.InLong(y)
    ensures MathUtil.LongGcd(x, y).Ok?
    ensures var g := MathUtil.LongGcd(x, y).value;
      g > 0 && var p, q := Int64.TruncDiv(x, g), Int64.TruncDiv(y, g);
      p * y == q * x && Int64.InLong(p) && Int64.InLong(q) && p != 0 && q != 0
      && (MathUtil.CommonTwos(Int64.Abs(x), Int64.Abs(y)) < 32 ==>
            MathUtil.Gcd(Int64.Abs(p), Int64.Abs(q)) == 1)
  {
    var g := MathUtil.LongGcd(x, y).value;
    var kx: nat :| Int64.Abs(x) == g * kx;
    var ky: nat :| Int64.Abs(y) == g * ky;
    MathUtil.ExactQuotient(g, kx);
    MathUtil.ExactQuotient(g, ky);
    ExactTruncDiv(x, g);
    ExactTruncDiv(y, g);
    var p, q := Int64.TruncDiv(x, g), Int64.TruncDiv(y, g);
    calc {
      p * y;
      p * (q * g);
      { PowerMerging.MulAssoc(p, q, g); }
      (p * q) * g;
      (q * p) * g;
      { PowerMerging.MulAssoc(q, p, g); }
      q * (p * g);
      q * x;
    }
    if MathUtil.CommonTwos(Int64.Abs(x), Int64.Abs(y)) < 32 {
      MathUtil.ReducedCoprime(Int64.Abs(x), Int64.Abs(y));
    }
  }

  /** A fraction of two distinct non-zero numbers whose computed gcd is one,
    * with a divisor other than one, is already in normal form. */
  lemma FractionSettled(fuel: nat, p: int, q: int)
    requires fuel >= 1 && p != 0 && q != 0 && q != 1 && p != q
    requires MathUtil.LongGcd(p, q) == Ok(1)
    ensures Divide(fuel, N(p), N(q)) == Ok(Binary(Division, N(p), N(q)))
  {
    assert TrySimplifyFraction(fuel, p, q) == Ok(None);
    assert MergeQuotients(fuel, N(p), N(q)) == Ok(None);
    assert DividePowers(fuel, N(p), N(q)) == Ok(None);
    assert TrySimplifyDivision(fuel, N(p), N(q)) == Ok(None);
  }

  /** 2³² / 2³³ stays a raw quotient although both numbers are multiples of
    * 2³²: the source's gcd of the two is 1. */
  lemma FractionKeptAsWritten(fuel: nat)
    requires fuel >= 1
    ensures MathUtil.Gcd(0x1_0000_0000, 0x2_0000_0000) == 0x1_0000_0000
    ensures Divide(fuel, N(0x1_0000_0000), N(0x2_0000_0000))
      == Ok(Binary(Division, N(0x1_0000_0000), N(0x2_0000_0000)))
  {
    MathUtil.GcdShiftTruncation();
    assert MathUtil.LongGcd(0x1_0000_0000, 0x2_0000_0000) == Ok(1);
    FractionSettled(fuel, 0x1_0000_0000, 0x2_0000_0000);
  }

  /** A fraction whose computed gcd exceeds one is replaced by the fraction
    * of the quotients by that gcd. */
  lemma FractionReduced(fuel: nat, x: int, y: int)
    requires fuel >= 1 && y != 0 && y != 1 && x != 0 && x != y && Int64.InLong(x) && Int64.InLong(y)
    requires MathUtil.LongGcd(x, y).value > 1
    ensures var g := MathUtil.LongGcd(x, y).value;
      Divide(fuel, N(x), N(y)) == Divide(fuel - 1, N(Int64.TruncDiv(x, g)), N(Int64.TruncDiv(y, g)))
  {
    var g := MathUtil.LongGcd(x, y).value;
    var p, q := Int64.TruncDiv(x, g), Int64.TruncDiv(y, g);
    assert g <= Int64.MaxLong by {
      MathUtil.DividesBound(g, Int64.Abs(x));
      MathUtil.DividesBound(g, Int64.Abs(y));
    }
    assert TrySimplifyFraction(fuel, x, y) == Just(Divide(fuel - 1, N(p), N(q)));
    assert TrySimplifyDivision(fuel, N(x), N(y)) == Just(Divide(fuel - 1, N(p), N(q)));
  }

  /** What a division of x by y may leave: a number n with x = n·y, or a
    * raw fraction p/q of numbers with p·y = q·x. */
  predicate SameQuotient(r: Expr, x: int, y: int)
  {
    (r.Number? && x == r.value * y)
    || (r.Binary? && r.bop == Division && r.first.Number? && r.second.Number?
        && r.second.value != 0 && r.first.value * y == r.second.value * x)
  }

  /** Dividing two numbers never changes the value of the quotient, for
    * every pair of 64-bit numbers, reduced or not. */
  lemma {:induction false} DivideNumbersKeepValue(fuel: nat, x: int, y: int)
    requires fuel >= 1 && y != 0 && Int64.InLong(x) && Int64.InLong(y)
    ensures Divide(fuel, N(x), N(y)).Ok? ==> SameQuotient(Divide(fuel, N(x), N(y)).value, x, y)
    decreases fuel
  {
    if y == 1 || x == 0 || x == y {
      DivideNumbersTrivially(fuel, x, y);
    } else {
      LowestTerms(x, y);
      var g := MathUtil.LongGcd(x, y).value;
      if g > 1 {
        var p, q := Int64.TruncDiv(x, g), Int64.TruncDiv(y, g);
        FractionReduced(fuel, x, y);
        if fuel >= 2 {
          DivideNumbersKeepValue(fuel - 1, p, q);
          var r := Divide(fuel - 1, N(p), N(q));
          if r.Ok? {
            ScaleQuotient(r.value, p, q, x, y);
          }
        }
      } else {
        FractionSettled(fuel, x, y);
      }
    }
  }

  /** A quotient of p by q is a quotient of x by y when p/q = x/y. */
  lemma ScaleQuotient(r: Expr, p: int, q: int, x: int, y: int)
    requires q != 0 && y != 0 && p * y == q * x && SameQuotient(r, p, q)
    ensures SameQuotient(r, x, y)
  {
    if r.Number? {
      var n := r.value;
      calc {
        q * (n * y);
        { PowerMerging.MulAssoc(q, n, y); PowerMerging.MulAssoc(n, q, y); }
        (n * q) * y;
        p * y;
        q * x;
      }
      CancelFactor(q, n * y, x);
    } else {
      var f, d := r.first.value, r.second.value;
      calc {
        q * (f * y);
        { PowerMerging.MulAssoc(q, f, y); PowerMerging.MulAssoc(f, q, y); }
        (f * q) * y;
        (d * p) * y;
        { PowerMerging.MulAssoc(d, p, y); }
        d * (p * y);
        d * (q * x);
        { PowerMerging.MulAssoc(d, q, x); PowerMerging.MulAssoc(q, d, x); }
        q * (d * x);
      }
      CancelFactor(q, f * y, d * x);
    }
  }

  lemma CancelFactor(q: int, a: int, b: int)
    requires q != 0 && q * a == q * b
    ensures a == b
  {
    assert q * (a - b) == 0;
  }

  /** Two numbers divide to a number when the division is exact, and
    * otherwise to a raw quotient of the same value. When the magnitudes
    * share fewer than 32 factors of two the division succeeds and the
    * quotient is in lowest terms. */
  lemma DivideNumbers(fuel: nat, x: int, y: int)
    requires fuel >= 2 && y != 0 && Int64.InLong(x) && Int64.InLong(y)
    ensures Divide(fuel, N(x), N(y)).Ok? ==> SameQuotient(Divide(fuel, N(x), N(y)).value, x, y)
    ensures x == 0 || MathUtil.CommonTwos(Int64.Abs(x), Int64.Abs(y)) < 32 ==>
      Divide(fuel, N(x), N(y)).Ok?
      && var r := Divide(fuel, N(x), N(y)).value;
      (r.Binary? ==> MathUtil.Gcd(Int64.Abs(r.first.value), Int64.Abs(r.second.value)) == 1)
  {
    DivideNumbersKeepValue(fuel, x, y);
    if y == 1 || x == 0 || x == y {
      DivideNumbersTrivially(fuel, x, y);
    } else if MathUtil.CommonTwos(Int64.Abs(x), Int64.Abs(y)) < 32 {
      LowestFraction(fuel, x, y);
    }
  }

  /** With fewer than 32 shared factors of two the computed gcd is the true
    * one, so a fraction that is not exact ends up in lowest terms. */
  lemma LowestFraction(fuel: nat, x: int, y: int)
    requires fuel >= 2 && y != 0 && y != 1 && x != 0 && x != y && Int64.InLong(x) && Int64.InLong(y)
    requires MathUtil.CommonTwos(Int64.Abs(x), Int64.Abs(y)) < 32
    ensures Divide(fuel, N(x), N(y)).Ok?
    ensures var r := Divide(fuel, N(x), N(y)).value;
      r.Binary? && r.first.Number? && r.second.Number? ==> MathUtil.Gcd(Int64.Abs(r.first.value), Int64.Abs(r.second.value)) == 1
  {
    var g := MathUtil.LongGcd(x, y).value;
    LowestTerms(x, y);
    if g > 1 {
      var p, q := Int64.TruncDiv(x, g), Int64.TruncDiv(y, g);
      FractionReduced(fuel, x, y);
      if q == 1 {
        assert Divide(fuel - 1, N(p), N(q)) == Ok(N(p));
      } else {
        MathUtil.CoprimeAsWritten(p, q);
        FractionSettled(fuel - 1, p, q);
      }
    } else {
      MathUtil.CoprimeAsWritten(x, y);
      FractionSettled(fuel, x, y);
    }
  }

  /** The cases the fraction rule settles before any gcd: a divisor of one,
    * a zero dividend, and equal numbers. */
  lemma DivideNumbersTrivially(fuel: nat, x: int, y: int)
    requires fuel >= 1 && y != 0
    ensures y == 1 ==> Divide(fuel, N(x), N(y)) == Ok(N(x))
    ensures y != 1 && x == 0 ==> Divide(fuel, N(x), N(y)) == Ok(Zero)
    ensures y != 1 && x != 0 && x == y ==> Divide(fuel, N(x), N(y)) == Ok(One)
  {
    if y != 1 && x == 0 {
      assert TrySimplifyFraction(fuel, x, y) == Ok(Some(Zero));
      assert TrySimplifyDivision(fuel, N(x), N(y)) == Ok(Some(Zero));
    } else if y != 1 && x == y {
      assert TrySimplifyFraction(fuel, x, y) == Ok(Some(One));
      assert TrySimplifyDivision(fuel, N(x), N(y)) == Ok(Some(One));
    }
  }

  /** The source's branch for a binary product dividend, which never runs:
    * divide each of the two factors, and multiply the results when either
    * changed. It spends the fuel the operand-array branch spends. */
  function DistributeOverPair(fuel: nat, a: Expr, b: Expr): Result<Option<Expr>>
    requires fuel >= 2 && a.Binary?
  {
    var da :- TrySimplifyDivision(fuel - 1, a.first, b);
    var db :- TrySimplifyDivision(fuel - 1, a.second, b);
    if da.None? && db.None? then Ok(None)
    else Just(Multiply(fuel - 2, if da.Some? then da.value else a.first,
                                 if db.Some? then db.value else a.second))
  }

  /** For a two-factor product the binary branch and the operand-array
    * branch give the same result. */
  lemma DistributeBranchesAgree(fuel: nat, x: Expr, y: Expr, b: Expr)
    requires fuel >= 2
    ensures DistributeOverPair(fuel, Binary(Multiplication, x, y), b)
      == DistributeDivision(fuel, Binary(Multiplication, x, y), b)
  {
    var a := Binary(Multiplication, x, y);
    var rule := DivideBy(fuel - 1, b);
    var da, db := rule(x), rule(y);
    assert da == TrySimplifyDivision(fuel - 1, x, b) && db == TrySimplifyDivision(fuel - 1, y, b);
    assert Operands(a) == [x, y];
    Reduction.RewriteEachPair(rule, x, y);
    if da.Ok? && db.Ok? {
      CombineTwo(fuel - 1, Product, Reduction.Rewritten(rule, x), Reduction.Rewritten(rule, y));
    }
  }

  // ---- Powers ----

  /** 0⁰ stays a raw node; n⁰ is 1 for a non-zero literal n. */
  lemma PowZeroExponent(fuel: nat, v: int)
    requires fuel >= 1
    ensures Pow(fuel, Zero, Zero) == Ok(Binary(Power, Zero, Zero))
    ensures v != 0 ==> Pow(fuel, N(v), Zero) == Ok(One)
  {
    assert PowerByLiteral(fuel, Zero, Zero) == Ok(None);
    assert TrySimplifyPower(fuel, Zero, Zero) == Ok(None);
    assert v != 0 ==> TrySimplifyPower(fuel, N(v), Zero) == Ok(Some(One));
  }

  /** x¹ = x. */
  lemma PowOne(fuel: nat, x: Expr)
    requires fuel >= 1
    ensures Pow(fuel, x, One) == Ok(x)
  {
    assert TrySimplifyPower(fuel, x, One) == Ok(Some(x));
  }

  /** exp 1 is 𝑒, and exp 0 stays a raw power: 𝑒 is not a literal, so the
    * x⁰ rule does not apply to it. */
  lemma ExpOfZeroAndOne(fuel: nat)
    requires fuel >= 1
    ensures ExpOf(fuel, One) == Ok(EConstant)
    ensures ExpOf(fuel, Zero) == Ok(Binary(Power, EConstant, Zero))
  {
    assert TrySimplifyPower(fuel, EConstant, One) == Ok(Some(EConstant));
    assert TrySimplifyPower(fuel, EConstant, Zero) == Ok(None);
  }

  /** A literal to a literal power folds to the checked power, except that
    * an overflow or a negative exponent leaves the raw node. */
  lemma PowNumbers(fuel: nat, a: int, b: int)
    requires fuel >= 1 && b != 0 && b != 1
    ensures Pow(fuel, N(a), N(b))
      == if Int64.CheckedPow(a, b).Ok? then Ok(N(Int64.CheckedPow(a, b).value))
         else Ok(Binary(Power, N(a), N(b)))
    ensures b < 0 ==> Pow(fuel, N(a), N(b)) == Ok(Binary(Power, N(a), N(b)))
  {
    var folded := Int64.CheckedPow(a, b);
    var rewrite := if folded.Ok? then Some(N(folded.value)) else None;
    assert PowerByLiteral(fuel, N(a), N(b)) == Ok(rewrite);
    assert TrySimplifyPower(fuel, N(a), N(b)) == Ok(rewrite);
  }

  /** |x|²ⁿ = x²ⁿ. */
  lemma PowAbsEven(fuel: nat, x: Expr, n: int)
    requires fuel >= 1 && n != 0 && n % 2 == 0
    ensures Pow(fuel, Unary(Abs, x), N(n)) == Pow(fuel - 1, x, N(n))
  {
    assert PowerByLiteral(fuel, Unary(Abs, x), N(n)) == Just(Pow(fuel - 1, x, N(n)));
  }

  /** root(x, n)ⁿ = x for a literal n. */
  lemma PowOfRoot(fuel: nat, x: Expr, n: int)
    requires fuel >= 1 && n != 0 && n != 1
    ensures Pow(fuel, Binary(Root, x, N(n)), N(n)) == Ok(x)
  {
    assert PowerByLiteral(fuel, Binary(Root, x, N(n)), N(n)) == Ok(Some(x));
    assert TrySimplifyPower(fuel, Binary(Root, x, N(n)), N(n)) == Ok(Some(x));
  }

  /** (xᵃ)ᵇ = x^(a·b). */
  lemma PowOfPow(fuel: nat, x: Expr, e: Expr, b: Expr)
    requires fuel >= 1 && b != One
    ensures var m := Multiply(fuel - 1, e, b);
      Pow(fuel, Binary(Power, x, e), b) == if m.Ok? then Pow(fuel - 1, x, m.value) else Err(m.error)
  {
    var a := Binary(Power, x, e);
    var m := Multiply(fuel - 1, e, b);
    if IsNumber(b) {
      assert PowerByLiteral(fuel, a, b) == Ok(None);
    }
    if m.Ok? {
      assert TrySimplifyPower(fuel, a, b) == Just(Pow(fuel - 1, x, m.value));
    } else {
      assert TrySimplifyPower(fuel, a, b) == Err(m.error);
    }
  }

  // ---- Roots and absolute values ----

  /** root(x, 1) = x. */
  lemma RootOne(fuel: nat, x: Expr)
    requires fuel >= 1
    ensures RootOf(fuel, x, One) == Ok(x)
  {
  }

  /** root(xⁿ, n) is x for an odd literal n and |x| for an even one. */
  lemma RootOfPower(fuel: nat, x: Expr, n: int)
    requires fuel >= 1 && n != 1
    ensures RootOf(fuel, Binary(Power, x, N(n)), N(n))
      == if n % 2 != 0 then Ok(x) else AbsOf(fuel - 1, x)
  {
    if n % 2 == 0 {
      assert RootByLiteral(fuel, Binary(Power, x, N(n)), n) == Just(AbsOf(fuel - 1, x));
    }
  }

  /** root(root(x, a), b) = root(x, a·b). */
  lemma RootOfRoot(fuel: nat, x: Expr, i: Expr, b: Expr)
    requires fuel >= 1 && b != One
    ensures var m := Multiply(fuel - 1, i, b);
      RootOf(fuel, Binary(Root, x, i), b) == if m.Ok? then RootOf(fuel - 1, x, m.value) else Err(m.error)
  {
    var a := Binary(Root, x, i);
    var m := Multiply(fuel - 1, i, b);
    assert IsNumber(b) ==> RootByLiteral(fuel, a, b.value) == Ok(None);
    if m.Ok? {
      assert TrySimplifyRoot(fuel, a, b) == Just(RootOf(fuel - 1, x, m.value));
    } else {
      assert TrySimplifyRoot(fuel, a, b) == Err(m.error);
    }
  }

  /** The absolute value of a literal is non-negative; only the most
    * negative 64-bit value overflows. */
  lemma AbsNumber(fuel: nat, v: int)
    requires fuel >= 2 && Int64.InLong(v)
    ensures AbsOf(fuel, N(v))
      == if v >= 0 then Ok(N(v)) else if Int64.InLong(-v) then Ok(N(-v)) else Err(Overflow)
    ensures AbsOf(fuel, N(v)).Ok? ==> AbsOf(fuel, N(v)).value.value >= 0
  {
    if v < 0 {
      NegateNumber(fuel - 1, v);
      assert TrySimplifyAbs(fuel, N(v)) == Just(Negate(fuel - 1, N(v)));
    }
  }

  /** |x²ⁿ| is x²ⁿ itself. */
  lemma AbsEvenPower(fuel: nat, x: Expr, n: int)
    requires fuel >= 1 && n % 2 == 0
    ensures AbsOf(fuel, Binary(Power, x, N(n))) == Ok(Binary(Power, x, N(n)))
  {
  }
}
