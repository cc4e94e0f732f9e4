// MathUtil.cs: the binary greatest-common-divisor algorithm on unsigned
// 64-bit integers and its signed front end, proved against Euclid's
// subtraction definition of the greatest common divisor.
module MathUtil {
  import opened Results
  import opened Int64

  const TwoTo64: nat := 0x1_0000_0000_0000_0000

  ghost predicate Divides(c: nat, a: nat) {
    exists k: nat :: a == c * k
  }

  /** Reference definition: Euclid's algorithm by subtraction. */
  function Gcd(a: nat, b: nat): nat
    decreases a + b
  {
    if a == 0 then b
    else if b == 0 then a
    else if a > b then Gcd(a - b, b)
    else if a < b then Gcd(a, b - a)
    else a
  }

  lemma {:induction false} GcdDividesBoth(a: nat, b: nat)
    ensures Divides(Gcd(a, b), a) && Divides(Gcd(a, b), b)
    decreases a + b
  {
    var g := Gcd(a, b);
    if a == 0 {
      assert a == g * 0 && b == g * 1;
    } else if b == 0 {
      assert a == g * 1 && b == g * 0;
    } else if a > b {
      GcdDividesBoth(a - b, b);
      var k1: nat :| a - b == g * k1;
      var k2: nat :| b == g * k2;
      assert a == g * (k1 + k2);
    } else if a < b {
      GcdDividesBoth(a, b - a);
      var k1: nat :| a == g * k1;
      var k2: nat :| b - a == g * k2;
      assert b == g * (k1 + k2);
    } else {
      assert a == g * 1;
    }
  }

  lemma DividesDifference(c: nat, a: nat, b: nat)
    requires a >= b && Divides(c, a) && Divides(c, b)
    ensures Divides(c, a - b)
  {
    var k1: nat :| a == c * k1;
    var k2: nat :| b == c * k2;
    if c == 0 {
      assert a - b == c * 0;
    } else {
      if k1 < k2 {
        assert c * k2 == c * k1 + c * (k2 - k1);
      }
      assert a - b == c * (k1 - k2);
    }
  }

  lemma {:induction false} GcdGreatest(a: nat, b: nat, c: nat)
    requires Divides(c, a) && Divides(c, b)
    ensures Divides(c, Gcd(a, b))
    decreases a + b
  {
    if a == 0 || b == 0 || a == b {
    } else if a > b {
      DividesDifference(c, a, b);
      GcdGreatest(a - b, b, c);
    } else {
      DividesDifference(c, b, a);
      GcdGreatest(a, b - a, c);
    }
  }

  /** Two positive numbers that divide each other are equal. */
  lemma DividesAntisymmetric(g: nat, h: nat)
    requires g > 0 && h > 0 && Divides(g, h) && Divides(h, g)
    ensures g == h
  {
    var k: nat :| h == g * k;
    var m: nat :| g == h * m;
    assert g * 1 == g * (k * m);
    assert k * m == 1;
    assert k == 1;
  }

  lemma DividesBound(c: nat, a: nat)
    requires a > 0 && Divides(c, a)
    ensures c <= a
  {
    var k: nat :| a == c * k;
    assert k >= 1;
    assert c * 1 <= c * k;
  }

  /** The greatest common divisor is the unique positive common divisor that
    * every common divisor divides. */
  lemma GcdUnique(a: nat, b: nat, g: nat)
    requires a > 0 && g > 0
    requires Divides(g, a) && Divides(g, b)
    requires forall c: nat :: Divides(c, a) && Divides(c, b) ==> Divides(c, g)
    ensures g == Gcd(a, b)
  {
    GcdDividesBoth(a, b);
    GcdGreatest(a, b, g);
    var h := Gcd(a, b);
    assert h > 0 by {
      if h == 0 {
        var k: nat :| a == h * k;
      }
    }
    DividesAntisymmetric(g, h);
  }

  lemma {:induction false} GcdDoubles(a: nat, b: nat)
    ensures Gcd(2 * a, 2 * b) == 2 * Gcd(a, b)
    decreases a + b
  {
    if a == 0 || b == 0 || a == b {
    } else if a > b {
      GcdDoubles(a - b, b);
    } else {
      GcdDoubles(a, b - a);
    }
  }

  lemma ProductParity(g: nat, k: nat)
    ensures (g * k) % 2 == (g % 2) * (k % 2)
  {
    var i, p, j, q := g / 2, g % 2, k / 2, k % 2;
    assert g * k == (2 * i + p) * (2 * j + q);
    assert (2 * i + p) * (2 * j + q) == 2 * (2 * i * j + i * q + j * p) + p * q;
    assert p * q == (g % 2) * (k % 2) && 0 <= p * q <= 1;
  }

  lemma OddDivisor(g: nat, b: nat)
    requires b % 2 == 1 && Divides(g, b)
    ensures g % 2 == 1
  {
    var k: nat :| b == g * k;
    ProductParity(g, k);
  }

  lemma OddDividesHalf(g: nat, a: nat)
    requires g % 2 == 1 && a % 2 == 0 && Divides(g, a)
    ensures Divides(g, a / 2)
  {
    var k: nat :| a == g * k;
    ProductParity(g, k);
    var m := k / 2;
    assert a == 2 * (g * m);
    assert a / 2 == g * m;
  }

  lemma DoubleDivides(h: nat, a: nat)
    requires a % 2 == 0 && Divides(h, a / 2)
    ensures Divides(h, a)
  {
    var k: nat :| a / 2 == h * k;
    assert a == h * (2 * k);
  }

  /** Halving the even argument keeps the divisor when the other is odd. */
  lemma GcdHalvesEven(a: nat, b: nat)
    requires a > 0 && a % 2 == 0 && b % 2 == 1
    ensures Gcd(a / 2, b) == Gcd(a, b)
  {
    var g, h := Gcd(a, b), Gcd(a / 2, b);
    GcdDividesBoth(a, b);
    GcdDividesBoth(a / 2, b);
    OddDivisor(g, b);
    OddDividesHalf(g, a);
    GcdGreatest(a / 2, b, g);
    DoubleDivides(h, a);
    GcdGreatest(a, b, h);
    GcdPositive(b, a);
    GcdSymmetric(a, b);
    GcdPositive(b, a / 2);
    GcdSymmetric(a / 2, b);
    DividesAntisymmetric(g, h);
  }

  lemma {:induction false} GcdSymmetric(a: nat, b: nat)
    ensures Gcd(a, b) == Gcd(b, a)
    decreases a + b
  {
    if a == 0 || b == 0 || a == b {
    } else if a > b {
      GcdSymmetric(a - b, b);
    } else {
      GcdSymmetric(a, b - a);
    }
  }

  /** How many times the source's first loop halves both arguments. */
  function CommonTwos(a: nat, b: nat): nat
    requires a > 0 && b > 0
  {
    if a % 2 == 0 && b % 2 == 0 then 1 + CommonTwos(a / 2, b / 2) else 0
  }

  /** The greatest common divisor with the common factors of two removed. */
  function OddGcdPart(a: nat, b: nat): nat
    requires a > 0 && b > 0
  {
    if a % 2 == 0 && b % 2 == 0 then OddGcdPart(a / 2, b / 2) else Gcd(a, b)
  }

  lemma {:induction false} GcdSplitsTwos(a: nat, b: nat)
    requires a > 0 && b > 0
    ensures Gcd(a, b) == OddGcdPart(a, b) * Power(2, CommonTwos(a, b))
  {
    if a % 2 == 0 && b % 2 == 0 {
      GcdSplitsTwos(a / 2, b / 2);
      GcdDoubles(a / 2, b / 2);
      assert Power(2, CommonTwos(a, b)) == 2 * Power(2, CommonTwos(a / 2, b / 2));
    }
  }

  /** What `a * (1u << d)` yields: the shift count of a 32-bit shift is
    * taken modulo 32 and the product wraps at 2^64. */
  function UnsignedGcdAsWritten(a: nat, b: nat): nat
    requires a > 0 && b > 0
  {
    (OddGcdPart(a, b) * Power(2, CommonTwos(a, b) % 32)) % TwoTo64
  }

  /** The two loops of `Gcd(ulong, ulong)`: the first strips the common
    * factors of two, the second runs the binary subtraction to a fixpoint.
    * Either argument zero makes one of the loops spin forever. */
  method StripAndSubtract(a0: nat, b0: nat) returns (g: nat, d: nat)
    requires 0 < a0 < TwoTo64 && 0 < b0 < TwoTo64
    ensures g == OddGcdPart(a0, b0) && d == CommonTwos(a0, b0)
  {
    var a, b := a0, b0;
    d := 0;
    while a % 2 == 0 && b % 2 == 0
      invariant 0 < a && 0 < b
      invariant OddGcdPart(a, b) == OddGcdPart(a0, b0)
      invariant d + CommonTwos(a, b) == CommonTwos(a0, b0)
      decreases a
    {
      d := d + 1;
      a := a / 2;
      b := b / 2;
    }
    while a != b
      invariant 0 < a && 0 < b && (a % 2 == 1 || b % 2 == 1)
      invariant Gcd(a, b) == OddGcdPart(a0, b0)
      decreases a + b
    {
      SubtractStep(a, b);
      if a % 2 == 0 {
        a := a / 2;
      } else if b % 2 == 0 {
        b := b / 2;
      } else if a > b {
        a := (a - b) / 2;
      } else {
        b := (b - a) / 2;
      }
    }
    g := a;
  }

  /** Each step of the subtraction loop keeps the gcd: halving the even
    * argument, or replacing the larger odd one by half the difference. */
  lemma SubtractStep(a: nat, b: nat)
    requires 0 < a && 0 < b && a != b && (a % 2 == 1 || b % 2 == 1)
    ensures a % 2 == 0 ==> Gcd(a / 2, b) == Gcd(a, b)
    ensures a % 2 == 1 && b % 2 == 0 ==> Gcd(a, b / 2) == Gcd(a, b)
    ensures a % 2 == 1 && b % 2 == 1 && a > b ==> Gcd((a - b) / 2, b) == Gcd(a, b)
    ensures a % 2 == 1 && b % 2 == 1 && a < b ==> Gcd(a, (b - a) / 2) == Gcd(a, b)
  {
    if a % 2 == 0 {
      GcdHalvesEven(a, b);
    } else if b % 2 == 0 {
      GcdSymmetric(a, b);
      GcdHalvesEven(b, a);
      GcdSymmetric(a, b / 2);
    } else if a > b {
      GcdHalvesEven(a - b, b);
    } else {
      GcdSymmetric(a, b - a);
      GcdHalvesEven(b - a, a);
      GcdSymmetric((b - a) / 2, a);
    }
  }

  /** `Gcd(ulong, ulong)` as written. */
  method BinaryGcd(a: nat, b: nat) returns (r: Result<nat>)
    requires a < TwoTo64 && b < TwoTo64
    ensures a == 0 || b == 0 ==> r == Err(Diverges)
    ensures a > 0 && b > 0 ==> r == Ok(UnsignedGcdAsWritten(a, b))
  {
    if a == 0 || b == 0 {
      return Err(Diverges);
    }
    var g, d := StripAndSubtract(a, b);
    r := Ok((g * Power(2, d % 32)) % TwoTo64);
  }

  /** The same algorithm with an unbounded shift `a << d`, which is the
    * greatest common divisor. */
  method BinaryGcdCorrected(a: nat, b: nat) returns (r: Result<nat>)
    requires a < TwoTo64 && b < TwoTo64
    ensures a == 0 || b == 0 ==> r == Err(Diverges)
    ensures a > 0 && b > 0 ==> r == Ok(Gcd(a, b))
  {
    if a == 0 || b == 0 {
      return Err(Diverges);
    }
    var g, d := StripAndSubtract(a, b);
    GcdSplitsTwos(a, b);
    r := Ok(g * Power(2, d));
  }

  /** `Gcd(long, long)`, the one the fraction rule calls: the magnitudes,
    * long.MinValue included, go to `Gcd(ulong, ulong)` as written, and a
    * zero argument never terminates. The result always divides both
    * magnitudes, and it is their greatest common divisor when they share
    * fewer than 32 factors of two. */
  function LongGcd(a: int, b: int): (r: Result<nat>)
    ensures r.Ok? <==> a != 0 && b != 0
    ensures r.Ok? && InLong(a) && InLong(b) ==>
      r.value > 0 && Divides(r.value, Abs(a)) && Divides(r.value, Abs(b))
    ensures r.Ok? && a != 0 && b != 0 && InLong(a) && InLong(b) && CommonTwos(Abs(a), Abs(b)) < 32 ==>
      r.value == Gcd(Abs(a), Abs(b))
  {
    if a == 0 || b == 0 then Err(Diverges)
    else
      var ua: nat, ub: nat := Abs(a), Abs(b);
      var g := UnsignedGcdAsWritten(ua, ub);
      assert InLong(a) && InLong(b) ==>
        g > 0 && Divides(g, ua) && Divides(g, ub) && (CommonTwos(ua, ub) < 32 ==> g == Gcd(ua, ub)) by {
        if InLong(a) && InLong(b) {
          AsWrittenIsCommonDivisor(ua, ub);
          if CommonTwos(ua, ub) < 32 {
            GcdAsWrittenAgrees(ua, ub);
          }
        }
      }
      Ok(g)
  }

  /** What `Gcd(ulong, ulong)` returns is always a common divisor: the odd
    * part times 2^(d mod 32) divides the gcd, so the product never wraps. */
  lemma AsWrittenIsCommonDivisor(a: nat, b: nat)
    requires 0 < a < TwoTo64 && 0 < b
    ensures UnsignedGcdAsWritten(a, b) > 0
    ensures Divides(UnsignedGcdAsWritten(a, b), Gcd(a, b))
    ensures Divides(UnsignedGcdAsWritten(a, b), a) && Divides(UnsignedGcdAsWritten(a, b), b)
  {
    AsWrittenDividesGcd(a, b);
    GcdDividesBoth(a, b);
    DividesTransitive(UnsignedGcdAsWritten(a, b), Gcd(a, b), a);
    DividesTransitive(UnsignedGcdAsWritten(a, b), Gcd(a, b), b);
  }

  lemma AsWrittenDividesGcd(a: nat, b: nat)
    requires 0 < a < TwoTo64 && 0 < b
    ensures 0 < UnsignedGcdAsWritten(a, b) && Divides(UnsignedGcdAsWritten(a, b), Gcd(a, b))
  {
    var d := CommonTwos(a, b);
    var h := OddGcdPart(a, b) * Power(2, d % 32);
    var k := Power(2, d - d % 32);
    var g := Gcd(a, b);
    assert g == h * k by {
      GcdSplitsTwos(a, b);
      SplitPower(OddGcdPart(a, b), d);
    }
    assert 0 < g < TwoTo64 by {
      GcdPositive(a, b);
      GcdDividesBoth(a, b);
      DividesBound(g, a);
    }
    assert 0 < h <= g && Divides(h, g) by {
      PowerPositive(d - d % 32);
      PositiveFactorBelow(h, k, g);
    }
    assert UnsignedGcdAsWritten(a, b) == h;
  }

  /** 2^d splits into the part a 32-bit shift keeps and the part it loses. */
  lemma SplitPower(odd: nat, d: nat)
    ensures odd * Power(2, d) == (odd * Power(2, d % 32)) * Power(2, d - d % 32)
  {
    PowerAdds(2, d % 32, d - d % 32);
    PowerPositive(d % 32);
    PowerPositive(d - d % 32);
    MulAssocNat(odd, Power(2, d % 32), Power(2, d - d % 32));
  }

  /** A factor of a positive product with a positive cofactor is positive
    * and no larger than the product, and the product divides by it. */
  lemma PositiveFactorBelow(h: nat, k: nat, g: nat)
    requires g == h * k && g > 0 && k >= 1
    ensures 0 < h <= g && Divides(h, g)
  {
    assert h * 1 <= h * k;
  }

  lemma DividesTransitive(c: nat, g: nat, a: nat)
    requires Divides(c, g) && Divides(g, a)
    ensures Divides(c, a)
  {
    var k: nat :| g == c * k;
    var m: nat :| a == g * m;
    MulAssocNat(c, k, m);
    assert a == c * (k * m);
  }

  /** Two numbers whose gcd is one share no factor of two, so the source
    * computes their gcd exactly. */
  lemma CoprimeAsWritten(a: int, b: int)
    requires a != 0 && b != 0 && InLong(a) && InLong(b)
    requires Gcd(Abs(a), Abs(b)) == 1
    ensures LongGcd(a, b) == Ok(1)
  {
    GcdSplitsTwos(Abs(a), Abs(b));
  }

  lemma GcdPositive(a: nat, b: nat)
    requires a > 0
    ensures Gcd(a, b) > 0
  {
    GcdDividesBoth(a, b);
    if Gcd(a, b) == 0 {
      var k: nat :| a == Gcd(a, b) * k;
    }
  }

  /** Dividing two positive numbers by their gcd leaves exact quotients
    * whose gcd is one: the fraction is then in lowest terms. */
  lemma ReducedCoprime(a: nat, b: nat)
    requires a > 0 && b > 0
    ensures Gcd(a, b) > 0 && a % Gcd(a, b) == 0 && b % Gcd(a, b) == 0
    ensures Gcd(a / Gcd(a, b), b / Gcd(a, b)) == 1
  {
    var g := Gcd(a, b);
    GcdPositive(a, b);
    GcdDividesBoth(a, b);
    var ka: nat :| a == g * ka;
    var kb: nat :| b == g * kb;
    ExactQuotient(g, ka);
    ExactQuotient(g, kb);
    var h := Gcd(ka, kb);
    GcdPositive(ka, kb);
    GcdDividesBoth(ka, kb);
    var ia: nat :| ka == h * ia;
    var ib: nat :| kb == h * ib;
    assert a == (g * h) * ia by { MulAssocNat(g, h, ia); }
    assert b == (g * h) * ib by { MulAssocNat(g, h, ib); }
    GcdGreatest(a, b, g * h);
    DividesBound(g * h, g);
    FactorAtMostOne(g, h);
    assert a / g == ka && b / g == kb;
  }

  lemma FactorAtMostOne(g: nat, h: nat)
    requires g > 0 && g * h <= g
    ensures h <= 1
  {
  }

  lemma ExactQuotient(g: nat, k: nat)
    requires g > 0
    ensures (g * k) % g == 0 && (g * k) / g == k
  {
    var q, r := (g * k) / g, (g * k) % g;
    assert (k - q) * g == r;
    NoMultipleBelow(k - q, g);
  }

  lemma NoMultipleBelow(d: int, g: nat)
    requires g > 0 && 0 <= d * g < g
    ensures d == 0
  {
  }

  lemma MulAssocNat(a: nat, b: nat, c: nat)
    ensures a * (b * c) == (a * b) * c
  {
  }

  lemma GcdGreatestAll(a: nat, b: nat)
    ensures forall c: nat :: Divides(c, a) && Divides(c, b) ==> Divides(c, Gcd(a, b))
  {
    forall c: nat | Divides(c, a) && Divides(c, b)
      ensures Divides(c, Gcd(a, b))
    {
      GcdGreatest(a, b, c);
    }
  }

  /** `Gcd(long, long)`: a negative argument is negated without overflow
    * checking, which maps long.MinValue to 2^63 once reinterpreted as
    * unsigned, so the magnitude is exact; the magnitudes then go through
    * `Gcd(ulong, ulong)` as written. */
  method SignedGcd(a: int, b: int) returns (r: Result<nat>)
    requires InLong(a) && InLong(b)
    ensures r == LongGcd(a, b)
  {
    var ua := if a < 0 then -a else a;
    var ub := if b < 0 then -b else b;
    r := BinaryGcd(ua, ub);
  }

  lemma {:induction false} PowersOfTwo(n: nat)
    ensures Power(2, n) >= 1 && CommonTwos(Power(2, n), Power(2, n + 1)) == n
    ensures Power(2, n) >= 1 && OddGcdPart(Power(2, n), Power(2, n + 1)) == 1
  {
    PowerPositive(n);
    if n > 0 {
      PowersOfTwo(n - 1);
      assert Power(2, n) / 2 == Power(2, n - 1);
      assert Power(2, n + 1) / 2 == Power(2, n);
    } else {
      assert Gcd(1, 2) == Gcd(1, 1) == 1;
    }
  }

  lemma {:induction false} PowerPositive(n: nat)
    ensures Power(2, n) >= 1
  {
    if n > 0 {
      PowerPositive(n - 1);
    }
  }

  lemma Power2To32()
    ensures Power(2, 32) == 0x1_0000_0000 && Power(2, 33) == 0x2_0000_0000
  {
    PowerAdds(2, 16, 16);
    PowerAdds(2, 8, 8);
    PowerAdds(2, 4, 4);
    PowerAdds(2, 2, 2);
    assert Power(2, 2) == 4;
  }

  lemma {:induction false} PowerAdds(b: int, m: nat, n: nat)
    ensures Power(b, m + n) == Power(b, m) * Power(b, n)
  {
    if m > 0 {
      PowerAdds(b, m - 1, n);
      assert Power(b, m + n) == b * Power(b, m - 1 + n);
    }
  }

  /** With 2^32 and 2^33 the common factor 2^32 is lost: `1u << 32` is 1. */
  lemma GcdShiftTruncation()
    ensures Gcd(0x1_0000_0000, 0x2_0000_0000) == 0x1_0000_0000
    ensures UnsignedGcdAsWritten(0x1_0000_0000, 0x2_0000_0000) == 1
  {
    Power2To32();
    PowersOfTwo(32);
    GcdSplitsTwos(0x1_0000_0000, 0x2_0000_0000);
  }

  /** As long as fewer than 32 factors of two are shared, the source's
    * result is the greatest common divisor. */
  lemma GcdAsWrittenAgrees(a: nat, b: nat)
    requires 0 < a < TwoTo64 && 0 < b
    requires CommonTwos(a, b) < 32
    ensures UnsignedGcdAsWritten(a, b) == Gcd(a, b)
  {
    var d := CommonTwos(a, b);
    assert Gcd(a, b) < TwoTo64 by {
      GcdDividesBoth(a, b);
      DividesBound(Gcd(a, b), a);
    }
    calc {
      UnsignedGcdAsWritten(a, b);
      (OddGcdPart(a, b) * Power(2, d % 32)) % TwoTo64;
      { assert d % 32 == d; }
      (OddGcdPart(a, b) * Power(2, d)) % TwoTo64;
      { GcdSplitsTwos(a, b); }
      Gcd(a, b) % TwoTo64;
    }
  }
}
