// The 64-bit signed integer arithmetic of C#: checked operations that raise
// an overflow instead of wrapping, and division that truncates toward zero.
module Int64 {
  import opened Results

  const MinLong: int := -0x8000_0000_0000_0000
  const MaxLong: int := 0x7FFF_FFFF_FFFF_FFFF

  predicate InLong(v: int) { MinLong <= v <= MaxLong }

  /** `checked(-v)` */
  function CheckedNeg(v: int): (r: Result<int>)
    ensures r.Ok? <==> InLong(-v)
    ensures r.Ok? ==> r.value == -v
  {
    if InLong(-v) then Ok(-v) else Err(Overflow)
  }

  /** `checked(a + b)` */
  function CheckedAdd(a: int, b: int): (r: Result<int>)
    ensures r.Ok? <==> InLong(a + b)
    ensures r.Ok? ==> r.value == a + b
  {
    if InLong(a + b) then Ok(a + b) else Err(Overflow)
  }

  /** `checked(a - b)` */
  function CheckedSub(a: int, b: int): (r: Result<int>)
    ensures r.Ok? <==> InLong(a - b)
    ensures r.Ok? ==> r.value == a - b
  {
    if InLong(a - b) then Ok(a - b) else Err(Overflow)
  }

  /** `checked(a * b)` */
  function CheckedMul(a: int, b: int): (r: Result<int>)
    ensures r.Ok? <==> InLong(a * b)
    ensures r.Ok? ==> r.value == a * b
  {
    if InLong(a * b) then Ok(a * b) else Err(Overflow)
  }

  function Abs(v: int): nat { if v < 0 then -v else v }

  function NatDiv(x: nat, y: nat): (q: nat)
    requires y > 0
    ensures q == x / y
  {
    x / y
  }

  function NatMod(x: nat, y: nat): (m: nat)
    requires y > 0
    ensures m == x % y
  {
    x % y
  }

  /** C# integer division: the quotient is truncated toward zero. */
  function TruncDiv(a: int, b: int): (q: int)
    requires b != 0
    ensures Abs(q) == Abs(a) / Abs(b)
  {
    var m: int := NatDiv(Abs(a), Abs(b));
    if (a < 0) == (b < 0) then m else -m
  }

  /** C# remainder: it takes the sign of the dividend. */
  function TruncRem(a: int, b: int): (r: int)
    requires b != 0
    ensures Abs(r) == Abs(a) % Abs(b)
  {
    var m: int := NatMod(Abs(a), Abs(b));
    if a < 0 then -m else m
  }

  /** Quotient and remainder recompose the dividend. */
  lemma {:induction false} TruncDivRem(a: int, b: int)
    requires b != 0
    ensures a == TruncDiv(a, b) * b + TruncRem(a, b)
  {
    var q: int, r: int, m: int := Abs(a) / Abs(b), Abs(a) % Abs(b), Abs(b);
    assert Abs(a) == q * m + r;
    if a < 0 && b < 0 {
      assert TruncDiv(a, b) == q && b == -m;
    } else if a < 0 {
      assert TruncDiv(a, b) == -q && b == m;
    } else if b < 0 {
      assert TruncDiv(a, b) == -q && b == -m;
    } else {
      assert TruncDiv(a, b) == q && b == m;
    }
  }

  /** Dividing by a divisor of magnitude at least two shrinks the magnitude. */
  lemma TruncDivShrinks(a: int, b: int)
    requires Abs(b) >= 2 && a != 0
    ensures Abs(TruncDiv(a, b)) < Abs(a)
  {
    var x: nat, y: nat := Abs(a), Abs(b);
    assert x / y <= x / 2 by { DivAtLeastTwo(x, y); }
  }

  /** A long divided by at least two stays a long. */
  lemma TruncDivInLong(a: int, b: int)
    requires InLong(a) && b >= 2
    ensures InLong(TruncDiv(a, b))
  {
    if a != 0 {
      TruncDivShrinks(a, b);
    }
  }

  lemma DivAtLeastTwo(x: nat, y: nat)
    requires y >= 2
    ensures x / y <= x / 2
  {
    var q := x / y;
    assert q * y <= x;
    assert q * 2 <= q * y;
  }

  /** Mathematical power with a natural exponent. */
  function Power(b: int, e: nat): int
  {
    if e == 0 then 1 else b * Power(b, e - 1)
  }

  /** `MathUtil.Pow(long, long)`, whose body is not part of this model: it
    * yields the exact power when the exponent is not negative and the power
    * fits in a long, and raises an overflow otherwise. */
  function CheckedPow(b: int, e: int): (r: Result<int>)
    ensures r.Ok? ==> e >= 0 && r.value == Power(b, e) && InLong(r.value)
    ensures e >= 0 && InLong(Power(b, e)) ==> r.Ok?
    ensures r.Err? ==> r.error == Overflow
  {
    if e < 0 then Err(Overflow)
    else if InLong(Power(b, e)) then Ok(Power(b, e))
    else Err(Overflow)
  }
}
