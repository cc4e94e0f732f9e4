// The integer loop inside TryMergePowerMultiplication: it divides the
// number multiplying a power by the power's base for as long as the
// division is exact and the number exceeds one.
module PowerMerging {
  import opened Results
  import opened Int64

  /** The remaining factor and the number of exact divisions. A base of
    * zero raises DivideByZero and a base of one never stops dividing. */
  function DivideOut(na: int, nb: int): (r: Result<(int, nat)>)
    ensures r.Ok? && r.value.1 == 0 ==> r.value.0 == na
    ensures r.Ok? && r.value.1 > 0 ==> r.value.1 <= na && Abs(r.value.0) <= na
    ensures r.Err? ==> na > 1 && (nb == 0 || nb == 1)
    decreases if na > 1 then na else 0
  {
    if na <= 1 then Ok((na, 0))
    else if nb == 0 then Err(DivideByZero)
    else if nb == 1 then Err(Diverges)
    else if TruncRem(na, nb) != 0 then Ok((na, 0))
    else
      var q := TruncDiv(na, nb);
      assert q < na && Abs(q) <= na by {
        if nb != -1 { TruncDivShrinks(na, nb); }
      }
      match DivideOut(q, nb)
      case Err(e) => Err(e)
      case Ok((rest, n)) => Ok((rest, n + 1))
  }

  /** The original number is the remaining factor times the base raised to
    * the number of divisions. */
  lemma {:induction false} DivideOutFactors(na: int, nb: int)
    requires DivideOut(na, nb).Ok?
    ensures var (rest, n) := DivideOut(na, nb).value; na == rest * Power(nb, n)
    decreases if na > 1 then na else 0
  {
    if na > 1 && TruncRem(na, nb) == 0 {
      var q := TruncDiv(na, nb);
      TruncDivRem(na, nb);
      if nb != -1 {
        TruncDivShrinks(na, nb);
      }
      DivideOutFactors(q, nb);
      var (rest, n) := DivideOut(q, nb).value;
      calc {
        na;
        q * nb;
        (rest * Power(nb, n)) * nb;
        { MulAssoc(rest, Power(nb, n), nb); }
        rest * (Power(nb, n) * nb);
        rest * Power(nb, n + 1);
      }
    }
  }

  lemma MulAssoc(a: int, b: int, c: int)
    ensures (a * b) * c == a * (b * c)
  {
  }

  /** The loop as written: `while (na > 1 && DivRem(na, nb) is exact)`. */
  method DivideOutLoop(x: int, nb: int) returns (r: Result<(int, nat)>)
    ensures r == DivideOut(x, nb)
  {
    var na := x;
    var n: nat := 0;
    while na > 1 && nb != 0 && nb != 1 && TruncRem(na, nb) == 0
      invariant DivideOut(x, nb) == match DivideOut(na, nb)
        case Ok((rest, m)) => Ok((rest, m + n))
        case Err(e) => Err(e)
      decreases if na > 1 then na else 0
    {
      TruncDivRem(na, nb);
      if nb != -1 {
        TruncDivShrinks(na, nb);
      }
      na := TruncDiv(na, nb);
      n := n + 1;
    }
    if na > 1 && nb == 0 {
      return Err(DivideByZero);
    }
    if na > 1 && nb == 1 {
      return Err(Diverges);
    }
    r := Ok((na, n));
  }

  /** Whether the source keeps the remaining factor next to the merged
    * power: only when it exceeds one. */
  predicate KeepsFactorAsWritten(rest: int) { rest > 1 }

  /** The factor is needed whenever it is not one. */
  predicate KeepsFactor(rest: int) { rest != 1 }

  /** With the corrected test, the merged product `rest · b^(n+e)` equals the
    * original `x · b^e`: the dropped factor is always one. */
  lemma {:induction false} MergeKeepsValue(x: int, nb: int)
    requires DivideOut(x, nb).Ok?
    ensures var (rest, n) := DivideOut(x, nb).value;
      x == (if KeepsFactor(rest) then rest else 1) * Power(nb, n)
  {
    DivideOutFactors(x, nb);
  }

  /** For a base of at least two the source's test loses nothing: once a
    * division has happened the remaining factor is positive, so "above one"
    * and "not one" agree, and the merged product keeps the value. */
  lemma MergeAsWrittenKeepsValue(x: int, nb: int)
    requires nb >= 2 && DivideOut(x, nb).Ok? && DivideOut(x, nb).value.1 > 0
    ensures var (rest, n) := DivideOut(x, nb).value;
      KeepsFactorAsWritten(rest) == KeepsFactor(rest)
      && x == (if KeepsFactorAsWritten(rest) then rest else 1) * Power(nb, n)
  {
    var (rest, n) := DivideOut(x, nb).value;
    DivideOutFactors(x, nb);
    MergeKeepsValue(x, nb);
    PowerAtLeastOne(nb, n);
  }

  lemma {:induction false} PowerAtLeastOne(b: int, n: nat)
    requires b >= 1
    ensures Power(b, n) >= 1
  {
    if n > 0 {
      PowerAtLeastOne(b, n - 1);
      assert b * Power(b, n - 1) >= 1 * Power(b, n - 1);
    }
  }

  /** As written, 8 · (-2)^t loses the factor -4: the loop divides once,
    * leaves -4, and -4 is not above one. */
  lemma NegativeBaseDropsFactor()
    ensures DivideOut(8, -2) == Ok((-4, 1))
    ensures !KeepsFactorAsWritten(-4) && KeepsFactor(-4)
    ensures 8 != 1 * Power(-2, 1)
  {
    assert TruncRem(8, -2) == 0 && TruncDiv(8, -2) == -4;
    assert DivideOut(-4, -2) == Ok((-4, 0));
  }
}
