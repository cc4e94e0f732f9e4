// The text form of an expression: the ToString overrides of the node
// classes. A root whose index is not a literal has no symbol in the binary
// operator table, and the lookup fails with KeyNotFound.
module Rendering {
  import opened Results
  import opened Expressions

  // ---- Numbers in decimal ----

  predicate IsDigit(c: char) { '0' <= c <= '9' }

  function DigitChar(d: nat): (c: char)
    requires d < 10
    ensures IsDigit(c) && c as int - '0' as int == d
  {
    ('0' as int + d) as char
  }

  /** The decimal digits of n, without leading zeros. */
  function NatToString(n: nat): (s: string)
    ensures 1 <= |s| && forall i :: 0 <= i < |s| ==> IsDigit(s[i])
    ensures |s| > 1 ==> s[0] != '0'
    decreases n
  {
    if n < 10 then [DigitChar(n)] else NatToString(n / 10) + [DigitChar(n % 10)]
  }

  function DigitValue(c: char): (d: nat)
    requires IsDigit(c)
    ensures d < 10
  {
    c as int - '0' as int
  }

  /** The value of a string of decimal digits. */
  function DigitsValue(s: string): nat
    requires forall i :: 0 <= i < |s| ==> IsDigit(s[i])
  {
    if |s| == 0 then 0
    else DigitsValue(s[..|s| - 1]) * 10 + DigitValue(s[|s| - 1])
  }

  lemma {:induction false} NatToStringRoundTrip(n: nat)
    ensures DigitsValue(NatToString(n)) == n
    decreases n
  {
    if n >= 10 {
      NatToStringRoundTrip(n / 10);
      var s := NatToString(n);
      assert s[..|s| - 1] == NatToString(n / 10);
    }
  }

  /** The number's text: its decimal digits, after a minus sign when it is
    * negative. */
  function IntToString(v: int): (s: string)
    ensures v < 0 <==> |s| > 0 && s[0] == '-'
  {
    if v < 0 then "-" + NatToString(-v) else NatToString(v)
  }

  /** Reading the text back: an optional minus sign, then digits. */
  function ParseInt(s: string): Option<int>
  {
    if |s| > 0 && s[0] == '-' then
      if |s| > 1 && forall i :: 1 <= i < |s| ==> IsDigit(s[i]) then
        var m: int := DigitsValue(s[1..]);
        Some(-m)
      else None
    else if |s| > 0 && forall i :: 0 <= i < |s| ==> IsDigit(s[i]) then Some(DigitsValue(s))
    else None
  }

  lemma IntToStringRoundTrip(v: int)
    ensures ParseInt(IntToString(v)) == Some(v)
  {
    if v < 0 {
      NatToStringRoundTrip(-v);
      assert IntToString(v)[1..] == NatToString(-v);
    } else {
      NatToStringRoundTrip(v);
    }
  }

  // ---- Nodes ----

  /** The trees that render: every root index is a literal number. */
  predicate Renderable(e: Expr)
  {
    match e
    case Unary(_, x) => Renderable(x)
    case Binary(op, x, y) => Renderable(x) && Renderable(y) && (op == Root ==> y.Number?)
    case Variadic(_, xs) => forall x :: x in xs ==> Renderable(x)
    case _ => true
  }

  /** The first operand is parenthesised when it needs parentheses and is
    * not a binary operation or binds more loosely than `op`. */
  predicate FirstNeedsParentheses(op: BinaryOperator, x: Expr)
  {
    NeedsParentheses(x) && (!IsOperation(x) || BinaryPrecedence(x.bop) > BinaryPrecedence(op))
  }

  /** The second operand is parenthesised also at equal precedence. */
  predicate SecondNeedsParentheses(op: BinaryOperator, y: Expr)
  {
    NeedsParentheses(y) && (!IsOperation(y) || BinaryPrecedence(y.bop) >= BinaryPrecedence(op))
  }

  function ToString(e: Expr): (r: Result<string>)
    ensures r.Ok? <==> Renderable(e)
    ensures r.Err? ==> r.error == KeyNotFound
    decreases e, 1
  {
    match e
    case Number(v) => Ok(IntToString(v))
    case Constant(c) => Ok(ConstantName(c))
    case Variable(n) => Ok(n)
    case Unary(op, x) =>
      var s :- ToString(x);
      if op == Abs then Ok("|" + s + "|")
      else
        var symbol := UnarySymbol(op).value;
        Ok(if IsFunction(op) || NeedsParentheses(x) then symbol + "(" + s + ")" else symbol + s)
    case Binary(op, x, y) =>
      var p1 := FirstNeedsParentheses(op, x);
      if op == Root && y.Number? && 2 <= y.value <= 4 then
        var s :- ToString(x);
        var glyph := if y.value == 2 then "√" else if y.value == 3 then "∛" else "∜";
        Ok(if p1 then glyph + "(" + s + ")" else glyph + s)
      else if op == Root && y.Number? then
        var s :- ToString(x);
        Ok("root(" + s + ", " + IntToString(y.value) + ")")
      else if op == Root then Err(KeyNotFound)
      else
        var symbol := BinarySymbol(op).value;
        var s :- ToString(x);
        var t :- ToString(y);
        var left := if p1 then "(" + s + ") " else s;
        var right := if SecondNeedsParentheses(op, y) then " (" + t + ")" else t;
        Ok(left + symbol + right)
    case Variadic(op, xs) =>
      var parts :- RenderAll(xs);
      Ok(Join(VariadicSeparator(op), parts))
  }

  /** The text of every operand, or the first failure. */
  function RenderAll(xs: seq<Expr>): (r: Result<seq<string>>)
    ensures r.Ok? <==> forall x :: x in xs ==> Renderable(x)
    ensures r.Ok? ==> |r.value| == |xs|
    ensures r.Ok? ==> forall i :: 0 <= i < |xs| ==> ToString(xs[i]) == Ok(r.value[i])
    ensures r.Err? ==> r.error == KeyNotFound
    decreases xs, 0
  {
    if xs == [] then Ok([])
    else
      assert forall x :: x in xs ==> x == xs[0] || x in xs[1..];
      match ToString(xs[0])
      case Err(e) =>
        assert xs[0] in xs;
        Err(e)
      case Ok(head) =>
        match RenderAll(xs[1..])
        case Err(e) =>
          assert forall x :: x in xs[1..] ==> x in xs;
          Err(e)
        case Ok(rest) =>
          assert forall i :: 1 <= i < |xs| ==> xs[i] == xs[1..][i - 1];
          Ok([head] + rest)
  }

  /** string.Join. */
  function Join(separator: string, parts: seq<string>): string
  {
    if |parts| == 0 then ""
    else if |parts| == 1 then parts[0]
    else parts[0] + separator + Join(separator, parts[1..])
  }

  // ---- What the text looks like ----

  /** Constants and variables render as their names. */
  lemma RenderNames(c: ConstantId, n: string)
    ensures ToString(Constant(c)) == Ok(ConstantName(c))
    ensures ToString(Variable(n)) == Ok(n)
  {
  }

  /** A number renders as text that reads back as its value. */
  lemma RenderNumber(v: int)
    ensures ToString(Number(v)).Ok?
    ensures ParseInt(ToString(Number(v)).value) == Some(v)
  {
    IntToStringRoundTrip(v);
  }

  /** |x|; a function name before its parenthesised operand; a prefix
    * sign before its operand, parenthesised only when the operand needs
    * parentheses. */
  lemma RenderUnary(x: Expr, n: string)
    requires Renderable(x)
    ensures ToString(Unary(Abs, x)) == Ok("|" + ToString(x).value + "|")
    ensures ToString(Unary(Sin, x)) == Ok("sin" + "(" + ToString(x).value + ")")
    ensures !NeedsParentheses(x) ==> ToString(Unary(Minus, x)) == Ok("-" + ToString(x).value)
    ensures NeedsParentheses(x) ==> ToString(Unary(Minus, x)) == Ok("-" + "(" + ToString(x).value + ")")
  {
  }

  /** Roots of index 2, 3 and 4 use the radical signs; other literal indices
    * use root(x, n); a non-literal index fails. */
  lemma RenderRoots(n: string, k: int, y: Expr)
    requires !y.Number?
    ensures ToString(Binary(Root, Variable(n), Number(2))) == Ok("√" + n)
    ensures ToString(Binary(Root, Variable(n), Number(3))) == Ok("∛" + n)
    ensures ToString(Binary(Root, Variable(n), Number(4))) == Ok("∜" + n)
    ensures !(2 <= k <= 4) ==> ToString(Binary(Root, Variable(n), Number(k))) == Ok("root(" + n + ", " + IntToString(k) + ")")
    ensures ToString(Binary(Root, Variable(n), y)) == Err(KeyNotFound)
  {
  }

  /** Operators of equal precedence group to the left: a left-nested operand
    * is not parenthesised, a right-nested one is. */
  lemma RenderGroupsLeft(op: BinaryOperator, op2: BinaryOperator, a: Expr, b: Expr, c: Expr)
    requires BinaryPrecedence(op) == BinaryPrecedence(op2)
    ensures !FirstNeedsParentheses(op, Binary(op2, a, b))
    ensures SecondNeedsParentheses(op, Binary(op2, b, c))
  {
  }

  /** A sum inside a product is parenthesised on either side. */
  lemma RenderSumInProduct(x: string, y: string, z: string)
    ensures ToString(Binary(Multiplication, Binary(Addition, Variable(x), Variable(y)), Variable(z)))
      == Ok("(" + (x + "+" + y) + ") " + "×" + z)
  {
    assert ToString(Binary(Addition, Variable(x), Variable(y))) == Ok(x + "+" + y);
  }

  /** A variadic node joins its operands' texts with " + " or " × ". */
  lemma RenderVariadic(x: string, y: string, z: string)
    ensures ToString(Variadic(Sum, [Variable(x), Variable(y), Variable(z)])) == Ok(x + " + " + (y + " + " + z))
  {
    var xs := [Variable(x), Variable(y), Variable(z)];
    assert [Variable(z)][1..] == [];
    assert RenderAll([]) == Ok([]);
    assert ToString(Variable(z)) == Ok(z);
    assert [z] + [] == [z];
    assert RenderAll([Variable(z)]) == Ok([z]);
    assert ToString(Variable(y)) == Ok(y);
    assert ToString(Variable(x)) == Ok(x);
    assert [Variable(y), Variable(z)][1..] == [Variable(z)];
    assert [y] + [z] == [y, z];
    assert RenderAll([Variable(y), Variable(z)]) == Ok([y, z]);
    assert xs[1..] == [Variable(y), Variable(z)];
    assert [x] + [y, z] == [x, y, z];
    assert RenderAll(xs) == Ok([x, y, z]);
    assert Join(" + ", [z]) == z;
    assert Join(" + ", [y, z]) == y + " + " + z;
  }
}
