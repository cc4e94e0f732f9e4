// SymbolicExpressionComparer: the order in which the n-ary rules would sort
// operands. Nodes compare by rank first; equal ranks fall back to the
// payloads of numbers, constants and variables, and every other pair of
// equal rank compares equal. Only the sign of a result is modelled.
module Comparer {
  import opened Results
  import opened Expressions

  /** Comparer<T>.Default.Compare on integers, as a sign. */
  function Order(a: int, b: int): (r: int)
    ensures -1 <= r <= 1
    ensures r < 0 <==> a < b
    ensures r == 0 <==> a == b
  {
    if a < b then -1 else if a == b then 0 else 1
  }

  /** StringComparer.Ordinal: character codes in order, then length. */
  function OrdinalCompare(a: string, b: string): (r: int)
    ensures -1 <= r <= 1
    ensures r == 0 <==> a == b
    decreases |a|
  {
    if |a| == 0 || |b| == 0 then Order(|a|, |b|)
    else if a[0] != b[0] then Order(a[0] as int, b[0] as int)
    else
      var r := OrdinalCompare(a[1..], b[1..]);
      assert a == [a[0]] + a[1..] && b == [b[0]] + b[1..];
      r
  }

  lemma {:induction false} OrdinalAntisymmetric(a: string, b: string)
    ensures OrdinalCompare(a, b) == -OrdinalCompare(b, a)
    decreases |a|
  {
    if |a| > 0 && |b| > 0 && a[0] == b[0] {
      OrdinalAntisymmetric(a[1..], b[1..]);
    }
  }

  /** The decimal approximations of two constants; a constant without one
    * sorts first, as a null value does. */
  function CompareApproximation(a: Option<int>, b: Option<int>): (r: int)
    ensures -1 <= r <= 1
    ensures r == 0 <==> a == b
    ensures a.None? && b.Some? ==> r < 0
  {
    match (a, b)
    case (None, None) => 0
    case (None, Some(_)) => -1
    case (Some(_), None) => 1
    case (Some(x), Some(y)) => Order(x, y)
  }

  /** UnwrapFactors: a binary multiplication whose first operand is a
    * number stands for its second operand. It tests IsBinaryOperation,
    * which no node answers true to. */
  function UnwrapFactors(x: Expr): (r: Expr)
    ensures r == x
  {
    match x
    case Binary(Multiplication, Number(_), second) => if IsBinaryOperation(x) then second else x
    case _ => x
  }

  function CompareUnwrapped(x: Expr, y: Expr): (r: int)
    ensures -1 <= r <= 1
    ensures x.Number? && y.Number? ==> (r < 0 <==> x.value < y.value) && (r == 0 <==> x.value == y.value)
    ensures x.Variable? && y.Variable? ==> (r == 0 <==> x.name == y.name)
    ensures Kind(x) != Kind(y) ==> r == 0
    ensures x.Unary? || x.Binary? || x.Variadic? ==> r == 0
  {
    if Kind(x) != Kind(y) then 0
    else
      match x
      case Number(a) => Order(a, y.value)
      case Constant(a) => CompareApproximation(ConstantApproximation(a), ConstantApproximation(y.id))
      case Variable(a) => OrdinalCompare(a, y.name)
      case _ => 0
  }

  function Compare(x: Expr, y: Expr): (r: int)
    ensures -1 <= r <= 1
    ensures Rank(x) != Rank(y) ==> r == Order(Rank(x), Rank(y))
  {
    var result := Order(Rank(x), Rank(y));
    if result != 0 then result
    else
      var (ux, uy) := (UnwrapFactors(x), UnwrapFactors(y));
      var unwrapped := Order(Rank(ux), Rank(uy));
      if unwrapped != 0 then unwrapped else CompareUnwrapped(ux, uy)
  }

  /** Every node compares equal to itself. */
  lemma CompareReflexive(x: Expr)
    ensures Compare(x, x) == 0
  {
  }

  /** Swapping the arguments flips the sign. */
  lemma CompareAntisymmetric(x: Expr, y: Expr)
    ensures Compare(x, y) == -Compare(y, x)
  {
    if Rank(x) == Rank(y) && Kind(x) == Kind(y) && x.Variable? {
      OrdinalAntisymmetric(x.name, y.name);
    }
  }

  /** Nodes of the same kind compare by payload: numbers by value, variables
    * by name, constants with 𝑖 before 𝑒 before π. */
  lemma ComparePayloads(a: int, b: int, m: string, n: string)
    ensures Compare(Number(a), Number(b)) < 0 <==> a < b
    ensures Compare(Variable(m), Variable(n)) == 0 <==> m == n
    ensures Compare(Constant(I), Constant(E)) < 0 && Compare(Constant(E), Constant(Pi)) < 0
  {
  }

  /** Two operations of the same rank compare equal whatever their operands:
    * the unwrapping step that would look inside products never fires. */
  lemma OperationsOfSameRankTie(x: Expr, y: Expr)
    requires x.Unary? || x.Binary? || x.Variadic?
    requires Rank(x) == Rank(y)
    ensures Compare(x, y) == 0
  {
  }

  /** 2·x and x·y compare equal although their second operands differ. */
  lemma UnwrapIsDead(x: Expr, y: Expr)
    requires Kind(x) != Kind(y)
    ensures Compare(Binary(Multiplication, Number(2), x), Binary(Multiplication, x, y)) == 0
  {
  }

  lemma {:induction false} OrdinalTransitive(a: string, b: string, c: string)
    requires OrdinalCompare(a, b) <= 0 && OrdinalCompare(b, c) <= 0
    ensures OrdinalCompare(a, c) <= 0
    decreases |a|
  {
    if |a| > 0 && |b| > 0 && |c| > 0 && a[0] == b[0] && b[0] == c[0] {
      OrdinalTransitive(a[1..], b[1..], c[1..]);
    }
  }

  /** The comparison is a total preorder, as sorting requires: it is
    * transitive as well as reflexive and antisymmetric. */
  lemma CompareTransitive(x: Expr, y: Expr, z: Expr)
    requires Compare(x, y) <= 0 && Compare(y, z) <= 0
    ensures Compare(x, z) <= 0
  {
    if Rank(x) == Rank(y) == Rank(z) && x.Variable? {
      OrdinalTransitive(x.name, y.name, z.name);
    }
  }
}
