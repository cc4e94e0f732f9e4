// The expression tree of SolidSharp.Expressions: the node kinds, their
// operators and constants, the flags every node answers through
// IExpression, and the invariants the node constructors enforce.
module Expressions {
  import opened Results
  import Int64

  /** UnaryOperator, whose byte values are 0, 1 and 128 to 132. */
  datatype UnaryOperator = Plus | Minus | Abs | Sin | Cos | Tan | Ln

  function UnaryCode(op: UnaryOperator): nat
  {
    match op
    case Plus => 0
    case Minus => 1
    case Abs => 128
    case Sin => 129
    case Cos => 130
    case Tan => 131
    case Ln => 132
  }

  /** Operators coded from 128 on are mathematical functions. */
  function IsFunction(op: UnaryOperator): (r: bool)
    ensures r <==> op != Plus && op != Minus
  {
    UnaryCode(op) >= 128
  }

  /** The operator table of UnaryOperationExpression; `Abs` has no entry. */
  function UnarySymbol(op: UnaryOperator): Option<string>
  {
    match op
    case Plus => Some("+")
    case Minus => Some("-")
    case Abs => None
    case Sin => Some("sin")
    case Cos => Some("cos")
    case Tan => Some("tan")
    case Ln => Some("ln")
  }

  datatype BinaryOperator = Addition | Subtraction | Multiplication | Division | Power | Root

  /** Lower binds tighter. */
  function BinaryPrecedence(op: BinaryOperator): nat
  {
    match op
    case Addition => 3
    case Subtraction => 3
    case Multiplication => 2
    case Division => 2
    case Power => 1
    case Root => 1
  }

  /** The operator table of BinaryOperationExpression; `Root` has no entry. */
  function BinarySymbol(op: BinaryOperator): Option<string>
  {
    match op
    case Addition => Some("+")
    case Subtraction => Some("-")
    case Multiplication => Some("×")
    case Division => Some("∕")
    case Power => Some("^")
    case Root => None
  }

  /** VariadicOperator: `Sum` is its Addition and `Product` its Multiplication. */
  datatype VariadicOperator = Sum | Product

  function VariadicPrecedence(op: VariadicOperator): nat
  {
    match op
    case Sum => 3
    case Product => 2
  }

  function VariadicSeparator(op: VariadicOperator): string
  {
    match op
    case Sum => " + "
    case Product => " × "
  }

  /** The three named constants π, 𝑒 and 𝑖. */
  datatype ConstantId = Pi | E | I

  function ConstantName(c: ConstantId): string
  {
    match c
    case Pi => "π"
    case E => "𝑒"
    case I => "𝑖"
  }

  /** The stored decimal approximation, exactly, as an integer count of
    * 10^-28; 𝑖 has none. */
  function ConstantApproximation(c: ConstantId): Option<int>
  {
    match c
    case Pi => Some(31415926535897932384626433833)
    case E => Some(27182818284590452353602874714)
    case I => None
  }

  function ConstantSortOrder(c: ConstantId): nat
  {
    match c
    case Pi => 1
    case E => 2
    case I => 0
  }

  /** A symbolic expression. A number carries a 64-bit signed payload. */
  datatype Expr =
    | Number(value: int)
    | Constant(id: ConstantId)
    | Variable(name: string)
    | Unary(uop: UnaryOperator, operand: Expr)
    | Binary(bop: BinaryOperator, first: Expr, second: Expr)
    | Variadic(vop: VariadicOperator, operands: seq<Expr>)

  datatype ExpressionKind =
    | VariableKind | ConstantKind | NumberKind
    | UnaryOperationKind | BinaryOperationKind | CommutativeOperationKind

  function Kind(e: Expr): ExpressionKind
  {
    match e
    case Number(_) => NumberKind
    case Constant(_) => ConstantKind
    case Variable(_) => VariableKind
    case Unary(_, _) => UnaryOperationKind
    case Binary(_, _, _) => BinaryOperationKind
    case Variadic(_, _) => CommutativeOperationKind
  }

  /** GetSortOrder: the rank by which operands are ordered. */
  function Rank(e: Expr): (r: nat)
    ensures r <= 9
    ensures e.Binary? ==> r >= 4
    ensures r == 4 <==> IsAddition(e)
    ensures r == 6 <==> IsMultiplication(e)
  {
    match e
    case Number(_) => 0
    case Constant(_) => 1
    case Variable(_) => 2
    case Unary(_, _) => 3
    case Binary(op, _, _) => BinaryRank(op)
    case Variadic(op, _) => if op == Sum then 4 else 6
  }

  function BinaryRank(op: BinaryOperator): nat
  {
    match op
    case Addition => 4
    case Subtraction => 5
    case Multiplication => 6
    case Division => 7
    case Root => 8
    case Power => 9
  }

  /** The rank of every kind of node: numbers, constants, variables and
    * unary nodes first, then the binary operators, with a variadic sum or
    * product ranked as its binary counterpart. */
  lemma RankTable(v: int, c: ConstantId, n: string, u: UnaryOperator, x: Expr, y: Expr, xs: seq<Expr>)
    ensures Rank(Number(v)) == 0 && Rank(Constant(c)) == 1 && Rank(Variable(n)) == 2 && Rank(Unary(u, x)) == 3
    ensures Rank(Binary(Addition, x, y)) == 4 && Rank(Binary(Subtraction, x, y)) == 5
    ensures Rank(Binary(Multiplication, x, y)) == 6 && Rank(Binary(Division, x, y)) == 7
    ensures Rank(Binary(Root, x, y)) == 8 && Rank(Binary(Power, x, y)) == 9
    ensures Rank(Variadic(Sum, xs)) == 4 && Rank(Variadic(Product, xs)) == 6
  {
  }

  // The IExpression flags, node kind by node kind.

  /** Only binary nodes call themselves operations. */
  predicate IsOperation(e: Expr) { e.Binary? }

  /** Binary nodes answer true here as well as unary ones. */
  predicate IsUnaryOperation(e: Expr) { e.Unary? || e.Binary? }

  /** No node answers true, binary nodes included. */
  predicate IsBinaryOperation(e: Expr)
  {
    match e
    case Binary(_, _, _) => false
    case _ => false
  }

  predicate IsVariadicOperation(e: Expr) { e.Variadic? }

  predicate NeedsParentheses(e: Expr)
  {
    match e
    case Unary(op, _) => !IsFunction(op)
    case Binary(_, _, _) => true
    case Variadic(_, _) => true
    case _ => false
  }

  predicate IsNegation(e: Expr) { e.Unary? && e.uop == Minus }
  predicate IsAbsoluteValue(e: Expr) { e.Unary? && e.uop == Abs }
  predicate IsMathematicalFunction(e: Expr) { e.Unary? && IsFunction(e.uop) }

  predicate IsAddition(e: Expr)
  {
    (e.Binary? && e.bop == Addition) || (e.Variadic? && e.vop == Sum)
  }

  predicate IsMultiplication(e: Expr)
  {
    (e.Binary? && e.bop == Multiplication) || (e.Variadic? && e.vop == Product)
  }

  predicate IsSubtraction(e: Expr) { e.Binary? && e.bop == Subtraction }
  predicate IsDivision(e: Expr) { e.Binary? && e.bop == Division }
  predicate IsPower(e: Expr) { e.Binary? && e.bop == Power }
  predicate IsRoot(e: Expr) { e.Binary? && e.bop == Root }

  predicate IsNumber(e: Expr) { e.Number? }
  predicate IsPositiveNumber(e: Expr) { e.Number? && e.value > 0 }
  predicate IsNegativeNumber(e: Expr) { e.Number? && e.value < 0 }
  predicate IsOddNumber(e: Expr) { e.Number? && e.value % 2 == 1 }
  predicate IsEvenNumber(e: Expr) { e.Number? && e.value % 2 == 0 }
  predicate IsVariable(e: Expr) { e.Variable? }
  predicate IsConstant(e: Expr) { e.Constant? }

  /** Numbers from -128 to 127 are interned, so the reference tests against
    * the cached Zero, One and MinusOne are tests on the value. */
  predicate IsZero(e: Expr) { e == Number(0) }
  predicate IsOne(e: Expr) { e == Number(1) }
  predicate IsMinusOne(e: Expr) { e == Number(-1) }

  function GetPrecedence(e: Expr): (r: Result<nat>)
    ensures r.Ok? <==> e.Unary? || e.Binary? || e.Variadic?
    ensures r.Err? ==> r.error == NotSupported
    ensures e.Unary? ==> r == Ok(0)
  {
    match e
    case Unary(_, _) => Ok(0)
    case Binary(op, _, _) => Ok(BinaryPrecedence(op))
    case Variadic(op, _) => Ok(VariadicPrecedence(op))
    case _ => Err(NotSupported)
  }

  /** GetValue casts to NumberExpression. */
  function GetValue(e: Expr): (r: Result<int>)
    ensures r.Ok? <==> e.Number?
    ensures r.Ok? ==> Number(r.value) == e
    ensures r.Err? ==> r.error == InvalidCast
  {
    if e.Number? then Ok(e.value) else Err(InvalidCast)
  }

  function GetOperand(e: Expr): (r: Result<Expr>)
    ensures r.Ok? <==> e.Unary?
    ensures r.Ok? ==> e == Unary(e.uop, r.value)
    ensures r.Err? ==> r.error == NotSupported
  {
    if e.Unary? then Ok(e.operand) else Err(NotSupported)
  }

  function GetOperands(e: Expr): (r: Result<seq<Expr>>)
    ensures r.Ok? <==> e.Unary? || e.Binary? || e.Variadic?
    ensures e.Unary? ==> r == Ok([e.operand])
    ensures e.Binary? ==> r == Ok([e.first, e.second])
    ensures e.Variadic? ==> r == Ok(e.operands)
    ensures r.Err? ==> r.error == NotSupported
  {
    match e
    case Unary(_, x) => Ok([x])
    case Binary(_, x, y) => Ok([x, y])
    case Variadic(_, xs) => Ok(xs)
    case _ => Err(NotSupported)
  }

  /** The operands the rewrite rules take from additions and multiplications. */
  function Operands(e: Expr): seq<Expr>
    requires e.Binary? || e.Variadic?
  {
    if e.Binary? then [e.first, e.second] else e.operands
  }

  /** char.IsWhiteSpace: the Unicode space separators, the line and
    * paragraph separators, and the control characters 9 to 13, 0x85 and 0xA0. */
  predicate IsWhiteSpace(c: char)
  {
    c == ' ' || ('\t' <= c <= '\r') || c == '\U{0085}' || c == '\U{00A0}'
    || c == '\U{1680}' || ('\U{2000}' <= c <= '\U{200A}') || c == '\U{2028}'
    || c == '\U{2029}' || c == '\U{202F}' || c == '\U{205F}' || c == '\U{3000}'
  }

  /** Not empty and not made of white space only. */
  predicate IsValidName(s: string)
  {
    exists i :: 0 <= i < |s| && !IsWhiteSpace(s[i])
  }

  /** What the node constructors guarantee of every tree. */
  predicate WellFormed(e: Expr)
  {
    match e
    case Number(v) => Int64.InLong(v)
    case Constant(_) => true
    case Variable(n) => IsValidName(n)
    case Unary(_, x) => WellFormed(x)
    case Binary(_, x, y) => WellFormed(x) && WellFormed(y)
    case Variadic(_, xs) => |xs| >= 2 && forall x :: x in xs ==> WellFormed(x)
  }

  predicate RankOrdered(s: seq<Expr>)
  {
    forall k :: 0 <= k < |s| - 1 ==> Rank(s[k]) <= Rank(s[k + 1])
  }

  /** An operand a variadic node of operator `op` would have flattened. */
  predicate SameOperator(op: VariadicOperator, x: Expr)
  {
    if op == Sum then IsAddition(x) else IsMultiplication(x)
  }

  /** The form of every tree the smart constructors build from canonical
    * parts: well formed, with the operands of a binary addition or
    * multiplication in rank order, and variadic nodes of three or more
    * operands, rank-ordered and flat. */
  predicate Canonical(e: Expr)
  {
    match e
    case Number(v) => Int64.InLong(v)
    case Constant(_) => true
    case Variable(n) => IsValidName(n)
    case Unary(_, x) => Canonical(x)
    case Binary(op, x, y) =>
      Canonical(x) && Canonical(y)
      && ((op == Addition || op == Multiplication) ==> Rank(x) <= Rank(y))
    case Variadic(op, xs) =>
      |xs| >= 3 && RankOrdered(xs)
      && (forall x :: x in xs ==> Canonical(x) && !SameOperator(op, x))
  }

  lemma {:induction false} CanonicalIsWellFormed(e: Expr)
    requires Canonical(e)
    ensures WellFormed(e)
  {
    match e
    case Unary(_, x) => CanonicalIsWellFormed(x);
    case Binary(_, x, y) => CanonicalIsWellFormed(x); CanonicalIsWellFormed(y);
    case Variadic(_, xs) =>
      forall x | x in xs
        ensures WellFormed(x)
      {
        CanonicalIsWellFormed(x);
      }
    case _ =>
  }

  // The node constructors; `None` stands for a null reference or a default
  // array.

  function MakeVariable(name: Option<string>): (r: Result<Expr>)
    ensures name.None? ==> r == Err(ArgumentNull)
    ensures name.Some? && !IsValidName(name.value) ==> r == Err(ArgumentInvalid)
    ensures r.Ok? <==> name.Some? && IsValidName(name.value)
    ensures r.Ok? ==> r.value == Variable(name.value) && Canonical(r.value)
  {
    match name
    case None => Err(ArgumentNull)
    case Some(n) => if IsValidName(n) then Ok(Variable(n)) else Err(ArgumentInvalid)
  }

  function MakeUnary(op: UnaryOperator, operand: Option<Expr>): (r: Result<Expr>)
    ensures r.Ok? <==> operand.Some?
    ensures r.Err? ==> r.error == ArgumentNull
    ensures r.Ok? ==> r.value == Unary(op, operand.value)
    ensures r.Ok? && WellFormed(operand.value) ==> WellFormed(r.value)
  {
    match operand
    case None => Err(ArgumentNull)
    case Some(x) => Ok(Unary(op, x))
  }

  function MakeBinary(op: BinaryOperator, first: Option<Expr>, second: Option<Expr>): (r: Result<Expr>)
    ensures r.Ok? <==> first.Some? && second.Some?
    ensures r.Err? ==> r.error == ArgumentNull
    ensures r.Ok? ==> r.value == Binary(op, first.value, second.value)
    ensures r.Ok? && WellFormed(first.value) && WellFormed(second.value) ==> WellFormed(r.value)
  {
    if first.None? || second.None? then Err(ArgumentNull)
    else Ok(Binary(op, first.value, second.value))
  }

  function MakeVariadic(op: VariadicOperator, operands: Option<seq<Expr>>): (r: Result<Expr>)
    ensures r.Ok? <==> operands.Some? && |operands.value| >= 2
    ensures r.Err? ==> r.error == ArgumentInvalid
    ensures r.Ok? ==> r.value == Variadic(op, operands.value)
    ensures r.Ok? && (forall x :: x in operands.value ==> WellFormed(x)) ==> WellFormed(r.value)
  {
    if operands.None? || |operands.value| < 2 then Err(ArgumentInvalid)
    else Ok(Variadic(op, operands.value))
  }
}
