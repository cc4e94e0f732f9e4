// Equations and systems of equations: a SymbolicEquation compares two
// expressions; a MultipleSymbolicEquationSystem is an intersection or a
// union of systems. The comparison operators come in opposite pairs whose
// codes differ only in their lowest bit.
module Equations {
  import opened Results
  import opened Expressions

  datatype ComparisonOperator =
    | EqualTo
    | NotEqualTo
    | LessThan
    | GreaterThanOrEqualTo
    | GreaterThan
    | LessThanOrEqualTo

  /** The byte value of each operator. */
  function Code(op: ComparisonOperator): (c: bv8)
    ensures c < 6
  {
    match op
    case EqualTo => 0
    case NotEqualTo => 1
    case LessThan => 2
    case GreaterThanOrEqualTo => 3
    case GreaterThan => 4
    case LessThanOrEqualTo => 5
  }

  /** Distinct operators have distinct codes. */
  lemma CodeInjective(a: ComparisonOperator, b: ComparisonOperator)
    ensures Code(a) == Code(b) <==> a == b
  {
  }

  /** The operator whose code is the given one with its lowest bit flipped:
    * `(ComparisonOperator)((int)op ^ 1)`. The flip never leaves the six
    * defined values. */
  function Opposite(op: ComparisonOperator): (r: ComparisonOperator)
    ensures Code(r) == Code(op) ^ 1
  {
    match op
    case EqualTo => NotEqualTo
    case NotEqualTo => EqualTo
    case LessThan => GreaterThanOrEqualTo
    case GreaterThanOrEqualTo => LessThan
    case GreaterThan => LessThanOrEqualTo
    case LessThanOrEqualTo => GreaterThan
  }

  /** What a comparison says about two values. */
  predicate Holds(op: ComparisonOperator, a: int, b: int)
  {
    match op
    case EqualTo => a == b
    case NotEqualTo => a != b
    case LessThan => a < b
    case GreaterThanOrEqualTo => a >= b
    case GreaterThan => a > b
    case LessThanOrEqualTo => a <= b
  }

  /** Flipping the lowest bit gives the operator that holds exactly when the
    * original does not, and flipping twice gives the original back. */
  lemma OppositeComplements(op: ComparisonOperator, a: int, b: int)
    ensures Holds(Opposite(op), a, b) <==> !Holds(op, a, b)
    ensures Opposite(Opposite(op)) == op
    ensures Opposite(op) != op
  {
  }

  datatype EquationSystemKind = Identity | Intersection | Union

  /** A single equation, or an intersection or union of systems. */
  datatype EquationSystem =
    | Equation(op: ComparisonOperator, first: Expr, second: Expr)
    | Multiple(kind: EquationSystemKind, equations: seq<EquationSystem>)

  /** The Kind property: an equation is always an identity. */
  function KindOf(s: EquationSystem): (k: EquationSystemKind)
    ensures s.Equation? ==> k == Identity
    ensures s.Multiple? ==> k == s.kind
  {
    match s
    case Equation(_, _, _) => Identity
    case Multiple(kind, _) => kind
  }

  /** The systems the constructors can build: no multiple system is an
    * identity. */
  predicate WellFormed(s: EquationSystem)
  {
    match s
    case Equation(_, _, _) => true
    case Multiple(kind, es) => kind != Identity && forall e :: e in es ==> WellFormed(e)
  }

  /** MultipleSymbolicEquationSystem's constructors, over an array or over
    * the materialised enumeration: ValidateKind refuses an identity, the
    * equations are kept in order. */
  function MakeMultiple(kind: EquationSystemKind, equations: seq<EquationSystem>): (r: Result<EquationSystem>)
    ensures r.Ok? <==> kind == Intersection || kind == Union
    ensures r.Err? ==> r.error == ArgumentOutOfRange
    ensures r.Ok? ==> KindOf(r.value) == kind && r.value.equations == equations
    ensures r.Ok? && (forall e :: e in equations ==> WellFormed(e)) ==> WellFormed(r.value)
  {
    if kind != Intersection && kind != Union then Err(ArgumentOutOfRange)
    else Ok(Multiple(kind, equations))
  }

  /** The SymbolicEquation constructor, which the comparison operators of
    * SymbolicExpression call with their operator and operands unchanged. */
  function MakeEquation(op: ComparisonOperator, first: Expr, second: Expr): (r: EquationSystem)
    ensures KindOf(r) == Identity && WellFormed(r)
  {
    Equation(op, first, second)
  }

  /** The `!` operator on an equation: the opposite operator over the same
    * expressions. */
  function Not(e: EquationSystem): (r: EquationSystem)
    requires e.Equation?
    ensures r.Equation? && Code(r.op) == Code(e.op) ^ 1
    ensures r.first == e.first && r.second == e.second
  {
    Equation(Opposite(e.op), e.first, e.second)
  }

  /** And, and the `&` operator: two intersections merge their equations,
    * a's then b's; anything else becomes the intersection of the two. */
  function And(a: EquationSystem, b: EquationSystem): (r: EquationSystem)
    ensures KindOf(r) == Intersection
    ensures WellFormed(a) && WellFormed(b) ==> WellFormed(r)
  {
    if KindOf(a) == KindOf(b) && KindOf(a) == Intersection then
      assert forall e :: e in a.equations + b.equations ==> e in a.equations || e in b.equations;
      Multiple(Intersection, a.equations + b.equations)
    else Multiple(Intersection, [a, b])
  }

  /** Or, and the `|` operator: the same with unions. */
  function Or(a: EquationSystem, b: EquationSystem): (r: EquationSystem)
    ensures KindOf(r) == Union
    ensures WellFormed(a) && WellFormed(b) ==> WellFormed(r)
  {
    if KindOf(a) == KindOf(b) && KindOf(a) == Union then
      assert forall e :: e in a.equations + b.equations ==> e in a.equations || e in b.equations;
      Multiple(Union, a.equations + b.equations)
    else Multiple(Union, [a, b])
  }

  // ---- What a system means ----

  /** Whether a system holds when every expression takes the value `v`
    * gives it: an intersection when all its systems hold, a union when one
    * does. */
  predicate Satisfied(s: EquationSystem, v: Expr -> int)
    requires WellFormed(s)
  {
    match s
    case Equation(op, x, y) => Holds(op, v(x), v(y))
    case Multiple(kind, es) =>
      if kind == Intersection then forall i :: 0 <= i < |es| ==> Satisfied(es[i], v)
      else exists i :: 0 <= i < |es| && Satisfied(es[i], v)
  }

  /** A built equation holds when its operator relates the values of its
    * two expressions. */
  lemma EquationMeaning(op: ComparisonOperator, first: Expr, second: Expr, v: Expr -> int)
    ensures Satisfied(MakeEquation(op, first, second), v) <==> Holds(op, v(first), v(second))
  {
  }

  /** `!e` holds exactly when e does not, and `!!e` is e. */
  lemma NotComplements(e: EquationSystem, v: Expr -> int)
    requires e.Equation?
    ensures Satisfied(Not(e), v) <==> !Satisfied(e, v)
    ensures Not(Not(e)) == e
  {
    OppositeComplements(e.op, v(e.first), v(e.second));
  }

  /** The comparison operators of SymbolicExpression are paired: `a != b`
    * is `!(a == b)`, `a >= b` is `!(a < b)` and `a <= b` is `!(a > b)`. */
  lemma ComparisonPairs(a: Expr, b: Expr)
    ensures Not(MakeEquation(EqualTo, a, b)) == MakeEquation(NotEqualTo, a, b)
    ensures Not(MakeEquation(LessThan, a, b)) == MakeEquation(GreaterThanOrEqualTo, a, b)
    ensures Not(MakeEquation(GreaterThan, a, b)) == MakeEquation(LessThanOrEqualTo, a, b)
  {
  }

  /** Flattening does not change the meaning: And holds exactly when both
    * systems hold. */
  lemma AndMeansBoth(a: EquationSystem, b: EquationSystem, v: Expr -> int)
    requires WellFormed(a) && WellFormed(b)
    ensures Satisfied(And(a, b), v) <==> Satisfied(a, v) && Satisfied(b, v)
  {
    if KindOf(a) == Intersection && KindOf(b) == Intersection {
      var es := a.equations + b.equations;
      assert forall i :: 0 <= i < |a.equations| ==> es[i] == a.equations[i];
      assert forall i :: 0 <= i < |b.equations| ==> es[|a.equations| + i] == b.equations[i];
      if Satisfied(a, v) && Satisfied(b, v) {
        forall i | 0 <= i < |es|
          ensures Satisfied(es[i], v)
        {
          if i >= |a.equations| {
            assert es[i] == b.equations[i - |a.equations|];
          }
        }
      }
    } else {
      assert [a, b][0] == a && [a, b][1] == b;
    }
  }

  /** Or holds exactly when one of the systems holds. */
  lemma OrMeansEither(a: EquationSystem, b: EquationSystem, v: Expr -> int)
    requires WellFormed(a) && WellFormed(b)
    ensures Satisfied(Or(a, b), v) <==> Satisfied(a, v) || Satisfied(b, v)
  {
    if KindOf(a) == Union && KindOf(b) == Union {
      var es := a.equations + b.equations;
      assert forall i :: 0 <= i < |a.equations| ==> es[i] == a.equations[i];
      assert forall i :: 0 <= i < |b.equations| ==> es[|a.equations| + i] == b.equations[i];
      if Satisfied(Or(a, b), v) {
        var i :| 0 <= i < |es| && Satisfied(es[i], v);
        if i >= |a.equations| {
          assert es[i] == b.equations[i - |a.equations|];
        }
      }
    } else {
      assert [a, b][0] == a && [a, b][1] == b;
    }
  }

  /** Only an intersection on both sides is flattened: a one-sided
    * intersection is nested as it is. */
  lemma AndFlattensOnlyBoth(a: EquationSystem, b: EquationSystem)
    requires KindOf(a) == Intersection && KindOf(b) != Intersection
    ensures And(a, b) == Multiple(Intersection, [a, b])
    ensures And(b, a) == Multiple(Intersection, [b, a])
  {
  }
}
