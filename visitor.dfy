// ExpressionVisitor and VariableSubstitutionVisitor: a copy-on-write walk
// over the tree that rebuilds a node through its Update method only when a
// child changed. The substitution visitor is the walk with a map from
// variable names to expressions; the default visitor is the walk with the
// empty map. Reference identity is value equality here.
module Visitor {
  import opened Results
  import opened Expressions
  import opened Simplifier

  predicate CanonicalMap(m: map<string, Expr>)
  {
    forall k :: k in m ==> Canonical(m[k])
  }

  // ---- Update ----

  /** The unary node's Update, built like the binary one: negation and
    * absolute value go through their constructors, the other operators
    * build the node again. */
  function UpdateUnary(fuel: nat, e: Expr, operand: Expr): (r: Result<Expr>)
    requires e.Unary?
    ensures operand == e.operand ==> r == Ok(e)
    ensures Canonical(operand) && Canonical(e) ==> CanonicalResult(r)
  {
    if operand == e.operand then Ok(e)
    else
      match e.uop
      case Minus => Negate(fuel, operand)
      case Abs => AbsOf(fuel, operand)
      case _ => Ok(Unary(e.uop, operand))
  }

  /** BinaryOperationExpression.Update: the node itself when both operands
    * are the same, otherwise the operator's constructor. */
  function UpdateBinary(fuel: nat, e: Expr, first: Expr, second: Expr): (r: Result<Expr>)
    requires e.Binary?
    ensures first == e.first && second == e.second ==> r == Ok(e)
    ensures Canonical(e) && Canonical(first) && Canonical(second) ==> CanonicalResult(r)
  {
    if first == e.first && second == e.second then Ok(e)
    else
      match e.bop
      case Addition => Add(fuel, first, second)
      case Subtraction => Subtract(fuel, first, second)
      case Multiplication => Multiply(fuel, first, second)
      case Division => Divide(fuel, first, second)
      case Power => Pow(fuel, first, second)
      case Root => RootOf(fuel, first, second)
  }

  /** VariadicOperationExpression.Update: the node itself for the same
    * operands, otherwise Add or Multiply over the new ones. */
  function UpdateVariadic(fuel: nat, e: Expr, operands: seq<Expr>): (r: Result<Expr>)
    requires e.Variadic?
    ensures operands == e.operands ==> r == Ok(e)
    ensures Canonical(e) && AllCanonical(operands) ==> CanonicalResult(r)
  {
    if operands == e.operands then Ok(e) else Combine(fuel, e.vop, operands)
  }

  // ---- The walk ----

  /** Visit with the substitution visitor's VisitVariable: a mapped variable
    * becomes its image; numbers, constants and other variables stay; an
    * operation visits its operands and then calls Update. A walk over a
    * canonical tree with canonical images gives a canonical tree. */
  function Visit(fuel: nat, m: map<string, Expr>, e: Expr): (r: Result<Expr>)
    ensures Canonical(e) && CanonicalMap(m) ==> CanonicalResult(r)
    decreases e, 1
  {
    match e
    case Number(_) => Ok(e)
    case Constant(_) => Ok(e)
    case Variable(n) => Ok(if n in m then m[n] else e)
    case Unary(_, x) =>
      var x' :- Visit(fuel, m, x);
      UpdateUnary(fuel, e, x')
    case Binary(_, x, y) =>
      var x' :- Visit(fuel, m, x);
      var y' :- Visit(fuel, m, y);
      UpdateBinary(fuel, e, x', y')
    case Variadic(_, xs) =>
      var xs' :- VisitAll(fuel, m, xs);
      assert Canonical(e) && CanonicalMap(m) ==> AllCanonical(xs') by {
        if Canonical(e) && CanonicalMap(m) {
          forall x | x in xs'
            ensures Canonical(x)
          {
            var k :| 0 <= k < |xs'| && xs'[k] == x;
            assert xs[k] in xs && Visit(fuel, m, xs[k]) == Ok(x);
          }
        }
      }
      UpdateVariadic(fuel, e, xs')
  }

  /** The array Visit as intended: every element visited, in order, or the
    * first failure. */
  function VisitAll(fuel: nat, m: map<string, Expr>, xs: seq<Expr>): (r: Result<seq<Expr>>)
    ensures r.Ok? <==> forall i :: 0 <= i < |xs| ==> Visit(fuel, m, xs[i]).Ok?
    ensures r.Ok? ==> |r.value| == |xs| && forall i :: 0 <= i < |xs| ==> Visit(fuel, m, xs[i]) == Ok(r.value[i])
    decreases xs, 0
  {
    if xs == [] then Ok([])
    else
      match Visit(fuel, m, xs[0])
      case Err(e) => Err(e)
      case Ok(head) =>
        match VisitAll(fuel, m, xs[1..])
        case Err(e) =>
          assert forall i :: 1 <= i < |xs| ==> xs[i] == xs[1..][i - 1];
          Err(e)
        case Ok(rest) =>
          assert forall i :: 1 <= i < |xs| ==> xs[i] == xs[1..][i - 1];
          var r := [head] + rest;
          assert forall k :: 0 <= k < |r| ==> Visit(fuel, m, xs[k]) == Ok(r[k]);
          Ok(r)
  }

  /** SymbolicExpression.SubstituteVariables. */
  function SubstituteVariables(fuel: nat, e: Expr, m: map<string, Expr>): (r: Result<Expr>)
    ensures Canonical(e) && CanonicalMap(m) ==> CanonicalResult(r)
  {
    Visit(fuel, m, e)
  }

  /** No variable of the tree is a key of the map. */
  predicate Untouched(m: map<string, Expr>, e: Expr)
  {
    match e
    case Variable(n) => n !in m
    case Unary(_, x) => Untouched(m, x)
    case Binary(_, x, y) => Untouched(m, x) && Untouched(m, y)
    case Variadic(_, xs) => forall x :: x in xs ==> Untouched(m, x)
    case _ => true
  }

  /** A tree that mentions no mapped variable comes back as the very same
    * node; with the empty map, that is every tree. */
  lemma {:induction false} VisitUntouched(fuel: nat, m: map<string, Expr>, e: Expr)
    requires Untouched(m, e)
    ensures Visit(fuel, m, e) == Ok(e)
    decreases e, 1
  {
    match e
    case Unary(_, x) => VisitUntouched(fuel, m, x);
    case Binary(_, x, y) => VisitUntouched(fuel, m, x); VisitUntouched(fuel, m, y);
    case Variadic(_, xs) => VisitAllUntouched(fuel, m, xs);
    case _ =>
  }

  lemma {:induction false} VisitAllUntouched(fuel: nat, m: map<string, Expr>, xs: seq<Expr>)
    requires forall x :: x in xs ==> Untouched(m, x)
    ensures VisitAll(fuel, m, xs) == Ok(xs)
    decreases xs, 0
  {
    forall i | 0 <= i < |xs|
      ensures Visit(fuel, m, xs[i]) == Ok(xs[i])
    {
      VisitUntouched(fuel, m, xs[i]);
    }
    VisitAllSucceeds(fuel, m, xs, xs);
  }

  /** The default visitor returns every tree unchanged. */
  lemma DefaultVisitIsIdentity(fuel: nat, e: Expr)
    ensures Visit(fuel, map[], e) == Ok(e)
  {
    assert Untouched(map[], e) by { EmptyMapUntouched(e); }
    VisitUntouched(fuel, map[], e);
  }

  lemma {:induction false} EmptyMapUntouched(e: Expr)
    ensures Untouched(map[], e)
  {
    match e
    case Unary(_, x) => EmptyMapUntouched(x);
    case Binary(_, x, y) => EmptyMapUntouched(x); EmptyMapUntouched(y);
    case Variadic(_, xs) =>
      forall x | x in xs
        ensures Untouched(map[], x)
      {
        EmptyMapUntouched(x);
      }
    case _ =>
  }

  /** A mapped variable becomes its image; an unmapped one stays. */
  lemma SubstituteVariable(fuel: nat, m: map<string, Expr>, n: string, k: string, image: Expr)
    requires k != n
    ensures SubstituteVariables(fuel, Variable(n), m[n := image]) == Ok(image)
    ensures SubstituteVariables(fuel, Variable(n), map[k := image]) == Ok(Variable(n))
  {
  }

  /** A changed operand rebuilds its parent through the constructor, which
    * simplifies again: substituting y for x in x·y gives y². */
  lemma SubstituteResimplifies(fuel: nat, x: string, y: string)
    requires fuel >= 2 && x != y
    ensures SubstituteVariables(fuel, Binary(Multiplication, Variable(x), Variable(y)), map[x := Variable(y)])
      == Ok(Binary(Power, Variable(y), Number(2)))
  {
    var m := map[x := Variable(y)];
    var e := Binary(Multiplication, Variable(x), Variable(y));
    var square := Binary(Power, Variable(y), Number(2));
    assert Visit(fuel, m, Variable(x)) == Ok(Variable(y));
    assert Visit(fuel, m, Variable(y)) == Ok(Variable(y));
    assert Pow(fuel - 1, Variable(y), N(2)) == Ok(square) by {
      assert PowerByLiteral(fuel - 1, Variable(y), N(2)) == Ok(None);
      assert TrySimplifyPower(fuel - 1, Variable(y), N(2)) == Ok(None);
    }
    assert TrySimplifyMultiplication(fuel, Variable(y), Variable(y)) == Ok(Some(square));
    assert Multiply(fuel, Variable(y), Variable(y)) == Ok(square);
    assert UpdateBinary(fuel, e, Variable(y), Variable(y)) == Ok(square);
  }

  // ---- The array overload of Visit, as a loop ----

  lemma {:induction false} VisitAllFailsAt(fuel: nat, m: map<string, Expr>, xs: seq<Expr>, i: nat)
    requires i < |xs| && Visit(fuel, m, xs[i]).Err?
    requires forall j :: 0 <= j < i ==> Visit(fuel, m, xs[j]).Ok?
    ensures VisitAll(fuel, m, xs) == Err(Visit(fuel, m, xs[i]).error)
    decreases i
  {
    if i > 0 {
      var t := xs[1..];
      forall j | 0 <= j < i - 1
        ensures Visit(fuel, m, t[j]).Ok?
      {
        assert t[j] == xs[j + 1];
      }
      VisitAllFailsAt(fuel, m, t, i - 1);
      assert t[i - 1] == xs[i];
      assert Visit(fuel, m, xs[0]).Ok?;
      assert VisitAll(fuel, m, t).Err?;
    }
  }

  lemma VisitAllSucceeds(fuel: nat, m: map<string, Expr>, xs: seq<Expr>, ys: seq<Expr>)
    requires |ys| == |xs| && forall i :: 0 <= i < |xs| ==> Visit(fuel, m, xs[i]) == Ok(ys[i])
    ensures VisitAll(fuel, m, xs) == Ok(ys)
  {
    var r := VisitAll(fuel, m, xs);
    assert r.Ok?;
    assert r.value == ys;
  }

  /** Visit over an operand array, with the copy made as intended: the same
    * array while every element visits to itself, and from the first change
    * on a new array of the same length holding each element's visit. A
    * default array is refused. */
  method VisitArray(fuel: nat, m: map<string, Expr>, expressions: Option<seq<Expr>>) returns (r: Result<seq<Expr>>)
    ensures expressions.None? ==> r == Err(ArgumentInvalid)
    ensures expressions.Some? ==> r == VisitAll(fuel, m, expressions.value)
  {
    if expressions.None? {
      return Err(ArgumentInvalid);
    }
    var xs := expressions.value;
    var i := 0;
    while i < |xs|
      invariant 0 <= i <= |xs|
      invariant forall j :: 0 <= j < i ==> Visit(fuel, m, xs[j]) == Ok(xs[j])
    {
      var visited := Visit(fuel, m, xs[i]);
      if visited.Err? {
        VisitAllFailsAt(fuel, m, xs, i);
        return Err(visited.error);
      }
      if visited.value != xs[i] {
        var builder := xs[..i] + [visited.value];
        i := i + 1;
        while i < |xs|
          invariant 1 <= i <= |xs| && |builder| == i
          invariant forall j :: 0 <= j < i ==> Visit(fuel, m, xs[j]) == Ok(builder[j])
        {
          var v := Visit(fuel, m, xs[i]);
          if v.Err? {
            VisitAllFailsAt(fuel, m, xs, i);
            return Err(v.error);
          }
          builder := builder + [v.value];
          i := i + 1;
        }
        VisitAllSucceeds(fuel, m, xs, builder);
        return Ok(builder);
      }
      i := i + 1;
    }
    VisitAllSucceeds(fuel, m, xs, xs);
    return Ok(xs);
  }

  /** The array Visit as written: at the first changed element the builder
    * holds only the elements before it, so the write at that index is out
    * of range. It succeeds only when nothing changes. */
  function VisitAllAsWritten(fuel: nat, m: map<string, Expr>, xs: seq<Expr>): Result<seq<Expr>>
  {
    if xs == [] then Ok([])
    else
      match Visit(fuel, m, xs[0])
      case Err(e) => Err(e)
      case Ok(v) =>
        if v != xs[0] then Err(IndexOutOfRange)
        else
          var rest :- VisitAllAsWritten(fuel, m, xs[1..]);
          Ok([xs[0]] + rest)
  }

  method VisitArrayAsWritten(fuel: nat, m: map<string, Expr>, expressions: Option<seq<Expr>>) returns (r: Result<seq<Expr>>)
    ensures expressions.None? ==> r == Err(ArgumentInvalid)
    ensures expressions.Some? ==> r == VisitAllAsWritten(fuel, m, expressions.value)
  {
    if expressions.None? {
      return Err(ArgumentInvalid);
    }
    var xs := expressions.value;
    for i := 0 to |xs|
      invariant forall j :: 0 <= j < i ==> Visit(fuel, m, xs[j]) == Ok(xs[j])
    {
      var visited := Visit(fuel, m, xs[i]);
      AsWrittenAfterPrefix(fuel, m, xs, i);
      assert xs[i..][0] == xs[i] && xs[i..][1..] == xs[i + 1..];
      if visited.Err? {
        return Err(visited.error);
      }
      if visited.value != xs[i] {
        // AddRange(expressions, i) leaves the builder with i elements, and
        // its indexer refuses index i.
        return Err(IndexOutOfRange);
      }
    }
    AsWrittenAfterPrefix(fuel, m, xs, |xs|);
    assert xs[|xs|..] == [] && xs[..|xs|] + [] == xs;
    return Ok(xs);
  }

  /** The result of the as-written walk from index i on, after the unchanged
    * prefix. */
  function PrefixThen(xs: seq<Expr>, i: nat, rest: Result<seq<Expr>>): Result<seq<Expr>>
    requires i <= |xs|
  {
    if rest.Ok? then Ok(xs[..i] + rest.value) else rest
  }

  /** Past a prefix of elements that visit to themselves, the as-written
    * walk continues with the rest. */
  lemma {:induction false} AsWrittenAfterPrefix(fuel: nat, m: map<string, Expr>, xs: seq<Expr>, i: nat)
    requires i <= |xs|
    requires forall j :: 0 <= j < i ==> Visit(fuel, m, xs[j]) == Ok(xs[j])
    ensures VisitAllAsWritten(fuel, m, xs) == PrefixThen(xs, i, VisitAllAsWritten(fuel, m, xs[i..]))
    decreases i
  {
    if i == 0 {
      assert xs[0..] == xs;
      var r := VisitAllAsWritten(fuel, m, xs);
      if r.Ok? {
        assert xs[..0] + r.value == r.value;
      }
    } else {
      var t := xs[1..];
      forall j | 0 <= j < i - 1
        ensures Visit(fuel, m, t[j]) == Ok(t[j])
      {
        assert t[j] == xs[j + 1];
      }
      AsWrittenAfterPrefix(fuel, m, t, i - 1);
      assert t[i - 1..] == xs[i..];
      AsWrittenAfterFirst(fuel, m, xs);
      var rest := VisitAllAsWritten(fuel, m, xs[i..]);
      if rest.Ok? {
        PrefixSplits(xs, i, rest.value);
      }
    }
  }

  lemma PrefixSplits(xs: seq<Expr>, i: nat, r: seq<Expr>)
    requires 1 <= i <= |xs|
    ensures [xs[0]] + (xs[1..][..i - 1] + r) == xs[..i] + r
  {
    assert [xs[0]] + xs[1..][..i - 1] == xs[..i];
  }

  /** An element that visits to itself is kept, and the walk goes on. */
  lemma AsWrittenAfterFirst(fuel: nat, m: map<string, Expr>, xs: seq<Expr>)
    requires |xs| > 0 && Visit(fuel, m, xs[0]) == Ok(xs[0])
    ensures VisitAllAsWritten(fuel, m, xs) == PrefixThen(xs, 1, VisitAllAsWritten(fuel, m, xs[1..]))
  {
    assert xs[..1] == [xs[0]];
  }

  /** The walk as written agrees with the intended one when no element
    * changes, and fails with IndexOutOfRange whenever the intended one
    * changes an element. */
  lemma {:induction false} AsWrittenFailsOnChange(fuel: nat, m: map<string, Expr>, xs: seq<Expr>)
    requires VisitAll(fuel, m, xs).Ok?
    ensures VisitAll(fuel, m, xs).value == xs ==> VisitAllAsWritten(fuel, m, xs) == Ok(xs)
    ensures VisitAll(fuel, m, xs).value != xs ==> VisitAllAsWritten(fuel, m, xs) == Err(IndexOutOfRange)
  {
    if xs != [] {
      var head := Visit(fuel, m, xs[0]).value;
      assert forall i :: 1 <= i < |xs| ==> xs[i] == xs[1..][i - 1];
      if head == xs[0] {
        AsWrittenFailsOnChange(fuel, m, xs[1..]);
        var rest := VisitAll(fuel, m, xs[1..]).value;
        assert VisitAll(fuel, m, xs).value == [head] + rest;
        assert [xs[0]] + xs[1..] == xs;
        if rest != xs[1..] {
          assert VisitAll(fuel, m, xs).value[1..] == rest;
        }
      } else {
        assert VisitAll(fuel, m, xs).value[0] == head;
      }
    }
  }

  /** Substituting 1 for x in the operands of x + y + z: the intended walk
    * gives [1, y, z], the walk as written fails. */
  lemma AsWrittenFailsOnSubstitution(fuel: nat)
    ensures var xs := [Variable("x"), Variable("y"), Variable("z")];
      VisitAll(fuel, map["x" := Number(1)], xs) == Ok([Number(1), Variable("y"), Variable("z")])
      && VisitAllAsWritten(fuel, map["x" := Number(1)], xs) == Err(IndexOutOfRange)
  {
    var xs := [Variable("x"), Variable("y"), Variable("z")];
    VisitAllSucceeds(fuel, map["x" := Number(1)], xs, [Number(1), Variable("y"), Variable("z")]);
  }
}
