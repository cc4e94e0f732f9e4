// The list algorithms ExpressionSimplifier applies to operand arrays: the
// stable sort by rank, the adjacent-pair reduction of the n-ary addition
// and multiplication, and the operand-by-operand rewrite of the division
// rule. They are generic in the element type and the pairwise rule.
module Reduction {
  import opened Results

  // ---- Stable sort by a bounded key (Enumerable.OrderBy) ----

  /** The elements of `s` whose key is `k`, in their original order. */
  function Bucket<T>(s: seq<T>, key: T -> nat, k: nat): (r: seq<T>)
    ensures forall x :: x in r ==> x in s && key(x) == k
  {
    if s == [] then []
    else (if key(s[0]) == k then [s[0]] else []) + Bucket(s[1..], key, k)
  }

  /** The elements of `s` whose key lies in `lo..hi`, in their original order. */
  function Between<T>(s: seq<T>, key: T -> nat, lo: nat, hi: nat): seq<T>
  {
    if s == [] then []
    else (if lo <= key(s[0]) <= hi then [s[0]] else []) + Between(s[1..], key, lo, hi)
  }

  /** The buckets `lo..hi` laid end to end. */
  function Buckets<T>(s: seq<T>, key: T -> nat, lo: nat, hi: nat): (r: seq<T>)
    ensures forall x :: x in r ==> x in s && lo <= key(x) <= hi
    decreases hi + 1 - lo
  {
    if lo > hi then [] else Bucket(s, key, lo) + Buckets(s, key, lo + 1, hi)
  }

  /** A stable sort of `s` by a key no larger than `bound`. */
  function SortByKey<T>(s: seq<T>, key: T -> nat, bound: nat): seq<T>
  {
    Buckets(s, key, 0, bound)
  }

  predicate KeyOrdered<T>(s: seq<T>, key: T -> nat)
  {
    forall i, j :: 0 <= i < j < |s| ==> key(s[i]) <= key(s[j])
  }

  lemma {:induction false} BucketsOrdered<T>(s: seq<T>, key: T -> nat, lo: nat, hi: nat)
    ensures KeyOrdered(Buckets(s, key, lo, hi), key)
    decreases hi + 1 - lo
  {
    if lo <= hi {
      BucketsOrdered(s, key, lo + 1, hi);
      var b, rest := Bucket(s, key, lo), Buckets(s, key, lo + 1, hi);
      var r := b + rest;
      forall i, j | 0 <= i < j < |r|
        ensures key(r[i]) <= key(r[j])
      {
        if j < |b| {
          assert r[i] in b && r[j] in b;
        } else if i < |b| {
          assert r[i] in b && r[j] == rest[j - |b|] && r[j] in rest;
        } else {
          assert r[i] == rest[i - |b|] && r[j] == rest[j - |b|];
        }
      }
    }
  }

  lemma {:induction false} SplitBetween<T>(s: seq<T>, key: T -> nat, lo: nat, hi: nat)
    requires lo <= hi
    ensures multiset(Between(s, key, lo, hi))
         == multiset(Bucket(s, key, lo)) + multiset(Between(s, key, lo + 1, hi))
  {
    if s != [] {
      SplitBetween(s[1..], key, lo, hi);
    }
  }

  lemma {:induction false} BucketsAreBetween<T>(s: seq<T>, key: T -> nat, lo: nat, hi: nat)
    ensures multiset(Buckets(s, key, lo, hi)) == multiset(Between(s, key, lo, hi))
    decreases hi + 1 - lo
  {
    if lo <= hi {
      calc {
        multiset(Buckets(s, key, lo, hi));
        { SplitBuckets(s, key, lo, hi); }
        multiset(Bucket(s, key, lo)) + multiset(Buckets(s, key, lo + 1, hi));
        { BucketsAreBetween(s, key, lo + 1, hi); }
        multiset(Bucket(s, key, lo)) + multiset(Between(s, key, lo + 1, hi));
        { SplitBetween(s, key, lo, hi); }
        multiset(Between(s, key, lo, hi));
      }
    } else {
      EmptyBetween(s, key, lo, hi);
    }
  }

  lemma SplitBuckets<T>(s: seq<T>, key: T -> nat, lo: nat, hi: nat)
    requires lo <= hi
    ensures multiset(Buckets(s, key, lo, hi))
         == multiset(Bucket(s, key, lo)) + multiset(Buckets(s, key, lo + 1, hi))
  {
    var b, rest := Bucket(s, key, lo), Buckets(s, key, lo + 1, hi);
    assert Buckets(s, key, lo, hi) == b + rest;
  }

  lemma {:induction false} EmptyBetween<T>(s: seq<T>, key: T -> nat, lo: nat, hi: nat)
    requires lo > hi
    ensures Between(s, key, lo, hi) == []
  {
    if s != [] {
      EmptyBetween(s[1..], key, lo, hi);
    }
  }

  lemma {:induction false} AllBetween<T>(s: seq<T>, key: T -> nat, bound: nat)
    requires forall x :: x in s ==> key(x) <= bound
    ensures Between(s, key, 0, bound) == s
  {
    if s != [] {
      assert s == [s[0]] + s[1..];
      AllBetween(s[1..], key, bound);
    }
  }

  /** The sort orders by key and keeps every element exactly once. */
  lemma SortByKeySortsAndPermutes<T>(s: seq<T>, key: T -> nat, bound: nat)
    requires forall x :: x in s ==> key(x) <= bound
    ensures KeyOrdered(SortByKey(s, key, bound), key)
    ensures multiset(SortByKey(s, key, bound)) == multiset(s)
  {
    BucketsOrdered(s, key, 0, bound);
    BucketsAreBetween(s, key, 0, bound);
    AllBetween(s, key, bound);
  }

  /** An already ordered sequence is left as it is (the sort is stable). */
  lemma {:induction false} SortOfOrdered<T>(s: seq<T>, key: T -> nat, bound: nat)
    requires forall x :: x in s ==> key(x) <= bound
    requires KeyOrdered(s, key)
    ensures SortByKey(s, key, bound) == s
  {
    OrderedBuckets(s, key, 0, bound);
    AllBetween(s, key, bound);
  }

  lemma {:induction false} OrderedBuckets<T>(s: seq<T>, key: T -> nat, lo: nat, hi: nat)
    requires KeyOrdered(s, key)
    ensures Buckets(s, key, lo, hi) == Between(s, key, lo, hi)
    decreases |s|, hi + 1 - lo
  {
    if lo > hi {
      EmptyBetween(s, key, lo, hi);
    } else if s == [] {
      EmptyBuckets(s, key, lo, hi);
    } else if key(s[0]) < lo {
      assert KeyOrdered(s[1..], key);
      OrderedBuckets(s[1..], key, lo, hi);
      SkipBuckets(s, key, lo, hi);
    } else if key(s[0]) == lo {
      assert KeyOrdered(s[1..], key);
      OrderedBuckets(s[1..], key, lo, hi);
      SkipBuckets(s, key, lo + 1, hi);
      assert Buckets(s, key, lo + 1, hi) == Buckets(s[1..], key, lo + 1, hi);
      assert Bucket(s, key, lo) == [s[0]] + Bucket(s[1..], key, lo);
      assert Buckets(s[1..], key, lo, hi) == Bucket(s[1..], key, lo) + Buckets(s[1..], key, lo + 1, hi);
    } else {
      // The smallest key exceeds lo: bucket lo is empty.
      NoSmallKeys(s, key, lo);
      OrderedBuckets(s, key, lo + 1, hi);
      BetweenFrom(s, key, lo, hi);
    }
  }

  lemma {:induction false} EmptyBuckets<T>(s: seq<T>, key: T -> nat, lo: nat, hi: nat)
    requires s == []
    ensures Buckets(s, key, lo, hi) == []
    decreases hi + 1 - lo
  {
    if lo <= hi {
      EmptyBuckets(s, key, lo + 1, hi);
    }
  }

  /** An element whose key is below every bucket is in none of them. */
  lemma {:induction false} SkipBuckets<T>(s: seq<T>, key: T -> nat, lo: nat, hi: nat)
    requires s != [] && key(s[0]) < lo
    ensures Buckets(s, key, lo, hi) == Buckets(s[1..], key, lo, hi)
    decreases hi + 1 - lo
  {
    if lo <= hi {
      SkipBuckets(s, key, lo + 1, hi);
    }
  }

  lemma {:induction false} NoSmallKeys<T>(s: seq<T>, key: T -> nat, k: nat)
    requires KeyOrdered(s, key) && s != [] && key(s[0]) > k
    ensures Bucket(s, key, k) == []
  {
    if |s| > 1 {
      assert KeyOrdered(s[1..], key);
      NoSmallKeys(s[1..], key, k);
    }
  }

  lemma {:induction false} BetweenFrom<T>(s: seq<T>, key: T -> nat, lo: nat, hi: nat)
    requires KeyOrdered(s, key) && s != [] && key(s[0]) > lo
    ensures Between(s, key, lo, hi) == Between(s, key, lo + 1, hi)
  {
    if |s| > 1 {
      assert KeyOrdered(s[1..], key);
      BetweenFrom(s[1..], key, lo, hi);
    }
  }

  // ---- Adjacent-pair reduction ----

  /** The pairs before position `upto` give no rule. */
  predicate SettledUpTo<T>(step: (T, T) -> Result<Option<T>>, b: seq<T>, upto: int)
  {
    forall k :: 0 <= k < upto && k + 1 < |b| ==> step(b[k], b[k + 1]) == Ok(None)
  }

  predicate Settled<T>(step: (T, T) -> Result<Option<T>>, b: seq<T>)
  {
    SettledUpTo(step, b, |b| - 1)
  }

  /** The do-while loop of the n-ary rules: at position `i` the pair
    * `b[i-1], b[i]` either gives no rule, and `i` advances, or is replaced
    * by the rule's result, and `i` steps back once when it can. */
  function Reduce<T>(step: (T, T) -> Result<Option<T>>, b: seq<T>, i: nat): Result<seq<T>>
    requires 1 <= i <= |b|
    decreases 2 * |b| - i
  {
    if i == |b| then Ok(b)
    else
      match step(b[i - 1], b[i])
      case Err(e) => Err(e)
      case Ok(None) => Reduce(step, b, i + 1)
      case Ok(Some(r)) => Reduce(step, b[..i - 1] + [r] + b[i + 1..], if i > 1 then i - 1 else 1)
  }

  /** When the reduction succeeds every adjacent pair of its result gives no
    * rule, and it never lengthens the sequence. */
  lemma {:induction false} ReduceSettles<T>(step: (T, T) -> Result<Option<T>>, b: seq<T>, i: nat)
    requires 1 <= i <= |b| && SettledUpTo(step, b, i - 1)
    ensures Reduce(step, b, i).Ok? ==> var r := Reduce(step, b, i).value;
      Settled(step, r) && 1 <= |r| <= |b| && (|r| == |b| ==> r == b)
    decreases 2 * |b| - i
  {
    if i < |b| {
      match step(b[i - 1], b[i])
      case Err(_) =>
      case Ok(None) =>
        ReduceSettles(step, b, i + 1);
      case Ok(Some(x)) =>
        var b' := b[..i - 1] + [x] + b[i + 1..];
        var i' := if i > 1 then i - 1 else 1;
        forall k | 0 <= k < i' - 1 && k + 1 < |b'|
          ensures step(b'[k], b'[k + 1]) == Ok(None)
        {
          assert b'[k] == b[k] && b'[k + 1] == b[k + 1];
        }
        ReduceSettles(step, b', i');
    }
  }

  /** A sequence whose pairs all give no rule is returned unchanged. */
  lemma {:induction false} ReduceOfSettled<T>(step: (T, T) -> Result<Option<T>>, b: seq<T>, i: nat)
    requires 1 <= i <= |b| && Settled(step, b)
    ensures Reduce(step, b, i) == Ok(b)
    decreases |b| - i
  {
    if i < |b| {
      ReduceOfSettled(step, b, i + 1);
    }
  }

  /** Every element of the result satisfies a property that all inputs have
    * and that the rule's results keep. */
  lemma {:induction false} ReducePreserves<T>(step: (T, T) -> Result<Option<T>>, P: T -> bool, b: seq<T>, i: nat)
    requires 1 <= i <= |b|
    requires forall x, y :: P(x) && P(y) && step(x, y).Ok? && step(x, y).value.Some? ==> P(step(x, y).value.value)
    ensures (forall x :: x in b ==> P(x)) && Reduce(step, b, i).Ok? ==>
      forall x :: x in Reduce(step, b, i).value ==> P(x)
    decreases 2 * |b| - i
  {
    if i < |b| && forall x :: x in b ==> P(x) {
      match step(b[i - 1], b[i])
      case Err(_) =>
      case Ok(None) =>
        ReducePreserves(step, P, b, i + 1);
      case Ok(Some(x)) =>
        var b' := b[..i - 1] + [x] + b[i + 1..];
        assert P(b[i - 1]) && P(b[i]);
        forall y | y in b'
          ensures P(y)
        {
          if y != x {
            assert y in b[..i - 1] || y in b[i + 1..];
          }
        }
        ReducePreserves(step, P, b', if i > 1 then i - 1 else 1);
    }
  }

  /** In a settled sequence of two or more elements, every element belongs to
    * a pair that gave no rule, and so has what every such pair has. */
  lemma SettledElements<T>(step: (T, T) -> Result<Option<T>>, P: T -> bool, b: seq<T>)
    requires |b| >= 2 && Settled(step, b)
    requires forall x, y :: step(x, y) == Ok(None) ==> P(x) && P(y)
    ensures forall x :: x in b ==> P(x)
  {
    forall x | x in b
      ensures P(x)
    {
      var k :| 0 <= k < |b| && b[k] == x;
      if k + 1 < |b| {
        assert step(b[k], b[k + 1]) == Ok(None);
      } else {
        assert step(b[k - 1], b[k]) == Ok(None);
      }
    }
  }

  /** Each adjacent pair of a settled sequence has what every pair that gave
    * no rule has. */
  lemma SettledPairs<T>(step: (T, T) -> Result<Option<T>>, Q: (T, T) -> bool, b: seq<T>)
    requires Settled(step, b)
    requires forall x, y :: step(x, y) == Ok(None) ==> Q(x, y)
    ensures forall k :: 0 <= k < |b| - 1 ==> Q(b[k], b[k + 1])
  {
  }

  /** The loop itself, on a list builder the loop edits in place. */
  method ReduceLoop<T>(step: (T, T) -> Result<Option<T>>, operands: seq<T>) returns (r: Result<seq<T>>)
    requires |operands| >= 2
    ensures r == Reduce(step, operands, 1)
  {
    var b := operands;
    var i := 1;
    while i < |b|
      invariant 1 <= i <= |b|
      invariant Reduce(step, b, i) == Reduce(step, operands, 1)
      decreases 2 * |b| - i
    {
      var s := step(b[i - 1], b[i]);
      if s.Err? {
        return Err(s.error);
      }
      match s.value
      case None =>
        i := i + 1;
      case Some(x) =>
        b := b[..i - 1] + [x] + b[i + 1..];
        if i > 1 {
          i := i - 1;
        }
    }
    r := Ok(b);
  }

  // ---- Operand-by-operand rewrite ----

  /** Rewrites every operand that the rule applies to, and says whether any
    * was rewritten; the first failure stops the walk. */
  function RewriteEach<T>(rule: T -> Result<Option<T>>, xs: seq<T>): (r: Result<(seq<T>, bool)>)
    ensures r.Ok? <==> forall i :: 0 <= i < |xs| ==> rule(xs[i]).Ok?
    ensures r.Ok? ==> |r.value.0| == |xs|
    ensures r.Ok? ==> forall i :: 0 <= i < |xs| ==> r.value.0[i] == Rewritten(rule, xs[i])
    ensures r.Ok? ==> (r.value.1 <==> exists i :: 0 <= i < |xs| && rule(xs[i]).value.Some?)
  {
    if xs == [] then Ok(([], false))
    else
      match rule(xs[0])
      case Err(e) => Err(e)
      case Ok(d) =>
        match RewriteEach(rule, xs[1..])
        case Err(e) => Err(e)
        case Ok((rest, changed)) =>
          var head := if d.Some? then d.value else xs[0];
          assert forall i :: 1 <= i < |xs| ==> xs[i] == xs[1..][i - 1];
          Ok(([head] + rest, d.Some? || changed))
  }

  /** The operand after the rule: its rewrite, or itself when no rule applies. */
  function Rewritten<T>(rule: T -> Result<Option<T>>, x: T): T
    requires rule(x).Ok?
  {
    if rule(x).value.Some? then rule(x).value.value else x
  }

  /** The walk fails with the failure of the first operand the rule fails on. */
  lemma {:induction false} RewriteEachFailsAt<T>(rule: T -> Result<Option<T>>, xs: seq<T>, i: nat)
    requires i < |xs| && rule(xs[i]).Err?
    requires forall j :: 0 <= j < i ==> rule(xs[j]).Ok?
    ensures RewriteEach(rule, xs) == Err(rule(xs[i]).error)
  {
    if i > 0 {
      assert forall j :: 0 <= j < i - 1 ==> xs[1..][j] == xs[j + 1];
      RewriteEachFailsAt(rule, xs[1..], i - 1);
    }
  }

  /** The walk over two operands: the first failure, or both rewrites and
    * whether either changed. */
  lemma RewriteEachPair<T>(rule: T -> Result<Option<T>>, x: T, y: T)
    ensures rule(x).Err? ==> RewriteEach(rule, [x, y]) == Err(rule(x).error)
    ensures rule(x).Ok? && rule(y).Err? ==> RewriteEach(rule, [x, y]) == Err(rule(y).error)
    ensures rule(x).Ok? && rule(y).Ok? ==>
      RewriteEach(rule, [x, y])
        == Ok(([Rewritten(rule, x), Rewritten(rule, y)], rule(x).value.Some? || rule(y).value.Some?))
  {
    var xs := [x, y];
    assert xs[0] == x && xs[1] == y;
    if rule(x).Ok? && rule(y).Ok? {
      var w := RewriteEach(rule, xs).value;
      assert w.0 == [Rewritten(rule, x), Rewritten(rule, y)];
      assert w.1 <==> rule(xs[0]).value.Some? || rule(xs[1]).value.Some?;
    } else if rule(x).Err? {
      RewriteEachFailsAt(rule, xs, 0);
    } else {
      RewriteEachFailsAt(rule, xs, 1);
    }
  }

  /** The `for` loop of the division rule over a copy of the operands. */
  method RewriteEachLoop<T>(rule: T -> Result<Option<T>>, xs: seq<T>) returns (r: Result<(seq<T>, bool)>)
    ensures r == RewriteEach(rule, xs)
  {
    var builder := xs;
    var mutated := false;
    for i := 0 to |xs|
      invariant |builder| == |xs|
      invariant forall j :: 0 <= j < i ==> rule(xs[j]).Ok?
      invariant forall j :: 0 <= j < i ==> builder[j] == Rewritten(rule, xs[j])
      invariant forall j :: i <= j < |xs| ==> builder[j] == xs[j]
      invariant mutated <==> exists j :: 0 <= j < i && rule(xs[j]).value.Some?
    {
      var d := rule(xs[i]);
      if d.Err? {
        RewriteEachFailsAt(rule, xs, i);
        return Err(d.error);
      }
      if d.value.Some? {
        builder := builder[i := d.value.value];
        mutated := true;
      }
    }
    r := Ok((builder, mutated));
    RewriteEachUnique(rule, xs, r);
  }

  lemma RewriteEachUnique<T>(rule: T -> Result<Option<T>>, xs: seq<T>, r: Result<(seq<T>, bool)>)
    requires forall i :: 0 <= i < |xs| ==> rule(xs[i]).Ok?
    requires r.Ok? && |r.value.0| == |xs|
    requires forall i :: 0 <= i < |xs| ==> r.value.0[i] == Rewritten(rule, xs[i])
    requires r.value.1 <==> exists i :: 0 <= i < |xs| && rule(xs[i]).value.Some?
    ensures r == RewriteEach(rule, xs)
  {
    var s := RewriteEach(rule, xs);
    assert s.value.0 == r.value.0;
  }
}
