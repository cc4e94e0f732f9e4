// StructuralEqualityComparer: element-wise equality of immutable arrays and
// builders. A default array (None) or a null builder is equal only to
// another default array or null builder.
module StructuralEquality {
  import opened Results
  import opened SpanExtensions

  /** Element-wise comparison of two sequences of the same length: a scan
    * that stops at the first pair that differs. */
  method SameElements<T(==)>(a: seq<T>, b: seq<T>) returns (r: bool)
    requires |a| == |b|
    ensures r <==> a == b
  {
    for i := 0 to |a|
      invariant a[..i] == b[..i]
    {
      if a[i] != b[i] {
        return false;
      }
      assert a[..i + 1] == a[..i] + [a[i]] && b[..i + 1] == b[..i] + [b[i]];
    }
    assert a == a[..|a|] && b == b[..|b|];
    return true;
  }

  /** Equals(array, array): equal exactly when both are default, or both
    * are initialised with the same length and the same elements. */
  method ArraysEqual<T(==)>(a: Option<seq<T>>, b: Option<seq<T>>) returns (r: bool)
    ensures r <==> a == b
  {
    if a.Some? && b.Some? {
      if |a.value| == |b.value| {
        r := SameElements(a.value, b.value);
      } else {
        r := false;
      }
    } else if a.None? && b.None? {
      r := true;
    } else {
      r := false;
    }
  }

  /** Equals(array, builder): the same rule, with a null builder in the
    * place of a default array. */
  method ArrayEqualsBuilder<T(==)>(a: Option<seq<T>>, b: Builder?<T>) returns (r: bool)
    ensures r <==> (a.None? && b == null) || (a.Some? && b != null && a.value == b.items)
  {
    if a.Some? && b != null {
      if |a.value| == |b.items| {
        r := SameElements(a.value, b.items);
      } else {
        r := false;
      }
    } else if a.None? && b == null {
      r := true;
    } else {
      r := false;
    }
  }

  /** Equals(builder, array): the mirror of the overload above. */
  method BuilderEqualsArray<T(==)>(a: Builder?<T>, b: Option<seq<T>>) returns (r: bool)
    ensures r <==> (b.None? && a == null) || (b.Some? && a != null && b.value == a.items)
  {
    r := ArrayEqualsBuilder(b, a);
  }
}
