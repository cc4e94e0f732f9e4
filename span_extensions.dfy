// ReadOnlySpanExtensions: new immutable arrays built from spans by
// allocating an array and copying into it, and the appending helpers of the
// immutable-array builder. An immutable array is its sequence of elements;
// a default (uninitialised) one is None.
module SpanExtensions {
  import opened Results

  const MaxInt32: int := 0x7FFF_FFFF

  /** The sequences the copies produce. */
  function Inserted<T>(items: seq<T>, index: nat, item: T): seq<T>
    requires index <= |items|
  {
    items[..index] + [item] + items[index..]
  }

  function Removed<T>(items: seq<T>, index: nat): seq<T>
    requires index < |items|
  {
    items[..index] + items[index + 1..]
  }

  /** Element j of an insertion is the old element j before the index, the
    * new item at it, and the old element j - 1 after it. */
  lemma InsertedElements<T>(items: seq<T>, index: nat, item: T)
    requires index <= |items|
    ensures |Inserted(items, index, item)| == |items| + 1
    ensures forall j :: 0 <= j < |items| + 1 ==>
      Inserted(items, index, item)[j] == if j < index then items[j] else if j == index then item else items[j - 1]
  {
  }

  /** Removing what was inserted gives the items back, and inserting what
    * was removed puts it back. */
  lemma InsertRemoveRoundTrip<T>(items: seq<T>, index: nat, item: T)
    requires index <= |items|
    ensures Removed(Inserted(items, index, item), index) == items
    ensures index < |items| ==> Inserted(Removed(items, index), index, items[index]) == items
  {
    var s := Inserted(items, index, item);
    assert s[..index] == items[..index];
    assert s[index + 1..] == items[index..];
    if index < |items| {
      assert items[..index] + [items[index]] + items[index + 1..] == items;
    }
  }

  /** AsReadOnlySpan: a default array reads as empty. */
  function AsReadOnlySpan<T>(buffer: Option<seq<T>>): (r: seq<T>)
    ensures buffer.None? ==> r == []
    ensures buffer.Some? ==> r == buffer.value
  {
    if buffer.Some? then buffer.value else []
  }

  /** Span.CopyTo into a destination from `start` on: the elements there are
    * replaced, the others kept. */
  method CopyInto<T>(source: seq<T>, destination: array<T>, start: nat)
    requires start + |source| <= destination.Length
    modifies destination
    ensures forall j :: 0 <= j < destination.Length ==>
      destination[j] == if start <= j < start + |source| then source[j - start] else old(destination[j])
  {
    for i := 0 to |source|
      invariant forall j :: 0 <= j < destination.Length ==>
        destination[j] == if start <= j < start + i then source[j - start] else old(destination[j])
    {
      destination[start + i] := source[i];
    }
  }

  /** AddRange of two spans: a's elements, then b's. */
  method AddRange<T(0)>(a: seq<T>, b: seq<T>) returns (r: seq<T>)
    ensures r == a + b
  {
    var buffer := new T[|a| + |b|];
    CopyInto(a, buffer, 0);
    CopyInto(b, buffer, |a|);
    r := buffer[..];
    assert forall j :: 0 <= j < |r| ==> r[j] == (a + b)[j];
  }

  /** Add: the items, then the new item at the end. */
  method Add<T(0)>(items: seq<T>, item: T) returns (r: seq<T>)
    ensures r == items + [item]
  {
    var buffer := new T[|items| + 1];
    CopyInto(items, buffer, 0);
    buffer[|items|] := item;
    r := buffer[..];
    assert forall j :: 0 <= j < |r| ==> r[j] == (items + [item])[j];
  }

  /** Insert: an index outside 0 .. |items| fails in the first slice;
    * otherwise the item lands at the index and the rest moves up. */
  method Insert<T(0)>(items: seq<T>, index: int, item: T) returns (r: Result<seq<T>>)
    ensures r.Ok? <==> 0 <= index <= |items|
    ensures r.Err? ==> r.error == ArgumentOutOfRange
    ensures r.Ok? ==> r.value == Inserted(items, index, item)
  {
    if index < 0 || index > |items| {
      return Err(ArgumentOutOfRange);
    }
    var buffer := new T[|items| + 1];
    CopyInto(items[..index], buffer, 0);
    buffer[index] := item;
    CopyInto(items[index..], buffer, index + 1);
    InsertedElements(items, index, item);
    assert forall j :: 0 <= j < buffer.Length ==> buffer[j] == Inserted(items, index, item)[j];
    return Ok(buffer[..]);
  }

  /** RemoveAt: an empty span cannot allocate the array of length -1; an
    * index outside 0 .. |items| fails in the first slice; the index |items|
    * leaves one element more than the destination holds; otherwise the
    * element at the index is dropped. */
  method RemoveAt<T(0)>(items: seq<T>, index: int) returns (r: Result<seq<T>>)
    ensures r.Ok? <==> 0 <= index < |items|
    ensures |items| == 0 ==> r == Err(Overflow)
    ensures |items| > 0 && (index < 0 || index > |items|) ==> r == Err(ArgumentOutOfRange)
    ensures |items| > 0 && index == |items| ==> r == Err(ArgumentInvalid)
    ensures r.Ok? ==> r.value == Removed(items, index)
  {
    if |items| == 0 {
      return Err(Overflow);
    }
    if index < 0 || index > |items| {
      return Err(ArgumentOutOfRange);
    }
    if index == |items| {
      return Err(ArgumentInvalid);
    }
    var buffer := new T[|items| - 1];
    CopyInto(items[..index], buffer, 0);
    CopyInto(items[index + 1..], buffer, index);
    assert forall j :: 0 <= j < buffer.Length ==> buffer[j] == Removed(items, index)[j];
    return Ok(buffer[..]);
  }

  /** Map: the selector applied to every item, in order. */
  method Map<T, U(0)>(items: seq<T>, selector: T -> U) returns (r: seq<U>)
    ensures |r| == |items|
    ensures forall i :: 0 <= i < |items| ==> r[i] == selector(items[i])
  {
    var buffer := new U[|items|];
    for i := 0 to buffer.Length
      invariant forall j :: 0 <= j < i ==> buffer[j] == selector(items[j])
    {
      buffer[i] := selector(items[i]);
    }
    r := buffer[..];
  }

  /** ImmutableArray<T>.Builder: the elements added so far and the size of
    * its backing array. */
  class Builder<T> {
    var items: seq<T>
    var capacity: nat

    predicate Valid()
      reads this
    {
      |items| <= capacity <= MaxInt32
    }

    /** ImmutableArray.CreateBuilder(capacity). */
    constructor (initialCapacity: nat)
      requires initialCapacity <= MaxInt32
      ensures Valid() && items == [] && capacity == initialCapacity
    {
      items := [];
      capacity := initialCapacity;
    }

    /** The builder's indexer, read side. */
    function Get(i: nat): (r: T)
      requires i < |items|
      reads this
      ensures r == items[i]
    {
      items[i]
    }

    /** Builder.Add: a full backing array grows to twice its size, or to one
      * more element when doubling leaves the int range. */
    method Add(item: T)
      requires Valid() && |items| < MaxInt32
      modifies this
      ensures Valid() && items == old(items) + [item]
      ensures capacity >= old(capacity)
      ensures old(|items|) < old(capacity) ==> capacity == old(capacity)
    {
      if |items| == capacity {
        capacity := if 2 * capacity <= MaxInt32 && 2 * capacity > |items| then 2 * capacity else |items| + 1;
      }
      items := items + [item];
    }

    /** The builder AddRange extension: when capacity plus the span's length
      * leaves the int range, the capacity is doubled first, which overflows
      * once it is above half the range; then every item is added in order. */
    method AddRange(span: seq<T>) returns (r: Result<()>)
      requires Valid() && |items| + |span| <= MaxInt32
      modifies this
      ensures Valid()
      ensures r.Err? <==> old(capacity) + |span| > MaxInt32 && 2 * old(capacity) > MaxInt32
      ensures r.Err? ==> r.error == Overflow && items == old(items) && capacity == old(capacity)
      ensures r.Ok? ==> items == old(items) + span
    {
      if capacity + |span| > MaxInt32 {
        if 2 * capacity > MaxInt32 {
          return Err(Overflow);
        }
        capacity := 2 * capacity;
      }
      ghost var start := items;
      for i := 0 to |span|
        invariant Valid() && items == start + span[..i]
      {
        Add(span[i]);
        assert span[..i + 1] == span[..i] + [span[i]];
      }
      assert span[..|span|] == span;
      return Ok(());
    }
  }

  /** ToImmutableArrayBuilder: a new builder sized for the items, holding
    * them in order. */
  method ToImmutableArrayBuilder<T>(span: seq<T>) returns (b: Builder<T>)
    requires |span| <= MaxInt32
    ensures fresh(b) && b.Valid() && b.items == span && b.capacity == |span|
  {
    b := new Builder<T>(|span|);
    for i := 0 to |span|
      invariant b.Valid() && b.items == span[..i] && b.capacity == |span|
    {
      b.Add(span[i]);
      assert span[..i + 1] == span[..i] + [span[i]];
    }
    assert span[..|span|] == span;
  }
}
