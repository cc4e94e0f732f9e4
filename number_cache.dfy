// The small-integer cache of NumberExpression: one shared node for every
// integer from -128 to 127, held in a 256-slot array, and the Create
// overloads that hand those shared nodes out.
module NumberCache {
  import opened Results
  import opened Expressions
  import Int64

  /** The integer types Create is overloaded on. */
  datatype IntWidth = SByte | Byte | Int16 | UInt16 | Int32 | UInt32 | Int64 | UInt64

  predicate IsUnsigned(w: IntWidth)
  {
    w == Byte || w == UInt16 || w == UInt32 || w == UInt64
  }

  /** The values of each integer type. */
  predicate InWidth(w: IntWidth, v: int)
  {
    match w
    case SByte => -0x80 <= v < 0x80
    case Byte => 0 <= v < 0x100
    case Int16 => -0x8000 <= v < 0x8000
    case UInt16 => 0 <= v < 0x1_0000
    case Int32 => -0x8000_0000 <= v < 0x8000_0000
    case UInt32 => 0 <= v < 0x1_0000_0000
    case Int64 => Int64.InLong(v)
    case UInt64 => 0 <= v < 0x1_0000_0000_0000_0000
  }

  /** The value `unchecked((sbyte)i)` of slot `i`. */
  function SignedByte(i: int): (r: int)
    requires 0 <= i < 256
    ensures -128 <= r < 128 && r % 256 == i
  {
    if i < 128 then i else i - 256
  }

  /** The slot `unchecked((byte)v)` of a value. */
  function Slot(v: int): (s: nat)
    ensures s < 256
    ensures -128 <= v < 128 ==> SignedByte(s) == v
  {
    v % 256
  }

  /** Whether Create hands out the shared node: signed overloads share the
    * whole range -128 to 127, unsigned ones only 0 to 127. */
  predicate Shared(w: IntWidth, v: int)
  {
    if IsUnsigned(w) then v < 128 else -128 <= v < 128
  }

  /** What Create returns: the node, and the cache slot it was taken from
    * when it is a shared node rather than a fresh one. */
  datatype Created = Created(node: Expr, slot: Option<nat>)

  class SmallIntegerCache {
    const values: array<Expr>

    /** Slot i holds the number (sbyte)i. */
    predicate Valid()
      reads this, values
    {
      values.Length == 256
      && forall i :: 0 <= i < 256 ==> values[i] == Number(SignedByte(i))
    }

    /** CreateSmallIntegerValueCache. */
    constructor ()
      ensures Valid() && fresh(values)
    {
      var a := new Expr[256];
      for i := 0 to 256
        invariant forall j :: 0 <= j < i ==> a[j] == Number(SignedByte(j))
      {
        a[i] := Number(SignedByte(i));
      }
      values := a;
    }

    /** Every Create overload. A value of the type keeps its value; the
      * values the overload shares come from their slot, the others are
      * fresh nodes. An unsigned 64-bit value above the largest signed one
      * does not fit the 64-bit payload of this model. */
    function Create(w: IntWidth, v: int): (r: Result<Created>)
      requires Valid() && InWidth(w, v)
      reads this, values
      ensures r.Err? <==> v > Int64.MaxLong
      ensures r.Err? ==> r.error == Overflow
      ensures r.Ok? ==> r.value.node == Number(v) && Canonical(r.value.node)
      ensures r.Ok? ==> (r.value.slot.Some? <==> Shared(w, v))
      ensures r.Ok? && r.value.slot.Some? ==>
        r.value.slot.value == Slot(v) && r.value.slot.value < 256 && values[r.value.slot.value] == r.value.node
    {
      if Shared(w, v) then Ok(Created(values[Slot(v)], Some(Slot(v))))
      else if v > Int64.MaxLong then Err(Overflow)
      else Ok(Created(Number(v), None))
    }

    function Zero(): (r: Expr)
      requires Valid()
      reads this, values
      ensures r == values[0] && r == Number(0)
    {
      values[0]
    }

    function One(): (r: Expr)
      requires Valid()
      reads this, values
      ensures r == values[1] && r == Number(1)
    {
      values[1]
    }

    /** Slot `unchecked((byte)-1)`. */
    function MinusOne(): (r: Expr)
      requires Valid()
      reads this, values
      ensures r == values[255] && r == Number(-1)
    {
      values[Slot(-1)]
    }
  }

  /** Two calls with the same shared value, through any overloads, return
    * the same slot, so the same node. */
  lemma CreateShares(c: SmallIntegerCache, w1: IntWidth, w2: IntWidth, v: int)
    requires c.Valid() && InWidth(w1, v) && InWidth(w2, v) && Shared(w1, v) && Shared(w2, v)
    ensures c.Create(w1, v).Ok? && c.Create(w2, v).Ok?
    ensures c.Create(w1, v).value.slot == c.Create(w2, v).value.slot == Some(Slot(v))
  {
  }

  /** Outside the shared range every call builds a new node of the same
    * value: distinct objects, equal values. */
  lemma CreateFresh(c: SmallIntegerCache, w: IntWidth, v: int)
    requires c.Valid() && InWidth(w, v) && !Shared(w, v) && v <= Int64.MaxLong
    ensures c.Create(w, v) == Ok(Created(Number(v), None))
  {
  }

  /** The unsigned overloads share only the values below 128. */
  lemma UnsignedSharesBelow128(c: SmallIntegerCache, w: IntWidth, v: int)
    requires c.Valid() && IsUnsigned(w) && InWidth(w, v)
    ensures c.Create(w, v).Ok? && c.Create(w, v).value.slot.Some? <==> v < 128
  {
  }

  /** The value of every overload fits the model's 64-bit payload except
    * the top half of the unsigned 64-bit range. */
  lemma CreateTotalBelowMaxLong(c: SmallIntegerCache, w: IntWidth, v: int)
    requires c.Valid() && InWidth(w, v) && w != UInt64
    ensures c.Create(w, v).Ok?
  {
  }
}
