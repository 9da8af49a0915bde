/**
 * The tagged state value stored in every state node (AbstractStateValue and
 * its concrete subclasses).  Each subclass becomes one constructor; the
 * stored tag is the constructor itself.
 */
module StateValues {
  import opened FixedWidth

  /** A quark: the integer that stands for an interned string. */
  type Quark = nat

  datatype StateValueType = SINT32 | SINT64 | UINT32 | UINT64 | FLOAT32 | QUARK | NUL

  /**
   * A state value.  Single-precision floats are carried as the real they
   * denote; rounding to 32 bits is not modelled.
   */
  datatype StateValue =
    | Sint32Value(s32: int32)
    | Sint64Value(s64: int64)
    | Uint32Value(u32: uint32)
    | Uint64Value(u64: uint64)
    | Float32Value(f32: real)
    | QuarkValue(quark: Quark)
    | NullValue

  /** The tag a value was constructed with. */
  function GetType(v: StateValue): (t: StateValueType)
    ensures t == NUL <==> v == NullValue
  {
    match v
    case Sint32Value(_) => SINT32
    case Sint64Value(_) => SINT64
    case Uint32Value(_) => UINT32
    case Uint64Value(_) => UINT64
    case Float32Value(_) => FLOAT32
    case QuarkValue(_) => QUARK
    case NullValue => NUL
  }

  predicate IsSint32(v: StateValue) { GetType(v) == SINT32 }
  predicate IsSint64(v: StateValue) { GetType(v) == SINT64 }
  predicate IsUint32(v: StateValue) { GetType(v) == UINT32 }
  predicate IsUint64(v: StateValue) { GetType(v) == UINT64 }
  predicate IsFloat32(v: StateValue) { GetType(v) == FLOAT32 }
  predicate IsQuark(v: StateValue) { GetType(v) == QUARK }
  predicate IsNull(v: StateValue) { GetType(v) == NUL }

  /** The explicit bool conversion of a state value. */
  function ToBool(v: StateValue): (b: bool)
    ensures b <==> v != NullValue
  {
    !IsNull(v)
  }

  function AsSint32(v: StateValue): (x: int32)
    requires IsSint32(v)
    ensures v == Sint32Value(x)
  {
    v.s32
  }

  function AsSint64(v: StateValue): (x: int64)
    requires IsSint64(v)
    ensures v == Sint64Value(x)
  {
    v.s64
  }

  function AsUint32(v: StateValue): (x: uint32)
    requires IsUint32(v)
    ensures v == Uint32Value(x)
  {
    v.u32
  }

  function AsUint64(v: StateValue): (x: uint64)
    requires IsUint64(v)
    ensures v == Uint64Value(x)
  {
    v.u64
  }

  function AsFloat32(v: StateValue): (x: real)
    requires IsFloat32(v)
    ensures v == Float32Value(x)
  {
    v.f32
  }

  function AsQuark(v: StateValue): (q: Quark)
    requires IsQuark(v)
    ensures v == QuarkValue(q)
  {
    v.quark
  }

  /** Exactly one of the type predicates holds of any value. */
  lemma ExactlyOneType(v: StateValue)
    ensures (if IsSint32(v) then 1 else 0) + (if IsSint64(v) then 1 else 0)
          + (if IsUint32(v) then 1 else 0) + (if IsUint64(v) then 1 else 0)
          + (if IsFloat32(v) then 1 else 0) + (if IsQuark(v) then 1 else 0)
          + (if IsNull(v) then 1 else 0) == 1
  {
  }

  /** The tag determines the constructor: each predicate picks out exactly the values built by it. */
  lemma TypeMatchesConstructor(v: StateValue)
    ensures IsSint32(v) <==> v.Sint32Value?
    ensures IsSint64(v) <==> v.Sint64Value?
    ensures IsUint32(v) <==> v.Uint32Value?
    ensures IsUint64(v) <==> v.Uint64Value?
    ensures IsFloat32(v) <==> v.Float32Value?
    ensures IsQuark(v) <==> v.QuarkValue?
    ensures IsNull(v) <==> v.NullValue?
  {
  }

  /** A uint32 value of 42 is only a uint32, is truthy and gives back 42. */
  lemma Uint32Scenario()
    ensures var v := Uint32Value(42);
      IsUint32(v) && !IsSint32(v) && !IsSint64(v) && !IsUint64(v)
      && !IsFloat32(v) && !IsQuark(v) && !IsNull(v)
      && ToBool(v) && AsUint32(v) == 42
  {
  }

  /** The four integer types, the only ones += and -= act on. */
  predicate IsInteger(v: StateValue) {
    v.Sint32Value? || v.Sint64Value? || v.Uint32Value? || v.Uint64Value?
  }

  /**
   * The value after `+= delta` (and `-= d` with delta == -d): an integer
   * value moves by delta with wrap-around at its own width and keeps its
   * type; any other value is returned unchanged.
   */
  function Incremented(v: StateValue, delta: int): (r: StateValue)
    ensures GetType(r) == GetType(v)
    ensures !IsInteger(v) ==> r == v
    ensures v.Sint32Value? ==> (r.s32 - (v.s32 + delta)) % TWO_32 == 0
    ensures v.Uint32Value? ==> (r.u32 - (v.u32 + delta)) % TWO_32 == 0
    ensures v.Sint64Value? ==> (r.s64 - (v.s64 + delta)) % TWO_64 == 0
    ensures v.Uint64Value? ==> (r.u64 - (v.u64 + delta)) % TWO_64 == 0
  {
    match v
    case Sint32Value(x) => Sint32Value(WrapS32(x + delta))
    case Uint32Value(x) => Uint32Value(WrapU32(x + delta))
    case Sint64Value(x) => Sint64Value(WrapS64(x + delta))
    case Uint64Value(x) => Uint64Value(WrapU64(x + delta))
    case _ => v
  }

  /** Adding delta and then subtracting it gives back the original value, wrap-around included. */
  lemma IncrementedInverse(v: StateValue, delta: int)
    ensures Incremented(Incremented(v, delta), -delta) == v
  {
    match v
    case Sint32Value(x) =>
      WrapS32Congruent(WrapS32(x + delta) - delta, x);
    case Uint32Value(x) =>
      WrapU32Congruent(WrapU32(x + delta) - delta, x);
    case Sint64Value(x) =>
      WrapS64Congruent(WrapS64(x + delta) - delta, x);
    case Uint64Value(x) =>
      WrapU64Congruent(WrapU64(x + delta) - delta, x);
    case _ =>
  }

  /** Away from the bounds of its type, an increment is ordinary addition. */
  lemma IncrementedInRange(v: StateValue, delta: int)
    ensures v.Sint32Value? && -TWO_31 <= v.s32 + delta < TWO_31 ==> Incremented(v, delta) == Sint32Value(v.s32 + delta)
    ensures v.Uint32Value? && 0 <= v.u32 + delta < TWO_32 ==> Incremented(v, delta) == Uint32Value(v.u32 + delta)
    ensures v.Uint32Value? && v.u32 == TWO_32 - 1 ==> Incremented(v, 1) == Uint32Value(0)
    ensures v.Sint32Value? && v.s32 == TWO_31 - 1 ==> Incremented(v, 1) == Sint32Value(-TWO_31)
  {
  }
}
