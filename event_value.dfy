/**
 * Event field values (AbstractEventValue and its integer subclasses).
 *
 * A value carries a type tag; the integer operators dispatch on it and
 * fall back to 0 when an operand is not an integer.  The C++ arithmetic is
 * 64-bit: a signed/signed operation is int64 arithmetic, any operation
 * with an unsigned operand is uint64 arithmetic, and the result is
 * returned as int64.  Model integers are unbounded, so each result goes
 * through WrapS64 (two's complement), which is also how signed overflow is
 * modelled.
 */
module EventValues {
  import opened FixedWidth

  /** A named member of a dictionary value. */
  datatype Field = Field(name: string, value: EventValue)

  datatype EventValue =
    | SintV(sint: int64)
    | UintV(uint: uint64)
    | FloatV(float: real)
    | EnumV(enumInt: uint64, enumLabel: string)
    | StringV(str: string)
    | ArrayV(items: seq<EventValue>)
    | DictV(entries: seq<Field>)
    | NullV
    | UnknownV

  /** The explicit bool conversion: not the null value. */
  predicate ToBool(v: EventValue) {
    !v.NullV?
  }

  predicate IsInteger(v: EventValue) {
    v.SintV? || v.UintV?
  }

  // ---------------------------------------------------------------------
  // as*: each requires the matching tag (an assert in the source)
  // ---------------------------------------------------------------------

  function AsSint(v: EventValue): (x: int64)
    requires v.SintV?
    ensures v == SintV(x)
  {
    v.sint
  }

  function AsUint(v: EventValue): (x: uint64)
    requires v.UintV?
    ensures v == UintV(x)
  {
    v.uint
  }

  function AsFloat(v: EventValue): (x: real)
    requires v.FloatV?
    ensures v == FloatV(x)
  {
    v.float
  }

  function AsEnumInt(v: EventValue): (x: uint64)
    requires v.EnumV?
    ensures exists l :: v == EnumV(x, l)
  {
    v.enumInt
  }

  function AsEnumLabel(v: EventValue): (l: string)
    requires v.EnumV?
    ensures exists x :: v == EnumV(x, l)
  {
    v.enumLabel
  }

  function AsString(v: EventValue): (s: string)
    requires v.StringV?
    ensures v == StringV(s)
  {
    v.str
  }

  function AsArray(v: EventValue): (items: seq<EventValue>)
    requires v.ArrayV?
    ensures v == ArrayV(items)
  {
    v.items
  }

  function AsDict(v: EventValue): (entries: seq<Field>)
    requires v.DictV?
    ensures v == DictV(entries)
  {
    v.entries
  }

  /**
   * AbstractEventValue::getFieldImpl, by name or by index: a value that is
   * not a container has no fields and answers the null value.
   */
  function DefaultField(v: EventValue): (r: EventValue)
    requires !v.DictV? && !v.ArrayV?
    ensures !ToBool(r) && !IsInteger(r)
  {
    NullV
  }

  // ---------------------------------------------------------------------
  // AbstractIntegerEventValue: operators over getValue()
  // ---------------------------------------------------------------------

  /** getValue() of an integer value. */
  function IntValue(v: EventValue): (x: int)
    requires IsInteger(v)
    ensures v.SintV? ==> x == v.sint
    ensures v.UintV? ==> x == v.uint && x >= 0
  {
    if v.SintV? then v.sint else v.uint
  }

  /** getValue() + val as int64: plain sum reduced to 64 bits, whatever the signedness. */
  function IntPlus(v: EventValue, w: EventValue): (r: int64)
    requires IsInteger(v) && IsInteger(w)
    ensures (r - (IntValue(v) + IntValue(w))) % TWO_64 == 0
    ensures -TWO_63 <= IntValue(v) + IntValue(w) < TWO_63 ==> r == IntValue(v) + IntValue(w)
  {
    WrapS64(IntValue(v) + IntValue(w))
  }

  function IntMinus(v: EventValue, w: EventValue): (r: int64)
    requires IsInteger(v) && IsInteger(w)
    ensures (r - (IntValue(v) - IntValue(w))) % TWO_64 == 0
    ensures -TWO_63 <= IntValue(v) - IntValue(w) < TWO_63 ==> r == IntValue(v) - IntValue(w)
  {
    WrapS64(IntValue(v) - IntValue(w))
  }

  function IntTimes(v: EventValue, w: EventValue): (r: int64)
    requires IsInteger(v) && IsInteger(w)
    ensures (r - IntValue(v) * IntValue(w)) % TWO_64 == 0
    ensures -TWO_63 <= IntValue(v) * IntValue(w) < TWO_63 ==> r == IntValue(v) * IntValue(w)
  {
    WrapS64(IntValue(v) * IntValue(w))
  }

  /**
   * getValue() / val: int64 division truncating toward zero when both
   * operands are signed, uint64 division of the reinterpreted operands
   * otherwise; a zero divisor is undefined in the source.
   */
  function IntDivide(v: EventValue, w: EventValue): (r: int64)
    requires IsInteger(v) && IsInteger(w) && IntValue(w) != 0
    ensures v.SintV? && w.SintV? ==> r == WrapS64(TruncDiv(v.sint, w.sint))
    ensures !(v.SintV? && w.SintV?) ==> r == WrapS64(WrapU64(IntValue(v)) / WrapU64(IntValue(w)))
  {
    if v.SintV? && w.SintV? then
      WrapS64(TruncDiv(v.sint, w.sint))
    else
      WrapS64(WrapU64(IntValue(v)) / WrapU64(IntValue(w)))
  }

  lemma TruncDivInt64Range(a: int64, b: int64)
    requires b != 0 && !(a == -TWO_63 && b == -1)
    ensures -TWO_63 <= TruncDiv(a, b) < TWO_63
  {
    var m := Abs(a) / Abs(b);
    if Abs(b) == 1 {
      assert m == Abs(a);
    } else {
      DivHalf(Abs(a), Abs(b));
    }
  }

  lemma DivHalf(x: nat, y: nat)
    requires y >= 2
    ensures x / y <= x / 2
  {
    var q := x / y;
    assert q * y <= x;
    assert q * 2 <= q * y;
  }

  /**
   * For a non-negative dividend that fits int64 and a positive divisor,
   * both divisions agree with exact division.
   */
  lemma DivideNonNegative(v: EventValue, w: EventValue)
    requires IsInteger(v) && IsInteger(w) && 0 <= IntValue(v) < TWO_63 && IntValue(w) > 0
    ensures IntDivide(v, w) == IntValue(v) / IntValue(w)
  {
    if v.SintV? && w.SintV? {
      SignedDivideNonNegative(v.sint, w.sint);
    } else {
      UnsignedDivideNonNegative(IntValue(v), IntValue(w));
    }
  }

  lemma SignedDivideNonNegative(a: nat, b: nat)
    requires a < TWO_63 && b > 0
    ensures WrapS64(TruncDiv(a, b)) == a / b
  {
    assert Abs(a) == a && Abs(b) == b;
    DivAtMost(a, b);
  }

  lemma UnsignedDivideNonNegative(a: nat, b: nat)
    requires a < TWO_63 && 0 < b < TWO_64
    ensures WrapS64(WrapU64(a) / WrapU64(b)) == a / b
  {
    assert WrapU64(a) == a;
    assert WrapU64(b) == b;
    DivAtMost(a, b);
  }

  lemma DivAtMost(x: nat, y: nat)
    requires y >= 1
    ensures x / y <= x
  {
    var q := x / y;
    assert q * y + x % y == x;
    assert q <= q * y;
  }

  /** operator==(int64): compare after casting the value to int64, that is, compare 64-bit patterns. */
  predicate EqualsSint(v: EventValue, value: int64)
    requires IsInteger(v)
    ensures EqualsSint(v, value) <==> (IntValue(v) - value) % TWO_64 == 0
  {
    WrapS64Is(IntValue(v), value);
    WrapS64(IntValue(v)) == value
  }

  /** operator==(uint64): compare after casting the value to uint64, that is, compare 64-bit patterns. */
  predicate EqualsUint(v: EventValue, value: uint64)
    requires IsInteger(v)
    ensures EqualsUint(v, value) <==> (IntValue(v) - value) % TWO_64 == 0
  {
    WrapU64Is(IntValue(v), value);
    WrapU64(IntValue(v)) == value
  }

  /** operator!= is the negation of operator==: the 64-bit patterns differ. */
  predicate NotEqualsSint(v: EventValue, value: int64)
    requires IsInteger(v)
    ensures NotEqualsSint(v, value) <==> (IntValue(v) - value) % TWO_64 != 0
  {
    !EqualsSint(v, value)
  }

  predicate NotEqualsUint(v: EventValue, value: uint64)
    requires IsInteger(v)
    ensures NotEqualsUint(v, value) <==> (IntValue(v) - value) % TWO_64 != 0
  {
    !EqualsUint(v, value)
  }

  /** The casts make the comparisons same-bit-pattern tests: a uint 2^64-1 equals the sint -1. */
  lemma EqualsAcrossSigns(v: EventValue)
    requires IsInteger(v)
    ensures forall x: int64 :: EqualsSint(v, x) <==> EqualsUint(v, WrapU64(x))
    ensures forall x: int64 :: NotEqualsSint(v, x) <==> !EqualsSint(v, x)
    ensures EqualsSint(UintV(TWO_64 - 1), -1)
  {
    forall x: int64 ensures EqualsSint(v, x) <==> EqualsUint(v, WrapU64(x)) {
      var a := IntValue(v);
      if EqualsUint(v, WrapU64(x)) {
        CongruentTrans64(a, x, WrapU64(a));
        WrapS64Congruent(a, x);
      }
      if EqualsSint(v, x) {
        CongruentTrans64(a, x, WrapS64(a));
        WrapU64Congruent(a, x);
      }
    }
  }

  /** getDisplayBase: a negative base reported by the trace reader becomes -1. */
  function DisplayBase(readerBase: int): (r: int)
    ensures r >= -1
    ensures readerBase >= 0 ==> r == readerBase
    ensures readerBase < 0 ==> r == -1
  {
    if readerBase < 0 then -1 else readerBase
  }

  // ---------------------------------------------------------------------
  // AbstractEventValue: operators dispatched on the type tag
  // ---------------------------------------------------------------------

  /** value + value: 0 unless both operands are integers. */
  function Plus(v: EventValue, w: EventValue): (r: int64)
    ensures !(IsInteger(v) && IsInteger(w)) ==> r == 0
    ensures IsInteger(v) && IsInteger(w) ==> r == IntPlus(v, w)
  {
    if IsInteger(v) && IsInteger(w) then IntPlus(v, w) else 0
  }

  function Minus(v: EventValue, w: EventValue): (r: int64)
    ensures !(IsInteger(v) && IsInteger(w)) ==> r == 0
    ensures IsInteger(v) && IsInteger(w) ==> r == IntMinus(v, w)
  {
    if IsInteger(v) && IsInteger(w) then IntMinus(v, w) else 0
  }

  function Times(v: EventValue, w: EventValue): (r: int64)
    ensures !(IsInteger(v) && IsInteger(w)) ==> r == 0
    ensures IsInteger(v) && IsInteger(w) ==> r == IntTimes(v, w)
  {
    if IsInteger(v) && IsInteger(w) then IntTimes(v, w) else 0
  }

  function Divide(v: EventValue, w: EventValue): (r: int64)
    requires IsInteger(v) && IsInteger(w) ==> IntValue(w) != 0
    ensures !(IsInteger(v) && IsInteger(w)) ==> r == 0
    ensures IsInteger(v) && IsInteger(w) ==> r == IntDivide(v, w)
  {
    if IsInteger(v) && IsInteger(w) then IntDivide(v, w) else 0
  }

  /** value + int64 (and uint64): the scalar is an integer operand, so only the receiver's tag matters. */
  function PlusSint(v: EventValue, val: int64): (r: int64)
    ensures !IsInteger(v) ==> r == 0
    ensures IsInteger(v) ==> (r - (IntValue(v) + val)) % TWO_64 == 0
  {
    Plus(v, SintV(val))
  }

  function PlusUint(v: EventValue, val: uint64): (r: int64)
    ensures !IsInteger(v) ==> r == 0
    ensures IsInteger(v) ==> (r - (IntValue(v) + val)) % TWO_64 == 0
  {
    Plus(v, UintV(val))
  }

  function MinusSint(v: EventValue, val: int64): (r: int64)
    ensures !IsInteger(v) ==> r == 0
    ensures IsInteger(v) ==> (r - (IntValue(v) - val)) % TWO_64 == 0
  {
    Minus(v, SintV(val))
  }

  function MinusUint(v: EventValue, val: uint64): (r: int64)
    ensures !IsInteger(v) ==> r == 0
    ensures IsInteger(v) ==> (r - (IntValue(v) - val)) % TWO_64 == 0
  {
    Minus(v, UintV(val))
  }

  function TimesSint(v: EventValue, val: int64): (r: int64)
    ensures !IsInteger(v) ==> r == 0
    ensures IsInteger(v) ==> (r - IntValue(v) * val) % TWO_64 == 0
  {
    Times(v, SintV(val))
  }

  function TimesUint(v: EventValue, val: uint64): (r: int64)
    ensures !IsInteger(v) ==> r == 0
    ensures IsInteger(v) ==> (r - IntValue(v) * val) % TWO_64 == 0
  {
    Times(v, UintV(val))
  }

  function DivideSint(v: EventValue, val: int64): (r: int64)
    requires IsInteger(v) ==> val != 0
    ensures !IsInteger(v) ==> r == 0
    ensures v.SintV? && !(v.sint == -TWO_63 && val == -1) ==> r == TruncDiv(v.sint, val)
    ensures v.SintV? ==> r == WrapS64(TruncDiv(v.sint, val))
    ensures v.UintV? ==> r == WrapS64(v.uint / WrapU64(val))
  {
    if v.SintV? && !(v.sint == -TWO_63 && val == -1) then
      TruncDivInt64Range(v.sint, val);
      Divide(v, SintV(val))
    else
      Divide(v, SintV(val))
  }

  function DivideUint(v: EventValue, val: uint64): (r: int64)
    requires IsInteger(v) ==> val != 0
    ensures !IsInteger(v) ==> r == 0
    ensures IsInteger(v) ==> r == WrapS64(WrapU64(IntValue(v)) / val)
  {
    Divide(v, UintV(val))
  }

  /** The value operators are the scalar ones applied to the second operand's getValue(). */
  lemma ValueOperatorsAreScalar(v: EventValue, w: EventValue)
    requires IsInteger(w)
    ensures w.SintV? ==>
      Plus(v, w) == PlusSint(v, w.sint) && Minus(v, w) == MinusSint(v, w.sint) && Times(v, w) == TimesSint(v, w.sint)
    ensures w.UintV? ==>
      Plus(v, w) == PlusUint(v, w.uint) && Minus(v, w) == MinusUint(v, w.uint) && Times(v, w) == TimesUint(v, w.uint)
  {
  }

  /** + and * do not depend on operand order; a zero operand makes the product 0. */
  lemma {:induction false} PlusTimesCommute(v: EventValue, w: EventValue)
    ensures Plus(v, w) == Plus(w, v) && Times(v, w) == Times(w, v)
    ensures IsInteger(v) && IsInteger(w) && IntValue(w) == 0 ==> Times(v, w) == 0 && Plus(v, w) == WrapS64(IntValue(v))
  {
    if IsInteger(v) && IsInteger(w) {
      var a, b := IntValue(v), IntValue(w);
      assert Plus(v, w) == WrapS64(a + b) && Plus(w, v) == WrapS64(b + a);
      assert a * b == b * a;
      assert Times(v, w) == WrapS64(a * b) && Times(w, v) == WrapS64(b * a);
      if b == 0 {
        assert a * b == 0 && a + b == a;
      }
    }
  }
}
