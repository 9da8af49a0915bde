/**
 * Fixed-width machine integers of the C++ core.  Model integers are
 * unbounded; every place where the source narrows a value to a width
 * (a static_cast, unsigned wrap-around, an int64 result of uint64
 * arithmetic) goes through one of the Wrap functions below.
 */
module FixedWidth {

  const TWO_31: int := 0x8000_0000
  const TWO_32: int := 0x1_0000_0000
  const TWO_63: int := 0x8000_0000_0000_0000
  const TWO_64: int := 0x1_0000_0000_0000_0000

  type int32 = x: int | -0x8000_0000 <= x < 0x8000_0000
  type uint32 = x: int | 0 <= x < 0x1_0000_0000
  type int64 = x: int | -0x8000_0000_0000_0000 <= x < 0x8000_0000_0000_0000
  type uint64 = x: int | 0 <= x < 0x1_0000_0000_0000_0000

  /** Conversion to uint32: reduction modulo 2^32. */
  function WrapU32(x: int): (r: uint32)
    ensures (r - x) % TWO_32 == 0
    ensures 0 <= x < TWO_32 ==> r == x
  {
    x % TWO_32
  }

  /** Conversion to int32 (two's complement): the representative of x modulo 2^32 in [-2^31, 2^31). */
  function WrapS32(x: int): (r: int32)
    ensures (r - x) % TWO_32 == 0
    ensures -TWO_31 <= x < TWO_31 ==> r == x
  {
    var m := x % TWO_32;
    if m >= TWO_31 then m - TWO_32 else m
  }

  /** Conversion to uint64: reduction modulo 2^64. */
  function WrapU64(x: int): (r: uint64)
    ensures (r - x) % TWO_64 == 0
    ensures 0 <= x < TWO_64 ==> r == x
  {
    x % TWO_64
  }

  /** Conversion to int64 (two's complement): the representative of x modulo 2^64 in [-2^63, 2^63). */
  function WrapS64(x: int): (r: int64)
    ensures (r - x) % TWO_64 == 0
    ensures -TWO_63 <= x < TWO_63 ==> r == x
  {
    var m := x % TWO_64;
    if m >= TWO_63 then m - TWO_64 else m
  }

  function Abs(x: int): (r: nat)
    ensures r == x || r == -x
  {
    if x < 0 then -x else x
  }

  /** C++ integer division, which truncates toward zero (Dafny's / is Euclidean). */
  function TruncDiv(a: int, b: int): (q: int)
    requires b != 0
    ensures Abs(q) == Abs(a) / Abs(b)
    ensures q != 0 ==> (q < 0 <==> (a < 0) != (b < 0))
  {
    var m := Abs(a) / Abs(b);
    if (a < 0) != (b < 0) then -m else m
  }

  /** The two's complement reinterpretations to uint64 and back undo each other. */
  lemma S64U64RoundTrip(x: int64)
    ensures WrapS64(WrapU64(x)) == x
  {
    var u := WrapU64(x);
    if x < 0 {
      assert u == x + TWO_64;
    } else {
      assert u == x;
    }
  }

  /** Two numbers congruent to a third modulo 2^32 are congruent to each other. */
  lemma CongruentTrans32(a: int, b: int, u: int)
    requires (u - a) % TWO_32 == 0 && (u - b) % TWO_32 == 0
    ensures (a - b) % TWO_32 == 0
  {
    var k1 := (u - a) / TWO_32;
    var k2 := (u - b) / TWO_32;
    assert u - a == k1 * TWO_32;
    assert u - b == k2 * TWO_32;
    assert a - b == (k2 - k1) * TWO_32;
  }

  lemma CongruentTrans64(a: int, b: int, u: int)
    requires (u - a) % TWO_64 == 0 && (u - b) % TWO_64 == 0
    ensures (a - b) % TWO_64 == 0
  {
    var k1 := (u - a) / TWO_64;
    var k2 := (u - b) / TWO_64;
    assert u - a == k1 * TWO_64;
    assert u - b == k2 * TWO_64;
    assert a - b == (k2 - k1) * TWO_64;
  }

  /** Each conversion depends only on its argument's class modulo 2^width. */
  lemma WrapS32Congruent(a: int, b: int)
    requires (a - b) % TWO_32 == 0
    ensures WrapS32(a) == WrapS32(b)
  {
    var k := (a - b) / TWO_32;
    assert a == b + k * TWO_32;
    assert a % TWO_32 == b % TWO_32;
  }

  lemma WrapU32Congruent(a: int, b: int)
    requires (a - b) % TWO_32 == 0
    ensures WrapU32(a) == WrapU32(b)
  {
    var k := (a - b) / TWO_32;
    assert a == b + k * TWO_32;
    assert a % TWO_32 == b % TWO_32;
  }

  /** Casting to int64 gives b exactly when a and b have the same 64-bit pattern. */
  lemma WrapS64Is(a: int, b: int64)
    ensures WrapS64(a) == b <==> (a - b) % TWO_64 == 0
  {
    if WrapS64(a) == b {
      CongruentTrans64(a, b, b);
    } else if (a - b) % TWO_64 == 0 {
      WrapS64Congruent(a, b);
    }
  }

  /** Casting to uint64 gives b exactly when a and b have the same 64-bit pattern. */
  lemma WrapU64Is(a: int, b: uint64)
    ensures WrapU64(a) == b <==> (a - b) % TWO_64 == 0
  {
    if WrapU64(a) == b {
      CongruentTrans64(a, b, b);
    } else if (a - b) % TWO_64 == 0 {
      WrapU64Congruent(a, b);
    }
  }

  lemma WrapS64Congruent(a: int, b: int)
    requires (a - b) % TWO_64 == 0
    ensures WrapS64(a) == WrapS64(b)
  {
    var k := (a - b) / TWO_64;
    assert a == b + k * TWO_64;
    assert a % TWO_64 == b % TWO_64;
  }

  lemma WrapU64Congruent(a: int, b: int)
    requires (a - b) % TWO_64 == 0
    ensures WrapU64(a) == WrapU64(b)
  {
    var k := (a - b) / TWO_64;
    assert a == b + k * TWO_64;
    assert a % TWO_64 == b % TWO_64;
  }
}
