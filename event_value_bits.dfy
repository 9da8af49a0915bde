/**
 * The bitwise operators of AbstractEventValue (& | ^ ~).  The source
 * converts the receiver (and a value operand) with asUintValue(), which
 * asserts the unsigned type, and combines the two uint64 values.  The
 * operators are defined here on unbounded naturals, binary digit by binary
 * digit, and proved to stay inside uint64.
 */
module EventValueBits {
  import opened FixedWidth
  import opened EventValues

  function Pow2(n: nat): (r: nat)
    ensures r >= 1
  {
    if n == 0 then 1 else 2 * Pow2(n - 1)
  }

  lemma Pow2Is64()
    ensures Pow2(64) == TWO_64
  {
    assert Pow2(2) == 4;
    Pow2Double(2, 4);
    Pow2Double(4, 16);
    Pow2Double(8, 256);
    Pow2Double(16, 0x1_0000);
    Pow2Double(32, 0x1_0000_0000);
  }

  lemma Pow2Double(n: nat, v: nat)
    requires Pow2(n) == v
    ensures Pow2(n + n) == v * v
  {
    Pow2Add(n, n);
  }

  lemma {:induction false} Pow2Add(a: nat, b: nat)
    ensures Pow2(a + b) == Pow2(a) * Pow2(b)
  {
    if a > 0 {
      Pow2Add(a - 1, b);
    }
  }

  /** Digit-wise and: a result digit is 1 when both operand digits are. */
  function AndBits(x: nat, y: nat): nat {
    if x == 0 || y == 0 then 0 else 2 * AndBits(x / 2, y / 2) + (x % 2) * (y % 2)
  }

  /** Digit-wise or. */
  function OrBits(x: nat, y: nat): nat {
    if x == 0 then y
    else if y == 0 then x
    else 2 * OrBits(x / 2, y / 2) + (if x % 2 == 1 || y % 2 == 1 then 1 else 0)
  }

  /** Digit-wise exclusive or. */
  function XorBits(x: nat, y: nat): nat {
    if x == 0 then y
    else if y == 0 then x
    else 2 * XorBits(x / 2, y / 2) + (if x % 2 != y % 2 then 1 else 0)
  }

  lemma {:induction false} AndBelow(x: nat, y: nat)
    ensures AndBits(x, y) <= x && AndBits(x, y) <= y
  {
    if x != 0 && y != 0 {
      AndBelow(x / 2, y / 2);
    }
  }

  lemma {:induction false} OrBelow(x: nat, y: nat, n: nat)
    requires x < Pow2(n) && y < Pow2(n)
    ensures x <= OrBits(x, y) < Pow2(n) && y <= OrBits(x, y)
  {
    if x != 0 && y != 0 {
      OrBelow(x / 2, y / 2, n - 1);
    }
  }

  lemma {:induction false} XorBelow(x: nat, y: nat, n: nat)
    requires x < Pow2(n) && y < Pow2(n)
    ensures XorBits(x, y) < Pow2(n)
  {
    if x != 0 && y != 0 {
      XorBelow(x / 2, y / 2, n - 1);
    }
  }

  lemma {:induction false} AndSelf(x: nat)
    ensures AndBits(x, x) == x && OrBits(x, x) == x && XorBits(x, x) == 0
  {
    if x != 0 {
      AndSelf(x / 2);
    }
  }

  lemma {:induction false} XorZeroEqual(x: nat, y: nat)
    requires XorBits(x, y) == 0
    ensures x == y
  {
    if x != 0 && y != 0 {
      XorZeroEqual(x / 2, y / 2);
    }
  }

  /** Exclusive or with the same operand twice gives back the original value. */
  lemma {:induction false} XorTwice(x: nat, y: nat)
    ensures XorBits(XorBits(x, y), y) == x
  {
    if x != 0 && y != 0 {
      XorTwice(x / 2, y / 2);
      var z := XorBits(x, y);
      assert z / 2 == XorBits(x / 2, y / 2);
      if z == 0 {
        XorZeroEqual(x, y);
      }
    } else if x == 0 {
      AndSelf(y);
    }
  }

  lemma {:induction false} Commute(x: nat, y: nat)
    ensures AndBits(x, y) == AndBits(y, x) && OrBits(x, y) == OrBits(y, x) && XorBits(x, y) == XorBits(y, x)
  {
    if x != 0 && y != 0 {
      Commute(x / 2, y / 2);
    }
  }

  /** Binary digit i of x (digit 0 is the least significant). */
  function Digit(x: nat, i: nat): (d: nat)
    ensures d < 2
  {
    x / Pow2(i) % 2
  }

  lemma DivUnique(x: nat, d: nat, q: nat, m: nat)
    requires d > 0 && x == d * q + m && m < d
    ensures x / d == q
  {
    var q', m' := x / d, x % d;
    assert d * q' + m' == d * q + m;
    assert d * (q - q') == m' - m by {
      assert d * (q - q') == d * q - d * q';
    }
    if q - q' >= 1 {
      MulAtLeast(d, q - q');
    } else if q' - q >= 1 {
      MulAtLeast(d, q' - q);
    }
  }

  lemma MulAtLeast(d: nat, k: int)
    requires k >= 1
    ensures d * k >= d
  {
    assert d * k == d * (k - 1) + d;
  }

  /** Digit i + 1 of x is digit i of x / 2. */
  lemma DigitOfHalf(x: nat, i: nat)
    ensures Digit(x, i + 1) == Digit(x / 2, i)
  {
    var p := Pow2(i);
    var a, b := (x / 2) / p, (x / 2) % p;
    assert x / 2 == p * a + b;
    assert x == (2 * p) * a + (2 * b + x % 2);
    DivUnique(x, 2 * p, a, 2 * b + x % 2);
  }

  lemma DigitOfZero(i: nat)
    ensures Digit(0, i) == 0
  {
  }

  /** A digit of x & y is 1 exactly when that digit is 1 in both operands. */
  lemma {:induction false} AndDigit(x: nat, y: nat, i: nat)
    ensures Digit(AndBits(x, y), i) == Digit(x, i) * Digit(y, i)
    decreases i
  {
    if x == 0 || y == 0 {
      DigitOfZero(i);
    } else if i > 0 {
      var z := AndBits(x, y);
      assert z / 2 == AndBits(x / 2, y / 2);
      DigitOfHalf(z, i - 1);
      DigitOfHalf(x, i - 1);
      DigitOfHalf(y, i - 1);
      AndDigit(x / 2, y / 2, i - 1);
    }
  }

  /** A digit of x | y is 1 exactly when that digit is 1 in either operand. */
  lemma {:induction false} OrDigit(x: nat, y: nat, i: nat)
    ensures Digit(OrBits(x, y), i) == (if Digit(x, i) == 1 || Digit(y, i) == 1 then 1 else 0)
    decreases i
  {
    if x == 0 || y == 0 {
      DigitOfZero(i);
    } else if i > 0 {
      var z := OrBits(x, y);
      assert z / 2 == OrBits(x / 2, y / 2);
      DigitOfHalf(z, i - 1);
      DigitOfHalf(x, i - 1);
      DigitOfHalf(y, i - 1);
      OrDigit(x / 2, y / 2, i - 1);
    }
  }

  lemma AndDigits(x: nat, y: nat)
    ensures forall i: nat :: Digit(AndBits(x, y), i) == Digit(x, i) * Digit(y, i)
  {
    forall i: nat ensures Digit(AndBits(x, y), i) == Digit(x, i) * Digit(y, i) {
      AndDigit(x, y, i);
    }
  }

  lemma OrDigits(x: nat, y: nat)
    ensures forall i: nat :: Digit(OrBits(x, y), i) == (if Digit(x, i) == 1 || Digit(y, i) == 1 then 1 else 0)
  {
    forall i: nat ensures Digit(OrBits(x, y), i) == (if Digit(x, i) == 1 || Digit(y, i) == 1 then 1 else 0) {
      OrDigit(x, y, i);
    }
  }

  function BitAnd(v: EventValue, w: EventValue): (r: uint64)
    requires v.UintV? && w.UintV?
    ensures forall i: nat :: Digit(r, i) == Digit(v.uint, i) * Digit(w.uint, i)
    ensures r <= v.uint && r <= w.uint
    ensures v == w ==> r == v.uint
  {
    AndDigits(v.uint, w.uint);
    AndBelow(v.uint, w.uint);
    AndSelf(v.uint);
    AndBits(v.uint, w.uint)
  }

  function BitOr(v: EventValue, w: EventValue): (r: uint64)
    requires v.UintV? && w.UintV?
    ensures forall i: nat :: Digit(r, i) == (if Digit(v.uint, i) == 1 || Digit(w.uint, i) == 1 then 1 else 0)
    ensures v.uint <= r && w.uint <= r
    ensures v == w ==> r == v.uint
  {
    OrDigits(v.uint, w.uint);
    Pow2Is64();
    OrBelow(v.uint, w.uint, 64);
    AndSelf(v.uint);
    OrBits(v.uint, w.uint)
  }

  function BitXor(v: EventValue, w: EventValue): (r: uint64)
    requires v.UintV? && w.UintV?
    ensures XorBits(r, w.uint) == v.uint
    ensures r == 0 <==> v == w
  {
    Pow2Is64();
    XorBelow(v.uint, w.uint, 64);
    XorTwice(v.uint, w.uint);
    AndSelf(v.uint);
    if XorBits(v.uint, w.uint) == 0 then
      XorZeroEqual(v.uint, w.uint);
      XorBits(v.uint, w.uint)
    else
      XorBits(v.uint, w.uint)
  }

  /** ~: every one of the 64 digits flipped. */
  function BitNot(v: EventValue): (r: uint64)
    requires v.UintV?
    ensures r + v.uint == TWO_64 - 1
  {
    TWO_64 - 1 - v.uint
  }

  /** The scalar overloads combine the receiver with the operand directly. */
  function BitAndScalar(v: EventValue, val: uint64): (r: uint64)
    requires v.UintV?
    ensures r == BitAnd(v, UintV(val))
  {
    AndBelow(v.uint, val);
    AndBits(v.uint, val)
  }

  function BitOrScalar(v: EventValue, val: uint64): (r: uint64)
    requires v.UintV?
    ensures r == BitOr(v, UintV(val))
  {
    Pow2Is64();
    OrBelow(v.uint, val, 64);
    OrBits(v.uint, val)
  }

  function BitXorScalar(v: EventValue, val: uint64): (r: uint64)
    requires v.UintV?
    ensures r == BitXor(v, UintV(val))
  {
    Pow2Is64();
    XorBelow(v.uint, val, 64);
    XorBits(v.uint, val)
  }

  /** Operand order does not matter, and ~ undoes itself. */
  lemma BitwiseLaws(x: uint64, y: uint64)
    ensures BitAnd(UintV(x), UintV(y)) == BitAnd(UintV(y), UintV(x))
    ensures BitOr(UintV(x), UintV(y)) == BitOr(UintV(y), UintV(x))
    ensures BitXor(UintV(x), UintV(y)) == BitXor(UintV(y), UintV(x))
    ensures BitXor(UintV(BitXor(UintV(x), UintV(y))), UintV(y)) == x
    ensures BitNot(UintV(BitNot(UintV(x)))) == x
  {
    Commute(x, y);
  }
}
