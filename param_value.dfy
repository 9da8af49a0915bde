/**
 * StateProviderParamValue: a state provider parameter kept as the string it
 * was given, read back as a string, a signed or an unsigned 64-bit integer,
 * or a boolean.  The integer readings follow std::stoll and std::stoull
 * (base 10: leading white space, an optional sign, the longest run of
 * digits; no digit or a value out of range throws), and a throw is turned
 * into the value -1 of the result type.
 */
module ParamValues {
  import opened Wrappers
  import opened FixedWidth
  import opened Decimal

  datatype ParamValue = ParamValue(val: string)

  /** isspace in the C locale. */
  predicate IsSpace(c: char) {
    c == ' ' || c == '\t' || c == '\n' || c == '\r' || c as int == 11 || c as int == 12
  }

  /** The first position at or after i that is not white space. */
  function SkipSpaces(s: string, i: nat): (r: nat)
    requires i <= |s|
    ensures i <= r <= |s|
    ensures forall k | i <= k < r :: IsSpace(s[k])
    ensures r < |s| ==> !IsSpace(s[r])
    decreases |s| - i
  {
    if i == |s| || !IsSpace(s[i]) then i else SkipSpaces(s, i + 1)
  }

  /** The end of the run of digits starting at i. */
  function DigitsEnd(s: string, i: nat): (r: nat)
    requires i <= |s|
    ensures i <= r <= |s|
    ensures AllDigits(s[i..r])
    ensures r < |s| ==> !IsDigit(s[r])
    decreases |s| - i
  {
    if i == |s| || !IsDigit(s[i]) then i
    else
      var r := DigitsEnd(s, i + 1);
      assert s[i..r] == [s[i]] + s[i + 1..r];
      r
  }

  /** What strtoll and strtoull read before range checking: a sign and the magnitude of the digits. */
  datatype Parsed = Parsed(negative: bool, magnitude: nat)

  function ParseDecimal(s: string): (p: Option<Parsed>)
  {
    var i := SkipSpaces(s, 0);
    var negative := i < |s| && s[i] == '-';
    var k := if i < |s| && (s[i] == '-' || s[i] == '+') then i + 1 else i;
    var j := DigitsEnd(s, k);
    if j == k then None else Some(Parsed(negative, DigitsValue(s[k..j])))
  }

  /** The signed value a reading denotes. */
  function Signed(p: Parsed): int {
    if p.negative then -(p.magnitude as int) else p.magnitude
  }

  /** std::stoll: None where it throws (no digits, or outside int64), otherwise the signed value read. */
  function Stoll(s: string): (r: Option<int64>)
    ensures r.Some? <==> ParseDecimal(s).Some? && -TWO_63 <= Signed(ParseDecimal(s).value) < TWO_63
    ensures r.Some? ==> r.value == Signed(ParseDecimal(s).value)
  {
    match ParseDecimal(s)
    case None => None
    case Some(p) =>
      var x: int := if p.negative then -(p.magnitude as int) else p.magnitude;
      if -TWO_63 <= x < TWO_63 then Some(x) else None
  }

  /**
   * std::stoull: a magnitude beyond uint64 throws; otherwise the magnitude,
   * which a minus sign negates modulo 2^64.
   */
  function Stoull(s: string): (r: Option<uint64>)
    ensures r.Some? <==> ParseDecimal(s).Some? && ParseDecimal(s).value.magnitude < TWO_64
    ensures r.Some? && !ParseDecimal(s).value.negative ==> r.value == ParseDecimal(s).value.magnitude
    ensures r.Some? && ParseDecimal(s).value.negative ==>
              r.value + ParseDecimal(s).value.magnitude == (if ParseDecimal(s).value.magnitude == 0 then 0 else TWO_64)
  {
    match ParseDecimal(s)
    case None => None
    case Some(p) =>
      if p.magnitude < TWO_64 then Some(if p.negative then WrapU64(-(p.magnitude as int)) else p.magnitude) else None
  }

  /** asString: the stored string itself. */
  function AsString(v: ParamValue): (s: string)
    ensures ParamValue(s) == v
  {
    v.val
  }

  function AsSint(v: ParamValue): (x: int64)
    ensures Stoll(v.val).None? ==> x == -1
    ensures Stoll(v.val).Some? ==> x == Signed(ParseDecimal(v.val).value)
  {
    match Stoll(v.val)
    case None => -1
    case Some(x) => x
  }

  /** A failed unsigned reading is -1 converted to uint64. */
  function AsUint(v: ParamValue): (x: uint64)
    ensures Stoull(v.val).None? ==> x == TWO_64 - 1
    ensures Stoull(v.val).Some? ==> (x - Signed(ParseDecimal(v.val).value)) % TWO_64 == 0
  {
    match Stoull(v.val)
    case None => WrapU64(-1)
    case Some(x) => x
  }

  /** asBool: the three spellings of true and of false, otherwise the unsigned reading is not zero. */
  function AsBool(v: ParamValue): (b: bool)
    ensures v.val in {"true", "TRUE", "True"} ==> b
    ensures v.val in {"false", "FALSE", "False"} ==> !b
    ensures !(v.val in {"true", "TRUE", "True", "false", "FALSE", "False"}) ==> (b <==> AsUint(v) != 0)
  {
    if v.val == "true" || v.val == "TRUE" || v.val == "True" then true
    else if v.val == "false" || v.val == "FALSE" || v.val == "False" then false
    else AsUint(v) != 0
  }

  lemma {:induction false} DigitsEndOfDigits(s: string, i: nat)
    requires i <= |s| && AllDigits(s[i..])
    ensures DigitsEnd(s, i) == |s|
    decreases |s| - i
  {
    if i < |s| {
      assert s[i] == s[i..][0];
      assert s[i + 1..] == s[i..][1..];
      DigitsEndOfDigits(s, i + 1);
    }
  }

  /** The decimal string of a natural number reads back as that number, with no sign. */
  lemma ParseNatString(n: nat)
    ensures ParseDecimal(NatToString(n)) == Some(Parsed(false, n))
  {
    var s := NatToString(n);
    assert s[0..] == s;
    DigitsEndOfDigits(s, 0);
    assert s[0..|s|] == s;
    NatToStringRoundTrip(n);
  }

  /** A parameter written with std::to_string of an int64 reads back as that integer. */
  lemma AsSintRoundTrip(x: int64)
    ensures AsSint(ParamValue(IntToString(x))) == x
  {
    var s := IntToString(x);
    if x < 0 {
      var t := NatToString(-(x as int));
      assert s == "-" + t;
      assert s[1..] == t;
      DigitsEndOfDigits(s, 1);
      assert s[1..|s|] == t;
      NatToStringRoundTrip(-(x as int));
      assert ParseDecimal(s) == Some(Parsed(true, -(x as int)));
    } else {
      ParseNatString(x);
    }
  }

  /** A parameter written as the decimal string of a uint64 reads back as that integer. */
  lemma AsUintRoundTrip(n: uint64)
    ensures AsUint(ParamValue(NatToString(n))) == n
    ensures AsBool(ParamValue(NatToString(n))) <==> n != 0
  {
    ParseNatString(n);
    var s := NatToString(n);
    assert s !in {"true", "TRUE", "True", "false", "FALSE", "False"} by {
      assert IsDigit(s[0]);
    }
  }

  /** A string without any digit reads as -1, as 2^64-1, and (unless it spells a boolean) as true. */
  lemma NoDigitsFallBack(s: string)
    requires forall i | 0 <= i < |s| :: !IsDigit(s[i])
    ensures AsSint(ParamValue(s)) == -1
    ensures AsUint(ParamValue(s)) == TWO_64 - 1
    ensures !(s in {"false", "FALSE", "False"}) ==> AsBool(ParamValue(s))
  {
    var i := SkipSpaces(s, 0);
    var k := if i < |s| && (s[i] == '-' || s[i] == '+') then i + 1 else i;
    assert DigitsEnd(s, k) == k by {
      if k < |s| {
        assert !IsDigit(s[k]);
      }
    }
  }

  /** "0" is false and "1" is true. */
  lemma BoolFromDigits()
    ensures !AsBool(ParamValue("0")) && AsBool(ParamValue("1"))
  {
    AsUintRoundTrip(0);
    AsUintRoundTrip(1);
    assert NatToString(0) == "0";
    assert NatToString(1) == "1";
  }
}
