/**
 * TermModifier: an SGR terminal modifier.  A modifier holds one code of a
 * fixed enumeration and is written to a stream as ESC, '[', the decimal
 * code and 'm'.
 */
module TermModifiers {
  import opened Wrappers
  import opened Decimal

  /** The codes a modifier can be built with. */
  datatype Code =
    | RESET | BOLD | NOBOLD | DIM | NODIM | REVERSE | NOREVERSE
    | FG_DEF | FG_BLACK | FG_RED | FG_GREEN | FG_YELLOW | FG_BLUE | FG_MAGENTA | FG_CYAN | FG_GREY | FG_WHITE
    | BG_DEF | BG_BLACK | BG_RED | BG_GREEN | BG_YELLOW | BG_BLUE | BG_MAGENTA | BG_CYAN | BG_GREY | BG_WHITE

  /** The value of each enumerator. */
  function CodeValue(c: Code): (n: nat)
    ensures n <= 107
  {
    match c
    case RESET => 0
    case BOLD => 1
    case NOBOLD => 21
    case DIM => 2
    case NODIM => 22
    case REVERSE => 7
    case NOREVERSE => 27
    case FG_DEF => 39
    case FG_BLACK => 30
    case FG_RED => 31
    case FG_GREEN => 32
    case FG_YELLOW => 33
    case FG_BLUE => 34
    case FG_MAGENTA => 35
    case FG_CYAN => 36
    case FG_GREY => 37
    case FG_WHITE => 97
    case BG_DEF => 49
    case BG_BLACK => 40
    case BG_RED => 41
    case BG_GREEN => 42
    case BG_YELLOW => 43
    case BG_BLUE => 44
    case BG_MAGENTA => 45
    case BG_CYAN => 46
    case BG_GREY => 47
    case BG_WHITE => 107
  }

  /** The enumerator with a given value, if any. */
  function CodeOf(n: nat): (r: Option<Code>)
  {
    if n == 0 then Some(RESET)
    else if n == 1 then Some(BOLD)
    else if n == 21 then Some(NOBOLD)
    else if n == 2 then Some(DIM)
    else if n == 22 then Some(NODIM)
    else if n == 7 then Some(REVERSE)
    else if n == 27 then Some(NOREVERSE)
    else if n == 39 then Some(FG_DEF)
    else if n == 30 then Some(FG_BLACK)
    else if n == 31 then Some(FG_RED)
    else if n == 32 then Some(FG_GREEN)
    else if n == 33 then Some(FG_YELLOW)
    else if n == 34 then Some(FG_BLUE)
    else if n == 35 then Some(FG_MAGENTA)
    else if n == 36 then Some(FG_CYAN)
    else if n == 37 then Some(FG_GREY)
    else if n == 97 then Some(FG_WHITE)
    else if n == 49 then Some(BG_DEF)
    else if n == 40 then Some(BG_BLACK)
    else if n == 41 then Some(BG_RED)
    else if n == 42 then Some(BG_GREEN)
    else if n == 43 then Some(BG_YELLOW)
    else if n == 44 then Some(BG_BLUE)
    else if n == 45 then Some(BG_MAGENTA)
    else if n == 46 then Some(BG_CYAN)
    else if n == 47 then Some(BG_GREY)
    else if n == 107 then Some(BG_WHITE)
    else None
  }

  /** Every enumerator has its own value, and the value finds it back. */
  lemma CodeValueInverse(c: Code)
    ensures CodeOf(CodeValue(c)) == Some(c)
  {
  }

  /** No two enumerators share a value. */
  lemma CodeValueInjective(c: Code, d: Code)
    requires CodeValue(c) == CodeValue(d)
    ensures c == d
  {
    CodeValueInverse(c);
    CodeValueInverse(d);
  }

  const ESC: char := 27 as char

  /** operator<<: the escape character, '[', the code in decimal, 'm'. */
  function Render(c: Code): (s: string)
    ensures |s| >= 4 && s[0] == ESC && s[1] == '[' && s[|s| - 1] == 'm'
    ensures AllDigits(s[2..|s| - 1])
  {
    [ESC, '['] + NatToString(CodeValue(c)) + "m"
  }

  /** Reading a rendered modifier: the code between "ESC[" and "m", when it is one of the enumerators. */
  function Parse(s: string): (r: Option<Code>)
  {
    if |s| >= 4 && s[0] == ESC && s[1] == '[' && s[|s| - 1] == 'm' && AllDigits(s[2..|s| - 1])
    then CodeOf(DigitsValue(s[2..|s| - 1]))
    else None
  }

  /** The digits of a rendered modifier read back as its code. */
  lemma RenderRoundTrip(c: Code)
    ensures Parse(Render(c)) == Some(c)
  {
    var s := Render(c);
    assert s[2..|s| - 1] == NatToString(CodeValue(c));
    NatToStringRoundTrip(CodeValue(c));
    CodeValueInverse(c);
  }

  /** Distinct codes render differently. */
  lemma RenderInjective(c: Code, d: Code)
    requires Render(c) == Render(d)
    ensures c == d
  {
    RenderRoundTrip(c);
    RenderRoundTrip(d);
  }
}
