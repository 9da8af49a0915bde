/**
 * The integer and string side of the progress window of a build: splitting
 * nanosecond timestamps, rendering instants and durations, grouping counters
 * by thousands and joining lists with newlines, and the labels that a
 * progress update fills.
 *
 * The local calendar conversion of the seconds part of an instant depends on
 * the time zone of the machine; it is a parameter of the model.
 */
module ProgressWindow {
  import opened Wrappers
  import opened Decimal

  const NS_PER_SEC: nat := 1000000000
  const SEC_PER_DAY: nat := 86400
  const SEC_PER_HOUR: nat := 3600
  const SEC_PER_MIN: nat := 60

  /** Python's floor division `a // b`; for a positive divisor it is Dafny's Euclidean division. */
  function FloorDiv(a: int, b: int): (q: int)
    requires b > 0
    ensures q * b <= a < q * b + b
  {
    a / b
  }

  // ---------------------------------------------------------------------
  // Instants
  // ---------------------------------------------------------------------

  /** _ns_from_ts: the nanoseconds past the second, non-negative even before the epoch. */
  function NsFromTs(ts: int): (ns: int)
    ensures 0 <= ns < NS_PER_SEC
    ensures FloorDiv(ts, NS_PER_SEC) * NS_PER_SEC + ns == ts
  {
    ts - FloorDiv(ts, NS_PER_SEC) * NS_PER_SEC
  }

  /**
   * _format_time: the local date and time of the seconds part (`calendar`
   * stands for fromtimestamp and strftime('%Y/%m/%d %H:%M:%S')), " + ", the
   * nanoseconds zero-padded to 9 digits and " ns".
   */
  function FormatTime(calendar: int -> string, ts: int): (t: string)
    ensures var date := calendar(FloorDiv(ts, NS_PER_SEC));
            |t| == |date| + 15 && t[..|date|] == date && t[|date|..|date| + 3] == " + " && t[|t| - 3..] == " ns"
  {
    PadNine(NsFromTs(ts));
    calendar(FloorDiv(ts, NS_PER_SEC)) + " + " + PadNat(NsFromTs(ts), 9) + " ns"
  }

  /**
   * The text ends with " + ", exactly nine digits and " ns"; the digits read
   * back as the nanoseconds and, with the calendar's seconds, give back ts.
   */
  lemma FormatTimeEnd(calendar: int -> string, ts: int)
    ensures var t := FormatTime(calendar, ts);
            var digits := t[|t| - 12..|t| - 3];
            |t| >= 15 && t[|t| - 15..|t| - 12] == " + " && t[|t| - 3..] == " ns"
            && AllDigits(digits) && DigitsValue(digits) == NsFromTs(ts)
            && FloorDiv(ts, NS_PER_SEC) * NS_PER_SEC + DigitsValue(digits) == ts
  {
    var ns := NsFromTs(ts);
    PadNine(ns);
    PaddedSuffix(calendar(FloorDiv(ts, NS_PER_SEC)), PadNat(ns, 9));
  }

  /** Nanoseconds below one second pad to exactly nine digits. */
  lemma PadNine(ns: nat)
    requires ns < NS_PER_SEC
    ensures |PadNat(ns, 9)| == 9 && AllDigits(PadNat(ns, 9)) && DigitsValue(PadNat(ns, 9)) == ns
  {
    assert Pow10(9) == NS_PER_SEC;
    NatToStringLength(ns, 9);
    PadNatValue(ns, 9);
  }

  lemma PaddedSuffix(prefix: string, pad: string)
    requires |pad| == 9
    ensures var t := prefix + " + " + pad + " ns";
            |t| >= 15 && t[|t| - 15..|t| - 12] == " + " && t[|t| - 12..|t| - 3] == pad && t[|t| - 3..] == " ns"
  {
  }

  // ---------------------------------------------------------------------
  // Durations
  // ---------------------------------------------------------------------

  /** A duration split into days, hours, minutes, seconds and nanoseconds. */
  datatype Duration = Duration(days: int, hours: int, minutes: int, seconds: int, ns: int)

  /** The nanoseconds a split duration stands for. */
  function Total(d: Duration): int {
    (((d.days * 24 + d.hours) * 60 + d.minutes) * 60 + d.seconds) * NS_PER_SEC + d.ns
  }

  predicate InRange(d: Duration) {
    0 <= d.hours < 24 && 0 <= d.minutes < 60 && 0 <= d.seconds < 60 && 0 <= d.ns < NS_PER_SEC
  }

  lemma MulAtLeast(x: int, b: int)
    requires x >= 1 && b > 0
    ensures x * b >= b
  {
  }

  /** Euclidean division is the only quotient and remainder pair with the remainder in range. */
  lemma DivMod(a: int, b: int, q: int, r: int)
    requires b > 0 && a == q * b + r && 0 <= r < b
    ensures a / b == q && a % b == r
  {
    var q', r' := a / b, a % b;
    assert (q - q') * b == r' - r;
    if q > q' {
      MulAtLeast(q - q', b);
    } else if q < q' {
      MulAtLeast(q' - q, b);
    }
  }

  /** The reference split of whole seconds: days by floor division, the rest of the day by remainders. */
  function SplitSeconds(s: int): (d: Duration)
    ensures 0 <= d.hours < 24 && 0 <= d.minutes < 60 && 0 <= d.seconds < 60 && d.ns == 0
    ensures ((d.days * 24 + d.hours) * 60 + d.minutes) * 60 + d.seconds == s
  {
    var inDay := s % 86400;
    var inHour := inDay % 3600;
    assert s == s / 86400 * 86400 + inDay;
    assert inDay == inDay / 3600 * 3600 + inHour;
    assert inHour == inHour / 60 * 60 + inHour % 60;
    DivMod(inDay, 60, inDay / 3600 * 60 + inHour / 60, inHour % 60);
    Duration(s / 86400, inDay / 3600, inHour / 60, inDay % 60, 0)
  }

  /**
   * The reference split of a difference of timestamps: whole seconds by
   * floor division, split into days, hours, minutes and seconds, and the
   * nanoseconds left over.  Every part but the day count is in range, so
   * only the day count can be negative, and the parts recompose to the
   * difference.
   */
  function Decompose(delta: int): (d: Duration)
    ensures InRange(d) && Total(d) == delta
  {
    var totalSec := FloorDiv(delta, NS_PER_SEC);
    var s := SplitSeconds(totalSec);
    s.(ns := delta - totalSec * NS_PER_SEC)
  }

  /** The split is the only one in range: any in-range split of the same difference is this one. */
  lemma DecomposeUnique(delta: int, d: Duration)
    requires InRange(d) && Total(d) == delta
    ensures d == Decompose(delta)
  {
    var s := ((d.days * 24 + d.hours) * 60 + d.minutes) * 60 + d.seconds;
    DivMod(delta, NS_PER_SEC, s, d.ns);
    var inDay := (d.hours * 60 + d.minutes) * 60 + d.seconds;
    DivMod(s, 86400, d.days, inDay);
    var inHour := d.minutes * 60 + d.seconds;
    DivMod(inDay, 3600, d.hours, inHour);
    DivMod(inHour, 60, d.minutes, d.seconds);
    DivMod(inDay, 60, d.hours * 60 + d.minutes, d.seconds);
  }

  /**
   * The intended rendering of _format_duration: "<days> days + " when the
   * day count is not zero, then "<hours>:<minutes, 2 digits>" when the hour
   * count is not zero and the bare minutes otherwise, then
   * ":<seconds, 2 digits> + <nanoseconds> ns".
   */
  function DurationText(d: Duration): string
    requires InRange(d)
  {
    DaysPart(d) + ClockPart(d) + SecondsPart(d)
  }

  function DaysPart(d: Duration): string {
    if d.days != 0 then IntToString(d.days) + " days + " else ""
  }

  function ClockPart(d: Duration): string
    requires InRange(d)
  {
    if d.hours != 0 then NatToString(d.hours) + ":" + PadNat(d.minutes, 2) else NatToString(d.minutes)
  }

  function SecondsPart(d: Duration): string
    requires InRange(d)
  {
    ":" + PadNat(d.seconds, 2) + " + " + NatToString(d.ns) + " ns"
  }

  /** The parts _format_duration computes, by successive floor division and subtraction. */
  method SplitDuration(ts1: int, ts2: int) returns (days: int, hours: int, minutes: int, seconds: int, diffNs: int)
    ensures Duration(days, hours, minutes, seconds, diffNs) == Decompose(ts2 - ts1)
  {
    var totalSec := FloorDiv(ts2 - ts1, NS_PER_SEC);
    diffNs := (ts2 - ts1) - totalSec * NS_PER_SEC;
    days := FloorDiv(totalSec, SEC_PER_DAY);
    totalSec := totalSec - days * SEC_PER_DAY;
    hours := FloorDiv(totalSec, SEC_PER_HOUR);
    totalSec := totalSec - hours * SEC_PER_HOUR;
    minutes := FloorDiv(totalSec, SEC_PER_MIN);
    totalSec := totalSec - minutes * SEC_PER_MIN;
    seconds := totalSec;
    DecomposeUnique(ts2 - ts1, Duration(days, hours, minutes, seconds, diffNs));
  }

  /**
   * _format_duration: the parts of the difference, then the text built
   * piece by piece (with the days prefix as intended, see
   * FormatDurationAsWritten).
   */
  method FormatDuration(ts1: int, ts2: int) returns (ret: string)
    ensures ret == DurationText(Decompose(ts2 - ts1))
  {
    var days, hours, minutes, seconds, diffNs := SplitDuration(ts1, ts2);
    ret := BuildDurationText(days, hours, minutes, seconds, diffNs);
  }

  /** The string-building half of _format_duration. */
  method BuildDurationText(days: int, hours: int, minutes: int, seconds: int, diffNs: int) returns (ret: string)
    requires InRange(Duration(days, hours, minutes, seconds, diffNs))
    ensures ret == DurationText(Duration(days, hours, minutes, seconds, diffNs))
  {
    ghost var d := Duration(days, hours, minutes, seconds, diffNs);
    ret := "";
    if days != 0 {
      ret := ret + IntToString(days) + " days + ";
    }
    assert ret == DaysPart(d);
    if hours != 0 {
      ret := ret + (NatToString(hours) + ":" + PadNat(minutes, 2));
    } else {
      ret := ret + NatToString(minutes);
    }
    assert ret == DaysPart(d) + ClockPart(d);
    ret := ret + (":" + PadNat(seconds, 2) + " + " + NatToString(diffNs) + " ns");
  }

  /** What the days branch of _format_duration raises: the replacement field names a soft hyphen. */
  datatype KeyError = KeyError(key: string)

  const SOFT_HYPHEN: string := "\U{00AD}"

  /**
   * _format_duration as written: its days format string holds a soft
   * hyphen between the braces, which str.format reads as a keyword field
   * that is not given, so every difference with a non-zero day count fails.
   */
  function FormatDurationAsWritten(ts1: int, ts2: int): (r: Result<string, KeyError>)
    ensures r.Success? <==> 0 <= ts2 - ts1 < SEC_PER_DAY * NS_PER_SEC
    ensures r.Success? ==> r.value == DurationText(Decompose(ts2 - ts1))
    ensures r.Failure? ==> r.error == KeyError(SOFT_HYPHEN)
  {
    var delta := ts2 - ts1;
    var d := Decompose(delta);
    assert d.days == FloorDiv(delta, NS_PER_SEC) / 86400;
    assert (0 <= FloorDiv(delta, NS_PER_SEC) < SEC_PER_DAY) <==> (0 <= delta < SEC_PER_DAY * NS_PER_SEC);
    if d.days != 0 then Failure(KeyError(SOFT_HYPHEN)) else Success(DurationText(d))
  }

  /** One day and one second: the code as written raises, the intended text is "1 days + 0:01 + 0 ns". */
  lemma DaysPrefixRaises()
    ensures FormatDurationAsWritten(0, 86401 * NS_PER_SEC) == Failure(KeyError(SOFT_HYPHEN))
    ensures DurationText(Decompose(86401 * NS_PER_SEC)) == "1 days + 0:01 + 0 ns"
  {
    DecomposeUnique(86401 * NS_PER_SEC, Duration(1, 0, 0, 1, 0));
    assert NatToString(1) == "1" && IntToString(1) == "1" && NatToString(0) == "0";
    assert PadNat(1, 2) == "01";
  }

  /** A zero difference shows no days and no hours: "0:00 + 0 ns". */
  lemma ZeroDuration(t: int)
    ensures DurationText(Decompose(t - t)) == "0:00 + 0 ns"
  {
    DecomposeUnique(0, Duration(0, 0, 0, 0, 0));
    assert NatToString(0) == "0" && PadNat(0, 2) == "00";
  }

  /** Ninety seconds: "1:30 + 0 ns". */
  lemma NinetySeconds(t: int)
    ensures DurationText(Decompose(t + 90 * NS_PER_SEC - t)) == "1:30 + 0 ns"
  {
    DecomposeUnique(90 * NS_PER_SEC, Duration(0, 0, 1, 30, 0));
    assert NatToString(1) == "1" && NatToString(0) == "0";
    assert NatToString(30) == "30" by {
      assert NatToString(3) == "3";
    }
    assert PadNat(30, 2) == "30";
  }

  /** One hour, one minute and one second: "1:01:01 + 0 ns". */
  lemma OneHourOneMinuteOneSecond(t: int)
    ensures DurationText(Decompose(t + 3661 * NS_PER_SEC - t)) == "1:01:01 + 0 ns"
  {
    DecomposeUnique(3661 * NS_PER_SEC, Duration(0, 1, 1, 1, 0));
    assert NatToString(1) == "1" && NatToString(0) == "0" && PadNat(1, 2) == "01";
  }

  // ---------------------------------------------------------------------
  // Counters and lists
  // ---------------------------------------------------------------------

  /** "{0:,}" of a non-negative integer: the digits in groups of three from the right, separated by ','. */
  function GroupThousands(n: nat): (s: string)
    ensures |s| >= 1 && IsDigit(s[0])
    ensures AllDigits(RemoveCommas(s)) && DigitsValue(RemoveCommas(s)) == n
  {
    if n < 1000 then
      RemoveCommasOfDigits(NatToString(n));
      NatToStringRoundTrip(n);
      NatToString(n)
    else
      assert Pow10(3) == 1000;
      NatToStringLength(n % 1000, 3);
      PadNatValue(n % 1000, 3);
      GroupStep(GroupThousands(n / 1000), PadNat(n % 1000, 3), n / 1000, n % 1000);
      GroupThousands(n / 1000) + "," + PadNat(n % 1000, 3)
  }

  /** "{0:,}" of any integer: a '-' before the grouped magnitude of a negative one. */
  function FormatCount(n: int): (s: string)
    ensures |s| >= 1 && (s[0] == '-' <==> n < 0)
    ensures var grouped := if n < 0 then s[1..] else s;
            AllDigits(RemoveCommas(grouped)) && DigitsValue(RemoveCommas(grouped)) == if n < 0 then -n else n
  {
    if n < 0 then "-" + GroupThousands(-n) else GroupThousands(n)
  }

  function RemoveCommas(s: string): (r: string)
    ensures ',' !in r
  {
    if s == [] then [] else (if s[0] == ',' then [] else [s[0]]) + RemoveCommas(s[1..])
  }

  lemma {:induction false} RemoveCommasAppend(a: string, b: string)
    ensures RemoveCommas(a + b) == RemoveCommas(a) + RemoveCommas(b)
  {
    if a != [] {
      assert (a + b)[1..] == a[1..] + b;
      RemoveCommasAppend(a[1..], b);
    } else {
      assert a + b == b;
    }
  }

  lemma {:induction false} RemoveCommasOfDigits(s: string)
    requires AllDigits(s)
    ensures RemoveCommas(s) == s
  {
    if s != [] {
      RemoveCommasOfDigits(s[1..]);
    }
  }

  lemma GroupStep(high: string, low: string, h: nat, l: nat)
    requires AllDigits(RemoveCommas(high)) && DigitsValue(RemoveCommas(high)) == h
    requires AllDigits(low) && |low| == 3 && DigitsValue(low) == l
    ensures AllDigits(RemoveCommas(high + "," + low)) && DigitsValue(RemoveCommas(high + "," + low)) == h * 1000 + l
  {
    SeparatorDropped(high, low);
    DigitsValueAppend(RemoveCommas(high), low);
    assert Pow10(|low|) == 1000;
  }

  lemma SeparatorDropped(high: string, low: string)
    requires AllDigits(low)
    ensures RemoveCommas(high + "," + low) == RemoveCommas(high) + low
  {
    var c := high + ",";
    assert high + "," + low == c + low;
    RemoveCommasOfDigits(low);
    RemoveCommasAppend(c, low);
    RemoveCommasAppend(high, ",");
    SeparatorRemoved();
  }

  lemma SeparatorRemoved()
    ensures RemoveCommas(",") == []
  {
    assert ","[1..] == [];
  }

  /** After the leading group, every ',' is followed by exactly three digits. */
  lemma GroupThousandsShape(n: nat)
    requires n >= 1000
    ensures var s := GroupThousands(n);
            |s| >= 4 && s[|s| - 4] == ',' && AllDigits(s[|s| - 3..]) && s[..|s| - 4] == GroupThousands(n / 1000)
  {
    assert Pow10(3) == 1000;
    NatToStringLength(n % 1000, 3);
    PadNatValue(n % 1000, 3);
    GroupStepAt(n, n / 1000, n % 1000);
    SeparatedTail(GroupThousands(n / 1000), PadNat(n % 1000, 3));
  }

  lemma SeparatedTail(high: string, low: string)
    requires |low| == 3 && AllDigits(low)
    ensures var s := high + "," + low;
            |s| >= 4 && s[|s| - 4] == ',' && AllDigits(s[|s| - 3..]) && s[..|s| - 4] == high
  {
    var s := high + "," + low;
    assert s[|s| - 3..] == low;
    assert s[..|s| - 4] == high;
  }

  lemma GroupMillion()
    ensures GroupThousands(1234567) == "1,234,567"
  {
    GroupThousand();
    Pad567();
    GroupStepAt(1234567, 1234, 567);
  }

  lemma GroupThousand()
    ensures GroupThousands(1234) == "1,234"
  {
    Pad234();
    GroupStepAt(1234, 1, 234);
    assert GroupThousands(1) == NatToString(1) == "1";
  }

  /** One grouping step on a counter of at least 1000. */
  lemma GroupStepAt(n: nat, high: nat, low: nat)
    requires n >= 1000 && high == n / 1000 && low == n % 1000
    ensures GroupThousands(n) == GroupThousands(high) + "," + PadNat(low, 3)
  {
  }

  lemma Pad234()
    ensures PadNat(234, 3) == "234"
  {
    assert NatToString(2) == "2";
    assert NatToString(23) == "23";
    assert NatToString(234) == "234";
  }

  lemma Pad567()
    ensures PadNat(567, 3) == "567"
  {
    assert NatToString(5) == "5";
    assert NatToString(56) == "56";
    assert NatToString(567) == "567";
  }

  /** "\n".join(parts): lines that hold no newline come back from the joined text, in order. */
  function JoinLines(parts: seq<string>): (s: string)
    ensures parts == [] ==> s == ""
    ensures |parts| >= 1 && (forall i | 0 <= i < |parts| :: '\n' !in parts[i]) ==> SplitLines(s) == parts
  {
    if |parts| == 0 then ""
    else if |parts| == 1 then parts[0]
    else
      var rest := JoinLines(parts[1..]);
      assert (forall i | 0 <= i < |parts| :: '\n' !in parts[i]) ==> forall i | 0 <= i < |parts[1..]| :: '\n' !in parts[1..][i] by {
        forall i | 0 <= i < |parts[1..]| ensures parts[1..][i] == parts[i + 1] { }
      }
      if forall i | 0 <= i < |parts| :: '\n' !in parts[i] then
        FirstLine(parts[0], rest);
        assert parts == [parts[0]] + parts[1..];
        parts[0] + "\n" + rest
      else
        parts[0] + "\n" + rest
  }

  function IndexOfNewline(s: string): (k: nat)
    requires '\n' in s
    ensures k < |s| && s[k] == '\n' && '\n' !in s[..k]
  {
    if s[0] == '\n' then 0 else
      assert s[1..] != [] && '\n' in s[1..] by { var i :| 0 <= i < |s| && s[i] == '\n'; assert s[1..][i - 1] == '\n'; }
      var k := IndexOfNewline(s[1..]) + 1;
      assert s[..k] == [s[0]] + s[1..][..k - 1];
      k
  }

  /** s.split('\n'). */
  function SplitLines(s: string): (r: seq<string>)
    ensures |r| >= 1
    decreases |s|
  {
    if '\n' in s then
      var k := IndexOfNewline(s);
      [s[..k]] + SplitLines(s[k + 1..])
    else [s]
  }

  /** A line without newline, a newline and the rest split into that line and the lines of the rest. */
  lemma FirstLine(p: string, t: string)
    requires '\n' !in p
    ensures SplitLines(p + "\n" + t) == [p] + SplitLines(t)
  {
    var s := p + "\n" + t;
    assert s[|p|] == '\n';
    assert s[..|p|] == p;
    var k := IndexOfNewline(s);
    FirstNewline(s, k, |p|);
    assert s[k + 1..] == t;
  }

  /** Two positions that both hold the first newline of a text are the same. */
  lemma FirstNewline(s: string, k: nat, j: nat)
    requires k < |s| && j < |s| && s[k] == '\n' && s[j] == '\n'
    requires '\n' !in s[..k] && '\n' !in s[..j]
    ensures k == j
  {
    forall i | 0 <= i < k ensures s[i] != '\n' {
      assert s[..k][i] == s[i];
    }
    forall i | 0 <= i < j ensures s[i] != '\n' {
      assert s[..j][i] == s[i];
    }
  }

  /** An empty list joins to the empty text. */
  lemma JoinNothing()
    ensures JoinLines([]) == ""
  {
  }

  // ---------------------------------------------------------------------
  // The window
  // ---------------------------------------------------------------------

  /** A progress update as the window reads it. */
  datatype ProgressUpdate = ProgressUpdate(
    valid: bool, beginTs: int, endTs: int, curTs: int, processedEvents: int, stateChanges: int,
    tracesPaths: seq<string>, stateProviders: seq<string>)

  /** The texts of the window that do not involve floating point. */
  class QProgressMainWindow {
    /** The local calendar rendering of a number of seconds since the epoch. */
    const calendar: int -> string
    var beginTimeText: string
    var endTimeText: string
    var durationText: string
    var curTimeText: string
    var processedEventsText: string
    var stateChangesText: string
    var tracesText: string
    var stateProvidersText: string

    constructor(calendar: int -> string)
      ensures this.calendar == calendar
    {
      this.calendar := calendar;
    }

    /** on_update_progress: an invalid update is ignored, and a valid one is not used either. */
    method OnUpdateProgress(progress: ProgressUpdate)
      ensures unchanged(this)
    {
      if !progress.valid {
        return;
      }
    }

    /**
     * set_progress_update: begin, end and current instants, the duration
     * from begin to end, both counters grouped by thousands and both lists
     * joined with newlines, each into its own field.  The fraction done
     * divides by the range before any label is set, so an empty range
     * (end equal to begin) raises ZeroDivisionError and changes nothing;
     * `ok` is false exactly then.
     */
    method SetProgressUpdate(update: ProgressUpdate) returns (ok: bool)
      modifies this
      ensures ok <==> update.endTs != update.beginTs
      ensures !ok ==> unchanged(this)
      ensures ok ==> beginTimeText == FormatTime(calendar, update.beginTs)
      ensures ok ==> endTimeText == FormatTime(calendar, update.endTs)
      ensures ok ==> curTimeText == FormatTime(calendar, update.curTs)
      ensures InRange(Decompose(update.endTs - update.beginTs))
      ensures ok ==> durationText == DurationText(Decompose(update.endTs - update.beginTs))
      ensures ok ==> processedEventsText == FormatCount(update.processedEvents)
      ensures ok ==> stateChangesText == FormatCount(update.stateChanges)
      ensures ok ==> tracesText == JoinLines(update.tracesPaths)
      ensures ok ==> stateProvidersText == JoinLines(update.stateProviders)
    {
      if update.endTs == update.beginTs {
        return false;
      }
      ShowUpdate(update);
      ok := true;
    }

    /** The label updates of set_progress_update, once the fraction done exists. */
    method ShowUpdate(update: ProgressUpdate)
      modifies this
      ensures beginTimeText == FormatTime(calendar, update.beginTs)
      ensures endTimeText == FormatTime(calendar, update.endTs)
      ensures curTimeText == FormatTime(calendar, update.curTs)
      ensures durationText == DurationText(Decompose(update.endTs - update.beginTs))
      ensures processedEventsText == FormatCount(update.processedEvents)
      ensures stateChangesText == FormatCount(update.stateChanges)
      ensures tracesText == JoinLines(update.tracesPaths)
      ensures stateProvidersText == JoinLines(update.stateProviders)
    {
      ShowTimes(update);
      ShowCounts(update);
    }

    /** The time labels: the three timestamps and the duration between begin and end. */
    method ShowTimes(update: ProgressUpdate)
      modifies this`beginTimeText, this`endTimeText, this`curTimeText, this`durationText
      ensures beginTimeText == FormatTime(calendar, update.beginTs)
      ensures endTimeText == FormatTime(calendar, update.endTs)
      ensures curTimeText == FormatTime(calendar, update.curTs)
      ensures durationText == DurationText(Decompose(update.endTs - update.beginTs))
    {
      var beginText := FormatTime(calendar, update.beginTs);
      var endText := FormatTime(calendar, update.endTs);
      var curText := FormatTime(calendar, update.curTs);
      var duration := FormatDuration(update.beginTs, update.endTs);
      beginTimeText, endTimeText, durationText, curTimeText := beginText, endText, duration, curText;
    }

    /** The counter and list labels; the time labels are left as they are. */
    method ShowCounts(update: ProgressUpdate)
      modifies this`processedEventsText, this`stateChangesText, this`tracesText, this`stateProvidersText
      ensures processedEventsText == FormatCount(update.processedEvents)
      ensures stateChangesText == FormatCount(update.stateChanges)
      ensures tracesText == JoinLines(update.tracesPaths)
      ensures stateProvidersText == JoinLines(update.stateProviders)
      ensures unchanged(this`beginTimeText, this`endTimeText, this`curTimeText, this`durationText)
    {
      processedEventsText := FormatCount(update.processedEvents);
      stateChangesText := FormatCount(update.stateChanges);
      tracesText := JoinLines(update.tracesPaths);
      stateProvidersText := JoinLines(update.stateProviders);
    }
  }
}
