/** Timestamps in microseconds since 1970 and their text form. */
module Timestamps {
  import opened Wrappers
  import opened Calendar
  import opened Text

  const SECOND: int := 1_000_000
  const DAY_SECONDS: int := 86_400
  const DAY: int := DAY_SECONDS * SECOND
  const MAX_I64: int := 0x7FFF_FFFF_FFFF_FFFF
  const MIN_I64: int := -0x8000_0000_0000_0000

  predicate FitsI64(x: int) { MIN_I64 <= x <= MAX_I64 }

  // ------------------------------------------------------------- formatting

  function DateText(c: Date): string {
    PadInt(c.y, 4) + ['-'] + (PadInt(c.m, 2) + ['-'] + PadInt(c.d, 2))
  }

  function FormatDate(days: int): string {
    DateText(YmdFromDays(days))
  }

  function TimeText(secs: nat, micros: nat): string {
    var hms := Pad(secs / 3600, 2) + [':'] + (Pad(secs % 3600 / 60, 2) + [':'] + Pad(secs % 60, 2));
    if micros == 0 then hms else hms + ['.'] + Pad(micros, 6)
  }

  function FormatTimestamp(micros: int): string {
    var total := Quot(micros, SECOND);
    FormatDate(Quot(total, DAY_SECONDS)) + [' '] + TimeText(total % DAY_SECONDS, micros % SECOND)
  }

  // ----------------------------------------------------------------- parsing

  function ParseDate(text: string): Option<int> {
    var parts := SplitN(Trim(text), 3, '-');
    if |parts| != 3 then None
    else
      var y, m, d := ParseInt(parts[0], MIN_I32, MAX_I32), ParseInt(parts[1], MIN_I32, MAX_I32),
                     ParseInt(parts[2], MIN_I32, MAX_I32);
      if y.None? || m.None? || d.None? then None
      else if !(1 <= m.value <= 12) || !(1 <= d.value <= 31) then None
      else Some(DaysFromYmd(y.value, m.value, d.value))
  }

  /** A fraction is cut or filled to six digits. */
  function Fraction(text: string): Option<int> {
    var cut := if |text| <= 6 then text else text[..6];
    ParseInt(cut + Zeros(6 - |cut|), MIN_I64, MAX_I64)
  }

  /** Seconds of the day from hours, minutes and seconds, which are not checked against a range. */
  function Seconds(parts: seq<string>): Option<int> {
    if |parts| != 3 then None
    else
      var h, m, s := ParseInt(parts[0], MIN_I64, MAX_I64), ParseInt(parts[1], MIN_I64, MAX_I64),
                     ParseInt(parts[2], MIN_I64, MAX_I64);
      if h.None? || m.None? || s.None? then None else Some(h.value * 3600 + m.value * 60 + s.value)
  }

  function Sum(a: Option<int>, unit: int, b: Option<int>): Option<int> {
    if a.None? || b.None? then None else Some(a.value * unit + b.value)
  }

  function ParseTime(text: string): Option<int> {
    var dot := Find(text, '.');
    Sum(Seconds(SplitN(text[..dot], 3, ':')), SECOND, if dot == |text| then Some(0) else Fraction(text[dot + 1..]))
  }

  /** Where date and time part: at the first space, else at the first `T`, else at the end. */
  function Parting(s: string): (p: nat)
    ensures p <= |s|
  {
    if Find(s, ' ') < |s| then Find(s, ' ') else Find(s, 'T')
  }

  function ParseTimestamp(text: string): Option<int> {
    var s := Trim(text);
    var i := Parting(s);
    Sum(ParseDate(s[..i]), DAY, ParseTime(if i < |s| then s[i + 1..] else "00:00:00"))
  }

  // ------------------------------------------------------------ reading back

  lemma TwoDigits(n: int)
    requires 0 <= n < 100
    ensures PadInt(n, 2) == Pad(n, 2) && '-' !in Pad(n, 2) && ':' !in Pad(n, 2) && '.' !in Pad(n, 2)
    ensures ParseInt(Pad(n, 2), MIN_I32, MAX_I32) == Some(n)
    ensures ParseInt(Pad(n, 2), MIN_I64, MAX_I64) == Some(n)
  {
    ParseDigits(Pad(n, 2), MIN_I32, MAX_I32);
    ParseDigits(Pad(n, 2), MIN_I64, MAX_I64);
  }

  predicate Plain(s: string) { forall i :: 0 <= i < |s| ==> IsDigit(s[i]) || s[i] == '-' }

  lemma PlainTrim(s: string)
    requires s != "" && Plain(s)
    ensures Trim(s) == s && ' ' !in s && 'T' !in s
  {
    assert IsDigit(s[0]) || s[0] == '-';
    assert IsDigit(s[|s| - 1]) || s[|s| - 1] == '-';
    TrimNothing(s);
  }

  lemma PlainJoin(a: string, b: string)
    requires AllDigits(a) && Plain(b)
    ensures Plain(a + ['-'] + b) && Plain(['-'] + a + ['-'] + b) && Plain(a)
  {
  }

  lemma DateTextPlain(c: Date)
    requires 1 <= c.m <= 12 && 1 <= c.d <= 31
    ensures Plain(DateText(c)) && DateText(c) != ""
  {
    TwoDigits(c.m);
    TwoDigits(c.d);
    var m, d := Pad(c.m, 2), Pad(c.d, 2);
    PlainJoin(d, d);
    PlainJoin(m, d);
    if c.y >= 0 {
      PlainJoin(Pad(c.y, 4), m + ['-'] + d);
    } else {
      PlainJoin(Pad(-c.y, 3), m + ['-'] + d);
    }
  }

  lemma DateTextParses(c: Date)
    requires 1 <= c.m <= 12 && 1 <= c.d <= 31 && 0 <= c.y <= MAX_I32
    ensures ParseDate(DateText(c)) == Some(Days(c))
  {
    DateTextPlain(c);
    PlainTrim(DateText(c));
    TwoDigits(c.m);
    TwoDigits(c.d);
    var year := Pad(c.y, 4);
    NotAmongDigits(year, '-');
    ParseDigits(year, MIN_I32, MAX_I32);
    SplitThree(year, Pad(c.m, 2), Pad(c.d, 2), '-');
  }

  /** A year before 0 is written with a sign the parser takes for a separator. */
  lemma NegativeYearFails(c: Date)
    requires 1 <= c.m <= 12 && 1 <= c.d <= 31 && c.y < 0
    ensures ParseDate(DateText(c)) == None
  {
    hide Pad, Plain, Trim, ParseDate;
    DateTextPlain(c);
    PlainTrim(DateText(c));
    var rest := Pad(-c.y, 3) + ['-'] + (PadInt(c.m, 2) + ['-'] + PadInt(c.d, 2));
    assert DateText(c) == "" + ['-'] + rest;
    LeadingDash(DateText(c), rest);
  }

  lemma LeadingDash(text: string, rest: string)
    requires text == "" + ['-'] + rest && Trim(text) == text
    ensures ParseDate(text) == None
  {
    SplitStep("", '-', rest, 3);
  }

  lemma ClockParts(secs: nat)
    requires secs < DAY_SECONDS
    ensures 0 <= secs / 3600 < 24 && 0 <= secs % 3600 / 60 < 60 && 0 <= secs % 60 < 60
    ensures secs / 3600 * 3600 + secs % 3600 / 60 * 60 + secs % 60 == secs
  {
  }

  function Clock(secs: nat): string {
    Pad(secs / 3600, 2) + [':'] + (Pad(secs % 3600 / 60, 2) + [':'] + Pad(secs % 60, 2))
  }

  lemma ClockSplits(secs: nat)
    requires secs < DAY_SECONDS
    ensures SplitN(Clock(secs), 3, ':') == [Pad(secs / 3600, 2), Pad(secs % 3600 / 60, 2), Pad(secs % 60, 2)]
    ensures '.' !in Clock(secs)
  {
    ClockParts(secs);
    TwoDigits(secs / 3600);
    TwoDigits(secs % 3600 / 60);
    TwoDigits(secs % 60);
    SplitThree(Pad(secs / 3600, 2), Pad(secs % 3600 / 60, 2), Pad(secs % 60, 2), ':');
  }

  lemma FractionParses(micros: nat)
    requires micros < SECOND
    ensures Fraction(Pad(micros, 6)) == Some(micros)
  {
    assert Power(6) == SECOND by { assert Power(3) == 1000; }
    PadLength(micros, 6);
    var text := Pad(micros, 6);
    assert text + Zeros(0) == text;
    ParseDigits(text, MIN_I64, MAX_I64);
  }

  lemma TimeTextIs(secs: nat, micros: nat)
    ensures TimeText(secs, micros) == if micros == 0 then Clock(secs) else Clock(secs) + ['.'] + Pad(micros, 6)
  {
  }

  lemma TimeTextDot(secs: nat, micros: nat)
    requires secs < DAY_SECONDS && micros < SECOND
    ensures var text := TimeText(secs, micros);
      var dot := Find(text, '.');
      && text[..dot] == Clock(secs)
      && (micros == 0 <==> dot == |text|)
      && (micros > 0 ==> text[dot + 1..] == Pad(micros, 6))
  {
    hide TimeText, Clock, Pad, SplitN;
    TimeTextIs(secs, micros);
    ClockSplits(secs);
    if micros == 0 {
      FindNone(Clock(secs), '.');
    } else {
      FindAt(Clock(secs), '.', Pad(micros, 6));
    }
  }

  lemma SecondsAre(a: string, b: string, c: string, h: int, m: int, s: int)
    requires ParseInt(a, MIN_I64, MAX_I64) == Some(h) && ParseInt(b, MIN_I64, MAX_I64) == Some(m)
    requires ParseInt(c, MIN_I64, MAX_I64) == Some(s)
    ensures Seconds([a, b, c]) == Some(h * 3600 + m * 60 + s)
  {
    hide ParseInt;
  }

  lemma ClockParses(secs: nat)
    requires secs < DAY_SECONDS
    ensures Seconds(SplitN(Clock(secs), 3, ':')) == Some(secs)
  {
    hide Seconds, SplitN, Clock, Pad, ParseInt;
    ClockSplits(secs);
    ClockParts(secs);
    var h, m, s := secs / 3600, secs % 3600 / 60, secs % 60;
    TwoDigits(h);
    TwoDigits(m);
    TwoDigits(s);
    SecondsAre(Pad(h, 2), Pad(m, 2), Pad(s, 2), h, m, s);
  }

  lemma TimeTextParses(secs: nat, micros: nat)
    requires secs < DAY_SECONDS && micros < SECOND
    ensures ParseTime(TimeText(secs, micros)) == Some(secs * SECOND + micros)
  {
    hide TimeText, Seconds, SplitN, Clock, Pad, Fraction, Find;
    TimeTextDot(secs, micros);
    ClockParses(secs);
    if micros > 0 { FractionParses(micros); }
  }

  lemma TimeTextEnds(secs: nat, micros: nat)
    ensures var text := TimeText(secs, micros); text != "" && IsDigit(text[|text| - 1])
  {
    assert AllDigits(Pad(secs % 60, 2)) && AllDigits(Pad(micros, 6));
  }

  /** The space between the halves is found. */
  lemma Halves(date: string, time: string)
    requires date != "" && Plain(date) && time != "" && IsDigit(time[|time| - 1])
    ensures var s := date + [' '] + time;
      Trim(s) == s && Parting(s) == |date| && s[..|date|] == date && s[|date| + 1..] == time
  {
    var s := date + [' '] + time;
    assert s[0] == date[0] && s[|s| - 1] == time[|time| - 1];
    assert IsDigit(s[0]) || s[0] == '-';
    TrimNothing(s);
    PlainTrim(date);
    FindAt(date, ' ', time);
  }

  lemma HalvesParse(date: string, time: string, days: Option<int>, rest: int)
    requires date != "" && Plain(date) && time != "" && IsDigit(time[|time| - 1])
    requires ParseDate(date) == days && ParseTime(time) == Some(rest)
    ensures ParseTimestamp(date + [' '] + time) == Sum(days, DAY, Some(rest))
  {
    Halves(date, time);
  }

  function DayOf(micros: int): int { Quot(Quot(micros, SECOND), DAY_SECONDS) }

  lemma DayRange(micros: int)
    requires FitsI64(micros)
    ensures -106_751_992 < DayOf(micros) < 106_751_992
  {
  }

  lemma YearRange(days: int)
    requires -106_751_992 < days < 106_751_992
    ensures var c := YmdFromDays(days);
      Valid(c) && 1 <= c.d <= 31 && c.y <= MAX_I32
  {
    DayRoundTrip(days);
    if YmdFromDays(days).y > 300_000 {
      SameOrder(Date(300_000, 1, 1), YmdFromDays(days));
    }
  }

  lemma DateParsesTo(days: int)
    requires -106_751_992 < days < 106_751_992
    ensures ParseDate(FormatDate(days)) == (if YmdFromDays(days).y < 0 then None else Some(days))
    ensures Plain(FormatDate(days)) && FormatDate(days) != ""
  {
    YearRange(days);
    var c := YmdFromDays(days);
    DateTextPlain(c);
    if c.y < 0 {
      NegativeYearFails(c);
    } else {
      DateTextParses(c);
      DayRoundTrip(days);
    }
  }

  /** What parsing the text of a timestamp gives. */
  lemma ParsesTo(micros: int)
    requires FitsI64(micros)
    ensures ParseTimestamp(FormatTimestamp(micros)) ==
      Sum(if YmdFromDays(DayOf(micros)).y < 0 then None else Some(DayOf(micros)), DAY,
          Some(Quot(micros, SECOND) % DAY_SECONDS * SECOND + micros % SECOND))
  {
    hide ParseTimestamp, ParseDate, ParseTime, FormatDate, TimeText, YmdFromDays;
    DayRange(micros);
    DateParsesTo(DayOf(micros));
    var secs, rest := Quot(micros, SECOND) % DAY_SECONDS, micros % SECOND;
    TimeTextEnds(secs, rest);
    TimeTextParses(secs, rest);
    HalvesParse(FormatDate(DayOf(micros)), TimeText(secs, rest), ParseDate(FormatDate(DayOf(micros))),
                secs * SECOND + rest);
  }

  function Recombined(micros: int): int {
    DayOf(micros) * DAY + (Quot(micros, SECOND) % DAY_SECONDS * SECOND + micros % SECOND)
  }

  lemma RecombinesLate(micros: int)
    requires micros >= 0
    ensures Recombined(micros) == micros
  {
    var total := micros / SECOND;
    assert total == total / DAY_SECONDS * DAY_SECONDS + total % DAY_SECONDS;
  }

  /** Before 1970 truncation and remainder do not fit together, except at midnight. */
  lemma RecombinesEarly(micros: int)
    requires micros < 0
    ensures Recombined(micros) == micros <==> micros % DAY == 0
  {
    var total := -((-micros) / SECOND);
    var days := -((-total) / DAY_SECONDS);
    var rest := total % DAY_SECONDS;
    assert total == days * DAY_SECONDS + rest || total == (days - 1) * DAY_SECONDS + rest;
    assert micros == total * SECOND + micros % SECOND || micros == (total - 1) * SECOND + micros % SECOND;
    if micros % DAY == 0 {
      var k := micros / DAY;
      assert micros == SECOND * (DAY_SECONDS * k);
      assert total == DAY_SECONDS * k;
    }
  }

  /** From 1970 on the year is not negative. */
  lemma YearFrom1970(days: int)
    requires days >= 0
    ensures YmdFromDays(days).y >= 1970
  {
    DayRoundTrip(days);
    SameOrder(YmdFromDays(days), Date(1970, 1, 1));
    TomorrowCounts(Date(1970, 1, 1));
  }

  /**
   * A timestamp is read back from its own text exactly when it is not before
   * 1970, or is midnight of a day of year 0 or later.
   */
  lemma TimestampRoundTrip(micros: int)
    requires FitsI64(micros)
    ensures ParseTimestamp(FormatTimestamp(micros)) == Some(micros)
       <==> (micros >= 0 || (micros % DAY == 0 && YmdFromDays(DayOf(micros)).y >= 0))
  {
    hide ParseTimestamp, FormatTimestamp, YmdFromDays;
    ParsesTo(micros);
    if micros >= 0 {
      RecombinesLate(micros);
      YearFrom1970(DayOf(micros));
    } else {
      RecombinesEarly(micros);
    }
  }

  /** The last microsecond of 1969 is read back as one of 1970. */
  lemma InstantBefore1970Lost()
    ensures ParseTimestamp(FormatTimestamp(-1)) == Some(999_999)
  {
    hide ParseTimestamp, FormatTimestamp, YmdFromDays;
    ParsesTo(-1);
    YearFrom1970(0);
  }
}
