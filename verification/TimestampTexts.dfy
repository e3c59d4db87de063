/** Which texts are read as which times: dates, times of day with any fraction, and both together. */
module TimestampTexts {
  import opened Wrappers
  import opened Calendar
  import opened Text
  import opened Timestamps

  // --------------------------------------------------------------- digits

  lemma {:induction false} ValueFilled(d: string, k: nat)
    requires AllDigits(d)
    ensures AllDigits(d + Zeros(k)) && Value(d + Zeros(k)) == Value(d) * Power(k)
    decreases k
  {
    if k == 0 {
      assert d + Zeros(0) == d;
    } else {
      ValueFilled(d, k - 1);
      var s := d + Zeros(k);
      assert s[..|s| - 1] == d + Zeros(k - 1) && s[|s| - 1] == '0';
      TenTimes(Value(d), Power(k - 1));
    }
  }

  lemma TenTimes(v: nat, p: nat)
    ensures 10 * (v * p) == v * (10 * p)
  {
  }

  lemma {:induction false} ValueBound(d: string)
    requires AllDigits(d)
    ensures Value(d) < Power(|d|)
  {
    if d != "" { ValueBound(d[..|d| - 1]); }
  }

  /** A number of one digit or more, within 64 bits. */
  predicate Number(s: string) { s != "" && AllDigits(s) && Value(s) <= MAX_I64 }

  // -------------------------------------------------------------- fractions

  /** Millionths: a fraction of fewer digits counts tenths, hundredths and so on, of a longer one six digits count. */
  function Millionths(d: string): nat
    requires AllDigits(d)
  {
    if |d| <= 6 then Value(d) * Power(6 - |d|) else Value(d[..6])
  }

  lemma FractionIs(d: string)
    requires AllDigits(d)
    ensures Fraction(d) == Some(Millionths(d) as int) && Millionths(d) < SECOND
  {
    var cut := if |d| <= 6 then d else d[..6];
    var filled := cut + Zeros(6 - |cut|);
    ValueFilled(cut, 6 - |cut|);
    assert Power(0) == 1;
    assert |d| > 6 ==> Value(cut) * Power(0) == Value(cut);
    ValueBound(filled);
    assert Power(6) == SECOND by { assert Power(3) == 1000; }
    ParseDigits(filled, MIN_I64, MAX_I64);
  }

  // ----------------------------------------------------------- times of day

  function Hms(h: string, m: string, s: string): string { h + [':'] + (m + [':'] + s) }

  lemma HmsSplits(h: string, m: string, s: string)
    requires Number(h) && Number(m) && Number(s)
    ensures Seconds(SplitN(Hms(h, m, s), 3, ':')) == Some(Value(h) * 3600 + Value(m) * 60 + Value(s))
  {
    hide Value, SplitN, Seconds, ParseInt, Find;
    NotAmongDigits(h, ':');
    NotAmongDigits(m, ':');
    SplitThree(h, m, s, ':');
    ParseDigits(h, MIN_I64, MAX_I64);
    ParseDigits(m, MIN_I64, MAX_I64);
    ParseDigits(s, MIN_I64, MAX_I64);
    SecondsAre(h, m, s, Value(h), Value(m), Value(s));
  }

  lemma NotInHms(h: string, m: string, s: string, c: char)
    requires AllDigits(h) && AllDigits(m) && AllDigits(s) && c != ':' && !IsDigit(c)
    ensures c !in Hms(h, m, s)
  {
    NotAmongDigits(h, c);
    NotAmongDigits(m, c);
    NotAmongDigits(s, c);
  }

  /** A time of day with a fraction, or, if there is none, without the dot. */
  function TimeOf(h: string, m: string, s: string, f: Option<string>): string {
    if f.None? then Hms(h, m, s) else Hms(h, m, s) + ['.'] + f.value
  }

  predicate IsTime(h: string, m: string, s: string, f: Option<string>) {
    Number(h) && Number(m) && Number(s) && (f.Some? ==> AllDigits(f.value))
  }

  function Micros(h: string, m: string, s: string, f: Option<string>): int
    requires IsTime(h, m, s, f)
  {
    (Value(h) * 3600 + Value(m) * 60 + Value(s)) * SECOND + if f.Some? then Millionths(f.value) else 0
  }

  lemma TimeWith(hms: string, total: int, f: string)
    requires Seconds(SplitN(hms, 3, ':')) == Some(total) && '.' !in hms
    ensures ParseTime(hms) == Some(total * SECOND)
    ensures ParseTime(hms + ['.'] + f) == Sum(Some(total), SECOND, Fraction(f))
  {
    hide Seconds, SplitN, Fraction, Find;
    var text := hms + ['.'] + f;
    FindNone(hms, '.');
    assert hms[..|hms|] == hms;
    FindAt(hms, '.', f);
    assert text[..|hms|] == hms && text[|hms| + 1..] == f;
  }

  lemma TimeIs(h: string, m: string, s: string, f: Option<string>)
    requires IsTime(h, m, s, f)
    ensures ParseTime(TimeOf(h, m, s, f)) == Some(Micros(h, m, s, f))
  {
    hide Hms, Seconds, SplitN, Fraction, Millionths, Find, Value, ParseTime;
    NotInHms(h, m, s, '.');
    HmsSplits(h, m, s);
    var total := Value(h) * 3600 + Value(m) * 60 + Value(s);
    TimeWith(Hms(h, m, s), total, if f.Some? then f.value else "");
    if f.Some? { FractionIs(f.value); }
  }

  lemma NotInTime(h: string, m: string, s: string, f: Option<string>, c: char)
    requires IsTime(h, m, s, f) && c != ':' && c != '.' && !IsDigit(c)
    ensures c !in TimeOf(h, m, s, f)
  {
    hide Hms, Value;
    NotInHms(h, m, s, c);
    if f.Some? { NotAmongDigits(f.value, c); }
  }

  // ------------------------------------------------------------------ dates

  function Ymd(y: string, m: string, d: string): string { y + ['-'] + (m + ['-'] + d) }

  predicate Digits(s: string) { s != "" && AllDigits(s) }

  predicate IsDate(y: string, m: string, d: string) {
    Digits(y) && Digits(m) && Digits(d) && Value(y) <= MAX_I32 && 1 <= Value(m) <= 12 && 1 <= Value(d) <= 31
  }

  lemma ParsedNumber(s: string, low: int, high: int)
    requires Digits(s) && low <= 0
    ensures ParseInt(s, low, high) == if Value(s) <= high then Some(Value(s) as int) else None
  {
    assert IsDigit(s[0]);
  }

  lemma YmdPlain(y: string, m: string, d: string)
    requires Digits(y) && Digits(m) && Digits(d)
    ensures Plain(Ymd(y, m, d)) && Ymd(y, m, d) != "" && Trim(Ymd(y, m, d)) == Ymd(y, m, d)
    ensures ' ' !in Ymd(y, m, d) && 'T' !in Ymd(y, m, d)
  {
    PlainJoin(d, d);
    PlainJoin(m, d);
    PlainJoin(y, m + ['-'] + d);
    PlainTrim(Ymd(y, m, d));
  }

  /** Three numbers are a date exactly when month and day are in their ranges and the year has 32 bits. */
  lemma DateIs(y: string, m: string, d: string)
    requires Digits(y) && Digits(m) && Digits(d)
    ensures ParseDate(Ymd(y, m, d)) == if IsDate(y, m, d) then Some(Days(Date(Value(y), Value(m), Value(d)))) else None
  {
    YmdPlain(y, m, d);
    NotAmongDigits(y, '-');
    NotAmongDigits(m, '-');
    SplitThree(y, m, d, '-');
    ParsedNumber(y, MIN_I32, MAX_I32);
    ParsedNumber(m, MIN_I32, MAX_I32);
    ParsedNumber(d, MIN_I32, MAX_I32);
    hide ParseInt, Trim, SplitN;
  }

  // -------------------------------------------------------------- timestamps

  predicate Spaces(s: string) { forall i :: 0 <= i < |s| ==> IsSpace(s[i]) }

  /** White space around a text does not matter. */
  lemma {:induction false} TrimAround(a: string, s: string, b: string)
    requires Spaces(a) && Spaces(b) && s != "" && !IsSpace(s[0]) && !IsSpace(s[|s| - 1])
    ensures Trim(a + s + b) == s
    decreases |a| + |b|
  {
    hide IsSpace;
    var t := a + s + b;
    if a != "" {
      assert t[0] == a[0] && t[1..] == a[1..] + s + b;
      TrimAround(a[1..], s, b);
    } else if b != "" {
      assert t[0] == s[0] && t[|t| - 1] == b[|b| - 1] && t[..|t| - 1] == a + s + b[..|b| - 1];
      TrimAround(a, s, b[..|b| - 1]);
    } else {
      assert t == s;
      TrimNothing(s);
    }
  }

  lemma DigitEnds(t: string, d: string)
    requires Digits(d)
    ensures (t + d) != "" && IsDigit((t + d)[|t + d| - 1])
  {
    assert IsDigit(d[|d| - 1]);
  }

  /** The text ends in a digit, or after a dot with no digits, in the dot. */
  lemma TimeEnds(h: string, m: string, s: string, f: Option<string>)
    requires IsTime(h, m, s, f)
    ensures TimeOf(h, m, s, f) != "" && !IsSpace(TimeOf(h, m, s, f)[|TimeOf(h, m, s, f)| - 1])
  {
    if f.None? {
      assert Hms(h, m, s) == h + [':'] + m + [':'] + s;
      DigitEnds(h + [':'] + m + [':'], s);
    } else if f.value != "" {
      DigitEnds(Hms(h, m, s) + ['.'], f.value);
    } else {
      assert TimeOf(h, m, s, f)[|Hms(h, m, s)|] == '.';
    }
  }

  lemma YmdStarts(y: string, m: string, d: string)
    requires Digits(y) && Digits(m) && Digits(d)
    ensures !IsSpace(Ymd(y, m, d)[0]) && !IsSpace(Ymd(y, m, d)[|Ymd(y, m, d)| - 1])
  {
    assert Ymd(y, m, d)[0] == y[0] && IsDigit(y[0]);
    assert Ymd(y, m, d) == y + ['-'] + m + ['-'] + d;
    DigitEnds(y + ['-'] + m + ['-'], d);
  }

  /** The halves part at the space or the `T` between them. */
  lemma PartingIs(date: string, sep: char, time: string)
    requires sep == ' ' || sep == 'T'
    requires ' ' !in date && 'T' !in date && ' ' !in time
    ensures var s := date + [sep] + time;
      Parting(s) == |date| && s[..|date|] == date && s[|date| + 1..] == time
  {
    var s := date + [sep] + time;
    FindAt(date, sep, time);
    if sep == 'T' { FindNone(s, ' '); }
  }

  lemma HalvesTogether(a: string, date: string, sep: char, time: string, b: string, days: Option<int>, rest: int)
    requires Spaces(a) && Spaces(b) && (sep == ' ' || sep == 'T')
    requires ' ' !in date && 'T' !in date && ' ' !in time
    requires date != "" && !IsSpace(date[0]) && time != "" && !IsSpace(time[|time| - 1])
    requires ParseDate(date) == days && ParseTime(time) == Some(rest)
    ensures ParseTimestamp(a + (date + [sep] + time) + b) == Sum(days, DAY, Some(rest))
  {
    hide ParseDate, ParseTime, Trim, IsSpace, Parting;
    var text := date + [sep] + time;
    assert text[0] == date[0] && text[|text| - 1] == time[|time| - 1];
    TrimAround(a, text, b);
    PartingIs(date, sep, time);
  }

  /**
   * A date and a time of day, with a space or a `T` between them and any white space around: the day and the
   * time of day together, exactly if the date is one.
   */
  lemma TimestampIs(a: string, y: string, mo: string, d: string, sep: char, h: string, m: string, s: string,
                    f: Option<string>, b: string)
    requires Spaces(a) && Spaces(b) && (sep == ' ' || sep == 'T')
    requires Digits(y) && Digits(mo) && Digits(d) && IsTime(h, m, s, f)
    ensures ParseTimestamp(a + (Ymd(y, mo, d) + [sep] + TimeOf(h, m, s, f)) + b) ==
      if IsDate(y, mo, d) then Some(Days(Date(Value(y), Value(mo), Value(d))) * DAY + Micros(h, m, s, f)) else None
  {
    hide Ymd, TimeOf, Micros, ParseDate, ParseTime, Value, ParseTimestamp, IsSpace, DaysFromYmd, Trim, Spaces;
    YmdPlain(y, mo, d);
    YmdStarts(y, mo, d);
    NotInTime(h, m, s, f, ' ');
    TimeIs(h, m, s, f);
    TimeEnds(h, m, s, f);
    DateIs(y, mo, d);
    HalvesTogether(a, Ymd(y, mo, d), sep, TimeOf(h, m, s, f), b, ParseDate(Ymd(y, mo, d)), Micros(h, m, s, f));
  }

  lemma DateAlone(a: string, date: string, b: string)
    requires Spaces(a) && Spaces(b) && ' ' !in date && 'T' !in date
    requires date != "" && !IsSpace(date[0]) && !IsSpace(date[|date| - 1])
    ensures ParseTimestamp(a + date + b) == Sum(ParseDate(date), DAY, ParseTime("00:00:00"))
  {
    hide ParseDate, ParseTime, Trim, IsSpace, Find;
    TrimAround(a, date, b);
    FindNone(date, ' ');
    FindNone(date, 'T');
    assert date[..|date|] == date;
  }

  /** A date alone is its midnight. */
  lemma DateAloneIs(a: string, y: string, m: string, d: string, b: string)
    requires Spaces(a) && Spaces(b) && Digits(y) && Digits(m) && Digits(d)
    ensures ParseTimestamp(a + Ymd(y, m, d) + b) ==
      if IsDate(y, m, d) then Some(Days(Date(Value(y), Value(m), Value(d))) * DAY) else None
  {
    hide Ymd, ParseDate, ParseTime, Value, ParseTimestamp, IsSpace, DaysFromYmd, Trim, Spaces;
    YmdPlain(y, m, d);
    YmdStarts(y, m, d);
    DateIs(y, m, d);
    MidnightIs();
    DateAlone(a, Ymd(y, m, d), b);
  }

  lemma MidnightIs()
    ensures ParseTime("00:00:00") == Some(0)
  {
    hide ParseTime, SplitN;
    TwoZeros();
    assert "00:00:00" == Hms("00", "00", "00");
    TimeIs("00", "00", "00", None);
  }

  lemma TwoZeros()
    ensures AllDigits("00") && Value("00") == 0
  {
    ValueZeros(2, "");
    assert Zeros(2) + "" == "00";
  }

  lemma OneDigit(c: char)
    requires IsDigit(c)
    ensures Digits([c]) && Value([c]) == c as int - '0' as int
  {
    assert [c][..0] == "";
  }

  lemma TwoDigit(a: char, b: char)
    requires IsDigit(a) && IsDigit(b)
    ensures Digits([a, b]) && Value([a, b]) == 10 * (a as int - '0' as int) + (b as int - '0' as int)
  {
    OneDigit(a);
    assert [a, b][..1] == [a];
  }

  lemma Year1970()
    ensures Digits("1970") && Value("1970") == 1970
  {
    TwoDigit('1', '9');
    assert "1970"[..3][..2] == ['1', '9'] && "1970"[..3] == "197";
    assert Value("197") == 197;
  }

  /** A day, a second and a half after the epoch. */
  lemma DayAndAHalfSecond()
    ensures ParseTimestamp("1970-01-02 00:00:01.5") == Some(86_401_500_000)
    ensures ParseTimestamp("1970-01-02T00:00:01.5") == Some(86_401_500_000)
  {
    hide ParseTimestamp, Value;
    Year1970();
    TwoDigit('0', '1');
    TwoDigit('0', '2');
    TwoDigit('0', '0');
    OneDigit('5');
    HalfIs();
    assert "01" == ['0', '1'] && "02" == ['0', '2'] && "00" == ['0', '0'] && "5" == ['5'];
    TomorrowCounts(Date(1970, 1, 1));
    forall sep | sep == ' ' || sep == 'T'
      ensures ParseTimestamp("1970-01-02" + [sep] + "00:00:01.5") == Some(86_401_500_000) {
      TimestampIs("", "1970", "01", "02", sep, "00", "00", "01", Some("5"), "");
      assert Ymd("1970", "01", "02") == "1970-01-02" && TimeOf("00", "00", "01", Some("5")) == "00:00:01.5";
      assert "" + ("1970-01-02" + [sep] + "00:00:01.5") + "" == "1970-01-02" + [sep] + "00:00:01.5";
    }
    assert "1970-01-02" + [' '] + "00:00:01.5" == "1970-01-02 00:00:01.5";
    assert "1970-01-02" + ['T'] + "00:00:01.5" == "1970-01-02T00:00:01.5";
  }

  lemma HalfIs()
    ensures AllDigits("5") && Millionths("5") == 500_000
  {
    OneDigit('5');
    assert "5" == ['5'];
    assert Power(3) == 1000;
  }
}
