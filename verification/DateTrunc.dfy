/** Truncation of timestamps: each unit's truncation is the last boundary of the unit not after the time. */
module DateTruncation {
  import opened Arithmetic
  import opened Calendar
  import opened Timestamps

  /** The start of a date's day, in microseconds. */
  function Midnight(y: int, m: int, d: int): int { DaysFromYmd(y, m, d) * DAY_SECONDS * SECOND }

  /** The truncation by field name; an unknown name leaves the time as it is. */
  function DateTrunc(micros: int, field: string): int {
    var total := Quot(micros, SECOND);
    var days := Quot(total, DAY_SECONDS);
    var c := YmdFromDays(days);
    if field == "microseconds" then micros
    else if field == "milliseconds" then Quot(micros, 1000) * 1000
    else if field == "second" || field == "seconds" then Quot(micros, SECOND) * SECOND
    else if field == "minute" || field == "minutes" then Quot(total, 60) * 60 * SECOND
    else if field == "hour" || field == "hours" then Quot(total, 3600) * 3600 * SECOND
    else if field == "day" || field == "days" then days * DAY_SECONDS * SECOND
    else if field == "week" || field == "weeks" then (days - Rem(Rem(days + 3, 7) + 7, 7)) * DAY_SECONDS * SECOND
    else if field == "month" || field == "months" then Midnight(c.y, c.m, 1)
    else if field == "quarter" then Midnight(c.y, Quot(c.m - 1, 3) * 3 + 1, 1)
    else if field == "year" || field == "years" then Midnight(c.y, 1, 1)
    else if field == "decade" then Midnight(Quot(c.y, 10) * 10, 1, 1)
    else if field == "century" then Midnight(Quot(c.y - 1, 100) * 100 + 1, 1, 1)
    else micros
  }

  /** Remainder with the sign of the dividend. */
  function Rem(a: int, b: int): int
    requires b > 0
  {
    a - Quot(a, b) * b
  }

  datatype Unit = Milli | Second | Minute | Hour | Day | Week | Month | Quarter | Year | Decade | Century

  function Name(u: Unit): string {
    match u
    case Milli => "milliseconds"
    case Second => "second"
    case Minute => "minute"
    case Hour => "hour"
    case Day => "day"
    case Week => "week"
    case Month => "month"
    case Quarter => "quarter"
    case Year => "year"
    case Decade => "decade"
    case Century => "century"
  }

  /** The other name of a unit, if it has one. */
  function Plural(u: Unit): string {
    match u
    case Second => "seconds"
    case Minute => "minutes"
    case Hour => "hours"
    case Day => "days"
    case Week => "weeks"
    case Month => "months"
    case Year => "years"
    case _ => Name(u)
  }

  /** Either name means the same; microseconds and unknown names leave the time as it is. */
  lemma NamesMean(t: int, u: Unit, field: string)
    ensures DateTrunc(t, Plural(u)) == DateTrunc(t, Name(u))
    ensures (forall v: Unit :: field != Name(v) && field != Plural(v)) ==> DateTrunc(t, field) == t
  {
    hide DateTrunc;
    if forall v: Unit :: field != Name(v) && field != Plural(v) { UnknownName(t, field); }
    match u
    case Second => SecondsMean(t);
    case Minute => MinutesMean(t);
    case Hour => HoursMean(t);
    case Day => DaysMean(t);
    case Week => WeeksMean(t);
    case Month => MonthsMean(t);
    case Year => YearsMean(t);
    case _ =>
  }

  lemma SecondsMean(t: int)
    ensures DateTrunc(t, "seconds") == DateTrunc(t, "second")
  {
    hide Quot, YmdFromDays, DaysFromYmd, Rem;
  }

  lemma MinutesMean(t: int)
    ensures DateTrunc(t, "minutes") == DateTrunc(t, "minute")
  {
    hide Quot, YmdFromDays, DaysFromYmd, Rem;
  }

  lemma HoursMean(t: int)
    ensures DateTrunc(t, "hours") == DateTrunc(t, "hour")
  {
    hide Quot, YmdFromDays, DaysFromYmd, Rem;
  }

  lemma DaysMean(t: int)
    ensures DateTrunc(t, "days") == DateTrunc(t, "day")
  {
    hide Quot, YmdFromDays, DaysFromYmd, Rem;
  }

  lemma WeeksMean(t: int)
    ensures DateTrunc(t, "weeks") == DateTrunc(t, "week")
  {
    hide Quot, YmdFromDays, DaysFromYmd, Rem;
  }

  lemma MonthsMean(t: int)
    ensures DateTrunc(t, "months") == DateTrunc(t, "month")
  {
    hide Quot, YmdFromDays, DaysFromYmd, Rem;
  }

  lemma YearsMean(t: int)
    ensures DateTrunc(t, "years") == DateTrunc(t, "year")
  {
    hide Quot, YmdFromDays, DaysFromYmd, Rem;
  }

  lemma UnknownName(t: int, field: string)
    requires forall v: Unit :: field != Name(v) && field != Plural(v)
    ensures DateTrunc(t, field) == t
  {
    assert field != Name(Milli) && field != Name(Second) && field != Name(Minute) && field != Name(Hour);
    assert field != Name(Day) && field != Name(Week) && field != Name(Month) && field != Name(Quarter);
    assert field != Name(Year) && field != Name(Decade) && field != Name(Century);
    assert field != Plural(Second) && field != Plural(Minute) && field != Plural(Hour) && field != Plural(Day);
    assert field != Plural(Week) && field != Plural(Month) && field != Plural(Year);
  }

  // -------------------------------------------------------------- boundaries

  /** The calendar's own notion: a Monday, a first of a month, and so on. */
  predicate DateBoundary(u: Unit, day: int) {
    var c := YmdFromDays(day);
    match u
    case Week => (day + 3) % 7 == 0
    case Month => c.d == 1
    case Quarter => c.d == 1 && (c.m - 1) % 3 == 0
    case Year => c.d == 1 && c.m == 1
    case Decade => c.d == 1 && c.m == 1 && c.y % 10 == 0
    case Century => c.d == 1 && c.m == 1 && c.y % 100 == 1
    case _ => true
  }

  predicate Boundary(u: Unit, x: int) {
    match u
    case Milli => x % 1000 == 0
    case Second => x % SECOND == 0
    case Minute => x % (60 * SECOND) == 0
    case Hour => x % (3600 * SECOND) == 0
    case _ => x % DAY == 0 && DateBoundary(u, x / DAY)
  }

  /** The first day of a unit, in terms of dates. */
  function StartOf(u: Unit, c: Date): Date {
    match u
    case Month => Date(c.y, c.m, 1)
    case Quarter => Date(c.y, (c.m - 1) / 3 * 3 + 1, 1)
    case Year => Date(c.y, 1, 1)
    case Decade => Date(c.y / 10 * 10, 1, 1)
    case Century => Date((c.y - 1) / 100 * 100 + 1, 1, 1)
    case _ => c
  }

  predicate DateUnit(u: Unit) { u.Month? || u.Quarter? || u.Year? || u.Decade? || u.Century? }

  predicate NotAfter(a: Date, b: Date) { a == b || Before(a, b) }

  predicate StartDate(u: Unit, c: Date) {
    && c.d == 1
    && (u.Month? || (if u.Quarter? then (c.m - 1) % 3 == 0 else c.m == 1))
    && (u.Decade? ==> c.y % 10 == 0) && (u.Century? ==> c.y % 100 == 1)
  }

  lemma Decades(y: int, b: int)
    ensures y / 10 * 10 <= y && y / 10 * 10 % 10 == 0
    ensures b <= y && b % 10 == 0 ==> b <= y / 10 * 10
  {
  }

  lemma Centuries(y: int, b: int)
    ensures (y - 1) / 100 * 100 + 1 <= y && ((y - 1) / 100 * 100 + 1) % 100 == 1
    ensures b <= y && b % 100 == 1 ==> b <= (y - 1) / 100 * 100 + 1
  {
  }

  lemma Quarters(m: int, b: int)
    requires 1 <= m <= 12
    ensures 1 <= (m - 1) / 3 * 3 + 1 <= m && (m - 1) / 3 * 3 % 3 == 0
    ensures 1 <= b <= m && (b - 1) % 3 == 0 ==> b <= (m - 1) / 3 * 3 + 1
  {
  }

  lemma StartIsStart(u: Unit, c: Date)
    requires DateUnit(u) && Valid(c)
    ensures Valid(StartOf(u, c)) && StartDate(u, StartOf(u, c)) && NotAfter(StartOf(u, c), c)
  {
    hide Leap;
    if u.Quarter? { Quarters(c.m, 1); }
    if u.Decade? { Decades(c.y, 0); }
    if u.Century? { Centuries(c.y, 0); }
  }

  /** No start lies after the one found and not after the date. */
  lemma StartIsLast(u: Unit, c: Date, b: Date)
    requires DateUnit(u) && Valid(c) && Valid(b) && StartDate(u, b) && NotAfter(b, c)
    ensures NotAfter(b, StartOf(u, c))
  {
    hide Leap;
    if u.Quarter? { Quarters(c.m, b.m); Quarters(c.m, 1); }
    if u.Decade? { Decades(c.y, b.y); }
    if u.Century? { Centuries(c.y, b.y); }
  }

  lemma NotAfterCounts(a: Date, b: Date)
    requires Valid(a) && Valid(b)
    ensures NotAfter(a, b) <==> Days(a) <= Days(b)
  {
    hide DaysFromYmd;
    SameOrder(a, b);
    SameOrder(b, a);
  }

  /** The day a unit starts on, counted in days. */
  function StartDay(u: Unit, day: int): int
  {
    if DateUnit(u) then Days(StartOf(u, YmdFromDays(day)))
    else if u.Week? then day - (day + 3) % 7
    else day
  }

  lemma StartDayFloor(u: Unit, day: int, b: int)
    requires DateUnit(u)
    ensures StartDay(u, day) <= day && DateBoundary(u, StartDay(u, day))
    ensures b <= day && DateBoundary(u, b) ==> b <= StartDay(u, day)
  {
    hide YmdFromDays, DaysFromYmd;
    var c := YmdFromDays(day);
    var s := StartOf(u, c);
    DayRoundTrip(day);
    StartIsStart(u, c);
    NotAfterCounts(s, c);
    DateRoundTrip(s);
    if b <= day && DateBoundary(u, b) {
      DayRoundTrip(b);
      NotAfterCounts(YmdFromDays(b), c);
      StartIsLast(u, c, YmdFromDays(b));
      NotAfterCounts(YmdFromDays(b), s);
    }
  }

  // ------------------------------------------------------ what is computed

  predicate ClockUnit(u: Unit) { u.Milli? || u.Second? || u.Minute? || u.Hour? || u.Day? }

  /** The length of a unit that is a fixed time, in microseconds. */
  function Size(u: Unit): int
    requires ClockUnit(u)
  {
    match u
    case Milli => 1000
    case Second => SECOND
    case Minute => 60 * SECOND
    case Hour => 3600 * SECOND
    case Day => DAY
  }

  lemma DivDiv(t: int)
    requires t >= 0
    ensures t / SECOND / 60 == t / (60 * SECOND) && t / SECOND / 3600 == t / (3600 * SECOND)
    ensures t / SECOND / DAY_SECONDS == t / DAY
  {
  }

  lemma QuotQuot(t: int)
    ensures Quot(Quot(t, SECOND), 60) == Quot(t, 60 * SECOND)
    ensures Quot(Quot(t, SECOND), 3600) == Quot(t, 3600 * SECOND)
    ensures Quot(Quot(t, SECOND), DAY_SECONDS) == Quot(t, DAY)
  {
    DivDiv(if t >= 0 then t else -t);
  }

  /** Units of a fixed time are truncated toward 1970. */
  lemma ClockComputes(t: int, u: Unit)
    requires ClockUnit(u)
    ensures DateTrunc(t, Name(u)) == Quot(t, Size(u)) * Size(u)
  {
    hide YmdFromDays, DaysFromYmd;
    QuotQuot(t);
  }

  predicate DayUnit(u: Unit) { u.Day? || u.Week? || DateUnit(u) }

  /** The first day of a unit as the code finds it, with quotients that round toward zero. */
  function CodeStart(u: Unit, c: Date): Date {
    match u
    case Month => Date(c.y, c.m, 1)
    case Quarter => Date(c.y, Quot(c.m - 1, 3) * 3 + 1, 1)
    case Year => Date(c.y, 1, 1)
    case Decade => Date(Quot(c.y, 10) * 10, 1, 1)
    case Century => Date(Quot(c.y - 1, 100) * 100 + 1, 1, 1)
    case _ => c
  }

  function CodeDay(u: Unit, day: int): int {
    if DateUnit(u) then Days(CodeStart(u, YmdFromDays(day)))
    else if u.Week? then day - (day + 3) % 7
    else day
  }

  lemma WeekDay(day: int)
    ensures Rem(Rem(day + 3, 7) + 7, 7) == (day + 3) % 7
  {
  }

  /** The other units go by the day that the time is truncated to. */
  lemma DayComputes(t: int, u: Unit)
    requires DayUnit(u)
    ensures DateTrunc(t, Name(u)) == CodeDay(u, Quot(t, DAY)) * DAY
  {
    hide DateTrunc, YmdFromDays, DaysFromYmd, Quot;
    QuotQuot(t);
    WeekDay(Quot(t, DAY));
    var c := YmdFromDays(Quot(t, DAY));
    match u
    case Day => DayIs(t);
    case Week => WeekIs(t);
    case Month => MonthIs(t, c);
    case Quarter => QuarterIs(t, c);
    case Year => YearIs(t, c);
    case Decade => DecadeIs(t, c);
    case Century => CenturyIs(t, c);
  }

  lemma DayIs(t: int)
    ensures DateTrunc(t, "day") == Quot(Quot(t, SECOND), DAY_SECONDS) * DAY
  {
    hide YmdFromDays, DaysFromYmd, Quot;
  }

  lemma WeekIs(t: int)
    ensures var days := Quot(Quot(t, SECOND), DAY_SECONDS);
      DateTrunc(t, "week") == (days - Rem(Rem(days + 3, 7) + 7, 7)) * DAY
  {
    hide YmdFromDays, DaysFromYmd, Quot, Rem;
  }

  lemma MonthIs(t: int, c: Date)
    requires c == YmdFromDays(Quot(Quot(t, SECOND), DAY_SECONDS))
    ensures DateTrunc(t, "month") == Days(Date(c.y, c.m, 1)) * DAY
  {
    hide YmdFromDays, DaysFromYmd, Quot;
  }

  lemma QuarterIs(t: int, c: Date)
    requires c == YmdFromDays(Quot(Quot(t, SECOND), DAY_SECONDS))
    ensures DateTrunc(t, "quarter") == Days(Date(c.y, Quot(c.m - 1, 3) * 3 + 1, 1)) * DAY
  {
    hide YmdFromDays, DaysFromYmd, Quot;
  }

  lemma YearIs(t: int, c: Date)
    requires c == YmdFromDays(Quot(Quot(t, SECOND), DAY_SECONDS))
    ensures DateTrunc(t, "year") == Days(Date(c.y, 1, 1)) * DAY
  {
    hide YmdFromDays, DaysFromYmd, Quot;
  }

  lemma DecadeIs(t: int, c: Date)
    requires c == YmdFromDays(Quot(Quot(t, SECOND), DAY_SECONDS))
    ensures DateTrunc(t, "decade") == Days(Date(Quot(c.y, 10) * 10, 1, 1)) * DAY
  {
    hide YmdFromDays, DaysFromYmd, Quot;
  }

  lemma CenturyIs(t: int, c: Date)
    requires c == YmdFromDays(Quot(Quot(t, SECOND), DAY_SECONDS))
    ensures DateTrunc(t, "century") == Days(Date(Quot(c.y - 1, 100) * 100 + 1, 1, 1)) * DAY
  {
    hide YmdFromDays, DaysFromYmd, Quot;
  }

  /** The years for which the code finds the decade or century. */
  predicate RightYear(u: Unit, c: Date) {
    && (u.Decade? ==> c.y >= 0 || c.y % 10 == 0)
    && (u.Century? ==> c.y >= 1 || c.y % 100 == 1)
  }

  /** For the others it finds the next one. */
  lemma CodeStartIs(u: Unit, c: Date)
    requires DateUnit(u) && Valid(c)
    ensures Valid(CodeStart(u, c))
    ensures RightYear(u, c) ==> CodeStart(u, c) == StartOf(u, c)
    ensures !RightYear(u, c) ==> Before(c, CodeStart(u, c))
  {
    hide Leap, Quot;
    match u
    case Quarter =>
      QuotTen(c.m - 1, 3);
      Quarters(c.m, 1);
    case Decade => QuotTen(c.y, 10);
    case Century =>
      QuotTen(c.y - 1, 100);
      Centuries(c.y, 0);
    case _ =>
  }

  lemma QuotTen(y: int, n: int)
    requires n == 3 || n == 10 || n == 100
    ensures y >= 0 || y % n == 0 ==> Quot(y, n) * n == y / n * n
    ensures y < 0 && y % n != 0 ==> Quot(y, n) * n > y
  {
    QuotParts(y, n);
  }

  lemma WholeDays(t: int, day: int)
    requires day <= t / DAY
    ensures day * DAY <= t && day * DAY % DAY == 0 && day * DAY / DAY == day
  {
  }

  /** The last boundary of the unit that is not after the time. */
  ghost predicate IsFloor(t: int, u: Unit, x: int) {
    x <= t && Boundary(u, x) && forall b {:trigger Boundary(u, b)} :: b <= t && Boundary(u, b) ==> b <= x
  }

  /** When the code finds it: from 1970 on, on a boundary, or, by days, away from the end of the unit. */
  predicate Floors(t: int, u: Unit) {
    t >= 0
    || (if ClockUnit(u) then t % Size(u) == 0
        else (t % DAY == 0 || !DateBoundary(u, t / DAY + 1)) && RightYear(u, YmdFromDays(Quot(t, DAY))))
  }

  /** The truncation of any time is the last boundary not after it if and only if `Floors`. */
  lemma TruncFloorExact(t: int, u: Unit)
    ensures IsFloor(t, u, DateTrunc(t, Name(u))) <==> Floors(t, u)
  {
    hide DateTrunc, Boundary, YmdFromDays, Quot;
    if ClockUnit(u) {
      ClockComputes(t, u);
      ClockExact(t, u);
    } else {
      DayComputes(t, u);
      DayExact(t, u);
    }
  }

  lemma ClockBoundary(u: Unit, x: int)
    requires ClockUnit(u)
    ensures Boundary(u, x) <==> x % Size(u) == 0
  {
    hide YmdFromDays;
  }

  lemma ClockExact(t: int, u: Unit)
    requires ClockUnit(u)
    ensures IsFloor(t, u, Quot(t, Size(u)) * Size(u)) <==> t >= 0 || t % Size(u) == 0
  {
    hide Boundary, Size;
    var n := Size(u);
    SizeIs(u);
    QuotFloor(t, n);
    ClockBoundary(u, Quot(t, n) * n);
    ClockBoundary(u, t);
    forall b | b <= t && Boundary(u, b) ensures b <= t / n * n {
      ClockBoundary(u, b);
      MultipleFloor(t, n, b);
    }
  }

  lemma SizeIs(u: Unit)
    requires ClockUnit(u)
    ensures IsSize(Size(u))
  {
  }

  predicate IsSize(n: int) { n == 1000 || n == SECOND || n == 60 * SECOND || n == 3600 * SECOND || n == DAY }

  /** Rounding toward zero is rounding down, but for negative numbers that are not multiples. */
  lemma QuotParts(t: int, n: nat)
    requires n > 0
    ensures Quot(t, n) == if t >= 0 || t % n == 0 then t / n else t / n + 1
    ensures t == t / n * n + t % n && 0 <= t % n < n
    ensures (t / n + 1) * n == t / n * n + n
  {
    if t < 0 {
      var q, r := (-t) / n, (-t) % n;
      assert -t == q * n + r;
      if r == 0 {
        IntDivUnique(n, -q, 0, t);
      } else {
        assert (-q - 1) * n == -(q * n) - n;
        IntDivUnique(n, -q - 1, n - r, t);
      }
    }
    assert (t / n + 1) * n == t / n * n + n;
  }

  lemma QuotFloor(t: int, n: int)
    requires IsSize(n)
    ensures Quot(t, n) * n % n == 0
    ensures t >= 0 || t % n == 0 ==> Quot(t, n) * n == t / n * n <= t
    ensures t < 0 && t % n != 0 ==> Quot(t, n) * n > t && Quot(t, n) == t / n + 1
    ensures t % n == 0 ==> Quot(t, n) * n == t && Quot(t, n) == t / n
  {
    hide Quot, IsSize;
    assert n > 0 by { Positive(n); }
    QuotParts(t, n);
    var q := Quot(t, n);
    IntDivUnique(n, q, 0, q * n);
  }

  lemma Positive(n: int)
    requires IsSize(n)
    ensures n > 0
  {
  }

  lemma DayExact(t: int, u: Unit)
    requires u.Week? || DateUnit(u)
    ensures IsFloor(t, u, CodeDay(u, Quot(t, DAY)) * DAY) <==> Floors(t, u)
  {
    hide Boundary, YmdFromDays, DaysFromYmd, DateBoundary, CodeDay, StartDay, Quot;
    var day, code := t / DAY, Quot(t, DAY);
    QuotFloor(t, DAY);
    CodeDayIs(u, code);
    if t >= 0 { RightFrom1970(u, day); }
    forall b | b <= t && Boundary(u, b) ensures b <= StartDay(u, day) * DAY { DayFloor(t, u, b); }
    DayFloor(t, u, t);
    if code == day + 1 { NextDay(u, day); }
    if CodeDay(u, code) > day { AfterDay(t, CodeDay(u, code)); }
  }

  lemma AfterDay(t: int, day: int)
    requires day > t / DAY
    ensures day * DAY > t
  {
  }

  lemma RightFrom1970(u: Unit, day: int)
    requires day >= 0
    ensures RightYear(u, YmdFromDays(day))
  {
    hide YmdFromDays;
    YearFrom1970(day);
  }

  lemma CodeDayIs(u: Unit, day: int)
    requires u.Week? || DateUnit(u)
    ensures RightYear(u, YmdFromDays(day)) ==> CodeDay(u, day) == StartDay(u, day)
    ensures !RightYear(u, YmdFromDays(day)) ==> CodeDay(u, day) > day
  {
    hide YmdFromDays, DaysFromYmd, CodeStart, StartOf;
    var c := YmdFromDays(day);
    DayRoundTrip(day);
    if DateUnit(u) {
      CodeStartIs(u, c);
      SameOrder(c, CodeStart(u, c));
    }
  }

  /** A day belongs to the unit of the day before, unless it begins one. */
  lemma NextDay(u: Unit, day: int)
    requires u.Week? || DateUnit(u)
    ensures DateBoundary(u, day + 1) ==> StartDay(u, day + 1) == day + 1
    ensures !DateBoundary(u, day + 1) ==> StartDay(u, day + 1) == StartDay(u, day) <= day
  {
    hide YmdFromDays, DaysFromYmd;
    if DateUnit(u) {
      hide StartDay, DateBoundary;
      StartDayFloor(u, day, StartDay(u, day + 1));
      StartDayFloor(u, day + 1, StartDay(u, day));
      StartDayFloor(u, day + 1, day + 1);
    }
  }

  /** From 1970 on: the truncation is a boundary, is not after the time, and no boundary lies between. */
  lemma TruncIsFloor(t: int, u: Unit, b: int)
    requires t >= 0
    ensures DateTrunc(t, Name(u)) <= t && Boundary(u, DateTrunc(t, Name(u)))
    ensures b <= t && Boundary(u, b) ==> b <= DateTrunc(t, Name(u))
  {
    hide DateTrunc, Boundary;
    TruncFloorExact(t, u);
  }

  /** The last microsecond of 1969 is truncated forward, to the first day of 1970. */
  lemma BeforeEpochRoundsUp()
    ensures DateTrunc(-1, Name(Day)) == 0 && !IsFloor(-1, Day, 0) && !Floors(-1, Day)
  {
    ClockComputes(-1, Day);
    TruncFloorExact(-1, Day);
    hide DateTrunc, YmdFromDays;
  }

  lemma MultipleFloor(t: int, n: int, b: int)
    requires IsSize(n)
    ensures t / n * n <= t && t / n * n % n == 0
    ensures b <= t && b % n == 0 ==> b <= t / n * n
  {
    hide IsSize;
    Positive(n);
    QuotParts(t, n);
    QuotParts(b, n);
    IntDivUnique(n, t / n, 0, t / n * n);
    if b <= t && t / n < b / n { IntScale(t / n + 1, b / n, n); }
    if b / n <= t / n { IntScale(b / n, t / n, n); }
  }

  lemma DayFloor(t: int, u: Unit, b: int)
    requires u.Day? || u.Week? || DateUnit(u)
    ensures StartDay(u, t / DAY) * DAY <= t && Boundary(u, StartDay(u, t / DAY) * DAY)
    ensures b <= t && Boundary(u, b) ==> b <= StartDay(u, t / DAY) * DAY
  {
    hide YmdFromDays, DaysFromYmd;
    if DateUnit(u) {
      StartDayFloor(u, t / DAY, b / DAY);
    }
    WholeDays(t, StartDay(u, t / DAY));
    WholeWeeks(u, t, b);
  }

  lemma WholeWeeks(u: Unit, t: int, b: int)
    ensures b <= t ==> b / DAY <= t / DAY
    ensures b % DAY == 0 ==> b / DAY * DAY == b
  {
  }

  // ---------------------------------------------------------------- the laws

  /** Unit `u` divides unit `v`: every start of `v` is a start of `u`. */
  predicate Divides(u: Unit, v: Unit) {
    match u
    case Milli => true
    case Second => !v.Milli?
    case Minute => !v.Milli? && !v.Second?
    case Hour => !v.Milli? && !v.Second? && !v.Minute?
    case Day => v.Day? || v.Week? || DateUnit(v)
    case Week => v.Week?
    case Month => DateUnit(v)
    case Quarter => v.Quarter? || v.Year? || v.Decade? || v.Century?
    case Year => v.Year? || v.Decade? || v.Century?
    case Decade => v.Decade?
    case Century => v.Century?
  }

  lemma ModHour(k: int) ensures 3_600_000_000 * k % 3_600_000_000 == 0 { }
  lemma ModMinute(k: int) ensures 60_000_000 * k % 60_000_000 == 0 { }

  lemma HoursInDay(x: int)
    requires x % DAY == 0
    ensures x % (3600 * SECOND) == 0
  {
    ModHour(24 * (x / DAY));
  }

  lemma MinutesInHour(x: int)
    requires x % (3600 * SECOND) == 0
    ensures x % (60 * SECOND) == 0
  {
    ModMinute(60 * (x / (3600 * SECOND)));
  }

  lemma SecondsInMinute(x: int)
    requires x % (60 * SECOND) == 0
    ensures x % SECOND == 0
  {
    assert x == SECOND * (60 * (x / (60 * SECOND)));
  }

  lemma MillisInSecond(x: int)
    requires x % SECOND == 0
    ensures x % 1000 == 0
  {
    assert x == 1000 * (1000 * (x / SECOND));
  }

  lemma DividesTimes(x: int)
    ensures x % DAY == 0 ==> x % (3600 * SECOND) == 0
    ensures x % (3600 * SECOND) == 0 ==> x % (60 * SECOND) == 0
    ensures x % (60 * SECOND) == 0 ==> x % SECOND == 0
    ensures x % SECOND == 0 ==> x % 1000 == 0
  {
    if x % DAY == 0 { HoursInDay(x); }
    if x % (3600 * SECOND) == 0 { MinutesInHour(x); }
    if x % (60 * SECOND) == 0 { SecondsInMinute(x); }
    if x % SECOND == 0 { MillisInSecond(x); }
  }

  lemma BoundariesNest(u: Unit, v: Unit, x: int)
    requires Divides(u, v) && Boundary(v, x)
    ensures Boundary(u, x)
  {
    hide YmdFromDays;
    DividesTimes(x);
  }

  lemma EpochIsBoundary(u: Unit)
    requires !u.Week? && !u.Century?
    ensures Boundary(u, 0)
  {
    hide YmdFromDays, DaysFromYmd;
    TomorrowCounts(Date(1970, 1, 1));
    DateRoundTrip(Date(1970, 1, 1));
  }

  lemma QuotMonotone(s: int, t: int, n: int)
    requires s <= t && IsSize(n)
    ensures Quot(s, n) <= Quot(t, n) && Quot(s, n) * n <= Quot(t, n) * n
  {
    hide IsSize, Quot;
    Positive(n);
    QuotGrows(s, t, n);
    IntScale(Quot(s, n), Quot(t, n), n);
  }

  lemma DivMonotone(a: int, b: int, n: int)
    requires a <= b && n > 0
    ensures a / n <= b / n
  {
    QuotParts(a, n);
    QuotParts(b, n);
    hide Quot;
    if b / n < a / n { IntScale(b / n + 1, a / n, n); }
  }

  lemma CodeStartMonotone(u: Unit, a: Date, b: Date)
    requires DateUnit(u) && Valid(a) && Valid(b) && NotAfter(a, b)
    ensures NotAfter(CodeStart(u, a), CodeStart(u, b))
  {
    hide Leap, Quot;
    if a.y <= b.y { QuotGrows(a.y, b.y, 10); QuotGrows(a.y - 1, b.y - 1, 100); }
    if a.m <= b.m { QuotGrows(a.m - 1, b.m - 1, 3); }
  }

  lemma QuotGrows(a: int, b: int, n: int)
    requires a <= b && n > 0
    ensures Quot(a, n) <= Quot(b, n)
  {
    if a >= 0 {
      DivMonotone(a, b, n);
    } else if b < 0 {
      DivMonotone(-b, -a, n);
    } else {
      DivMonotone(0, b, n);
      DivMonotone(0, -a, n);
      IntDivUnique(n, 0, 0, 0);
    }
  }

  lemma CodeDayMonotone(u: Unit, a: int, b: int)
    requires DayUnit(u) && a <= b
    ensures CodeDay(u, a) <= CodeDay(u, b)
  {
    hide YmdFromDays, DaysFromYmd, CodeStart;
    if DateUnit(u) {
      var c, d := YmdFromDays(a), YmdFromDays(b);
      DayRoundTrip(a);
      DayRoundTrip(b);
      NotAfterCounts(c, d);
      CodeStartIs(u, c);
      CodeStartIs(u, d);
      CodeStartMonotone(u, c, d);
      NotAfterCounts(CodeStart(u, c), CodeStart(u, d));
    }
  }

  /** Later times are never truncated to earlier ones, before 1970 either. */
  lemma TruncMonotone(s: int, t: int, u: Unit)
    requires s <= t
    ensures DateTrunc(s, Name(u)) <= DateTrunc(t, Name(u))
  {
    hide DateTrunc, CodeDay, Quot;
    if ClockUnit(u) {
      SizeIs(u);
      ClockComputes(s, u);
      ClockComputes(t, u);
      QuotMonotone(s, t, Size(u));
    } else {
      DayComputes(s, u);
      DayComputes(t, u);
      QuotMonotone(s, t, DAY);
      CodeDayMonotone(u, Quot(s, DAY), Quot(t, DAY));
    }
  }

  /** Units of a fixed time are truncated alike on both sides of 1970. */
  lemma ClockOdd(t: int, u: Unit)
    requires ClockUnit(u)
    ensures DateTrunc(-t, Name(u)) == -DateTrunc(t, Name(u))
  {
    hide DateTrunc, Size;
    ClockComputes(t, u);
    ClockComputes(-t, u);
    SizeIs(u);
    QuotOdd(t, Size(u));
  }

  lemma QuotOdd(t: int, n: int)
    requires IsSize(n)
    ensures Quot(-t, n) * n == -(Quot(t, n) * n)
  {
    hide IsSize, Quot;
    Positive(n);
    QuotTurns(t, n);
    Turned(Quot(t, n), n);
  }

  lemma QuotTurns(t: int, n: int)
    requires n > 0
    ensures Quot(-t, n) == -Quot(t, n)
  {
    if t == 0 { IntDivUnique(n, 0, 0, 0); }
  }

  lemma Turned(q: int, n: int)
    ensures (-q) * n == -(q * n)
  {
  }

  lemma ClockThroughLate(t: int, u: Unit, v: Unit)
    requires t >= 0 && Divides(u, v) && ClockUnit(u) && ClockUnit(v)
    ensures DateTrunc(t, Name(u)) >= 0
    ensures DateTrunc(DateTrunc(t, Name(u)), Name(v)) == DateTrunc(t, Name(v))
  {
    hide DateTrunc, Boundary;
    var mid, end := DateTrunc(t, Name(u)), DateTrunc(t, Name(v));
    TruncFrom1970(t, u);
    TruncIsFloor(t, v, DateTrunc(mid, Name(v)));
    BoundariesNest(u, v, end);
    TruncIsFloor(t, u, end);
    TruncIsFloor(mid, v, end);
  }

  lemma ClockThrough(t: int, u: Unit, v: Unit)
    requires Divides(u, v) && ClockUnit(u) && ClockUnit(v)
    ensures DateTrunc(DateTrunc(t, Name(u)), Name(v)) == DateTrunc(t, Name(v))
  {
    hide DateTrunc;
    if t >= 0 {
      ClockThroughLate(t, u, v);
    } else {
      ClockThroughLate(-t, u, v);
      ClockOdd(-t, u);
      ClockOdd(-t, v);
      ClockOdd(DateTrunc(-t, Name(u)), v);
    }
  }

  /** Truncating to a clock unit or to days keeps the day that other units go by. */
  lemma SameDay(t: int, u: Unit)
    requires ClockUnit(u)
    ensures Quot(DateTrunc(t, Name(u)), DAY) == Quot(t, DAY)
  {
    hide DateTrunc, Quot;
    ClockThrough(t, u, Day);
    ClockComputes(t, Day);
    ClockComputes(DateTrunc(t, Name(u)), Day);
  }

  lemma CodeStartThrough(u: Unit, v: Unit, c: Date)
    requires DateUnit(u) && DateUnit(v) && Divides(u, v) && Valid(c)
    ensures CodeStart(v, CodeStart(u, c)) == CodeStart(v, c)
  {
    hide Leap, Quot;
    ThirdAgain(c.m - 1);
    TenthAgain(c.y);
    HundredthAgain(c.y - 1);
  }

  lemma ThirdAgain(x: int) ensures Quot(Quot(x, 3) * 3, 3) == Quot(x, 3) { }
  lemma TenthAgain(x: int) ensures Quot(Quot(x, 10) * 10, 10) == Quot(x, 10) { }
  lemma HundredthAgain(x: int) ensures Quot(Quot(x, 100) * 100, 100) == Quot(x, 100) { }

  lemma CodeDayThrough(u: Unit, v: Unit, day: int)
    requires Divides(u, v) && !ClockUnit(u)
    ensures CodeDay(v, CodeDay(u, day)) == CodeDay(v, day)
  {
    hide YmdFromDays, DaysFromYmd, CodeStart;
    if DateUnit(u) {
      var c := YmdFromDays(day);
      DayRoundTrip(day);
      CodeStartIs(u, c);
      DateRoundTrip(CodeStart(u, c));
      CodeStartThrough(u, v, c);
    }
  }

  /** Truncating to a unit first changes nothing for the units it divides; in particular truncating twice. */
  lemma TruncThrough(t: int, u: Unit, v: Unit)
    requires Divides(u, v)
    ensures DateTrunc(DateTrunc(t, Name(u)), Name(v)) == DateTrunc(t, Name(v))
  {
    hide DateTrunc, Quot, CodeDay;
    if ClockUnit(v) {
      ClockThrough(t, u, v);
    } else {
      var mid := DateTrunc(t, Name(u));
      DayComputes(t, v);
      DayComputes(mid, v);
      if ClockUnit(u) {
        SameDay(t, u);
      } else {
        DayComputes(t, u);
        QuotFloor(mid, DAY);
        CodeDayThrough(u, v, Quot(t, DAY));
        WholeDays(mid, CodeDay(u, Quot(t, DAY)));
      }
    }
  }

  /** Except for weeks and centuries, which may begin before 1970, the truncation is not before 1970. */
  lemma TruncFrom1970(t: int, u: Unit)
    requires t >= 0 && !u.Week? && !u.Century?
    ensures DateTrunc(t, Name(u)) >= 0
  {
    hide DateTrunc, Boundary;
    EpochIsBoundary(u);
    TruncIsFloor(t, u, 0);
  }

  // ------------------------------------------------------------- 64 bits

  /** The day of the least 64-bit time, 22 December -290308, and the first day of the year after. */
  const LEAST_DAY: int := -106_751_991
  const FIRST_YEAR_DAY: int := -106_751_981

  lemma LeastDays()
    ensures YmdFromDays(LEAST_DAY) == Date(-290308, 12, 22)
    ensures YmdFromDays(FIRST_YEAR_DAY - 1) == Date(-290308, 12, 31)
    ensures YmdFromDays(FIRST_YEAR_DAY) == Date(-290307, 1, 1)
  {
    hide YmdFromDays;
    DateRoundTrip(Date(-290308, 12, 22));
    DateRoundTrip(Date(-290308, 12, 31));
    DateRoundTrip(Date(-290307, 1, 1));
    assert Days(Date(-290308, 12, 22)) == LEAST_DAY;
    assert Days(Date(-290308, 12, 31)) == FIRST_YEAR_DAY - 1;
    assert Days(Date(-290307, 1, 1)) == FIRST_YEAR_DAY;
  }

  /** Months, quarters and years that begin before the least time are those that begin in the year -290308. */
  lemma LeastStarts(u: Unit)
    requires DayUnit(u)
    ensures if u.Month? || u.Quarter? || u.Year?
            then CodeDay(u, FIRST_YEAR_DAY - 1) < LEAST_DAY && CodeDay(u, FIRST_YEAR_DAY) == FIRST_YEAR_DAY
            else CodeDay(u, LEAST_DAY) >= LEAST_DAY
  {
    hide YmdFromDays, DaysFromYmd;
    LeastDays();
    LeastMonths();
    LeastYears();
    DayRoundTrip(FIRST_YEAR_DAY);
  }

  lemma LeastMonths()
    ensures Days(Date(-290308, 12, 1)) < LEAST_DAY && Days(Date(-290308, 10, 1)) < LEAST_DAY
  {
  }

  lemma LeastYears()
    ensures Days(Date(-290308, 1, 1)) < LEAST_DAY
    ensures Days(Date(-290300, 1, 1)) > LEAST_DAY && Days(Date(-290299, 1, 1)) > LEAST_DAY
  {
  }

  lemma DayBounds(t: int)
    requires FitsI64(t)
    ensures LEAST_DAY <= Quot(t, DAY) <= -LEAST_DAY
  {
  }

  lemma DayFits(day: int)
    requires day <= -LEAST_DAY
    ensures FitsI64(day * DAY) <==> day >= LEAST_DAY
  {
  }

  /**
   * The last product of the code stays within 64 bits for every time that does, but for months, quarters and
   * years: there exactly from the first day of the year -290307 on.
   */
  lemma TruncFitsExact(t: int, u: Unit)
    requires FitsI64(t)
    ensures FitsI64(DateTrunc(t, Name(u))) <==>
      (u.Month? || u.Quarter? || u.Year? ==> Quot(t, DAY) >= FIRST_YEAR_DAY)
  {
    hide DateTrunc, CodeDay, Quot;
    if ClockUnit(u) {
      ClockComputes(t, u);
      SizeIs(u);
      QuotFloor(t, Size(u));
    } else {
      var day := Quot(t, DAY);
      DayComputes(t, u);
      DayBounds(t);
      LeastStarts(u);
      NotLater(u, day);
      DayFits(CodeDay(u, day));
      if u.Month? || u.Quarter? || u.Year? {
        if day >= FIRST_YEAR_DAY { CodeDayMonotone(u, FIRST_YEAR_DAY, day); }
        else { CodeDayMonotone(u, day, FIRST_YEAR_DAY - 1); }
      } else {
        CodeDayMonotone(u, LEAST_DAY, day);
      }
    }
  }

  lemma NotLater(u: Unit, day: int)
    requires DayUnit(u) && day <= -LEAST_DAY
    ensures CodeDay(u, day) <= -LEAST_DAY
  {
    hide DateTrunc, CodeDay, Boundary, Quot;
    CodeDayMonotone(u, day, -LEAST_DAY);
    var t := -LEAST_DAY * DAY;
    assert Quot(t, DAY) == -LEAST_DAY by { QuotWhole(-LEAST_DAY); }
    DayComputes(t, u);
    TruncIsFloor(t, u, 0);
  }

  lemma QuotWhole(day: nat)
    ensures Quot(day * DAY, DAY) == day
  {
  }

  /** The least time of all has no month within 64 bits. */
  lemma LeastMonthLost()
    ensures FitsI64(MIN_I64) && !FitsI64(DateTrunc(MIN_I64, "month"))
  {
    TruncFitsExact(MIN_I64, Month);
    hide DateTrunc;
  }
}
