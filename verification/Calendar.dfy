/**
 * Days since 1970-01-01 against the proleptic Gregorian calendar: the two
 * conversion formulas are inverse to each other and count consecutive days.
 */
module Calendar {
  const MAX_I32: int := 0x7FFF_FFFF
  const MIN_I32: int := -0x8000_0000
  const SHIFT: int := 719468

  predicate FitsI32(x: int) { MIN_I32 <= x <= MAX_I32 }

  /** Division that truncates toward zero. */
  function Quot(a: int, b: int): int
    requires b > 0
  {
    if a >= 0 then a / b else -((-a) / b)
  }

  datatype Date = Date(y: int, m: int, d: int)

  // ---------------------------------------------------- the calendar itself

  predicate Leap(y: int) { y % 4 == 0 && (y % 100 != 0 || y % 400 == 0) }

  function DaysInMonth(y: int, m: int): int {
    if m == 2 then (if Leap(y) then 29 else 28)
    else if m == 4 || m == 6 || m == 9 || m == 11 then 30
    else 31
  }

  predicate Valid(c: Date) { 1 <= c.m <= 12 && 1 <= c.d <= DaysInMonth(c.y, c.m) }

  /** The day after. */
  function Tomorrow(c: Date): Date {
    if c.d < DaysInMonth(c.y, c.m) then Date(c.y, c.m, c.d + 1)
    else if c.m < 12 then Date(c.y, c.m + 1, 1)
    else Date(c.y + 1, 1, 1)
  }

  predicate Before(a: Date, b: Date) {
    a.y < b.y || (a.y == b.y && (a.m < b.m || (a.m == b.m && a.d < b.d)))
  }

  // -------------------------------------------------------- the conversions

  /** The days before year `yoe` of a 400-year era that begins in March. */
  function YearStart(yoe: int): int { 365 * yoe + yoe / 4 - yoe / 100 }

  /** The days before month `mp` (March is 0) of such a year. */
  function MonthStart(mp: int): int { (153 * mp + 2) / 5 }

  function YearOf(doe: int): int { (doe - doe / 1460 + doe / 36524 - doe / 146096) / 365 }

  function MonthOf(doy: int): int { (5 * doy + 2) / 153 }

  /** The era of a year or a day, in truncating division. */
  function Era(x: int, n: int): int
    requires n > 0
  {
    Quot(if x >= 0 then x else x - (n - 1), n)
  }

  function DaysFromYmd(year: int, m: int, d: int): int {
    var y := if m <= 2 then year - 1 else year;
    var era := Era(y, 400);
    var yoe := y - era * 400;
    var doy := MonthStart(if m > 2 then m - 3 else m + 9) + d - 1;
    era * 146097 + YearStart(yoe) + doy - SHIFT
  }

  function YmdFromDays(days: int): Date {
    var z := days + SHIFT;
    var era := Era(z, 146097);
    var doe := z - era * 146097;
    var yoe := YearOf(doe);
    Build(era, yoe, doe - YearStart(yoe))
  }

  /** The date of day `doy` of March year `yoe` of an era. */
  function Build(era: int, yoe: int, doy: int): Date {
    var y := yoe + era * 400;
    var mp := MonthOf(doy);
    var d := doy - MonthStart(mp) + 1;
    var m := if mp < 10 then mp + 3 else mp - 9;
    Date(if m <= 2 then y + 1 else y, m, d)
  }

  function Days(c: Date): int { DaysFromYmd(c.y, c.m, c.d) }

  // ------------------------------------------------ years that begin in March

  /** Length of March year `yoe`; its February belongs to the civil year that follows. */
  function YearLength(yoe: int): int {
    if (yoe + 1) % 4 == 0 && ((yoe + 1) % 100 != 0 || yoe == 399) then 366 else 365
  }

  /** A year of the era as centuries, four-year cycles and years; the last of a cycle may be leap. */
  predicate Parts(c: int, q: int, r: int, doy: int) {
    0 <= c < 4 && 0 <= q < 25 && 0 <= r < 4 && 0 <= doy < if r == 3 && (q < 24 || c == 3) then 366 else 365
  }

  function Joined(c: int, q: int, r: int): int { 100 * c + 4 * q + r }

  function DayOf(c: int, q: int, r: int, doy: int): int { 36524 * c + 1461 * q + 365 * r + doy }

  lemma By4(x: int, q: int, r: int)
    requires x == 4 * q + r && 0 <= r < 4
    ensures x / 4 == q && x % 4 == r
  {
  }

  lemma By100(x: int, q: int, r: int)
    requires x == 100 * q + r && 0 <= r < 100
    ensures x / 100 == q && x % 100 == r
  {
  }

  lemma By400(x: int, q: int, r: int)
    requires x == 400 * q + r && 0 <= r < 400
    ensures x / 400 == q && x % 400 == r
  {
  }

  lemma PartsYear(c: int, q: int, r: int)
    requires Parts(c, q, r, 0)
    ensures YearStart(Joined(c, q, r)) == DayOf(c, q, r, 0)
    ensures YearLength(Joined(c, q, r)) == if r == 3 && (q < 24 || c == 3) then 366 else 365
  {
    var y := Joined(c, q, r);
    By4(y, 25 * c + q, r);
    By100(y, c, 4 * q + r);
    if r < 3 { By4(y + 1, 25 * c + q, r + 1); } else { By4(y + 1, 25 * c + q + 1, 0); }
    if 4 * q + r < 99 { By100(y + 1, c, 4 * q + r + 1); } else { By100(y + 1, c + 1, 0); }
  }

  /** Each March year is as long as its length says; the era's last day is the leap day before the next. */
  lemma YearStep(yoe: int)
    requires 0 <= yoe < 399
    ensures YearStart(yoe + 1) == YearStart(yoe) + YearLength(yoe)
  {
    hide YearStart, YearLength;
    var c, q, r := yoe / 100, yoe % 100 / 4, yoe % 4;
    assert yoe == Joined(c, q, r);
    PartsYear(c, q, r);
    if r < 3 { PartsYear(c, q, r + 1); } else if q < 24 { PartsYear(c, q + 1, 0); } else { PartsYear(c + 1, 0, 0); }
  }

  lemma ByCycles(c: int, q: int, r: int, doy: int)
    requires Parts(c, q, r, doy)
    ensures DayOf(c, q, r, doy) / 1460 == 25 * c + q + (24 * c + q + 365 * r + doy) / 1460
  {
    var rest := 24 * c + q + 365 * r + doy;
    assert DayOf(c, q, r, doy) == 1460 * (25 * c + q) + rest;
  }

  lemma ByCenturies(c: int, q: int, r: int, doy: int)
    requires Parts(c, q, r, doy)
    ensures 0 <= DayOf(c, q, r, doy) < 146097
    ensures DayOf(c, q, r, doy) / 36524 == c + DayOf(c, q, r, doy) / 146096
  {
    var rest := 1461 * q + 365 * r + doy;
    assert rest <= 36524;
    assert rest == 36524 ==> c == 3;
  }

  lemma YearOfParts(c: int, q: int, r: int, doy: int)
    requires Parts(c, q, r, doy)
    ensures YearOf(DayOf(c, q, r, doy)) == Joined(c, q, r)
  {
    ByCycles(c, q, r, doy);
    ByCenturies(c, q, r, doy);
    var late := (24 * c + q + 365 * r + doy) / 1460;
    assert 0 <= doy - late <= 364;
    var doe := DayOf(c, q, r, doy);
    assert doe - doe / 1460 + doe / 36524 - doe / 146096 == 365 * Joined(c, q, r) + (doy - late);
  }

  /** The year formula gives back the March year a day was counted from. */
  lemma YearUnique(yoe: int, doy: int)
    requires 0 <= yoe < 400 && 0 <= doy < YearLength(yoe)
    ensures 0 <= YearStart(yoe) + doy < 146097 && YearOf(YearStart(yoe) + doy) == yoe
  {
    var c, q, r := yoe / 100, yoe % 100 / 4, yoe % 4;
    assert yoe == Joined(c, q, r);
    PartsYear(c, q, r);
    YearOfParts(c, q, r, doy);
    ByCenturies(c, q, r, doy);
  }

  function Least(a: int, b: int): int { if a < b then a else b }

  lemma DayParts(doe: int) returns (c: int, q: int, r: int, doy: int)
    requires 0 <= doe < 146097
    ensures Parts(c, q, r, doy) && DayOf(c, q, r, doy) == doe
  {
    c := Least(doe / 36524, 3);
    var inCentury := doe - 36524 * c;
    q := Least(inCentury / 1461, 24);
    var inCycle := inCentury - 1461 * q;
    r := Least(inCycle / 365, 3);
    doy := inCycle - 365 * r;
  }

  /** The year formula finds the March year a day lies in. */
  lemma YearFound(doe: int)
    requires 0 <= doe < 146097
    ensures 0 <= YearOf(doe) < 400
    ensures 0 <= doe - YearStart(YearOf(doe)) < YearLength(YearOf(doe))
  {
    var c, q, r, doy := DayParts(doe);
    YearOfParts(c, q, r, doy);
    PartsYear(c, q, r);
  }

  lemma MonthFound(doy: int)
    requires 0 <= doy <= 365
    ensures 0 <= MonthOf(doy) < 12
    ensures MonthStart(MonthOf(doy)) <= doy < MonthStart(MonthOf(doy) + 1)
  {
  }

  lemma MonthUnique(doy: int, mp: int)
    requires 0 <= mp < 12 && MonthStart(mp) <= doy < MonthStart(mp + 1)
    ensures MonthOf(doy) == mp
  {
  }

  // ------------------------------------------------------------- whole dates

  /** The era formula is division rounding down, for years and for days. */
  lemma EraFloor(x: int, n: int)
    requires n == 400 || n == 146097
    ensures Era(x, n) == x / n
  {
  }

  function MarchYear(c: Date): int { if c.m <= 2 then c.y - 1 else c.y }
  function MarchMonth(c: Date): int { if c.m > 2 then c.m - 3 else c.m + 9 }
  function DayOfYear(c: Date): int { MonthStart(MarchMonth(c)) + c.d - 1 }

  lemma DaysSplit(c: Date)
    ensures Days(c) == MarchYear(c) / 400 * 146097 + YearStart(MarchYear(c) % 400) + DayOfYear(c) - SHIFT
  {
    EraFloor(MarchYear(c), 400);
  }

  lemma Mod4(a: int, r: int) ensures (4 * a + r) % 4 == r % 4 { }
  lemma Mod100(a: int, r: int) ensures (100 * a + r) % 100 == r % 100 { }
  lemma Mod400(a: int, r: int) ensures (400 * a + r) % 400 == r % 400 { }

  /** A February's length is read off the March year before it. */
  lemma LeapMarch(y: int)
    ensures YearLength(y % 400) == 366 <==> Leap(y + 1)
  {
    var era, yoe := y / 400, y % 400;
    Mod4(100 * era, yoe + 1);
    Mod100(4 * era, yoe + 1);
    Mod400(era, yoe + 1);
  }

  lemma MonthLength(c: Date)
    requires 1 <= c.m <= 12
    ensures MarchMonth(c) < 11 ==> MonthStart(MarchMonth(c)) + DaysInMonth(c.y, c.m) == MonthStart(MarchMonth(c) + 1)
    ensures MarchMonth(c) == 11 ==>
      MonthStart(11) + DaysInMonth(c.y, c.m) == YearLength(MarchYear(c) % 400) <= MonthStart(12)
  {
    LeapMarch(MarchYear(c));
  }

  lemma ValidMarch(c: Date)
    requires Valid(c)
    ensures 0 <= DayOfYear(c) < YearLength(MarchYear(c) % 400)
    ensures MonthStart(MarchMonth(c)) <= DayOfYear(c) < MonthStart(MarchMonth(c) + 1)
  {
    MonthLength(c);
  }

  lemma EraIs(x: int, era: int, doe: int)
    requires x == era * 146097 + doe && 0 <= doe < 146097
    ensures Era(x, 146097) == era
  {
    EraFloor(x, 146097);
  }

  lemma Computes(z: int, era: int, doe: int)
    requires z + SHIFT == era * 146097 + doe && 0 <= doe < 146097
    ensures YmdFromDays(z) == Build(era, YearOf(doe), doe - YearStart(YearOf(doe)))
  {
    EraIs(z + SHIFT, era, doe);
    assert z + SHIFT - era * 146097 == doe;
  }

  lemma Lands(z: int, era: int, yoe: int, doe: int)
    requires 0 <= yoe < 400 && 0 <= doe - YearStart(yoe) < YearLength(yoe)
    requires z + SHIFT == era * 146097 + doe
    ensures YmdFromDays(z) == Build(era, yoe, doe - YearStart(yoe))
  {
    YearUnique(yoe, doe - YearStart(yoe));
    Computes(z, era, doe);
  }

  lemma BuildBack(c: Date)
    requires Valid(c)
    ensures Build(MarchYear(c) / 400, MarchYear(c) % 400, DayOfYear(c)) == c
  {
    ValidMarch(c);
    MonthUnique(DayOfYear(c), MarchMonth(c));
  }

  /** From a date to its day number and back. */
  lemma DateRoundTrip(c: Date)
    requires Valid(c)
    ensures YmdFromDays(Days(c)) == c
  {
    hide YmdFromDays, DaysFromYmd, YearStart, MonthStart;
    DaysSplit(c);
    ValidMarch(c);
    Lands(Days(c), MarchYear(c) / 400, MarchYear(c) % 400, YearStart(MarchYear(c) % 400) + DayOfYear(c));
    BuildBack(c);
  }

  lemma BuildValid(era: int, yoe: int, doy: int)
    requires 0 <= yoe < 400 && 0 <= doy < YearLength(yoe)
    ensures Valid(Build(era, yoe, doy))
    ensures Days(Build(era, yoe, doy)) == era * 146097 + (YearStart(yoe) + doy) - SHIFT
  {
    var c := Build(era, yoe, doy);
    MonthFound(doy);
    assert MarchYear(c) == yoe + era * 400 && MarchMonth(c) == MonthOf(doy);
    EraYears(era, yoe);
    MonthLength(c);
    DaysSplit(c);
  }

  /** From a day number to its date and back; the date is a date of the calendar. */
  lemma DayRoundTrip(z: int)
    ensures Valid(YmdFromDays(z)) && Days(YmdFromDays(z)) == z
  {
    hide YmdFromDays, DaysFromYmd;
    var era, doe := (z + SHIFT) / 146097, (z + SHIFT) % 146097;
    YearFound(doe);
    Computes(z, era, doe);
    BuildValid(era, YearOf(doe), doe - YearStart(YearOf(doe)));
  }

  lemma EraYears(era: int, yoe: int)
    requires 0 <= yoe < 400
    ensures (yoe + era * 400) / 400 == era && (yoe + era * 400) % 400 == yoe
  {
  }

  lemma EraTurns(y: int)
    ensures (y + 1) / 400 * 146097 + YearStart((y + 1) % 400)
         == y / 400 * 146097 + YearStart(y % 400) + YearLength(y % 400)
  {
    var era, yoe := y / 400, y % 400;
    if yoe < 399 {
      By400(y + 1, era, yoe + 1);
      YearStep(yoe);
    } else {
      By400(y + 1, era + 1, 0);
    }
  }

  function DaysAt(y: int, doy: int): int {
    y / 400 * 146097 + YearStart(y % 400) + doy - SHIFT
  }

  lemma TomorrowMarch(c: Date)
    requires Valid(c)
    ensures Valid(Tomorrow(c))
    ensures DaysAt(MarchYear(Tomorrow(c)), DayOfYear(Tomorrow(c))) == DaysAt(MarchYear(c), DayOfYear(c)) + 1
  {
    MonthLength(c);
    EraTurns(MarchYear(c));
  }

  /** Consecutive dates have consecutive day numbers, counted from 1970-01-01. */
  lemma TomorrowCounts(c: Date)
    requires Valid(c)
    ensures Valid(Tomorrow(c)) && Days(Tomorrow(c)) == Days(c) + 1
    ensures Days(Date(1970, 1, 1)) == 0
  {
    EpochIsZero();
    hide DaysFromYmd;
    DaysSplit(c);
    DaysSplit(Tomorrow(c));
    TomorrowMarch(c);
  }

  lemma EpochIsZero()
    ensures Days(Date(1970, 1, 1)) == 0
  {
  }

  /** Hence consecutive day numbers have consecutive dates. */
  lemma DaysCount(z: int)
    ensures YmdFromDays(z + 1) == Tomorrow(YmdFromDays(z))
  {
    hide YmdFromDays, DaysFromYmd;
    DayRoundTrip(z);
    TomorrowCounts(YmdFromDays(z));
    DateRoundTrip(Tomorrow(YmdFromDays(z)));
  }

  // ------------------------------------------------------------------- order

  lemma MonthTurns(y: int, m: int)
    requires 1 <= m <= 12
    ensures Days(Date(y, m, DaysInMonth(y, m))) + 1 == Days(if m < 12 then Date(y, m + 1, 1) else Date(y + 1, 1, 1))
  {
    TomorrowCounts(Date(y, m, DaysInMonth(y, m)));
  }

  lemma DayInMonth(y: int, m: int, d: int)
    ensures Days(Date(y, m, d)) == Days(Date(y, m, 1)) + d - 1
  {
  }

  lemma {:induction false} MonthsGrow(y: int, m: int, n: int)
    requires 1 <= m <= n <= 12
    ensures Days(Date(y, m, 1)) <= Days(Date(y, n, 1))
    ensures m < n ==> Days(Date(y, m, DaysInMonth(y, m))) < Days(Date(y, n, 1))
    decreases n - m
  {
    hide DaysFromYmd;
    if m < n {
      MonthTurns(y, m);
      DayInMonth(y, m, DaysInMonth(y, m));
      MonthsGrow(y, m + 1, n);
    }
  }

  lemma {:induction false} YearsGrow(y: int, x: int)
    requires y <= x
    ensures Days(Date(y, 1, 1)) <= Days(Date(x, 1, 1))
    ensures y < x ==> Days(Date(y, 12, 31)) < Days(Date(x, 1, 1))
    decreases x - y
  {
    hide DaysFromYmd;
    if y < x {
      MonthTurns(y, 12);
      MonthsGrow(y, 1, 12);
      DayInMonth(y, 12, 31);
      YearsGrow(y + 1, x);
    }
  }

  lemma BeforeCounts(a: Date, b: Date)
    requires Valid(a) && Valid(b) && Before(a, b)
    ensures Days(a) < Days(b)
  {
    hide DaysFromYmd;
    DayInMonth(a.y, a.m, a.d);
    DayInMonth(b.y, b.m, b.d);
    DayInMonth(a.y, a.m, DaysInMonth(a.y, a.m));
    if a.y == b.y {
      MonthsGrow(a.y, a.m, b.m);
    } else {
      MonthsGrow(a.y, a.m, 12);
      DayInMonth(a.y, 12, 31);
      YearsGrow(a.y, b.y);
      MonthsGrow(b.y, 1, b.m);
    }
  }

  /** Day numbers are ordered as dates are. */
  lemma SameOrder(a: Date, b: Date)
    requires Valid(a) && Valid(b)
    ensures Days(a) < Days(b) <==> Before(a, b)
  {
    hide DaysFromYmd;
    if Before(a, b) {
      BeforeCounts(a, b);
    } else if Before(b, a) {
      BeforeCounts(b, a);
    }
  }

  // ------------------------------------------------------------- 32-bit width

  /** Every value the day-to-date formula computes on the way. */
  predicate DaysFit(days: int) {
    var z := days + SHIFT;
    var up := if z >= 0 then z else z - 146096;
    var era := Era(z, 146097);
    var doe := z - era * 146097;
    var yoe := YearOf(doe);
    && FitsI32(z) && FitsI32(up) && FitsI32(era * 146097) && FitsI32(doe)
    && FitsI32(yoe + era * 400) && FitsI32(365 * yoe) && FitsI32(153 * MonthOf(doe - YearStart(yoe)) + 2)
    && FitsI32(5 * (doe - YearStart(yoe)) + 2)
  }

  /** The formula stays within 32 bits exactly up to the day number where the first sum leaves them. */
  lemma DaysFitExact(days: int)
    requires FitsI32(days)
    ensures DaysFit(days) <==> days <= MAX_I32 - SHIFT
  {
    if days <= MAX_I32 - SHIFT {
      var z := days + SHIFT;
      EraFloor(z, 146097);
      var doe := z - z / 146097 * 146097;
      YearFound(doe);
      MonthFound(doe - YearStart(YearOf(doe)));
    }
  }

  predicate DateFits(c: Date) {
    var y := MarchYear(c);
    var era := Era(y, 400);
    && FitsI32(y) && FitsI32(if y >= 0 then y else y - 399) && FitsI32(era * 400) && FitsI32(era * 146097)
    && FitsI32(era * 146097 + YearStart(y - era * 400) + DayOfYear(c))
    && FitsI32(Days(c))
  }

  /**
   * For every month and day that the parser accepts, the date-to-day formula stays within 32 bits exactly
   * when the day number is not too small and not above those of the day-to-date formula.
   */
  lemma DateFitsExact(c: Date)
    requires 1 <= c.m <= 12 && 1 <= c.d <= 31
    ensures DateFits(c) <==> MIN_I32 <= Days(c) <= MAX_I32 - SHIFT
  {
    var y := MarchYear(c);
    DaysSplit(c);
    EraFloor(y, 400);
    InEra(y, c);
  }

  /** Where a date is in its era, for any day up to the 31st. */
  lemma InEra(y: int, c: Date)
    requires 1 <= c.m <= 12 && 1 <= c.d <= 31 && y == MarchYear(c)
    ensures y == y / 400 * 400 + y % 400 && 0 <= YearStart(y % 400) + DayOfYear(c) <= 146400
  {
  }

  const FIRST_DATE := Date(-5877641, 6, 23)
  const LAST_DATE := Date(5879610, 9, 9)

  lemma FirstDate()
    ensures Valid(FIRST_DATE) && Days(FIRST_DATE) == MIN_I32
  {
    hide DaysFromYmd;
    DaysSplit(FIRST_DATE);
    assert -5877641 == -14695 * 400 + 359;
  }

  lemma LastDate()
    ensures Valid(LAST_DATE) && Days(LAST_DATE) == MAX_I32 - SHIFT
  {
    hide DaysFromYmd;
    DaysSplit(LAST_DATE);
    assert 5879610 == 14699 * 400 + 10;
  }

  /** The valid dates for which it stays within 32 bits, from the first to the last. */
  lemma DatesFit(c: Date)
    requires Valid(c)
    ensures DateFits(c) <==> !Before(c, FIRST_DATE) && !Before(LAST_DATE, c)
  {
    hide DateFits, DaysFromYmd, Before;
    FirstDate();
    LastDate();
    DateFitsExact(c);
    SameOrder(c, FIRST_DATE);
    SameOrder(LAST_DATE, c);
  }

  /** A day number and a date, both accepted, whose conversions leave the 32 bits. */
  lemma FormulasLeave32Bits()
    ensures FitsI32(MAX_I32) && !DaysFit(MAX_I32)
    ensures Valid(Date(5879610, 9, 10)) && !DateFits(Date(5879610, 9, 10))
  {
    DaysFitExact(MAX_I32);
    DatesFit(Date(5879610, 9, 10));
  }
}
