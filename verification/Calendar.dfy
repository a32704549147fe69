/** The conversion of a day number into a calendar date (src/main.rs), against
    a reference calendar that counts one day at a time. */
module Calendar {
  import opened Bytes
  import opened Division

  datatype Date = Date(year: int, month: int, day: int)

  // ---------------------------------------------------------------------
  // The reference: the proleptic Gregorian calendar.

  predicate IsLeap(year: int) {
    year % 4 == 0 && (year % 100 != 0 || year % 400 == 0)
  }

  function DaysInMonth(year: int, month: int): (n: int)
    requires 1 <= month <= 12
    ensures 28 <= n <= 31
  {
    if month == 2 then (if IsLeap(year) then 29 else 28)
    else if month in {4, 6, 9, 11} then 30
    else 31
  }

  predicate ValidDate(d: Date) {
    1 <= d.month <= 12 && 1 <= d.day <= DaysInMonth(d.year, d.month)
  }

  /** The calendar's own step from one day to the next. */
  function NextDay(d: Date): (next: Date)
    requires ValidDate(d)
    ensures ValidDate(next)
  {
    if d.day < DaysInMonth(d.year, d.month) then d.(day := d.day + 1)
    else if d.month < 12 then Date(d.year, d.month + 1, 1)
    else Date(d.year + 1, 1, 1)
  }

  /** Days of the months of `year` that lie before `month`. */
  function DaysBeforeMonth(year: int, month: int): int
    requires 1 <= month <= 12
    decreases month
  {
    if month == 1 then 0
    else DaysBeforeMonth(year, month - 1) + DaysInMonth(year, month - 1)
  }

  /** Days from 0001-01-01 to the first day of `year`; negative before year 1. */
  function DaysBeforeYear(year: int): int {
    365 * (year - 1) + (year - 1) / 4 - (year - 1) / 100 + (year - 1) / 400
  }

  /** Day number of a date, counted from 1970-01-01. */
  function DaysFromDate(d: Date): int
    requires 1 <= d.month <= 12
  {
    DaysBeforeYear(d.year) + DaysBeforeMonth(d.year, d.month) + d.day - 1 - 719162
  }

  // ---------------------------------------------------------------------
  // The code under study.

  /** Rust's `/` on signed integers, for a positive divisor. */
  function TruncDiv(a: int, b: int): int
    requires b > 0
  {
    if a >= 0 then a / b else -((-a) / b)
  }

  /** The year of the era, from the day of the era. */
  function YearOfEra(doe: U32): (yoe: U32)
    requires doe <= 146096
  {
    var a: U32 := doe - doe / 1460;
    var b: U32 := a + doe / 36524;
    var c: U32 := b - doe / 146096;
    c / 365
  }

  /** Month and day, from the day of the year that starts on 1 March. */
  function MonthAndDay(doy: U32): (md: (U32, U32))
    requires doy <= 365
  {
    var mp: U32 := (5 * doy + 2) / 153;
    var before: U32 := doy - (153 * mp + 2) / 5;
    var d: U32 := before + 1;
    var m: U32 := if mp < 10 then mp + 3 else mp - 9;
    (m, d)
  }

  /** The rest of the computation, from the era and the day of the era. */
  function DateInEra(era: I64, doe: U32): Date
    requires -0x8000_0000_0000 <= era < 0x8000_0000_0000
    requires doe <= 146096
  {
    YearOfEraBounds(doe);
    var yoe: U32 := YearOfEra(doe);
    var y: I64 := yoe + era * 400;
    var quarters: U32 := 365 * yoe + yoe / 4;
    var before: U32 := quarters - yoe / 100;
    var doy: U32 := doe - before;
    var (m, d) := MonthAndDay(doy);
    var yy: I64 := if m <= 2 then y + 1 else y;
    Date(yy, m, d)
  }

  /** `civil_from_days`.  Every `I64` and `U32` is a machine integer of the
      source, so that each intermediate result, the `as u32` cast and every
      unsigned subtraction are checked to stay in range.  The precondition is
      the absence of overflow in the first addition. */
  function CivilFromDays(z0: I64): Date
    requires z0 + 719468 < 0x8000_0000_0000_0000
  {
    var z: I64 := z0 + 719468;
    var era: I64 := TruncDiv(if z >= 0 then z else z - 146096, 146097);
    EraIsFloor(z);
    var doe: U32 := z - era * 146097;
    DateInEra(era, doe)
  }

  lemma EraIsFloor(z: int)
    ensures TruncDiv(if z >= 0 then z else z - 146096, 146097) == z / 146097
    ensures z - z / 146097 * 146097 == z % 146097
  {
  }

  /** Days of an era before its year `y`, years starting on 1 March. */
  function DaysBeforeYearOfEra(y: int): int {
    365 * y + y / 4 - y / 100
  }

  /** On the first day of a year of the era the closed form gives that year. */
  lemma YearOfEraExact(century: int, quad: int, rest: int)
    requires 0 <= century <= 3 && 0 <= quad <= 24 && 0 <= rest <= 3
    ensures var n := 100 * century + 4 * quad + rest;
            YearOfEra(DaysBeforeYearOfEra(n)) == n
  {
    var n := 100 * century + 4 * quad + rest;
    assert n / 4 == 25 * century + quad;
    assert n / 100 == century;
    var doe := DaysBeforeYearOfEra(n);
    assert doe == 36524 * century + 1461 * quad + 365 * rest;
    assert doe / 36524 == century;
    assert doe / 146096 == 0;
  }

  /** The quotients of the closed form, as unknowns. */
  predicate Quotients(doe: int, a: int, b: int, c: int, yoe: int, q: int, h: int) {
    && 0 <= doe <= 146096
    && 1460 * a <= doe < 1460 * a + 1460
    && 36524 * b <= doe < 36524 * b + 36524
    && 146096 * c <= doe < 146096 * c + 146096
    && 365 * yoe <= doe - a + b - c < 365 * yoe + 365
    && 4 * q <= yoe < 4 * q + 4
    && 100 * h <= yoe < 100 * h + 100
  }

  lemma QuarterBounds(doe: int, a: int, b: int, c: int, yoe: int, q: int, h: int)
    requires Quotients(doe, a, b, c, yoe, q, h)
    ensures 0 <= c <= 1 && 0 <= b <= 4 && b - c <= a
    ensures q <= a <= q + 1
  {
    assert 1460 * q <= 365 * yoe <= doe;
    assert 365 * yoe <= 1460 * q + 1095;
    assert yoe <= 400;
    assert 1459 * a < 1460 * q + 1460 - b + c;
  }

  lemma YearHasStarted(doe: int, a: int, b: int, c: int, yoe: int, q: int, h: int)
    requires Quotients(doe, a, b, c, yoe, q, h)
    ensures 365 * yoe + q - h <= doe
  {
    QuarterBounds(doe, a, b, c, yoe, q, h);
    if h < b {
      assert 36524 * h + 36524 <= doe;
    }
  }

  /** A century that has begun by years has begun by days. */
  lemma CenturyBounds(doe: int, a: int, b: int, c: int, yoe: int, q: int, h: int)
    requires Quotients(doe, a, b, c, yoe, q, h)
    ensures h <= b
  {
    QuarterBounds(doe, a, b, c, yoe, q, h);
    assert h > b ==> a >= 25 * h && doe >= 36500 * h + 25 * h - b + c;
  }

  lemma YearHasNotEnded(doe: int, a: int, b: int, c: int, yoe: int, q: int, h: int)
    requires Quotients(doe, a, b, c, yoe, q, h)
    ensures doe <= 365 * yoe + q - h + 365
  {
    QuarterBounds(doe, a, b, c, yoe, q, h);
    CenturyBounds(doe, a, b, c, yoe, q, h);
    if c == 1 {
      assert doe == 146096 && a == 100 && b == 4;
      assert yoe == 399;
    }
  }

  lemma YearOfEraRange(doe: int)
    requires 0 <= doe <= 146096
    ensures 0 <= YearOfEra(doe) <= 399
    ensures 0 <= doe - DaysBeforeYearOfEra(YearOfEra(doe)) <= 365
  {
    var yoe := YearOfEra(doe);
    YearHasStarted(doe, doe / 1460, doe / 36524, doe / 146096, yoe, yoe / 4, yoe / 100);
    YearHasNotEnded(doe, doe / 1460, doe / 36524, doe / 146096, yoe, yoe / 4, yoe / 100);
  }

  lemma YearOfEraStep(n: int)
    ensures DaysBeforeYearOfEra(n) == DaysBeforeYearOfEra(n - 1) + 365
                                      + (if n % 4 == 0 then 1 else 0) - (if n % 100 == 0 then 1 else 0)
  {
    QuotientStep(n, 4);
    QuotientStep(n, 100);
  }

  lemma CommonYearEnds(n: int)
    requires 1 <= n < 400 && (n % 4 != 0 || n % 100 == 0)
    ensures YearOfEra(DaysBeforeYearOfEra(n - 1) + 365) == n
  {
    YearOfEraStep(n);
    var century, quad, rest := n / 100, n % 100 / 4, n % 4;
    assert n == 100 * century + 4 * quad + rest;
    YearOfEraExact(century, quad, rest);
  }

  /** The closed form picks the year that contains the day, and day 365 exists
      in leap years only: otherwise that day would be the first of the next
      year, where the closed form gives the next year. */
  lemma YearOfEraBounds(doe: int)
    requires 0 <= doe <= 146096
    ensures 0 <= YearOfEra(doe) <= 399
    ensures 0 <= doe - DaysBeforeYearOfEra(YearOfEra(doe)) <= 365
    ensures doe - DaysBeforeYearOfEra(YearOfEra(doe)) == 365 ==>
              var n := YearOfEra(doe) + 1; n % 4 == 0 && (n % 100 != 0 || n == 400)
  {
    YearOfEraRange(doe);
    var n := YearOfEra(doe) + 1;
    if doe - DaysBeforeYearOfEra(n - 1) == 365 && (n % 4 != 0 || n % 100 == 0) && n < 400 {
      CommonYearEnds(n);
    }
  }

  // ---------------------------------------------------------------------
  // The reference calendar counts days one at a time.

  lemma LeapDivisors(n: int)
    ensures n % 100 == 0 ==> n % 4 == 0
    ensures n % 400 == 0 ==> n % 100 == 0
  {
    if n % 100 == 0 {
      DivModUnique(n, 4, 25 * (n / 100), 0);
    }
    if n % 400 == 0 {
      DivModUnique(n, 100, 4 * (n / 400), 0);
    }
  }

  lemma YearStep(year: int)
    ensures DaysBeforeYear(year + 1) == DaysBeforeYear(year) + (if IsLeap(year) then 366 else 365)
  {
    QuotientStep(year, 4);
    QuotientStep(year, 100);
    QuotientStep(year, 400);
    LeapDivisors(year);
  }

  lemma {:induction false} MonthTable(year: int, month: int)
    requires 1 <= month <= 12
    ensures var leap := if IsLeap(year) then 1 else 0;
            DaysBeforeMonth(year, month) ==
            if month <= 2 then 31 * (month - 1) else 59 + leap + (153 * (month - 3) + 2) / 5
    decreases month
  {
    if month > 1 {
      MonthTable(year, month - 1);
    }
  }

  /** One calendar step raises the day number by one. */
  lemma NextDayCounts(d: Date)
    requires ValidDate(d)
    ensures DaysFromDate(NextDay(d)) == DaysFromDate(d) + 1
  {
    if d.month == 12 {
      YearStep(d.year);
      MonthTable(d.year, 12);
    }
  }

  lemma YearsIncrease(y1: int, y2: int)
    requires y1 < y2
    ensures DaysBeforeYear(y1) + (if IsLeap(y1) then 366 else 365) <= DaysBeforeYear(y2)
    decreases y2 - y1
  {
    YearStep(y1);
    if y1 + 1 < y2 {
      YearsIncrease(y1 + 1, y2);
    }
  }

  lemma MonthsIncrease(year: int, m1: int, m2: int)
    requires 1 <= m1 < m2 <= 12
    ensures DaysBeforeMonth(year, m1) + DaysInMonth(year, m1) <= DaysBeforeMonth(year, m2)
    decreases m2
  {
    if m1 + 1 < m2 {
      MonthsIncrease(year, m1, m2 - 1);
    }
  }

  lemma DayOfYearBounds(d: Date)
    requires ValidDate(d)
    ensures 0 <= DaysBeforeMonth(d.year, d.month) + d.day - 1 < (if IsLeap(d.year) then 366 else 365)
  {
    MonthTable(d.year, d.month);
  }

  /** No two dates of the calendar share a day number. */
  lemma DaysFromDateInjective(d1: Date, d2: Date)
    requires ValidDate(d1) && ValidDate(d2)
    requires DaysFromDate(d1) == DaysFromDate(d2)
    ensures d1 == d2
  {
    DayOfYearBounds(d1);
    DayOfYearBounds(d2);
    if d1.year < d2.year {
      YearsIncrease(d1.year, d2.year);
    } else if d2.year < d1.year {
      YearsIncrease(d2.year, d1.year);
    } else if d1.month < d2.month {
      MonthsIncrease(d1.year, d1.month, d2.month);
    } else if d2.month < d1.month {
      MonthsIncrease(d1.year, d2.month, d1.month);
    }
  }

  // ---------------------------------------------------------------------
  // Main results.

  /** Days from 0000-03-01 to 1 March of year `y`. */
  function DaysBeforeMarchYear(y: int): int {
    365 * y + y / 4 - y / 100 + y / 400
  }

  /** Day `doy` of the year that starts on 1 March of year `y`. */
  function MarchDate(y: int, doy: U32): Date
    requires doy <= 365
  {
    var (m, d) := MonthAndDay(doy);
    Date(if m <= 2 then y + 1 else y, m, d)
  }

  lemma MarchYearStart(y: int)
    ensures DaysBeforeMarchYear(y) == DaysBeforeYear(y + 1)
  {
    YearStep(y);
  }

  /** The month arithmetic on a day of the March-based year, by month. */
  lemma MonthOfDay(doy: int)
    requires 0 <= doy <= 365
    ensures var mp := (5 * doy + 2) / 153; var start := (153 * mp + 2) / 5;
            0 <= mp <= 11 && start <= doy < (153 * mp + 155) / 5
  {
  }

  lemma MarchDateSound(y: int, doy: int)
    requires ValidMarchDay(y, doy)
    ensures ValidDate(MarchDate(y, doy))
    ensures DaysFromDate(MarchDate(y, doy)) == DaysBeforeMarchYear(y) + doy - 719468
  {
    MonthOfDay(doy);
    MarchYearStart(y);
    YearStep(y);
    var d := MarchDate(y, doy);
    MonthTable(d.year, d.month);
  }

  lemma EraShift(yoe: int, era: int)
    requires 0 <= yoe <= 399
    ensures DaysBeforeMarchYear(yoe + 400 * era) == DaysBeforeYearOfEra(yoe) + 146097 * era
  {
    var y := yoe + 400 * era;
    DivModUnique(y, 4, yoe / 4 + 100 * era, yoe % 4);
    DivModUnique(y, 100, yoe / 100 + 4 * era, yoe % 100);
    DivModUnique(y, 400, era, yoe);
  }

  lemma LeapInEra(n: int, era: int)
    requires 1 <= n <= 400
    requires n % 4 == 0 && (n % 100 != 0 || n == 400)
    ensures IsLeap(n + 400 * era)
  {
    var y := n + 400 * era;
    DivModUnique(y, 4, n / 4 + 100 * era, 0);
    if n == 400 {
      DivModUnique(y, 400, era + 1, 0);
    } else {
      DivModUnique(y, 100, n / 100 + 4 * era, n % 100);
    }
  }

  /** A day of the year that starts on 1 March of year `y`. */
  predicate ValidMarchDay(y: int, doy: int) {
    0 <= doy <= 365 && (doy == 365 ==> IsLeap(y + 1))
  }

  /** Where the code's era and day of the era fall in the March-based years. */
  lemma EraDay(era: int, doe: int) returns (y: int, doy: int)
    requires -0x8000_0000_0000 <= era < 0x8000_0000_0000
    requires 0 <= doe <= 146096
    ensures ValidMarchDay(y, doy)
    ensures DaysBeforeMarchYear(y) + doy == 146097 * era + doe
    ensures DateInEra(era, doe) == MarchDate(y, doy)
  {
    YearOfEraBounds(doe);
    var yoe := YearOfEra(doe);
    EraShift(yoe, era);
    y, doy := yoe + era * 400, doe - DaysBeforeYearOfEra(yoe);
    if doy == 365 {
      LeapInEra(yoe + 1, era);
    }
  }

  lemma CivilFromDaysInEra(z: I64)
    requires z + 719468 < 0x8000_0000_0000_0000
    ensures var s := z + 719468;
            && -0x8000_0000_0000 <= s / 146097 < 0x8000_0000_0000
            && CivilFromDays(z) == DateInEra(s / 146097, s % 146097)
  {
    EraIsFloor(z + 719468);
  }

  /** The code splits the day number into a year and a day of that year. */
  lemma CivilFromDaysSplits(z: I64) returns (y: int, doy: int)
    requires z + 719468 < 0x8000_0000_0000_0000
    ensures ValidMarchDay(y, doy)
    ensures DaysBeforeMarchYear(y) + doy == z + 719468
    ensures CivilFromDays(z) == MarchDate(y, doy)
  {
    CivilFromDaysInEra(z);
    var era, doe := (z + 719468) / 146097, (z + 719468) % 146097;
    y, doy := EraDay(era, doe);
  }

  /** The date computed for day `z` is a date of the calendar and `z` is its
      day number. */
  lemma CivilFromDaysSound(z: I64)
    requires z + 719468 < 0x8000_0000_0000_0000
    ensures ValidDate(CivilFromDays(z))
    ensures DaysFromDate(CivilFromDays(z)) == z
  {
    var y, doy := CivilFromDaysSplits(z);
    MarchDateSound(y, doy);
  }

  /** Every date of the calendar is the one computed for its day number. */
  lemma CivilFromDaysComplete(d: Date)
    requires ValidDate(d)
    requires -0x8000_0000_0000_0000 <= DaysFromDate(d)
    requires DaysFromDate(d) + 719468 < 0x8000_0000_0000_0000
    ensures CivilFromDays(DaysFromDate(d)) == d
  {
    CivilFromDaysSound(DaysFromDate(d));
    DaysFromDateInjective(CivilFromDays(DaysFromDate(d)), d);
  }

  /** Walking the calendar one day at a time from 1970-01-01 visits exactly the
      computed dates. */
  lemma CivilFromDaysWalks(z: I64)
    requires z + 1 + 719468 < 0x8000_0000_0000_0000
    ensures CivilFromDays(0) == Date(1970, 1, 1)
    ensures ValidDate(CivilFromDays(z))
    ensures CivilFromDays(z + 1) == NextDay(CivilFromDays(z))
  {
    CivilFromDaysSound(0);
    DaysFromDateInjective(CivilFromDays(0), Date(1970, 1, 1));
    CivilFromDaysSound(z);
    CivilFromDaysSound(z + 1);
    NextDayCounts(CivilFromDays(z));
    DaysFromDateInjective(CivilFromDays(z + 1), NextDay(CivilFromDays(z)));
  }
}
