/** Days since 1970-01-01 as dates of the proleptic Gregorian calendar (ISO 8601). */
module Calendar {
  import opened Bytes

  // ---------------------------------------------------------------- the calendar

  datatype Date = Date(year: int, month: int, day: int)

  predicate IsLeap(y: int) {
    y % 4 == 0 && (y % 100 != 0 || y % 400 == 0)
  }

  function DaysInMonth(y: int, m: int): int {
    if m == 2 then (if IsLeap(y) then 29 else 28)
    else if m == 4 || m == 6 || m == 9 || m == 11 then 30
    else 31
  }

  predicate IsDate(date: Date) {
    1 <= date.month <= 12 && 1 <= date.day <= DaysInMonth(date.year, date.month)
  }

  /** The calendar day after `date`. */
  function NextDay(date: Date): Date {
    if date.day < DaysInMonth(date.year, date.month) then date.(day := date.day + 1)
    else if date.month < 12 then Date(date.year, date.month + 1, 1)
    else Date(date.year + 1, 1, 1)
  }

  function DaysInYear(y: int): int {
    if IsLeap(y) then 366 else 365
  }

  /** Days from 1970-01-01 to the first of January of year `y`. */
  function DaysBeforeYear(y: int): int
    decreases if y >= 1970 then y - 1970 else 1970 - y
  {
    if y == 1970 then 0
    else if y > 1970 then DaysBeforeYear(y - 1) + DaysInYear(y - 1)
    else DaysBeforeYear(y + 1) - DaysInYear(y)
  }

  /** Days from the first of January to the first of month `m`. */
  function DaysBeforeMonth(y: int, m: int): int
    requires 1 <= m <= 13
    decreases m
  {
    if m == 1 then 0 else DaysBeforeMonth(y, m - 1) + DaysInMonth(y, m - 1)
  }

  /** The day number of a date, counted year by year and month by month. */
  function DayNumber(date: Date): int
    requires IsDate(date)
  {
    DaysBeforeYear(date.year) + DaysBeforeMonth(date.year, date.month) + (date.day - 1)
  }

  // ---------------------------------------------------------------- the algorithm

  /** Unsigned subtraction: it may only be used where it does not underflow. */
  function Sub(a: nat, b: nat): nat
    requires b <= a
  {
    a - b
  }

  /** Division that rounds towards zero, as machine integers divide. */
  function TruncatedDiv(a: int, b: int): int
    requires b > 0
  {
    if a >= 0 then a / b else -(-a / b)
  }

  /** Eras are 400 years long and start on the first of March. */
  function EraOf(days: int): int {
    var z := days + 719468;
    TruncatedDiv(if z >= 0 then z else z - 146096, 146097)
  }

  function DayOfEra(days: int): (doe: nat)
    ensures doe < 146097
  {
    days + 719468 - EraOf(days) * 146097
  }

  function YearOfEra(doe: nat): nat
    requires doe < 146097
  {
    Sub(Sub(doe, doe / 1460) + doe / 36524, doe / 146096) / 365
  }

  function DayOfYear(doe: nat): nat
    requires doe < 146097
  {
    YearStarts(doe);
    var yoe := YearOfEra(doe);
    Sub(doe, Sub(365 * yoe + yoe / 4, yoe / 100))
  }

  /** Month of a year that starts in March, from 0, and day of that month, from 1. */
  function MarchMonth(doy: nat): nat {
    (5 * doy + 2) / 153
  }

  function DayOfMonth(doy: nat): nat {
    Sub(doy, (153 * MarchMonth(doy) + 2) / 5) + 1
  }

  function CivilFromDays(days: int): Date {
    var doe := DayOfEra(days);
    var mp := MarchMonth(DayOfYear(doe));
    var m := if mp < 10 then mp + 3 else Sub(mp, 9);
    var y := YearOfEra(doe) + EraOf(days) * 400;
    Date(if m <= 2 then y + 1 else y, m, DayOfMonth(DayOfYear(doe)))
  }

  // ---------------------------------------------------------------- years

  /** A day of an era by century, four-year cycle, year of the cycle and day of the year. */
  datatype Place = Place(century: nat, cycle: nat, year: nat, day: nat) {
    predicate Valid() {
      && century <= 3 && cycle <= 24 && year <= 3 && day <= 365
      && (day == 365 ==> year == 3 && (cycle < 24 || century == 3))
    }

    function DayOfEra(): nat {
      36524 * century + 1461 * cycle + 365 * year + day
    }

    function YearOfEra(): nat {
      100 * century + 4 * cycle + year
    }
  }

  lemma PlaceOf(doe: nat) returns (p: Place)
    requires doe < 146097
    ensures p.Valid() && p.DayOfEra() == doe
  {
    var century := if doe == 146096 then 3 else doe / 36524;
    var inCentury := doe - 36524 * century;
    var cycle := inCentury / 1461;
    var inCycle := inCentury % 1461;
    var year := if inCycle == 1460 then 3 else inCycle / 365;
    p := Place(century, cycle, year, inCycle - 365 * year);
  }

  lemma CenturyOfPlace(p: Place)
    requires p.Valid() && p.DayOfEra() < 146096
    ensures p.DayOfEra() / 36524 == p.century
  {
    DivModUnique(p.century, p.DayOfEra() - p.century * 36524, 36524);
  }

  /** The days that the leap days before a place push it past a multiple of 1460. */
  function Early(p: Place): nat {
    if 365 * p.year + p.day + 24 * p.century + p.cycle >= 1460 then 1 else 0
  }

  lemma CyclesOfPlace(p: Place)
    requires p.Valid() && p.DayOfEra() < 146096
    ensures p.DayOfEra() / 1460 == 25 * p.century + p.cycle + Early(p)
    ensures 0 <= p.day - Early(p) < 365
  {
    var over := 365 * p.year + p.day + 24 * p.century + p.cycle;
    assert p.DayOfEra() == 1460 * (25 * p.century + p.cycle) + over;
    DivModUnique(25 * p.century + p.cycle + Early(p), over - 1460 * Early(p), 1460);
  }

  /** The closed formula for the year of the era is right on every day of the era. */
  lemma PlaceYear(p: Place)
    requires p.Valid()
    ensures p.DayOfEra() < 146097
    ensures YearOfEra(p.DayOfEra()) == p.YearOfEra()
  {
    var doe := p.DayOfEra();
    if doe < 146096 {
      CenturyOfPlace(p);
      CyclesOfPlace(p);
      assert doe - doe / 1460 + doe / 36524 == 365 * p.YearOfEra() + (p.day - Early(p));
    }
  }

  /** Where years of an era start, and that the subtractions of `DayOfYear` do not underflow. */
  lemma YearStarts(doe: nat)
    requires doe < 146097
    ensures var yoe := YearOfEra(doe);
            && yoe < 400
            && yoe / 100 <= 365 * yoe + yoe / 4 <= doe + yoe / 100
            && doe - (365 * yoe + yoe / 4 - yoe / 100) <= 365
  {
    var p := PlaceOf(doe);
    PlaceYear(p);
    assert p.YearOfEra() / 4 == 25 * p.century + p.cycle;
    assert p.YearOfEra() / 100 == p.century;
  }

  lemma Mod4(k: int)
    ensures (4 * k) % 4 == 0
  {
  }

  lemma Mod100(k: int, r: nat)
    requires r < 100
    ensures (100 * k + r) % 100 == r
  {
  }

  lemma Mod400(k: int)
    ensures (400 * k) % 400 == 0
  {
  }

  /** The 366th day of a year of the era is the last of a leap February. */
  lemma LeapYearEnds(p: Place, era: int, y: int)
    requires p.Valid() && p.day == 365
    requires y == p.YearOfEra() + era * 400 + 1
    ensures IsLeap(y)
  {
    Mod4(25 * p.century + p.cycle + 1 + 100 * era);
    if p.cycle < 24 {
      Mod100(p.century + 4 * era, 4 * p.cycle + 4);
    } else {
      Mod400(era + 1);
    }
  }

  lemma PlaceDay(p: Place)
    requires p.Valid()
    ensures p.DayOfEra() < 146097
    ensures YearOfEra(p.DayOfEra()) == p.YearOfEra()
    ensures DayOfYear(p.DayOfEra()) == p.day
  {
    PlaceYear(p);
    assert p.YearOfEra() / 4 == 25 * p.century + p.cycle;
    assert p.YearOfEra() / 100 == p.century;
  }

  /** Day `doy` of a year that starts in March is day `d` of month `mp`, counted from March. */
  predicate InMonth(mp: int, doy: nat, d: int) {
    || (mp == 0 && doy == d - 1 && 1 <= d <= 31) || (mp == 1 && doy == 31 + d - 1 && 1 <= d <= 30)
    || (mp == 2 && doy == 61 + d - 1 && 1 <= d <= 31) || (mp == 3 && doy == 92 + d - 1 && 1 <= d <= 30)
    || (mp == 4 && doy == 122 + d - 1 && 1 <= d <= 31) || (mp == 5 && doy == 153 + d - 1 && 1 <= d <= 31)
    || (mp == 6 && doy == 184 + d - 1 && 1 <= d <= 30) || (mp == 7 && doy == 214 + d - 1 && 1 <= d <= 31)
    || (mp == 8 && doy == 245 + d - 1 && 1 <= d <= 30) || (mp == 9 && doy == 275 + d - 1 && 1 <= d <= 31)
    || (mp == 10 && doy == 306 + d - 1 && 1 <= d <= 31) || (mp == 11 && doy == 337 + d - 1 && 1 <= d <= 29)
  }

  /** The day of the year falls in its month: the table behind the two divisions. */
  lemma MonthOfDay(doy: nat)
    requires doy <= 365
    ensures InMonth(MarchMonth(doy), doy, DayOfMonth(doy))
  {
  }

  /** A year of the era has a 366th day only when the February that ends it is a leap one. */
  lemma LastDay(doe: nat, era: int, y: int)
    requires doe < 146097 && DayOfYear(doe) == 365
    requires y == YearOfEra(doe) + era * 400 + 1
    ensures IsLeap(y)
  {
    var p := PlaceOf(doe);
    PlaceDay(p);
    assert p.day == 365;
    assert y == p.YearOfEra() + era * 400 + 1;
    LeapYearEnds(p, era, y);
  }

  // ---------------------------------------------------------------- theorems

  /** `date` is day `doy` of the year that starts in March of year `y`, and lies in month `mp` from March. */
  predicate InMarchYear(y: int, mp: int, doy: nat, date: Date) {
    && InMonth(mp, doy, date.day)
    && date.month == (if mp < 10 then mp + 3 else mp - 9)
    && date.year == (if mp < 10 then y else y + 1)
  }

  lemma MarchIsDate(y: int, mp: int, doy: nat, date: Date)
    requires InMarchYear(y, mp, doy, date)
    requires doy == 365 ==> IsLeap(y + 1)
    ensures IsDate(date)
  {
  }

  /** The result is a date of the calendar. */
  lemma CivilIsDate(n: int)
    ensures IsDate(CivilFromDays(n))
  {
    var doe, era := DayOfEra(n), EraOf(n);
    var y := YearOfEra(doe) + era * 400;
    YearStarts(doe);
    MonthOfDay(DayOfYear(doe));
    if DayOfYear(doe) == 365 {
      LastDay(doe, era, y + 1);
    }
    MarchIsDate(y, MarchMonth(DayOfYear(doe)), DayOfYear(doe), CivilFromDays(n));
  }

  lemma {:induction false} DaysBeforeYearClosed(y: int)
    ensures DaysBeforeYear(y) == 365 * y + (y - 1) / 4 - (y - 1) / 100 + (y - 1) / 400 - 719527
    decreases if y >= 1970 then y - 1970 else 1970 - y
  {
    if y > 1970 {
      DaysBeforeYearClosed(y - 1);
      LeapStep(y - 1);
    } else if y < 1970 {
      DaysBeforeYearClosed(y + 1);
      LeapStep(y);
    }
  }

  /** A leap year adds one to the number of leap years so far. */
  lemma LeapStep(y: int)
    ensures y / 4 - y / 100 + y / 400 ==
            (y - 1) / 4 - (y - 1) / 100 + (y - 1) / 400 + if IsLeap(y) then 1 else 0
  {
    FloorStep(y, 4);
    FloorStep(y, 100);
    FloorStep(y, 400);
  }

  lemma FloorStep(y: int, d: int)
    requires d == 4 || d == 100 || d == 400
    ensures y / d == (y - 1) / d + if y % d == 0 then 1 else 0
  {
  }

  lemma MonthTable(y: int)
    ensures DaysBeforeMonth(y, 2) == 31
    ensures var f := if IsLeap(y) then 60 else 59;
            && DaysBeforeMonth(y, 3) == f && DaysBeforeMonth(y, 4) == f + 31 && DaysBeforeMonth(y, 5) == f + 61
            && DaysBeforeMonth(y, 6) == f + 92 && DaysBeforeMonth(y, 7) == f + 122 && DaysBeforeMonth(y, 8) == f + 153
            && DaysBeforeMonth(y, 9) == f + 184 && DaysBeforeMonth(y, 10) == f + 214 && DaysBeforeMonth(y, 11) == f + 245
            && DaysBeforeMonth(y, 12) == f + 275 && DaysBeforeMonth(y, 13) == DaysInYear(y)
  {
    assert DaysBeforeMonth(y, 1) == 0;
    assert DaysBeforeMonth(y, 2) == 31;
    assert DaysBeforeMonth(y, 3) == 31 + DaysInMonth(y, 2);
    assert DaysBeforeMonth(y, 4) == DaysBeforeMonth(y, 3) + 31;
    assert DaysBeforeMonth(y, 5) == DaysBeforeMonth(y, 4) + 30;
    assert DaysBeforeMonth(y, 6) == DaysBeforeMonth(y, 5) + 31;
    assert DaysBeforeMonth(y, 7) == DaysBeforeMonth(y, 6) + 30;
    assert DaysBeforeMonth(y, 8) == DaysBeforeMonth(y, 7) + 31;
    assert DaysBeforeMonth(y, 9) == DaysBeforeMonth(y, 8) + 31;
    assert DaysBeforeMonth(y, 10) == DaysBeforeMonth(y, 9) + 30;
    assert DaysBeforeMonth(y, 11) == DaysBeforeMonth(y, 10) + 31;
    assert DaysBeforeMonth(y, 12) == DaysBeforeMonth(y, 11) + 30;
  }

  /** The number of day `doy` of the year that starts in March of year `y`. */
  lemma MarchDate(y: int, mp: int, doy: nat, date: Date)
    requires IsDate(date) && InMarchYear(y, mp, doy, date)
    ensures DayNumber(date) == 365 * y + y / 4 - y / 100 + y / 400 - 719468 + doy
  {
    MonthTable(date.year);
    DaysBeforeYearClosed(date.year);
    LeapStep(y);
  }

  /** The closed count of days, at day `doy` of year `yoe` of an era, is the day number the era's day stands for. */
  lemma EraDayNumber(n: int, era: int, doe: nat, yoe: nat, doy: nat)
    requires yoe < 400
    requires doe == n + 719468 - era * 146097
    requires doy == doe - (365 * yoe + yoe / 4 - yoe / 100)
    ensures var y := yoe + era * 400;
            365 * y + y / 4 - y / 100 + y / 400 - 719468 + doy == n
  {
    EraYears(yoe, era);
  }

  /** Counting the days up to the date that the algorithm gives for day `n` comes to `n`. */
  lemma DayNumberOfCivil(n: int)
    ensures IsDate(CivilFromDays(n)) && DayNumber(CivilFromDays(n)) == n
  {
    CivilIsDate(n);
    var doe, era := DayOfEra(n), EraOf(n);
    YearStarts(doe);
    var yoe, doy := YearOfEra(doe), DayOfYear(doe);
    var y := yoe + era * 400;
    MonthOfDay(doy);
    EraDayNumber(n, era, doe, yoe, doy);
    MarchDate(y, MarchMonth(doy), doy, CivilFromDays(n));
  }

  lemma EraYears(yoe: nat, era: int)
    requires yoe < 400
    ensures var y := yoe + era * 400;
            y / 4 == yoe / 4 + 100 * era && y / 100 == yoe / 100 + 4 * era && y / 400 == era
  {
  }

  /** The day number counts up by one along the calendar. */
  lemma NextDayNumber(date: Date)
    requires IsDate(date)
    ensures IsDate(NextDay(date)) && DayNumber(NextDay(date)) == DayNumber(date) + 1
  {
    MonthTable(date.year);
    DaysBeforeYearClosed(date.year);
    DaysBeforeYearClosed(date.year + 1);
    LeapStep(date.year);
  }

  lemma {:induction false} MonthsInOrder(y: int, m: int, m': int)
    requires 1 <= m < m' <= 13
    ensures DaysBeforeMonth(y, m) + DaysInMonth(y, m) <= DaysBeforeMonth(y, m')
    decreases m'
  {
    if m < m' - 1 {
      MonthsInOrder(y, m, m' - 1);
    }
  }

  lemma {:induction false} YearsInOrder(y: int, y': int)
    requires y < y'
    ensures DaysBeforeYear(y) + DaysInYear(y) <= DaysBeforeYear(y')
    decreases y' - y
  {
    DaysBeforeYearClosed(y);
    DaysBeforeYearClosed(y + 1);
    LeapStep(y);
    if y + 1 < y' {
      YearsInOrder(y + 1, y');
    }
  }

  predicate Before(a: Date, b: Date) {
    || a.year < b.year
    || (a.year == b.year && a.month < b.month)
    || (a.year == b.year && a.month == b.month && a.day < b.day)
  }

  /** Earlier dates have smaller numbers. */
  lemma DayNumberMonotone(a: Date, b: Date)
    requires IsDate(a) && IsDate(b) && Before(a, b)
    ensures DayNumber(a) < DayNumber(b)
  {
    if a.year < b.year {
      YearsInOrder(a.year, b.year);
      MonthTable(a.year);
      MonthsInOrder(a.year, a.month, 13);
      if b.month > 1 {
        MonthsInOrder(b.year, 1, b.month);
      }
    } else if a.month < b.month {
      MonthsInOrder(a.year, a.month, b.month);
    }
  }

  /** The algorithm inverts the day count: dates and day numbers correspond one to one. */
  lemma CivilOfDayNumber(date: Date, n: int)
    requires IsDate(date) && DayNumber(date) == n
    ensures CivilFromDays(n) == date
  {
    var civil := CivilFromDays(n);
    DayNumberOfCivil(n);
    if Before(date, civil) {
      DayNumberMonotone(date, civil);
    } else if Before(civil, date) {
      DayNumberMonotone(civil, date);
    }
  }

  /** The next day number is the next day of the calendar. */
  lemma CivilSuccessor(n: int)
    ensures CivilFromDays(n + 1) == NextDay(CivilFromDays(n))
  {
    var date := CivilFromDays(n);
    DayNumberOfCivil(n);
    NextDayNumber(date);
    CivilOfDayNumber(NextDay(date), n + 1);
  }

  lemma EpochIsDayZero()
    ensures CivilFromDays(0) == Date(1970, 1, 1)
  {
    CivilOfDayNumber(Date(1970, 1, 1), 0);
  }

  const I64_MAX := 0x7FFF_FFFF_FFFF_FFFF
  const I64_MIN := -0x8000_0000_0000_0000

  predicate InI64(v: int) {
    I64_MIN <= v <= I64_MAX
  }

  /** Day numbers whose shifted value the signed arithmetic of the algorithm can hold. */
  predicate DaysInRange(n: int) {
    I64_MIN + 146096 - 719468 <= n <= I64_MAX - 719468
  }

  /** Every signed intermediate value fits 64 bits exactly on this range of day numbers. */
  lemma NoOverflow(n: int)
    requires InI64(n)
    ensures var z := n + 719468;
            && (DaysInRange(n) <==> InI64(z) && (z < 0 ==> InI64(z - 146096)))
            && (DaysInRange(n) ==>
                  InI64(EraOf(n) * 146097) && InI64(EraOf(n) * 400) && InI64(CivilFromDays(n).year))
  {
    var doe := DayOfEra(n);
    YearStarts(doe);
  }

  // ---------------------------------------------------------------- formatting

  /** The date of a 32-bit Unix timestamp. */
  function DateFromEpoch(seconds: nat): Date {
    CivilFromDays(seconds / 86400)
  }

  /** Every 32-bit timestamp falls in a four-digit year, on the day that contains it. */
  lemma EpochDate(seconds: nat)
    requires seconds < 0x1_0000_0000
    ensures var date := DateFromEpoch(seconds);
            && IsDate(date) && 1970 <= date.year <= 2106
            && DayNumber(date) * 86400 <= seconds < (DayNumber(date) + 1) * 86400
  {
    var n := seconds / 86400;
    DayNumberOfCivil(n);
    var date := CivilFromDays(n);
    DaysBeforeYearClosed(2107);
    assert DaysBeforeYear(1970) == 0;
    if date.year < 1970 {
      DayNumberMonotone(date, Date(1970, 1, 1));
    } else if date.year > 2106 {
      DayNumberMonotone(Date(2106, 12, 31), date);
      MonthTable(2106);
      DaysBeforeYearClosed(2106);
    }
  }
}
