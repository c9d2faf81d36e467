/**
  The calendar arithmetic behind `expires:`: Hinnant's conversions between a civil date and
  the number of a day, 0 being 1970-01-01, checked against the calendar's own day-by-day succession.
*/
module Calendar {
  import opened Words

  /** A date as the source stores it. */
  datatype Date = Date(year: u16, month: u8, day: u8)

  /** A date before the source squeezes it into that: any year. */
  datatype Civil = Civil(year: int, month: int, day: int)

  function Wide(d: Date): Civil {
    Civil(d.year, d.month, d.day)
  }

  /**
    Rust's `/` on signed integers truncates toward zero. The conversions divide a negative number
    only to find the era; everywhere else the operands are non-negative and Dafny's `/` agrees.
  */
  function Quot(a: int, b: int): int
    requires b > 0
  {
    if a >= 0 then a / b else -((-a) / b)
  }

  // ----- The calendar -----

  predicate IsLeap(year: int) {
    year % 4 == 0 && (year % 100 != 0 || year % 400 == 0)
  }

  function DaysInMonth(year: int, month: int): int {
    if month == 2 then (if IsLeap(year) then 29 else 28)
    else if month == 4 || month == 6 || month == 9 || month == 11 then 30
    else 31
  }

  /** A date of the proleptic Gregorian calendar. */
  predicate Real(d: Civil) {
    1 <= d.month <= 12 && 1 <= d.day <= DaysInMonth(d.year, d.month)
  }

  /** What `Date::parse` lets through: a plausible month and day, not necessarily a real date. */
  predicate InRange(d: Civil) {
    1 <= d.month <= 12 && 1 <= d.day <= 31
  }

  /** The day after. */
  function Next(d: Civil): (n: Civil)
    requires Real(d)
    ensures Real(n)
  {
    if d.day < DaysInMonth(d.year, d.month) then Civil(d.year, d.month, d.day + 1)
    else if d.month < 12 then Civil(d.year, d.month + 1, 1)
    else Civil(d.year + 1, 1, 1)
  }

  /** `Ord`: the `(year, month, day)` tuple. */
  predicate Before(a: Civil, b: Civil) {
    || a.year < b.year
    || (a.year == b.year && (a.month < b.month || (a.month == b.month && a.day < b.day)))
  }

  // ----- The source's arithmetic -----

  function DaysFromCivil(date: Civil): int {
    var y := date.year - (if date.month <= 2 then 1 else 0);
    var era := Quot(if y >= 0 then y else y - 399, 400);
    var yoe := y - era * 400;
    var m := date.month + (if date.month > 2 then -3 else 9);
    var doy := (153 * m + 2) / 5 + date.day - 1;
    var doe := yoe * 365 + yoe / 4 - yoe / 100 + doy;
    era * 146097 + doe - 719468
  }

  function YearOfEra(doe: int): int {
    (doe - doe / 1460 + doe / 36524 - doe / 146096) / 365
  }

  /** `from_unix_days` up to the point where it narrows the fields. */
  function CivilFromDays(days: int): Civil {
    var z := days + 719468;
    CivilFromEra(EraOf(z), z - EraOf(z) * 146097)
  }

  function EraOf(z: int): int {
    Quot(if z >= 0 then z else z - 146096, 146097)
  }

  function CivilFromEra(era: int, dayOfEra: int): Civil {
    var yearOfEra := YearOfEra(dayOfEra);
    var dayOfYear := dayOfEra - (365 * yearOfEra + yearOfEra / 4 - yearOfEra / 100);
    CivilFromYear(yearOfEra + era * 400, dayOfYear)
  }

  function CivilFromYear(year: int, dayOfYear: int): Civil {
    var shiftedMonth := (5 * dayOfYear + 2) / 153;
    var day := dayOfYear - (153 * shiftedMonth + 2) / 5 + 1;
    var month := if shiftedMonth < 10 then shiftedMonth + 3 else shiftedMonth - 9;
    Civil(if month <= 2 then year + 1 else year, month, day)
  }

  /** Narrowing: a year that does not fit becomes 1970, and the month and the day stand. */
  function Narrow(c: Civil): Date {
    Date(if 0 <= c.year < 0x1_0000 then c.year else 1970,
         if 0 <= c.month < 0x100 then c.month else 1,
         if 0 <= c.day < 0x100 then c.day else 1)
  }

  function FromUnixDays(days: int): Date {
    Narrow(CivilFromDays(days))
  }

  function Days(d: Date): int {
    DaysFromCivil(Wide(d))
  }

  function AddDays(d: Date, days: u32): Date {
    FromUnixDays(Days(d) + days)
  }

  // ----- The year that starts in March -----

  /** Days before year `y` of an era, counting leap days at the end of their year. */
  function YearStart(y: int): int {
    365 * y + y / 4 - y / 100
  }

  /** Days before month `m` of a year starting in March. */
  function MonthStart(m: int): int {
    (153 * m + 2) / 5
  }

  /** The century, the four-year cycle, the year in it, and the day of that year. */
  datatype EraDay = EraDay(century: int, cycle: int, year: int, day: int) {
    function YearOf(): int {
      100 * century + 4 * cycle + year
    }

    predicate Shaped() {
      && 0 <= century <= 3 && 0 <= cycle <= 24 && 0 <= year <= 3
      && 0 <= day <= 365
      && (day == 365 ==> year == 3 && (cycle < 24 || century == 3))
    }
  }

  function SplitEra(doe: int): (e: EraDay)
    requires 0 <= doe < 146097
    ensures e.Shaped()
    ensures doe == 36524 * e.century + 1461 * e.cycle + 365 * e.year + e.day
  {
    var century := if doe == 146096 then 3 else doe / 36524;
    var inCentury := doe - 36524 * century;
    var cycle := inCentury / 1461;
    var inCycle := inCentury - 1461 * cycle;
    var year := if inCycle == 1460 then 3 else inCycle / 365;
    EraDay(century, cycle, year, inCycle - 365 * year)
  }

  lemma EraYearStart(e: EraDay)
    requires e.Shaped()
    ensures 0 <= e.YearOf() < 400
    ensures YearStart(e.YearOf()) == 36524 * e.century + 1461 * e.cycle + 365 * e.year
    ensures e.YearOf() / 4 == 25 * e.century + e.cycle && e.YearOf() / 100 == e.century
  {
  }

  /** The division chain finds the year: each quotient removes the leap days before it. */
  lemma YearOfEraIs(e: EraDay, doe: int)
    requires e.Shaped()
    requires doe == 36524 * e.century + 1461 * e.cycle + 365 * e.year + e.day
    ensures 0 <= doe < 146097
    ensures YearOfEra(doe) == e.YearOf()
  {
    var slack := 24 * e.century + e.cycle + 365 * e.year + e.day;
    assert doe == 1460 * (25 * e.century + e.cycle) + slack;
    assert doe / 1460 == 25 * e.century + e.cycle + (if slack >= 1460 then 1 else 0);
    var last := if doe == 146096 then 1 else 0;
    assert doe / 36524 == e.century + last;
    assert doe / 146096 == last;
  }

  lemma MonthOfYear(doy: int)
    requires 0 <= doy <= 365
    ensures var m := (5 * doy + 2) / 153;
            0 <= m <= 11 && MonthStart(m) <= doy && (m < 11 ==> doy < MonthStart(m + 1))
  {
  }

  lemma MonthLengths(m: int, year: int)
    requires 0 <= m <= 10
    ensures MonthStart(m + 1) - MonthStart(m) == DaysInMonth(year, if m < 10 then m + 3 else m - 9)
    ensures MonthStart(0) == 0 && MonthStart(11) == 337
  {
  }

  lemma LeapAtTheEnd(e: EraDay, era: int)
    requires e.Shaped()
    ensures e.year == 3 && (e.cycle < 24 || e.century == 3) <==> IsLeap(400 * era + e.YearOf() + 1)
  {
    var y := 400 * era + e.YearOf() + 1;
    assert y == 4 * (100 * era + 25 * e.century + e.cycle) + e.year + 1;
    assert y == 100 * (4 * era + e.century) + 4 * e.cycle + e.year + 1;
    assert 0 < 4 * e.cycle + e.year + 1 <= 100;
  }

  /** The truncating division with its correction rounds down, also below zero. */
  lemma EraOfYear(a: int, r: int)
    requires 0 <= r < 400
    ensures Quot(if 400 * a + r >= 0 then 400 * a + r else 400 * a + r - 399, 400) == a
  {
  }

  lemma EraOfDays(a: int, r: int)
    requires 0 <= r < 146097
    ensures EraOf(146097 * a + r) == a
  {
  }

  /** Days before the year that starts in March `y`, over all eras. */
  function MarchYear(y: int): int {
    365 * y + y / 4 - y / 100 + y / 400
  }

  lemma MarchYearOfEra(era: int, yoe: int)
    requires 0 <= yoe < 400
    ensures MarchYear(400 * era + yoe) == 146097 * era + YearStart(yoe)
  {
    var y := 400 * era + yoe;
    assert y / 4 == 100 * era + yoe / 4;
    assert y / 100 == 4 * era + yoe / 100;
    assert y / 400 == era;
  }

  lemma FourthStep(y: int)
    ensures (y + 1) / 4 - y / 4 == if (y + 1) % 4 == 0 then 1 else 0
  {
  }

  lemma CenturyStep(y: int)
    ensures (y + 1) / 100 - y / 100 == if (y + 1) % 100 == 0 then 1 else 0
    ensures (y + 1) % 100 == 0 ==> (y + 1) % 4 == 0
  {
    if (y + 1) % 100 == 0 {
      assert y + 1 == 4 * (25 * ((y + 1) / 100));
    }
  }

  lemma EraStep(y: int)
    ensures (y + 1) / 400 - y / 400 == if (y + 1) % 400 == 0 then 1 else 0
    ensures (y + 1) % 400 == 0 ==> (y + 1) % 100 == 0
  {
    if (y + 1) % 400 == 0 {
      assert y + 1 == 100 * (4 * ((y + 1) / 400));
    }
  }

  lemma MarchYearLength(y: int)
    ensures MarchYear(y + 1) == MarchYear(y) + 365 + (if IsLeap(y + 1) then 1 else 0)
  {
    FourthStep(y);
    CenturyStep(y);
    EraStep(y);
  }

  /** The day number of a date, counted from the March its year starts in. */
  lemma DaysByMarch(date: Civil)
    requires 1 <= date.month <= 12
    ensures var y := date.year - (if date.month <= 2 then 1 else 0);
            DaysFromCivil(date)
            == MarchYear(y) + MonthStart(date.month + (if date.month > 2 then -3 else 9)) + date.day - 1 - 719468
  {
    var y := date.year - (if date.month <= 2 then 1 else 0);
    EraOfYear(y / 400, y % 400);
    MarchYearOfEra(y / 400, y % 400);
  }

  lemma CivilOfEra(era: int, e: EraDay, doe: int)
    requires e.Shaped()
    requires doe == 36524 * e.century + 1461 * e.cycle + 365 * e.year + e.day
    ensures CivilFromEra(era, doe) == CivilFromYear(400 * era + e.YearOf(), e.day)
  {
    EraYearStart(e);
    YearOfEraIs(e, doe);
  }

  lemma MarchDayOfEra(era: int, e: EraDay, doe: int)
    requires e.Shaped()
    requires doe == 36524 * e.century + 1461 * e.cycle + 365 * e.year + e.day
    ensures MarchYear(400 * era + e.YearOf()) + e.day == 146097 * era + doe
  {
    EraYearStart(e);
    MarchYearOfEra(era, e.YearOf());
  }

  lemma CivilFromDaysByEra(days: int, era: int, doe: int)
    requires 0 <= doe < 146097 && days + 719468 == 146097 * era + doe
    ensures CivilFromDays(days) == CivilFromEra(era, doe)
  {
    EraOfDays(era, doe);
    assert EraOf(days + 719468) == era;
    assert days + 719468 - era * 146097 == doe;
  }

  /** The March year and the day in it that a day number falls on. */
  lemma CivilByMarch(days: int) returns (era: int, e: EraDay)
    ensures e.Shaped()
    ensures CivilFromDays(days) == CivilFromYear(400 * era + e.YearOf(), e.day)
    ensures days + 719468 == MarchYear(400 * era + e.YearOf()) + e.day
  {
    var doe := (days + 719468) % 146097;
    era := (days + 719468) / 146097;
    e := SplitEra(doe);
    CivilFromDaysByEra(days, era, doe);
    CivilOfEra(era, e, doe);
    MarchDayOfEra(era, e, doe);
  }

  lemma CivilOfYear(year: int, day: int)
    requires 0 <= day <= 365
    ensures var m := (5 * day + 2) / 153;
            var month := if m < 10 then m + 3 else m - 9;
            && 0 <= m <= 11 && 1 <= month <= 12
            && m == month + (if month > 2 then -3 else 9)
            && CivilFromYear(year, day) == Civil(year + (if month <= 2 then 1 else 0), month, day - MonthStart(m) + 1)
  {
    MonthOfYear(day);
  }

  lemma RealInYear(era: int, e: EraDay)
    requires e.Shaped()
    ensures Real(CivilFromYear(400 * era + e.YearOf(), e.day))
  {
    var m := (5 * e.day + 2) / 153;
    var d := CivilFromYear(400 * era + e.YearOf(), e.day);
    CivilOfYear(400 * era + e.YearOf(), e.day);
    MonthOfYear(e.day);
    LeapAtTheEnd(e, era);
    if m < 11 {
      MonthLengths(m, d.year);
    } else {
      MonthLengths(0, d.year);
    }
  }

  // ----- The two conversions are inverse -----

  /** Every day number names a real date, and that date has that number. */
  lemma DaysOfCivil(days: int)
    ensures Real(CivilFromDays(days))
    ensures DaysFromCivil(CivilFromDays(days)) == days
  {
    var era, e := CivilByMarch(days);
    RealInYear(era, e);
    CivilOfYear(400 * era + e.YearOf(), e.day);
    DaysByMarch(CivilFromDays(days));
  }

  lemma LastOfFebruary(year: int)
    ensures DaysFromCivil(Civil(year, 3, 1)) == DaysFromCivil(Civil(year, 2, DaysInMonth(year, 2))) + 1
  {
    DaysByMarch(Civil(year, 2, DaysInMonth(year, 2)));
    DaysByMarch(Civil(year, 3, 1));
    MarchYearLength(year - 1);
  }

  lemma LastOfMonth(year: int, month: int)
    requires 1 <= month <= 12 && month != 2
    ensures DaysFromCivil(Next(Civil(year, month, DaysInMonth(year, month))))
            == DaysFromCivil(Civil(year, month, DaysInMonth(year, month))) + 1
  {
    var d := Civil(year, month, DaysInMonth(year, month));
    DaysByMarch(d);
    DaysByMarch(Next(d));
    MonthLengths(month + (if month > 2 then -3 else 9), year);
  }

  /** The arithmetic follows the calendar day by day. */
  lemma DaysOfNext(d: Civil)
    requires Real(d)
    ensures DaysFromCivil(Next(d)) == DaysFromCivil(d) + 1
  {
    if d.day == DaysInMonth(d.year, d.month) {
      assert d == Civil(d.year, d.month, DaysInMonth(d.year, d.month));
      if d.month == 2 {
        LastOfFebruary(d.year);
      } else {
        LastOfMonth(d.year, d.month);
      }
    }
  }

  function Rank(d: Civil): int {
    372 * d.year + 31 * d.month + d.day
  }

  lemma BeforeByRank(a: Civil, b: Civil)
    requires InRange(a) && InRange(b)
    ensures Before(a, b) <==> Rank(a) < Rank(b)
    ensures a == b <==> Rank(a) == Rank(b)
  {
  }

  /** The day after is the very next date in the order. */
  lemma NextIsNext(a: Civil, b: Civil)
    requires Real(a) && Real(b) && Before(a, b)
    ensures Rank(a) < Rank(Next(a)) <= Rank(b)
    ensures Next(a) == b || Before(Next(a), b)
  {
    BeforeByRank(a, Next(a));
    BeforeByRank(Next(a), b);
  }

  /** Later dates have larger numbers. */
  lemma {:induction false} DaysIncrease(a: Civil, b: Civil)
    requires Real(a) && Real(b) && Before(a, b)
    ensures DaysFromCivil(a) < DaysFromCivil(b)
    decreases Rank(b) - Rank(a)
  {
    var next := Next(a);
    DaysOfNext(a);
    NextIsNext(a, b);
    if next != b {
      DaysIncrease(next, b);
    }
  }

  lemma OrderIsDayOrder(a: Civil, b: Civil)
    requires Real(a) && Real(b)
    ensures Before(a, b) <==> DaysFromCivil(a) < DaysFromCivil(b)
    ensures a == b <==> DaysFromCivil(a) == DaysFromCivil(b)
  {
    if Before(a, b) {
      DaysIncrease(a, b);
    } else if Before(b, a) {
      DaysIncrease(b, a);
    }
  }

  lemma CivilOfDays(d: Civil)
    requires Real(d)
    ensures CivilFromDays(DaysFromCivil(d)) == d
  {
    DaysOfCivil(DaysFromCivil(d));
    OrderIsDayOrder(CivilFromDays(DaysFromCivil(d)), d);
  }

  // ----- Sixteen bits of year -----

  const FIRST_DAY: int := -719528
  const LAST_DAY: int := 23217003

  lemma DayBounds()
    ensures DaysFromCivil(Civil(0, 1, 1)) == FIRST_DAY
    ensures DaysFromCivil(Civil(65535, 12, 31)) == LAST_DAY
  {
  }

  lemma YearFits(days: int)
    ensures 0 <= CivilFromDays(days).year < 0x1_0000 <==> FIRST_DAY <= days <= LAST_DAY
  {
    var c := CivilFromDays(days);
    DaysOfCivil(days);
    DayBounds();
    OrderIsDayOrder(c, Civil(0, 1, 1));
    OrderIsDayOrder(Civil(65535, 12, 31), c);
  }

  /** Whatever month and day it falls on, a date of 1970 is nowhere near either end. */
  lemma DaysOf1970(month: int, day: int)
    requires 1 <= month <= 12 && 1 <= day <= 31
    ensures FIRST_DAY < DaysFromCivil(Civil(1970, month, day)) < LAST_DAY
  {
    DaysByMarch(Civil(1970, month, day));
    assert MarchYear(1969) == 719162 && MarchYear(1970) == 719527;
  }

  lemma NarrowKeeps(days: int)
    requires FIRST_DAY <= days <= LAST_DAY
    ensures Wide(FromUnixDays(days)) == CivilFromDays(days)
  {
    YearFits(days);
    DaysOfCivil(days);
  }

  lemma NarrowLoses(days: int)
    requires !(FIRST_DAY <= days <= LAST_DAY)
    ensures Wide(FromUnixDays(days)) == CivilFromDays(days).(year := 1970)
  {
    YearFits(days);
    DaysOfCivil(days);
  }

  /** A day number survives the round trip exactly when its year fits. */
  lemma DayRoundTrip(days: int)
    ensures Days(FromUnixDays(days)) == days <==> FIRST_DAY <= days <= LAST_DAY
    ensures FIRST_DAY <= days <= LAST_DAY ==> Real(Wide(FromUnixDays(days)))
  {
    var c := CivilFromDays(days);
    DaysOfCivil(days);
    if FIRST_DAY <= days <= LAST_DAY {
      NarrowKeeps(days);
    } else {
      NarrowLoses(days);
      DaysOf1970(c.month, c.day);
    }
  }

  /** And every real date does. */
  lemma DateRoundTrip(d: Date)
    requires Real(Wide(d))
    ensures FIRST_DAY <= Days(d) <= LAST_DAY
    ensures FromUnixDays(Days(d)) == d
  {
    CivilOfDays(Wide(d));
    YearFits(Days(d));
  }

  lemma AddDaysMoves(d: Date, n: u32)
    requires FIRST_DAY <= Days(d) && Days(d) + n <= LAST_DAY
    ensures Real(Wide(AddDays(d, n))) && Days(AddDays(d, n)) == Days(d) + n
  {
    DayRoundTrip(Days(d) + n);
  }

  /** Only the day number counts. */
  lemma AddDaysFrom(d: Date, e: Date, m: u32, n: u32)
    requires Days(e) + m == Days(d) + n
    ensures AddDays(e, m) == AddDays(d, n)
  {
    hide Days, FromUnixDays;
  }

  lemma AddDaysAdds(d: Date, a: u32, b: u32)
    requires a + b <= U32_MAX
    requires FIRST_DAY <= Days(d) && Days(d) + a <= LAST_DAY
    ensures AddDays(AddDays(d, a), b) == AddDays(d, a + b)
  {
    hide Days, AddDays;
    var e := AddDays(d, a);
    assert Days(e) == Days(d) + a by {
      AddDaysMoves(d, a);
    }
    AddDaysFrom(d, e, b, a + b);
  }

  /** Past the last year the fallback to 1970 undoes the sum: so adding twice is adding once, however many days are
    * added, exactly when the first sum is a date that can be held. */
  lemma AddDaysAddsExactly(d: Date, a: u32)
    requires FIRST_DAY <= Days(d) && a + 366 <= U32_MAX
    ensures (forall b: u32 | a + b <= U32_MAX :: AddDays(AddDays(d, a), b) == AddDays(d, a + b))
       <==> Days(d) + a <= LAST_DAY
  {
    hide Days, AddDays;
    if Days(d) + a <= LAST_DAY {
      forall b: u32 | a + b <= U32_MAX
        ensures AddDays(AddDays(d, a), b) == AddDays(d, a + b)
      {
        AddDaysAdds(d, a, b);
      }
    } else {
      AYearPastTheEnd(d, a);
    }
  }

  lemma AYearPastTheEnd(d: Date, a: u32)
    requires FIRST_DAY <= Days(d) && Days(d) + a > LAST_DAY && a + 366 <= U32_MAX
    ensures AddDays(AddDays(d, a), 366) != AddDays(d, a + 366)
  {
    hide FromUnixDays, Days;
    var e := AddDays(d, a);
    NarrowLoses(Days(d) + a);
    NarrowLoses(Days(d) + a + 366);
    assert AddDays(d, a + 366).year == 1970;
    DaysOfCivil(Days(d) + a);
    NotIn1970(e);
  }

  /** A year after a date of 1970 is not in 1970. */
  lemma NotIn1970(e: Date)
    requires e.year == 1970 && InRange(Wide(e))
    ensures AddDays(e, 366).year != 1970
  {
    hide FromUnixDays, DaysFromCivil, CivilFromDays;
    DaysOf1970(e.month, e.day);
    BoundsOf1970(e.month, e.day);
    NarrowKeeps(Days(e) + 366);
    DaysOfCivil(Days(e) + 366);
    OrderIsDayOrder(Civil(1970, 12, 31), CivilFromDays(Days(e) + 366));
  }

  lemma BoundsOf1970(month: int, day: int)
    requires 1 <= month <= 12 && 1 <= day <= 31
    ensures 0 <= DaysFromCivil(Civil(1970, month, day)) <= 367
    ensures DaysFromCivil(Civil(1970, 12, 31)) == 364
  {
  }

  // ----- The horizon check -----

  /** "More than `n` days out", as the source asks it and as it is meant. */
  ghost predicate HorizonHolds(expires: Date, today: Date, n: u32) {
    Before(Wide(AddDays(today, n)), Wide(expires)) <==> Days(expires) - Days(today) > n
  }

  /**
    With real dates of four-digit years, as directives are written with, the check means what it
    says as long as the horizon itself is still a date the source can hold; past that, `add_days`
    falls back to 1970 and later expiries look far out.
  */
  lemma HorizonWithinRange(today: Date, n: u32)
    requires Real(Wide(today))
    ensures (forall expires: Date | Real(Wide(expires)) && expires.year <= 9999 :: HorizonHolds(expires, today, n))
            <==> Days(today) + n <= LAST_DAY
  {
    if Days(today) + n <= LAST_DAY {
      forall expires: Date | Real(Wide(expires)) && expires.year <= 9999
        ensures HorizonHolds(expires, today, n)
      {
        HorizonOfDates(expires, today, n);
      }
    } else {
      HorizonFallsBack(today, n);
      assert Real(Wide(Date(9999, 12, 31)));
    }
  }

  lemma HorizonOfDates(expires: Date, today: Date, n: u32)
    requires InRange(Wide(expires)) && expires.day <= DaysInMonth(expires.year, expires.month) + 1
    requires Real(Wide(today)) && Days(today) + n <= LAST_DAY
    ensures HorizonHolds(expires, today, n)
  {
    DateRoundTrip(today);
    AddDaysMoves(today, n);
    OrderOnePastTheEnd(Wide(AddDays(today, n)), Wide(expires));
  }

  lemma HorizonFallsBack(today: Date, n: u32)
    requires Real(Wide(today)) && Days(today) + n > LAST_DAY
    ensures !HorizonHolds(Date(9999, 12, 31), today, n)
  {
    DayBounds();
    NarrowLoses(Days(today) + n);
    assert Wide(AddDays(today, n)).year == 1970;
    assert Days(Date(9999, 12, 31)) <= LAST_DAY;
  }

  /** An impossible day spills into the next month. */
  lemma DaysSpill(year: int, month: int, day: int, other: int)
    requires 1 <= month <= 12
    ensures DaysFromCivil(Civil(year, month, day)) - DaysFromCivil(Civil(year, month, other)) == day - other
  {
    DaysByMarch(Civil(year, month, day));
    DaysByMarch(Civil(year, month, other));
  }

  /** Against real dates, one day past the end of the month is as good as the first of the next. */
  lemma OrderOnePastTheEnd(t: Civil, expires: Civil)
    requires Real(t) && InRange(expires)
    requires expires.day <= DaysInMonth(expires.year, expires.month) + 1
    ensures Before(t, expires) <==> DaysFromCivil(t) < DaysFromCivil(expires)
  {
    if Real(expires) {
      OrderIsDayOrder(t, expires);
    } else {
      var end := expires.(day := expires.day - 1);
      OrderIsDayOrder(t, end);
      OrderIsDayOrder(end, t);
      DaysSpill(expires.year, expires.month, expires.day, end.day);
    }
  }

  /**
    `Date::parse` accepts days a month does not have. The horizon check tolerates exactly the
    first of them: 30 February of an ordinary year is already reported a day too late.
  */
  lemma HorizonToleratesOneDay(expires: Date)
    requires InRange(Wide(expires))
    ensures (forall today: Date, n: u32 | Real(Wide(today)) && Days(today) + n <= LAST_DAY ::
               HorizonHolds(expires, today, n))
            <==> expires.day <= DaysInMonth(expires.year, expires.month) + 1
  {
    if expires.day <= DaysInMonth(expires.year, expires.month) + 1 {
      forall today: Date, n: u32 | Real(Wide(today)) && Days(today) + n <= LAST_DAY
        ensures HorizonHolds(expires, today, n)
      {
        HorizonOfDates(expires, today, n);
      }
    } else {
      HorizonReportsLate(expires);
    }
  }

  lemma HorizonReportsLate(expires: Date)
    requires InRange(Wide(expires)) && expires.day > DaysInMonth(expires.year, expires.month) + 1
    ensures expires.month < 12
    ensures var today := Date(expires.year, expires.month + 1, 1);
            Real(Wide(today)) && Days(today) <= LAST_DAY && !HorizonHolds(expires, today, 0)
  {
    var today := Date(expires.year, expires.month + 1, 1);
    var end := Civil(expires.year, expires.month, DaysInMonth(expires.year, expires.month));
    DaysOfNext(end);
    assert Next(end) == Wide(today);
    DaysSpill(expires.year, expires.month, expires.day, end.day);
    DateRoundTrip(today);
    assert Days(today) + 0 == Days(today);
    assert AddDays(today, 0) == today;
  }
}
