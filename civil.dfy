/** Proleptic-Gregorian day arithmetic of ECMAScript's Date object: the day
    numbering of MakeDay/MakeDate (section 21.4.1 of ECMA-262) and its
    inverse, which the host uses when it breaks an instant into civil fields. */
module Civil {
  import opened Prelude

  const MsPerSecond: int := 1000
  const MsPerMinute: int := 60000
  const MsPerHour: int := 3600000
  const MsPerDay: int := 86400000
  const MinutesPerDay: int := 1440

  datatype Date = Date(year: int, month: int, day: int)

  predicate IsLeapYear(y: int) {
    y % 4 == 0 && (y % 100 != 0 || y % 400 == 0)
  }

  function DaysInMonth(y: int, m: int): int
    requires 1 <= m <= 12
  {
    if m == 2 then (if IsLeapYear(y) then 29 else 28)
    else if m == 4 || m == 6 || m == 9 || m == 11 then 30
    else 31
  }

  /** A calendar date that exists: month 1..12 and a day within that month. */
  predicate ValidDate(dt: Date) {
    1 <= dt.month <= 12 && 1 <= dt.day <= DaysInMonth(dt.year, dt.month)
  }

  /** The year that starts on 1 March and contains month `m` of year `y`:
      January and February belong to the previous one, so that the leap day
      is the last day of a year. */
  function MarchYear(y: int, m: int): int {
    if m <= 2 then y - 1 else y
  }

  /** Number of days from 1970-01-01 to the given date. The Gregorian
      calendar repeats every 400 years, which are 146097 days; the count is
      taken within the 400-year era that starts on 1 March of year 0 and
      shifted by whole eras. */
  function DaysFromCivil(y: int, m: int, d: int): int
    requires 1 <= m <= 12
    decreases if MarchYear(y, m) < 0 then 400 - MarchYear(y, m) else MarchYear(y, m)
  {
    var y' := MarchYear(y, m);
    if y' < 0 then DaysFromCivil(y + 400, m, d) - 146097
    else if y' >= 400 then DaysFromCivil(y - 400, m, d) + 146097
    else EraYearStart(y') + YearDayOfMonthDay(m, d) - 719468
  }

  /** The day count in closed form: whole eras, the start of the year within
      its era, and the day within that year. */
  lemma {:induction false} DaysFromCivilEras(y: int, m: int, d: int)
    requires 1 <= m <= 12
    ensures var y' := MarchYear(y, m);
            DaysFromCivil(y, m, d) == 146097 * (y' / 400) + EraYearStart(y' % 400) + YearDayOfMonthDay(m, d) - 719468
    decreases if MarchYear(y, m) < 0 then 400 - MarchYear(y, m) else MarchYear(y, m)
  {
    var y' := MarchYear(y, m);
    if y' < 0 {
      assert MarchYear(y + 400, m) == y' + 400;
      assert DaysFromCivil(y, m, d) == DaysFromCivil(y + 400, m, d) - 146097;
      DaysFromCivilEras(y + 400, m, d);
      EraShift(y');
    } else if y' >= 400 {
      assert MarchYear(y - 400, m) == y' - 400;
      assert DaysFromCivil(y, m, d) == DaysFromCivil(y - 400, m, d) + 146097;
      DaysFromCivilEras(y - 400, m, d);
      EraShift(y' - 400);
    } else {
      assert y' / 400 == 0 && y' % 400 == y';
    }
  }

  lemma EraShift(k: int)
    ensures (k + 400) / 400 == k / 400 + 1 && (k + 400) % 400 == k % 400
  { }

  /** Length of the month `mp` counted from March (0 = March, 11 = February). */
  function MarchMonthLength(mp: int, leap: bool): int
    requires 0 <= mp <= 11
  {
    if mp == 11 then (if leap then 29 else 28)
    else if mp == 1 || mp == 3 || mp == 6 || mp == 8 then 30
    else 31
  }

  /** Day of the March-based year on which day `d` of month `m` falls. */
  function YearDayOfMonthDay(m: int, d: int): int
    requires 1 <= m <= 12
  {
    (153 * ((m + 9) % 12) + 2) / 5 + d - 1
  }

  /** Month and day of month of a day of the March-based year. */
  function MonthDayOfYearDay(doy: int): (int, int) {
    var mp := (5 * doy + 2) / 153;
    (if mp < 10 then mp + 3 else mp - 9, doy - (153 * mp + 2) / 5 + 1)
  }

  lemma MonthDayOfYearDayCorrect(doy: int, leap: bool)
    requires 0 <= doy <= (if leap then 365 else 364)
    ensures var (m, d) := MonthDayOfYearDay(doy);
            1 <= m <= 12 && 1 <= d <= MarchMonthLength((m + 9) % 12, leap)
            && YearDayOfMonthDay(m, d) == doy
  {
    var mp := (5 * doy + 2) / 153;
    assert 0 <= mp <= 11;
    var m := if mp < 10 then mp + 3 else mp - 9;
    assert (m + 9) % 12 == mp;
  }

  lemma YearDayOfMonthDayInverse(m: int, d: int, leap: bool, doy: int)
    requires 1 <= m <= 12 && 1 <= d <= MarchMonthLength((m + 9) % 12, leap)
    requires doy == YearDayOfMonthDay(m, d)
    ensures 0 <= doy <= (if leap then 365 else 364) && MonthDayOfYearDay(doy) == (m, d)
  {
    var mp := (m + 9) % 12;
    assert mp == (if m <= 2 then m + 9 else m - 3);
    assert (if mp < 10 then mp + 3 else mp - 9) == m;
    MarchMonthOfYearDay(mp, d, leap, doy);
    assert doy - (153 * mp + 2) / 5 + 1 == d;
  }

  /** The month of the March-based year is recovered from a day within it. */
  lemma MarchMonthOfYearDay(mp: int, d: int, leap: bool, doy: int)
    requires 0 <= mp <= 11 && 1 <= d <= MarchMonthLength(mp, leap)
    requires doy == (153 * mp + 2) / 5 + d - 1
    ensures 0 <= doy <= (if leap then 365 else 364) && (5 * doy + 2) / 153 == mp
  {
    if mp == 0 { } else if mp == 1 { } else if mp == 2 { } else if mp == 3 { }
    else if mp == 4 { } else if mp == 5 { } else if mp == 6 { } else if mp == 7 { }
    else if mp == 8 { } else if mp == 9 { } else if mp == 10 { } else { }
  }

  /** Whether the March-based year `yoe` of an era ends with a leap day, that
      is whether the following calendar year is a leap year. */
  predicate EraYearIsLeap(yoe: int) {
    (yoe + 1) % 4 == 0 && ((yoe + 1) % 100 != 0 || (yoe + 1) % 400 == 0)
  }

  /** First day, within its era, of the March-based year `yoe`. */
  function EraYearStart(yoe: int): int {
    365 * yoe + yoe / 4 - yoe / 100
  }

  /** Splits a day of an era into a year of the era and a day of that year. */
  function EraYearOfDay(doe: int): (int, int) {
    var c := Min(doe / 36524, 3);
    var rc := doe - 36524 * c;
    var s := rc / 1461;
    var rs := rc % 1461;
    var t := Min(rs / 365, 3);
    (100 * c + 4 * s + t, rs - 365 * t)
  }

  lemma EraYearOfDayCorrect(doe: int)
    requires 0 <= doe < 146097
    ensures var (yoe, doy) := EraYearOfDay(doe);
            0 <= yoe < 400 && 0 <= doy <= (if EraYearIsLeap(yoe) then 365 else 364)
            && EraYearStart(yoe) + doy == doe
  {
    var c := Min(doe / 36524, 3);
    var rc := doe - 36524 * c;
    var s := rc / 1461;
    var rs := rc % 1461;
    var t := Min(rs / 365, 3);
    EraYearDivisions(doe, c, rc, s, rs, t);
    EraYearAlgebra(c, s, t, rs - 365 * t);
    assert EraYearOfDay(doe) == (100 * c + 4 * s + t, rs - 365 * t);
  }

  /** Bounds on the quotients and remainders EraYearOfDay computes. */
  lemma EraYearDivisions(doe: int, c: int, rc: int, s: int, rs: int, t: int)
    requires 0 <= doe < 146097
    requires c == Min(doe / 36524, 3) && rc == doe - 36524 * c
    requires s == rc / 1461 && rs == rc % 1461 && t == Min(rs / 365, 3)
    ensures 0 <= c <= 3 && 0 <= rc <= 36524 && (rc == 36524 ==> c == 3)
    ensures 0 <= s <= 24 && 0 <= rs < 1461 && rc == 1461 * s + rs
    ensures 0 <= t <= 3 && 0 <= rs - 365 * t <= 365 && (rs - 365 * t == 365 ==> t == 3)
    ensures s == 24 && rs == 1460 ==> c == 3
  { }

  /** The year of the era assembled from the centuries, four-year blocks
      and years found by EraYearOfDay, and the day it starts on. */
  lemma EraYearAlgebra(c: int, s: int, t: int, doy: int)
    requires 0 <= c <= 3 && 0 <= s <= 24 && 0 <= t <= 3 && 0 <= doy <= 365
    requires doy == 365 ==> t == 3
    requires s == 24 && t == 3 && doy == 365 ==> c == 3
    ensures var yoe := 100 * c + 4 * s + t;
            0 <= yoe < 400 && doy <= (if EraYearIsLeap(yoe) then 365 else 364)
            && EraYearStart(yoe) + doy == 36524 * c + 1461 * s + 365 * t + doy
  {
    var yoe := 100 * c + 4 * s + t;
    assert yoe / 4 == 25 * c + s;
    assert yoe / 100 == c;
    if doy == 365 {
      assert yoe + 1 == 4 * (25 * c + s + 1);
      Rem4(25 * c + s + 1, 0);
      if s == 24 {
        assert yoe + 1 == 400;
      } else {
        assert yoe + 1 == 100 * c + (4 * s + 4) && 4 * s + 4 < 100;
        Rem100(c, 4 * s + 4);
      }
    }
  }

  lemma EraYearOfDayInverse(yoe: int, doy: int, doe: int)
    requires 0 <= yoe < 400 && 0 <= doy <= (if EraYearIsLeap(yoe) then 365 else 364)
    requires doe == EraYearStart(yoe) + doy
    ensures 0 <= doe < 146097
    ensures EraYearOfDay(doe) == (yoe, doy)
  {
    var c, s, t := EraYearParts(yoe, doy, doe);
    EraYearSplit(doe, c, 1461 * s + 365 * t + doy, s, 365 * t + doy, t, doy);
  }

  /** The day `doy` of year `yoe` as the digits `EraYearOfDay` computes. */
  lemma EraYearParts(yoe: int, doy: int, doe: int) returns (c: int, s: int, t: int)
    requires 0 <= yoe < 400 && 0 <= doy <= (if EraYearIsLeap(yoe) then 365 else 364)
    requires doe == EraYearStart(yoe) + doy
    ensures yoe == 100 * c + 4 * s + t && 0 <= doe < 146097
    ensures 0 <= c <= 3 && 0 <= s < 25 && 0 <= t <= 3
    ensures doe == 36524 * c + (1461 * s + 365 * t + doy)
    ensures 0 <= 1461 * s + 365 * t + doy <= 36524
    ensures 1461 * s + 365 * t + doy == 36524 ==> c == 3
    ensures 365 * t + doy < 1461 && (doy >= 365 ==> t == 3)
  {
    c, s, t := EraYearDigits(yoe);
    if doy == 365 {
      LastDayOfLeapYear(yoe, c, s, t);
    }
  }

  /** `yoe` as centuries, four-year cycles and years, and the day its
      year starts on. */
  lemma EraYearDigits(yoe: int) returns (c: int, s: int, t: int)
    requires 0 <= yoe < 400
    ensures yoe == 100 * c + 4 * s + t
    ensures 0 <= c < 4 && 0 <= s < 25 && 0 <= t < 4
    ensures EraYearStart(yoe) == 36524 * c + 1461 * s + 365 * t
  {
    c := yoe / 100;
    var r := yoe % 100;
    assert yoe == 100 * c + r && 0 <= r < 100 && 0 <= c < 4;
    s := r / 4;
    t := r % 4;
    assert r == 4 * s + t && 0 <= s < 25 && 0 <= t < 4;
    assert yoe == 4 * (25 * c + s) + t;
    assert yoe / 4 == 25 * c + s;
    assert yoe / 100 == c;
  }

  /** Only the last year of a four-year cycle has a 366th day, and the last
      cycle of a century only in the last century of the era. */
  lemma LastDayOfLeapYear(yoe: int, c: int, s: int, t: int)
    requires yoe == 100 * c + 4 * s + t
    requires 0 <= c < 4 && 0 <= s < 25 && 0 <= t < 4
    requires EraYearIsLeap(yoe)
    ensures t == 3 && (s == 24 ==> c == 3)
  {
    assert (yoe + 1) % 4 == 0 && yoe + 1 == 4 * (25 * c + s) + (t + 1);
    assert t == 3;
    if s == 24 {
      assert yoe + 1 == 100 * (c + 1);
      assert (yoe + 1) % 100 == 0;
    }
  }

  lemma EraYearSplit(doe: int, c: int, rc: int, s: int, rs: int, t: int, doy: int)
    requires 0 <= c <= 3 && 0 <= rc <= 36524 && (rc == 36524 ==> c == 3) && doe == 36524 * c + rc
    requires 0 <= s && 0 <= rs < 1461 && rc == 1461 * s + rs
    requires 0 <= t <= 3 && 0 <= doy && rs == 365 * t + doy && (doy >= 365 ==> t == 3)
    ensures EraYearOfDay(doe) == (100 * c + 4 * s + t, doy)
  {
    assert Min(doe / 36524, 3) == c;
    assert rc / 1461 == s && rc % 1461 == rs;
    assert Min(rs / 365, 3) == t;
  }

  /** The civil date of a day number counted from 1970-01-01: the inverse of
      DaysFromCivil, as the host computes it when formatting an instant. The
      day is placed in the era that starts on 1 March of year 0 and shifted
      by whole eras of 146097 days, which are 400 years. */
  function CivilFromDays(z: int): Date
    decreases EraDistance(z)
  {
    var k := z + 719468;
    if k < 0 then ShiftYears(CivilFromDays(z + 146097), -400)
    else if k >= 146097 then ShiftYears(CivilFromDays(z - 146097), 400)
    else EraDate(k)
  }

  /** The same month and day `n` years later. */
  function ShiftYears(dt: Date, n: int): Date {
    dt.(year := dt.year + n)
  }

  /** The date of day `doe` of the era that starts on 1 March of year 0. */
  function EraDate(doe: int): Date {
    var (yoe, doy) := EraYearOfDay(doe);
    var (m, d) := MonthDayOfYearDay(doy);
    Date(yoe + (if m <= 2 then 1 else 0), m, d)
  }

  /** The date of day `doe` of era `era` (eras start on 1 March of a year
      divisible by 400). */
  function DateOfEraDay(era: int, doe: int): Date {
    ShiftYears(EraDate(doe), 400 * era)
  }

  /** How far day number `z` lies outside the era that starts on 1 March of
      year 0, which bounds the recursion of CivilFromDays. */
  function EraDistance(z: int): nat {
    if z + 719468 < 0 then 146097 - (z + 719468) else z + 719468
  }

  /** The date of a day number in closed form: the era it falls in and the
      day within that era. */
  lemma CivilFromDaysEras(z: int)
    ensures CivilFromDays(z) == DateOfEraDay((z + 719468) / 146097, (z + 719468) % 146097)
    decreases EraDistance(z), 1
  {
    var k := z + 719468;
    if k < 0 {
      CivilFromDaysEraBack(z);
    } else if k >= 146097 {
      CivilFromDaysEraOn(z);
    } else {
      EraDaySplit(z, 0, k);
    }
  }

  /** Before the first era, the date of a day number is 400 years before the
      date one era later. */
  lemma CivilFromDaysEraBack(z: int)
    requires z + 719468 < 0
    ensures var k := z + 719468;
            CivilFromDays(z) == DateOfEraDay(k / 146097, k % 146097)
    decreases EraDistance(z), 0
  {
    CivilFromDaysEras(z + 146097);
    EraDayShift(z + 719468);
  }

  /** After the first era, the date of a day number is 400 years after the
      date one era earlier. */
  lemma CivilFromDaysEraOn(z: int)
    requires z + 719468 >= 146097
    ensures var k := z + 719468;
            CivilFromDays(z) == DateOfEraDay(k / 146097, k % 146097)
    decreases EraDistance(z), 0
  {
    CivilFromDaysEras(z - 146097);
    EraDayShift(z - 146097 + 719468);
  }

  lemma EraDayShift(k: int)
    ensures (k + 146097) / 146097 == k / 146097 + 1 && (k + 146097) % 146097 == k % 146097
  { }

  lemma EraLeapIsCalendarLeap(era: int, yoe: int)
    ensures EraYearIsLeap(yoe) == IsLeapYear(400 * era + yoe + 1)
  {
    var k := yoe + 1;
    Rem4(100 * era, k);
    Rem100(4 * era, k);
    Rem400(era, k);
  }

  lemma Rem4(q: int, k: int)
    ensures (4 * q + k) % 4 == k % 4
  { }

  lemma Rem100(q: int, k: int)
    ensures (100 * q + k) % 100 == k % 100
  { }

  lemma Rem400(q: int, k: int)
    ensures (400 * q + k) % 400 == k % 400
  { }

  /** The length of month `m` of calendar year `y`, seen from the March-based
      year that contains it. */
  lemma MonthLengthInEraYear(y: int, m: int)
    requires 1 <= m <= 12
    ensures var y' := if m <= 2 then y - 1 else y;
            DaysInMonth(y, m) == MarchMonthLength((m + 9) % 12, EraYearIsLeap(y' % 400))
  {
    var y' := if m <= 2 then y - 1 else y;
    EraLeapIsCalendarLeap(y' / 400, y' % 400);
  }

  lemma EraSplit(era: int, yoe: int)
    requires 0 <= yoe < 400
    ensures (400 * era + yoe) / 400 == era && (400 * era + yoe) % 400 == yoe
  {
  }

  /** The day count of a date in year `yoe` of era `era`, split into the
      era, the year of the era and the day of the year. */
  lemma DaysFromCivilInEra(era: int, yoe: int, m: int, d: int)
    requires 0 <= yoe < 400 && 1 <= m <= 12
    ensures DaysFromCivil(400 * era + yoe + (if m <= 2 then 1 else 0), m, d)
            == 146097 * era + EraYearStart(yoe) + YearDayOfMonthDay(m, d) - 719468
  {
    EraSplit(era, yoe);
    DaysFromCivilEras(400 * era + yoe + (if m <= 2 then 1 else 0), m, d);
  }

  lemma DateOfEraDayCorrect(era: int, doe: int)
    requires 0 <= doe < 146097
    ensures var dt := DateOfEraDay(era, doe);
            ValidDate(dt) && DaysFromCivil(dt.year, dt.month, dt.day) == 146097 * era + doe - 719468
  {
    var yoe, doy, m, d := EraDateParts(era, doe);
    var y := 400 * era + yoe + (if m <= 2 then 1 else 0);
    DateInEraYear(era, yoe, doy, m, d);
    assert DateOfEraDay(era, doe) == Date(y, m, d);
    assert DaysFromCivil(y, m, d) == 146097 * era + doe - 719468;
  }

  /** The year of the era, day of the year, month and day that DateOfEraDay
      finds, with the bounds they satisfy. */
  lemma EraDateParts(era: int, doe: int) returns (yoe: int, doy: int, m: int, d: int)
    requires 0 <= doe < 146097
    ensures 0 <= yoe < 400 && 1 <= m <= 12 && 1 <= d <= MarchMonthLength((m + 9) % 12, EraYearIsLeap(yoe))
    ensures YearDayOfMonthDay(m, d) == doy && EraYearStart(yoe) + doy == doe
    ensures DateOfEraDay(era, doe) == Date(400 * era + yoe + (if m <= 2 then 1 else 0), m, d)
  {
    EraYearOfDayCorrect(doe);
    yoe, doy := EraYearOfDay(doe).0, EraYearOfDay(doe).1;
    MonthDayOfYearDayCorrect(doy, EraYearIsLeap(yoe));
    m, d := MonthDayOfYearDay(doy).0, MonthDayOfYearDay(doy).1;
  }

  /** Day `d` of month `m` on day `doy` of year `yoe` of era `era` is an
      existing date with the expected day count. */
  lemma DateInEraYear(era: int, yoe: int, doy: int, m: int, d: int)
    requires 0 <= yoe < 400 && 1 <= m <= 12
    requires 1 <= d <= MarchMonthLength((m + 9) % 12, EraYearIsLeap(yoe))
    requires YearDayOfMonthDay(m, d) == doy
    ensures var y := 400 * era + yoe + (if m <= 2 then 1 else 0);
            ValidDate(Date(y, m, d)) && DaysFromCivil(y, m, d) == 146097 * era + EraYearStart(yoe) + doy - 719468
  {
    var y := 400 * era + yoe + (if m <= 2 then 1 else 0);
    DaysFromCivilInEra(era, yoe, m, d);
    EraSplit(era, yoe);
    MonthLengthInEraYear(y, m);
  }

  lemma DateOfEraDayInverse(dt: Date, era: int, doe: int)
    requires ValidDate(dt)
    requires var y' := if dt.month <= 2 then dt.year - 1 else dt.year;
             era == y' / 400 && doe == EraYearStart(y' % 400) + YearDayOfMonthDay(dt.month, dt.day)
    ensures 0 <= doe < 146097 && DateOfEraDay(era, doe) == dt
  {
    var y' := if dt.month <= 2 then dt.year - 1 else dt.year;
    var yoe := y' % 400;
    var leap := EraYearIsLeap(yoe);
    MonthLengthInEraYear(dt.year, dt.month);
    var doy := YearDayOfMonthDay(dt.month, dt.day);
    YearDayOfMonthDayInverse(dt.month, dt.day, leap, doy);
    EraYearOfDayInverse(yoe, doy, doe);
    assert EraDate(doe) == Date(yoe + (if dt.month <= 2 then 1 else 0), dt.month, dt.day);
    assert y' == 400 * era + yoe;
  }

  /** Every day number names an existing calendar date. */
  lemma CivilFromDaysValid(z: int)
    ensures ValidDate(CivilFromDays(z))
  {
    CivilFromDaysEras(z);
    DateOfEraDayCorrect((z + 719468) / 146097, (z + 719468) % 146097);
  }

  /** Breaking a day number into a date and counting it back gives the same
      day number. */
  lemma DaysFromCivilOfCivil(z: int)
    ensures var dt := CivilFromDays(z);
            1 <= dt.month <= 12 && DaysFromCivil(dt.year, dt.month, dt.day) == z
  {
    CivilFromDaysEras(z);
    DateOfEraDayCorrect((z + 719468) / 146097, (z + 719468) % 146097);
  }

  /** Counting an existing date and breaking the count back into a date gives
      the same date. */
  lemma CivilOfDaysFromCivil(dt: Date)
    requires ValidDate(dt)
    ensures CivilFromDays(DaysFromCivil(dt.year, dt.month, dt.day)) == dt
  {
    var y' := if dt.month <= 2 then dt.year - 1 else dt.year;
    var era, doe := y' / 400, EraYearStart(y' % 400) + YearDayOfMonthDay(dt.month, dt.day);
    var z := DaysFromCivil(dt.year, dt.month, dt.day);
    DaysFromCivilEras(dt.year, dt.month, dt.day);
    DateOfEraDayInverse(dt, era, doe);
    CivilFromDaysOfEra(z, era, doe);
  }

  /** Day number `z` is day `doe` of era `era`. */
  lemma CivilFromDaysOfEra(z: int, era: int, doe: int)
    requires 0 <= doe < 146097 && z + 719468 == 146097 * era + doe
    ensures CivilFromDays(z) == DateOfEraDay(era, doe)
  {
    CivilFromDaysEras(z);
    EraDaySplit(z, era, doe);
  }

  lemma EraDaySplit(z: int, era: int, doe: int)
    requires 0 <= doe < 146097 && z + 719468 == 146097 * era + doe
    ensures (z + 719468) / 146097 == era && (z + 719468) % 146097 == doe
  { }

  /** Civil fields of an instant, as the host's formatter reports them:
      year, month 1..12, day 1..31, hour 0..23, minute 0..59, second 0..59. */
  datatype DateTime = DateTime(year: int, month: int, day: int, hour: int, minute: int, second: int)

  /** ECMAScript MakeDay: the day number of date `date` of month `month`
      (0-based, any integer) of `year`; months beyond 11 and days beyond the
      month's length roll over into the following year or month. */
  function MakeDay(year: int, month: int, date: int): int {
    DaysFromCivil(year + month / 12, month % 12 + 1, 1) + date - 1
  }

  /** Date.UTC reads a year 0..99 as 1900..1999. */
  function MakeFullYear(y: int): int {
    if 0 <= y <= 99 then 1900 + y else y
  }

  /** `Date.UTC(y, mon, d, h, mi, s, ms)` on integer arguments. */
  function DateUtc(y: int, mon: int, d: int, h: int, mi: int, s: int, ms: int): int {
    MakeDay(MakeFullYear(y), mon, d) * MsPerDay + h * MsPerHour + mi * MsPerMinute + s * MsPerSecond + ms
  }

  /** The UTC civil fields of time value `t` (milliseconds from the epoch),
      milliseconds dropped. */
  function DateTimeOfTime(t: int): DateTime {
    var dt := CivilFromDays(t / MsPerDay);
    var msInDay := t % MsPerDay;
    DateTime(dt.year, dt.month, dt.day, msInDay / MsPerHour, (msInDay / MsPerMinute) % 60,
             (msInDay / MsPerSecond) % 60)
  }

  /** A set of civil fields that names one existing wall-clock time. */
  predicate ValidDateTime(p: DateTime) {
    ValidDate(Date(p.year, p.month, p.day)) && 0 <= p.hour < 24 && 0 <= p.minute < 60 && 0 <= p.second < 60
  }

  /** For an existing date, MakeDay agrees with the day count of the date. */
  lemma MakeDayOfDate(y: int, m: int, d: int)
    requires 1 <= m <= 12
    ensures MakeDay(y, m - 1, d) == DaysFromCivil(y, m, d)
  {
    DaysFromCivilEras(y, m, 1);
    DaysFromCivilEras(y, m, d);
  }

  /** The fields of a time value are an existing wall-clock time. */
  lemma DateTimeOfTimeValid(t: int)
    ensures ValidDateTime(DateTimeOfTime(t))
  {
    CivilFromDaysValid(t / MsPerDay);
  }

  lemma TimeOfDaySplit(ms: int)
    requires 0 <= ms < MsPerDay
    ensures var h, mi, sec := ms / MsPerHour, (ms / MsPerMinute) % 60, (ms / MsPerSecond) % 60;
            h * MsPerHour + mi * MsPerMinute + sec * MsPerSecond == ms - ms % MsPerSecond
  {
    var seconds := ms / 1000;
    assert ms == 1000 * seconds + ms % 1000;
    var minutes := seconds / 60;
    assert seconds == 60 * minutes + seconds % 60;
    assert ms == 60000 * minutes + (1000 * (seconds % 60) + ms % 1000);
    assert ms / 60000 == minutes;
    var hours := minutes / 60;
    assert minutes == 60 * hours + minutes % 60;
    assert ms == 3600000 * hours + (60000 * (minutes % 60) + 1000 * (seconds % 60) + ms % 1000);
    assert ms / 3600000 == hours;
  }

  lemma TimeOfDayJoin(h: int, mi: int, sec: int)
    requires 0 <= h < 24 && 0 <= mi < 60 && 0 <= sec < 60
    ensures var ms := h * MsPerHour + mi * MsPerMinute + sec * MsPerSecond;
            0 <= ms < MsPerDay && ms / MsPerHour == h && (ms / MsPerMinute) % 60 == mi
            && (ms / MsPerSecond) % 60 == sec
  {
    var minutes := 60 * h + mi;
    var seconds := 60 * minutes + sec;
    var ms := h * MsPerHour + mi * MsPerMinute + sec * MsPerSecond;
    assert ms == 1000 * seconds;
    assert ms / 1000 == seconds;
    assert seconds % 60 == sec;
    assert ms == 60000 * minutes + 1000 * sec && 1000 * sec < 60000;
    assert ms / 60000 == minutes;
    assert minutes % 60 == mi;
    assert ms == 3600000 * h + (60000 * mi + 1000 * sec) && 60000 * mi + 1000 * sec < 3600000;
    assert ms / 3600000 == h;
  }

  /** Feeding the fields of a time value back to Date.UTC gives the time
      value truncated to the second, provided Date.UTC does not reinterpret
      the year (years 0..99). */
  lemma DateUtcOfDateTime(t: int)
    requires !(0 <= DateTimeOfTime(t).year <= 99)
    ensures var p := DateTimeOfTime(t);
            DateUtc(p.year, p.month - 1, p.day, p.hour, p.minute, p.second, 0) == t - t % MsPerSecond
  {
    var p := DateTimeOfTime(t);
    DaysFromCivilOfCivil(t / MsPerDay);
    MakeDayOfDate(p.year, p.month, p.day);
    TimeOfDaySplit(t % MsPerDay);
    assert MakeDay(MakeFullYear(p.year), p.month - 1, p.day) == t / MsPerDay;
    SecondsOfDayTime(t);
  }

  lemma SecondsOfDayTime(t: int)
    ensures t % MsPerSecond == (t % MsPerDay) % MsPerSecond
  {
    var q, r := 86400 * (t / 86400000), t % 86400000;
    assert t == 1000 * q + r;
    SecondRemainder(q, r);
  }

  lemma SecondRemainder(q: int, r: int)
    ensures (1000 * q + r) % 1000 == r % 1000
  {
  }

  /** Date.UTC of an existing wall-clock time, broken back into fields, gives
      that wall-clock time. */
  lemma DateTimeOfDateUtc(p: DateTime)
    requires ValidDateTime(p) && !(0 <= p.year <= 99)
    ensures DateTimeOfTime(DateUtc(p.year, p.month - 1, p.day, p.hour, p.minute, p.second, 0)) == p
  {
    var z := DaysFromCivil(p.year, p.month, p.day);
    var ms := p.hour * MsPerHour + p.minute * MsPerMinute + p.second * MsPerSecond;
    var t := z * MsPerDay + ms;
    assert DateUtc(p.year, p.month - 1, p.day, p.hour, p.minute, p.second, 0) == t by {
      MakeDayOfDate(p.year, p.month, p.day);
    }
    TimeOfDayJoin(p.hour, p.minute, p.second);
    assert t / MsPerDay == z && t % MsPerDay == ms by {
      DayAndTime(z, ms);
    }
    assert CivilFromDays(z) == Date(p.year, p.month, p.day) by {
      CivilOfDaysFromCivil(Date(p.year, p.month, p.day));
    }
  }

  lemma DayAndTime(z: int, ms: int)
    requires 0 <= ms < MsPerDay
    ensures (z * MsPerDay + ms) / MsPerDay == z && (z * MsPerDay + ms) % MsPerDay == ms
  {
  }

  /** Date.UTC is linear in the day of the month and in the hour: a day
      past the month's end is a day of the next month, hour 24 is the next
      day's midnight. */
  lemma DateUtcRollsOver(y: int, mon: int, d: int, h: int, mi: int)
    ensures DateUtc(y, mon, d, h + 24, mi, 0, 0) == DateUtc(y, mon, d + 1, h, mi, 0, 0)
    ensures DateUtc(y, mon, d + 7, h, mi, 0, 0) == DateUtc(y, mon, d, h, mi, 0, 0) + 7 * MsPerDay
  {
  }

  lemma TimeOfDayMinutes(ms: int)
    requires 0 <= ms < MsPerDay
    ensures (ms / MsPerHour) * MsPerHour + ((ms / MsPerMinute) % 60) * MsPerMinute == ms - ms % MsPerMinute
  {
  }

  lemma MinuteRemainder(q: int, r: int)
    ensures (60000 * q + r) % 60000 == r % 60000
  {
  }

  lemma MinutesOfDayTime(t: int)
    ensures t % MsPerMinute == (t % MsPerDay) % MsPerMinute
  {
    var q, r := 1440 * (t / 86400000), t % 86400000;
    assert t == 60000 * q + r;
    MinuteRemainder(q, r);
  }

  /** Feeding the fields of a time value, seconds dropped, back to Date.UTC
      gives the time value truncated to the minute, provided Date.UTC does not
      reinterpret the year (years 0..99). */
  lemma DateUtcOfDateTimeMinutes(t: int)
    requires !(0 <= DateTimeOfTime(t).year <= 99)
    ensures var p := DateTimeOfTime(t);
            DateUtc(p.year, p.month - 1, p.day, p.hour, p.minute, 0, 0) == t - t % MsPerMinute
  {
    var p := DateTimeOfTime(t);
    DaysFromCivilOfCivil(t / MsPerDay);
    MakeDayOfDate(p.year, p.month, p.day);
    TimeOfDayMinutes(t % MsPerDay);
    assert MakeDay(MakeFullYear(p.year), p.month - 1, p.day) == t / MsPerDay;
    MinutesOfDayTime(t);
  }

  /** Two time values in the same minute have the same fields down to the
      minute. */
  lemma DateTimeOfSameMinute(t: int, t': int)
    requires t / MsPerMinute == t' / MsPerMinute
    ensures var p, p' := DateTimeOfTime(t), DateTimeOfTime(t');
            p.year == p'.year && p.month == p'.month && p.day == p'.day
            && p.hour == p'.hour && p.minute == p'.minute
  {
    var k := t / MsPerMinute;
    assert t / MsPerDay == k / MinutesPerDay && t' / MsPerDay == k / MinutesPerDay;
    assert (t % MsPerDay) / MsPerMinute == k % MinutesPerDay == (t' % MsPerDay) / MsPerMinute;
  }
}
