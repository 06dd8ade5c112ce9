/** Proleptic Gregorian calendar arithmetic in UTC on epoch milliseconds.

    Instants are integers counting milliseconds since 1970-01-01T00:00:00Z.
    Day numbers count days since 1970-01-01. They are converted to civil
    dates through the 400-year era of 146097 days, whose years start on
    March 1 so that the leap day is the last day of its year. Adding months
    or years follows the normalising date arithmetic of the time library
    the index resolver uses: the day of the month is kept and an overflow
    (January 31 plus one month) carries into the following month.

    The constants that enter arithmetic are written as literals so that
    the solver sees linear terms: 3600000 ms per hour, 86400000 ms per day,
    146097 days per era, and 719468 days from 0000-03-01 to 1970-01-01. */
module Calendar {

  datatype Date = Date(year: int, month: int, day: int)

  predicate IsLeapYear(y: int) {
    y % 4 == 0 && (y % 100 != 0 || y % 400 == 0)
  }

  function DaysInYear(y: int): int {
    if IsLeapYear(y) then 366 else 365
  }

  function DaysInMonth(y: int, m: int): (n: int)
    requires 1 <= m <= 12
    ensures 28 <= n <= 31
    ensures n == 29 <==> m == 2 && IsLeapYear(y)
  {
    if m == 2 then (if IsLeapYear(y) then 29 else 28)
    else if m == 4 || m == 6 || m == 9 || m == 11 then 30
    else 31
  }

  predicate ValidDate(d: Date) {
    1 <= d.month <= 12 && 1 <= d.day <= DaysInMonth(d.year, d.month)
  }

  // ---------------------------------------------------------------------
  // Quotient facts, one per divisor, so that each proof sees few of them.

  lemma QuotientStep4(n: int)
    ensures n / 4 == (n - 1) / 4 + (if n % 4 == 0 then 1 else 0)
  {
  }

  lemma QuotientStep100(n: int)
    ensures n / 100 == (n - 1) / 100 + (if n % 100 == 0 then 1 else 0)
  {
  }

  lemma QuotientStep400(n: int)
    ensures n / 400 == (n - 1) / 400 + (if n % 400 == 0 then 1 else 0)
  {
  }

  lemma ShiftMod4(y: int, era: int, n: int)
    requires 0 <= n < 400 && y == era * 400 + n
    ensures y % 4 == n % 4
  {
    assert y / 4 == 100 * era + n / 4;
  }

  lemma ShiftMod100(y: int, era: int, n: int)
    requires 0 <= n < 400 && y == era * 400 + n
    ensures y % 100 == n % 100
  {
    assert y / 100 == 4 * era + n / 100;
  }

  lemma DivMod400(y: int, era: int, n: int)
    requires 0 <= n < 400 && y == era * 400 + n
    ensures y / 400 == era && y % 400 == n
  {
  }

  /** Shifting a year by whole eras changes neither its place in the era nor its leapness. */
  lemma EraShift(y: int, era: int, n: int)
    requires 0 <= n < 400 && y == era * 400 + n
    ensures y / 400 == era && y % 400 == n
    ensures IsLeapYear(y) == IsLeapYear(n)
  {
    ShiftMod4(y, era, n);
    ShiftMod100(y, era, n);
    DivMod400(y, era, n);
  }

  lemma DivModEra(x: int, q: int, r: int)
    requires 0 <= r < 146097 && x == q * 146097 + r
    ensures x / 146097 == q && x % 146097 == r
  {
  }

  lemma DivModDay(t: int, q: int, r: int)
    requires 0 <= r < 86400000 && t == q * 86400000 + r
    ensures t / 86400000 == q && t % 86400000 == r
  {
  }

  // ---------------------------------------------------------------------
  // Inside one era: March-based years 0..399.

  /** Day of the era on which March-based year `yoe` starts. */
  function YearStartInEra(yoe: int): int
    requires 0 <= yoe <= 400
  {
    365 * yoe + yoe / 4 - yoe / 100 + yoe / 400
  }

  /** Length of March-based year `yoe`; its February lies in civil year yoe + 1. */
  function MarchYearLength(yoe: int): int {
    DaysInYear(yoe + 1)
  }

  lemma MarchYearLengthIsStep(yoe: int)
    requires 0 <= yoe < 400
    ensures YearStartInEra(yoe + 1) == YearStartInEra(yoe) + MarchYearLength(yoe)
  {
    QuotientStep4(yoe + 1);
    QuotientStep100(yoe + 1);
    QuotientStep400(yoe + 1);
  }

  /** Year starts strictly increase, so a day of the era lies in one year only. */
  lemma YearStartMonotone(a: int, b: int)
    requires 0 <= a < b <= 400
    ensures YearStartInEra(a) + MarchYearLength(a) <= YearStartInEra(b)
    decreases b - a
  {
    MarchYearLengthIsStep(a);
    if a + 1 < b {
      YearStartMonotone(a + 1, b);
    }
  }

  /** Century of the era (0..3) and the day within it; the last century is a day longer. */
  function CenturyOfEra(doe: int): (r: (int, int))
    requires 0 <= doe < 146097
    ensures 0 <= r.0 <= 3 && 0 <= r.1 < (if r.0 == 3 then 36525 else 36524)
    ensures doe == 36524 * r.0 + r.1
  {
    var c := if doe / 36524 < 3 then doe / 36524 else 3;
    (c, doe - 36524 * c)
  }

  /** Four-year block of a century (0..24) and the day within it. */
  function QuadOfCentury(r1: int): (r: (int, int))
    requires 0 <= r1 < 36525
    ensures 0 <= r.0 <= 24 && 0 <= r.1 < 1461
    ensures r.0 == 24 ==> r.1 <= r1 - 35064
    ensures r1 == 1461 * r.0 + r.1
  {
    (r1 / 1461, r1 % 1461)
  }

  /** Year of a four-year block (0..3) and the day within it. */
  function YearOfQuad(r2: int): (r: (int, int))
    requires 0 <= r2 < 1461
    ensures 0 <= r.0 <= 3 && 0 <= r.1 < 366
    ensures r.1 == 365 ==> r.0 == 3 && r2 == 1460
    ensures r2 == 365 * r.0 + r.1
  {
    var y := if r2 / 365 < 3 then r2 / 365 else 3;
    (y, r2 - 365 * y)
  }

  lemma YearStartOfParts(c: int, q: int, y: int)
    requires 0 <= c <= 3 && 0 <= q <= 24 && 0 <= y <= 3
    ensures YearStartInEra(100 * c + 4 * q + y) == 36524 * c + 1461 * q + 365 * y
  {
    var yoe := 100 * c + 4 * q + y;
    assert yoe / 4 == 25 * c + q;
    assert yoe / 100 == c;
    assert yoe / 400 == 0;
  }

  lemma LeapOfParts(c: int, q: int)
    requires 0 <= c <= 3 && 0 <= q <= 24
    ensures IsLeapYear(100 * c + 4 * q + 4) == (q < 24 || c == 3)
  {
    var n := 100 * c + 4 * q + 4;
    assert n / 4 == 25 * c + q + 1;
    if q < 24 {
      assert n / 100 == c;
    } else {
      assert n == 100 * (c + 1);
    }
  }

  /** Splits a day of the era into its March-based year and the day within that year. */
  function SplitEra(doe: int): (r: (int, int))
    requires 0 <= doe < 146097
    ensures 0 <= r.0 < 400 && 0 <= r.1 < MarchYearLength(r.0)
    ensures YearStartInEra(r.0) + r.1 == doe
  {
    var (c, r1) := CenturyOfEra(doe);
    var (q, r2) := QuadOfCentury(r1);
    var (y, doy) := YearOfQuad(r2);
    YearStartOfParts(c, q, y);
    LeapOfParts(c, q);
    (100 * c + 4 * q + y, doy)
  }

  /** Two splittings of the same day of the era coincide. */
  lemma SplitUnique(a: int, da: int, b: int, db: int)
    requires 0 <= a < 400 && 0 <= da < MarchYearLength(a)
    requires 0 <= b < 400 && 0 <= db < MarchYearLength(b)
    requires YearStartInEra(a) + da == YearStartInEra(b) + db
    ensures a == b && da == db
  {
    if a < b {
      YearStartMonotone(a, b);
    } else if b < a {
      YearStartMonotone(b, a);
    }
  }

  lemma SplitEraUnique(yoe: int, doy: int)
    requires 0 <= yoe < 400 && 0 <= doy < MarchYearLength(yoe)
    ensures 0 <= YearStartInEra(yoe) + doy < 146097
    ensures SplitEra(YearStartInEra(yoe) + doy) == (yoe, doy)
  {
    YearStartMonotone(yoe, 400);
    var r := SplitEra(YearStartInEra(yoe) + doy);
    SplitUnique(r.0, r.1, yoe, doy);
  }

  // ---------------------------------------------------------------------
  // Months inside a March-based year: index 0 is March, 11 is February.

  function MarchMonthStart(mp: int): int
    requires 0 <= mp <= 12
  {
    (153 * mp + 2) / 5
  }

  function MarchMonthIndex(month: int): (mp: int)
    requires 1 <= month <= 12
    ensures 0 <= mp < 12
  {
    if month > 2 then month - 3 else month + 9
  }

  function CivilMonth(mp: int): (month: int)
    requires 0 <= mp < 12
    ensures 1 <= month <= 12 && MarchMonthIndex(month) == mp
  {
    if mp < 10 then mp + 3 else mp - 9
  }

  lemma MarchMonthLength(year: int, month: int)
    requires 1 <= month <= 12 && month != 2
    ensures MarchMonthStart(MarchMonthIndex(month) + 1) - MarchMonthStart(MarchMonthIndex(month))
            == DaysInMonth(year, month)
  {
  }

  /** The month (March-based) that a day of a March-based year falls in. */
  function MonthOfMarchDay(doy: int): (mp: int)
    requires 0 <= doy < 366
    ensures 0 <= mp < 12
    ensures MarchMonthStart(mp) <= doy < MarchMonthStart(mp + 1)
  {
    (5 * doy + 2) / 153
  }

  lemma MarchMonthRecovered(mp: int, doy: int)
    requires 0 <= mp < 12 && 0 <= doy < 366
    requires MarchMonthStart(mp) <= doy < MarchMonthStart(mp + 1)
    ensures MonthOfMarchDay(doy) == mp
  {
  }

  // ---------------------------------------------------------------------
  // Day numbers <-> civil dates.

  /** Days from 0000-03-01 to March 1 of March-based year `y`. */
  function MarchYearStart(y: int): int {
    365 * y + y / 4 - y / 100 + y / 400
  }

  lemma MarchYearStartAt(y: int, era: int, yoe: int)
    requires 0 <= yoe < 400 && y == era * 400 + yoe
    ensures MarchYearStart(y) == era * 146097 + YearStartInEra(yoe)
  {
    assert y / 4 == 100 * era + yoe / 4;
    assert y / 100 == 4 * era + yoe / 100;
    assert y / 400 == era;
  }

  lemma MarchYearStep(y: int)
    ensures MarchYearStart(y + 1) == MarchYearStart(y) + DaysInYear(y + 1)
  {
    var a, b, c := (y + 1) / 4 - y / 4, (y + 1) / 100 - y / 100, (y + 1) / 400 - y / 400;
    QuotientStep4(y + 1);
    QuotientStep100(y + 1);
    QuotientStep400(y + 1);
    assert DaysInYear(y + 1) == 365 + a - b + c;
    assert MarchYearStart(y + 1) == MarchYearStart(y) + 365 + a - b + c;
  }

  /** The March-based year a civil month belongs to. */
  function MarchYear(year: int, month: int): int {
    if month <= 2 then year - 1 else year
  }

  /** Days from 1970-01-01 to the given date. The day of the month may lie
      outside the month; it then counts on into the neighbouring months, as
      normalising date constructors do. */
  function DaysFromCivil(d: Date): int
    requires 1 <= d.month <= 12
  {
    MarchYearStart(MarchYear(d.year, d.month))
      + MarchMonthStart(MarchMonthIndex(d.month)) + d.day - 1 - 719468
  }

  /** The civil date of day `doy` (from 0) of March-based year `y`. */
  function CivilOfYearDay(y: int, doy: int): (d: Date)
    requires 0 <= doy < DaysInYear(y + 1)
    ensures ValidDate(d)
    ensures MarchYear(d.year, d.month) == y
    ensures MarchMonthStart(MarchMonthIndex(d.month)) + d.day - 1 == doy
  {
    var mp := MonthOfMarchDay(doy);
    var month := CivilMonth(mp);
    var day := doy - MarchMonthStart(mp) + 1;
    var year := y + (if month <= 2 then 1 else 0);
    assert day <= DaysInMonth(year, month) by {
      if month != 2 {
        MarchMonthLength(year, month);
      }
    }
    Date(year, month, day)
  }

  lemma MarchYearLengthAt(y: int, era: int, yoe: int)
    requires 0 <= yoe < 400 && y == era * 400 + yoe
    ensures DaysInYear(y + 1) == MarchYearLength(yoe)
  {
    if yoe < 399 {
      EraShift(y + 1, era, yoe + 1);
    } else {
      EraShift(y + 1, era + 1, 0);
    }
  }

  lemma EraDay(era: int, yoe: int)
    requires 0 <= yoe < 400
    ensures MarchYearStart(era * 400 + yoe) == era * 146097 + YearStartInEra(yoe)
    ensures DaysInYear(era * 400 + yoe + 1) == MarchYearLength(yoe)
  {
    MarchYearStartAt(era * 400 + yoe, era, yoe);
    MarchYearLengthAt(era * 400 + yoe, era, yoe);
  }

  /** The civil date of day `doe` of era `era`. */
  function CivilOfEraDay(era: int, doe: int): (d: Date)
    requires 0 <= doe < 146097
    ensures ValidDate(d)
  {
    var r := SplitEra(doe);
    EraDay(era, r.0);
    CivilOfYearDay(era * 400 + r.0, r.1)
  }

  lemma CivilOfEraDayDays(era: int, doe: int)
    requires 0 <= doe < 146097
    ensures DaysFromCivil(CivilOfEraDay(era, doe)) + 719468 == era * 146097 + doe
  {
    var r := SplitEra(doe);
    var y := era * 400 + r.0;
    EraDay(era, r.0);
    var d := CivilOfYearDay(y, r.1);
    assert CivilOfEraDay(era, doe) == d;
    assert MarchYear(d.year, d.month) == y;
    assert DaysFromCivil(d) == MarchYearStart(y) + r.1 - 719468;
  }

  /** The civil date of a day number. */
  function CivilFromDays(z: int): (d: Date)
    ensures ValidDate(d)
  {
    CivilOfEraDay((z + 719468) / 146097, (z + 719468) % 146097)
  }

  /** One direction of the round trip: a day number is recovered from its civil date. */
  lemma DaysFromCivilFromDays(z: int)
    ensures DaysFromCivil(CivilFromDays(z)) == z
  {
    CivilOfEraDayDays((z + 719468) / 146097, (z + 719468) % 146097);
  }

  lemma YearDayBound(d: Date)
    requires ValidDate(d)
    ensures var doy := MarchMonthStart(MarchMonthIndex(d.month)) + d.day - 1;
            0 <= doy < DaysInYear(MarchYear(d.year, d.month) + 1)
            && doy < MarchMonthStart(MarchMonthIndex(d.month) + 1)
  {
    if d.month != 2 {
      MarchMonthLength(d.year, d.month);
    }
  }

  lemma YearDayRecovered(d: Date)
    requires ValidDate(d)
    ensures var doy := MarchMonthStart(MarchMonthIndex(d.month)) + d.day - 1;
            0 <= doy < DaysInYear(MarchYear(d.year, d.month) + 1)
            && CivilOfYearDay(MarchYear(d.year, d.month), doy) == d
  {
    YearDayBound(d);
    MarchMonthRecovered(MarchMonthIndex(d.month), MarchMonthStart(MarchMonthIndex(d.month)) + d.day - 1);
  }

  lemma CivilFromDaysAt(z: int, era: int, doe: int)
    requires 0 <= doe < 146097 && z + 719468 == era * 146097 + doe
    ensures CivilFromDays(z) == CivilOfEraDay(era, doe)
  {
    var x := z + 719468;
    DivModEra(x, era, doe);
    var q, r := x / 146097, x % 146097;
    assert q == era && r == doe;
  }

  lemma CivilOfEraDayAt(era: int, yoe: int, doy: int)
    requires 0 <= yoe < 400 && 0 <= doy < MarchYearLength(yoe)
    ensures 0 <= YearStartInEra(yoe) + doy < 146097
    ensures DaysInYear(era * 400 + yoe + 1) == MarchYearLength(yoe)
    ensures CivilOfEraDay(era, YearStartInEra(yoe) + doy) == CivilOfYearDay(era * 400 + yoe, doy)
  {
    SplitEraUnique(yoe, doy);
    EraDay(era, yoe);
  }

  /** A day number given by era, March-based year and day is that day of that year. */
  lemma CivilFromEraDay(z: int, y: int, era: int, yoe: int, doy: int)
    requires 0 <= yoe < 400 && 0 <= doy < MarchYearLength(yoe) && y == era * 400 + yoe
    requires z + 719468 == era * 146097 + YearStartInEra(yoe) + doy
    ensures DaysInYear(y + 1) == MarchYearLength(yoe)
    ensures CivilFromDays(z) == CivilOfYearDay(y, doy)
  {
    CivilOfEraDayAt(era, yoe, doy);
    CivilFromDaysAt(z, era, YearStartInEra(yoe) + doy);
    assert CivilOfYearDay(era * 400 + yoe, doy) == CivilOfYearDay(y, doy);
  }

  /** The other direction of the round trip: a valid date is recovered from its day number. */
  lemma CivilFromDaysOfCivil(d: Date)
    requires ValidDate(d)
    ensures CivilFromDays(DaysFromCivil(d)) == d
  {
    var y := MarchYear(d.year, d.month);
    var era, yoe := y / 400, y % 400;
    var doy := MarchMonthStart(MarchMonthIndex(d.month)) + d.day - 1;
    YearDayRecovered(d);
    MarchYearStartAt(y, era, yoe);
    MarchYearLengthAt(y, era, yoe);
    assert DaysFromCivil(d) == MarchYearStart(y) + doy - 719468;
    CivilFromEraDay(DaysFromCivil(d), y, era, yoe, doy);
  }

  /** The same day of consecutive months: the day numbers differ by the first month's length. */
  lemma NextMonthDays(year: int, month: int, day: int)
    requires 1 <= month <= 12
    ensures var (y2, m2) := if month == 12 then (year + 1, 1) else (year, month + 1);
            DaysFromCivil(Date(y2, m2, day)) == DaysFromCivil(Date(year, month, day)) + DaysInMonth(year, month)
  {
    if month == 2 {
      MarchYearStep(year - 1);
    } else {
      MarchMonthLength(year, month);
    }
  }

  /** The same day and month of consecutive years: the day numbers differ by a year's length. */
  lemma NextYearDays(year: int, month: int, day: int)
    requires 1 <= month <= 12
    ensures DaysFromCivil(Date(year + 1, month, day)) - DaysFromCivil(Date(year, month, day))
            == DaysInYear(if month <= 2 then year else year + 1)
  {
    MarchYearStep(MarchYear(year, month));
  }

  /** January 1 of a date's year is at most a year's length before it. */
  lemma DayInYearBounds(d: Date)
    requires ValidDate(d)
    ensures 0 <= DaysFromCivil(d) - DaysFromCivil(Date(d.year, 1, 1)) < DaysInYear(d.year)
  {
    YearDayBound(d);
    if d.month > 2 {
      MarchYearStep(d.year - 1);
    }
  }

  // ---------------------------------------------------------------------
  // Instants.

  function DateOf(t: int): Date {
    CivilFromDays(t / 86400000)
  }

  function HourOf(t: int): (h: int)
    ensures 0 <= h < 24
  {
    (t % 86400000) / 3600000
  }

  /** Day of the week, 1 for Monday to 7 for Sunday; 1970-01-01 was a Thursday. */
  function Weekday(z: int): (w: int)
    ensures 1 <= w <= 7
  {
    (z + 3) % 7 + 1
  }

  /** Ordinal day of the year, 1 for January 1. */
  function DayOfYear(z: int): (n: int)
    ensures 1 <= n <= DaysInYear(CivilFromDays(z).year)
  {
    var d := CivilFromDays(z);
    DaysFromCivilFromDays(z);
    DayInYearBounds(d);
    z - DaysFromCivil(Date(d.year, 1, 1)) + 1
  }

  /** ISO 8601 week number: a week is numbered within the year of its Thursday. */
  function IsoWeek(z: int): (w: int)
    ensures 1 <= w <= 53
  {
    WeekOfOrdinal(DayOfYear(ThursdayOf(z)))
  }

  /** The Thursday of the Monday-to-Sunday week of day number `z`. */
  function ThursdayOf(z: int): int {
    z - (Weekday(z) - 1) + 3
  }

  /** The week, counted from 1, in which ordinal day `n` of a year falls. */
  function WeekOfOrdinal(n: int): (w: int)
    requires 1 <= n <= 366
    ensures 1 <= w <= 53
  {
    (n - 1) / 7 + 1
  }

  /** A date moved by whole years, months and days, before normalisation:
      months beyond December carry into the year, and a day beyond the end
      of its month stands for a day of a following month. */
  function ShiftDate(d: Date, years: int, months: int, days: int): (r: Date)
    requires 1 <= d.month <= 12
    ensures 1 <= r.month <= 12
  {
    var total := d.month - 1 + months;
    Date(d.year + years + total / 12, total % 12 + 1, d.day + days)
  }

  lemma ShiftDays(d: Date, n: int)
    requires 1 <= d.month <= 12
    ensures DaysFromCivil(ShiftDate(d, 0, 0, n)) == DaysFromCivil(d) + n
  {
    assert (d.month - 1) / 12 == 0 && (d.month - 1) % 12 + 1 == d.month;
  }

  lemma ShiftMonth(d: Date)
    requires 1 <= d.month <= 12
    ensures ShiftDate(d, 0, 1, 0)
            == (if d.month == 12 then Date(d.year + 1, 1, d.day) else Date(d.year, d.month + 1, d.day))
    ensures DaysFromCivil(ShiftDate(d, 0, 1, 0)) == DaysFromCivil(d) + DaysInMonth(d.year, d.month)
  {
    assert d.month / 12 == (if d.month == 12 then 1 else 0);
    assert d.month % 12 + 1 == (if d.month == 12 then 1 else d.month + 1);
    NextMonthDays(d.year, d.month, d.day);
  }

  lemma ShiftYear(d: Date)
    requires 1 <= d.month <= 12
    ensures ShiftDate(d, 1, 0, 0) == Date(d.year + 1, d.month, d.day)
    ensures DaysFromCivil(ShiftDate(d, 1, 0, 0))
            == DaysFromCivil(d) + DaysInYear(if d.month <= 2 then d.year else d.year + 1)
  {
    assert (d.month - 1) / 12 == 0 && (d.month - 1) % 12 + 1 == d.month;
    NextYearDays(d.year, d.month, d.day);
  }

  /** Calendar addition on an instant, normalising as time.AddDate does in
      UTC; the time of day is kept. */
  function AddDate(t: int, years: int, months: int, days: int): int {
    DaysFromCivil(ShiftDate(DateOf(t), years, months, days)) * 86400000 + t % 86400000
  }

  /** An instant is the start of its day plus its time of day. */
  lemma InstantSplit(t: int)
    ensures t == DaysFromCivil(DateOf(t)) * 86400000 + t % 86400000
  {
    DaysFromCivilFromDays(t / 86400000);
  }

  lemma AddDaysIsFixed(t: int, n: int)
    ensures AddDate(t, 0, 0, n) == t + n * 86400000
  {
    InstantSplit(t);
    ShiftDays(DateOf(t), n);
  }

  lemma AddMonthStep(t: int)
    ensures AddDate(t, 0, 1, 0) == t + DaysInMonth(DateOf(t).year, DateOf(t).month) * 86400000
  {
    InstantSplit(t);
    ShiftMonth(DateOf(t));
  }

  lemma AddYearStep(t: int)
    ensures var d := DateOf(t);
            AddDate(t, 1, 0, 0) == t + DaysInYear(if d.month <= 2 then d.year else d.year + 1) * 86400000
  {
    InstantSplit(t);
    ShiftYear(DateOf(t));
  }

  // ---------------------------------------------------------------------
  // Order of dates, and the calendar steps of the rotation intervals.

  /** Months counted from January of year 0. */
  function MonthNumber(d: Date): int {
    d.year * 12 + d.month - 1
  }

  lemma MonthNumberParts(d: Date)
    requires 1 <= d.month <= 12
    ensures MonthNumber(d) / 12 == d.year && MonthNumber(d) % 12 == d.month - 1
  {
  }

  /** The first day of month number `n`. */
  function FirstOfMonth(n: int): (d: Date)
    ensures ValidDate(d) && d.day == 1 && MonthNumber(d) == n
  {
    Date(n / 12, n % 12 + 1, 1)
  }

  function MonthLength(n: int): (len: int)
    ensures 28 <= len <= 31
  {
    DaysInMonth(n / 12, n % 12 + 1)
  }

  lemma FirstOfMonthStep(n: int)
    ensures DaysFromCivil(FirstOfMonth(n + 1)) == DaysFromCivil(FirstOfMonth(n)) + MonthLength(n)
  {
    var y, m := n / 12, n % 12 + 1;
    NextMonthDays(y, m, 1);
    if m == 12 {
      assert (n + 1) / 12 == y + 1 && (n + 1) % 12 == 0;
    } else {
      assert (n + 1) / 12 == y && (n + 1) % 12 == m;
    }
  }

  lemma {:induction false} FirstOfMonthIncreasing(a: int, b: int)
    requires a < b
    ensures DaysFromCivil(FirstOfMonth(a)) + MonthLength(a) <= DaysFromCivil(FirstOfMonth(b))
    decreases b - a
  {
    FirstOfMonthStep(a);
    if a + 1 < b {
      FirstOfMonthIncreasing(a + 1, b);
    }
  }

  /** A date's day number counts on from the first of its month. */
  lemma DaysFromFirstOfMonth(d: Date)
    requires ValidDate(d)
    ensures DaysFromCivil(d) == DaysFromCivil(FirstOfMonth(MonthNumber(d))) + d.day - 1
    ensures MonthLength(MonthNumber(d)) == DaysInMonth(d.year, d.month)
  {
    MonthNumberParts(d);
    assert FirstOfMonth(MonthNumber(d)) == Date(d.year, d.month, 1);
  }

  /** Later day numbers never fall in earlier months. */
  lemma MonthNumberMonotone(d1: Date, d2: Date)
    requires ValidDate(d1) && ValidDate(d2)
    requires DaysFromCivil(d1) <= DaysFromCivil(d2)
    ensures MonthNumber(d1) <= MonthNumber(d2)
  {
    if MonthNumber(d2) < MonthNumber(d1) {
      DaysFromFirstOfMonth(d1);
      DaysFromFirstOfMonth(d2);
      FirstOfMonthIncreasing(MonthNumber(d2), MonthNumber(d1));
      assert false;
    }
  }

  lemma DayNumberMonotone(t: int, u: int)
    requires t <= u
    ensures t / 86400000 <= u / 86400000
  {
  }

  /** The month (and with it the year) of an instant never decreases with time. */
  lemma InstantMonthMonotone(t: int, u: int)
    requires t <= u
    ensures MonthNumber(DateOf(t)) <= MonthNumber(DateOf(u))
    ensures DateOf(t).year <= DateOf(u).year
  {
    DayNumberMonotone(t, u);
    DaysFromCivilFromDays(t / 86400000);
    DaysFromCivilFromDays(u / 86400000);
    MonthNumberMonotone(DateOf(t), DateOf(u));
    MonthNumberParts(DateOf(t));
    MonthNumberParts(DateOf(u));
  }

  /** The day number of an instant moved by a calendar addition. */
  lemma AddDateDay(t: int, years: int, months: int, days: int)
    ensures AddDate(t, years, months, days) / 86400000
            == DaysFromCivil(ShiftDate(DateOf(t), years, months, days))
  {
    DivModDay(AddDate(t, years, months, days), DaysFromCivil(ShiftDate(DateOf(t), years, months, days)), t % 86400000);
  }

  /** In a year that is not a leap year, February 29 denotes March 1. */
  lemma FebruaryOverflow(y: int)
    requires !IsLeapYear(y)
    ensures DaysFromCivil(Date(y, 2, 29)) == DaysFromCivil(Date(y, 3, 1))
  {
    DaysFromFirstOfMonth(Date(y, 2, 28));
    assert DaysFromCivil(Date(y, 2, 29)) == DaysFromCivil(Date(y, 2, 28)) + 1;
    NextMonthDays(y, 2, 1);
  }

  /** One year on: the same month and day of the next year, except that
      February 29 becomes March 1 when the next year is not a leap year. */
  lemma AddYearDate(t: int)
    ensures var d := DateOf(t);
            DateOf(AddDate(t, 1, 0, 0))
            == if d.month == 2 && d.day == 29 && !IsLeapYear(d.year + 1) then Date(d.year + 1, 3, 1)
               else Date(d.year + 1, d.month, d.day)
  {
    var d := DateOf(t);
    var e := Date(d.year + 1, d.month, d.day);
    ShiftYear(d);
    AddDateDay(t, 1, 0, 0);
    assert AddDate(t, 1, 0, 0) / 86400000 == DaysFromCivil(e);
    if d.month == 2 && d.day == 29 && !IsLeapYear(d.year + 1) {
      FebruaryOverflow(d.year + 1);
      CivilFromDaysOfCivil(Date(d.year + 1, 3, 1));
    } else {
      assert ValidDate(e);
      CivilFromDaysOfCivil(e);
    }
  }

  /** One month on from a day that every month has: the same day of the next month. */
  lemma AddMonthDate(t: int)
    requires DateOf(t).day <= 28
    ensures DateOf(AddDate(t, 0, 1, 0)).day == DateOf(t).day
    ensures MonthNumber(DateOf(AddDate(t, 0, 1, 0))) == MonthNumber(DateOf(t)) + 1
  {
    var d := DateOf(t);
    ShiftMonth(d);
    AddDateDay(t, 0, 1, 0);
    var e := ShiftDate(d, 0, 1, 0);
    assert ValidDate(e);
    CivilFromDaysOfCivil(e);
  }

  /** A day on or after the first of the month following `d1`'s lies in a
      later month than `d1`. */
  lemma LaterMonth(d1: Date, d2: Date)
    requires ValidDate(d1) && ValidDate(d2)
    requires DaysFromCivil(FirstOfMonth(MonthNumber(d1) + 1)) <= DaysFromCivil(d2)
    ensures MonthNumber(d1) < MonthNumber(d2)
  {
    if MonthNumber(d2) <= MonthNumber(d1) {
      DaysFromFirstOfMonth(d2);
      FirstOfMonthIncreasing(MonthNumber(d2), MonthNumber(d1) + 1);
      assert false;
    }
  }

  /** One month on from any day, the 29th to the 31st included, is in a later
      month: the overflow of a short month carries forward, never back. */
  lemma AddMonthLater(t: int)
    ensures MonthNumber(DateOf(t)) < MonthNumber(DateOf(AddDate(t, 0, 1, 0)))
  {
    var d := DateOf(t);
    var u := AddDate(t, 0, 1, 0);
    var z := t / 86400000;
    var len := DaysInMonth(d.year, d.month);
    assert u / 86400000 == z + len by {
      AddMonthStep(t);
      DivModDay(u, z + len, t % 86400000);
    }
    DaysFromCivilFromDays(z);
    DaysFromCivilFromDays(u / 86400000);
    NextMonthOfDate(d, DateOf(u));
  }

  /** A month's length after any day of it is a day of a later month. */
  lemma NextMonthOfDate(d1: Date, d2: Date)
    requires ValidDate(d1) && ValidDate(d2)
    requires DaysFromCivil(d2) == DaysFromCivil(d1) + DaysInMonth(d1.year, d1.month)
    ensures MonthNumber(d1) < MonthNumber(d2)
  {
    var n := MonthNumber(d1);
    assert DaysFromCivil(FirstOfMonth(n + 1)) <= DaysFromCivil(d2) by {
      DaysFromFirstOfMonth(d1);
      FirstOfMonthStep(n);
    }
    LaterMonth(d1, d2);
  }

  /** The week number of a day depends only on its Monday-based week. */
  lemma IsoWeekOfWeek(z1: int, z2: int)
    requires (z1 + 3) / 7 == (z2 + 3) / 7
    ensures IsoWeek(z1) == IsoWeek(z2)
  {
    assert ThursdayOf(z1) == 7 * ((z1 + 3) / 7);
    assert ThursdayOf(z2) == 7 * ((z2 + 3) / 7);
  }

  /** The week number from the ordinal day of the Thursday of the week. */
  lemma IsoWeekOfThursday(z: int, thursday: int, doy: int)
    requires thursday == ThursdayOf(z) && DayOfYear(thursday) == doy
    ensures 1 <= doy <= 366 && IsoWeek(z) == WeekOfOrdinal(doy)
  {
  }
}
