/** The index-list cases of the Elasticsearch datasource: ranges that start
    at 2017-07-14T02:40:00Z, given as epoch-millisecond strings, resolved
    under each rotation interval.

    Concrete values enter the lemmas below as parameters fixed by their
    preconditions, so that each lemma reasons about one step of the
    resolution at a time. */
module IndexListCases {
  import opened Wrappers
  import opened Text
  import opened Calendar
  import opened IndexPattern
  import opened IndexProperties

  // ---------------------------------------------------------------------
  // makeTime and getIndexListByTime.

  /** Epoch milliseconds `hour` hours after Unix time 1500000000. */
  function MakeTimeMs(hour: int): int {
    (1500000000 + hour * 60 * 60) * 1000
  }

  /** makeTime: the same instant as a decimal string, which reads back as
      the instant. */
  function MakeTime(hour: int): (s: string)
    ensures ParseInt(s) == Some(MakeTimeMs(hour))
  {
    ParseIntOfIntToString(MakeTimeMs(hour));
    IntToString(MakeTimeMs(hour))
  }

  /** Later hours give later instants. */
  lemma MakeTimeIncreasing(h1: int, h2: int)
    requires h1 < h2
    ensures ParseInt(MakeTime(h1)).value < ParseInt(MakeTime(h2)).value
  {
  }

  /** An instant on day number `z`, the day of date `d`. */
  lemma DateAt(t: int, d: Date, z: int)
    requires ValidDate(d) && DaysFromCivil(d) == z
    requires z * 86400000 <= t < z * 86400000 + 86400000
    ensures DateOf(t) == d
  {
    DivModDay(t, z, t - z * 86400000);
    CivilFromDaysOfCivil(d);
  }

  lemma EpochDate(t: int)
    requires t == 1500000000000
    ensures DateOf(t) == Date(2017, 7, 14)
  {
    DateAt(t, Date(2017, 7, 14), 17361);
  }

  lemma EpochClock(t: int)
    requires t == 1500000000000
    ensures HourOf(t) == 2 && (t % 3600000) / 60000 == 40
  {
    DivModDay(t, 17361, 9600000);
  }

  /** Unix time 1500000000 is 2017-07-14T02:40:00Z. */
  lemma MakeTimeEpoch(hour: int)
    requires hour == 0
    ensures DateOf(MakeTimeMs(hour)) == Date(2017, 7, 14) && HourOf(MakeTimeMs(hour)) == 2
    ensures (MakeTimeMs(hour) % 3600000) / 60000 == 40
  {
    EpochDate(MakeTimeMs(hour));
    EpochClock(MakeTimeMs(hour));
  }

  /** getIndexListByTime: the range from makeTime(0) to makeTime(hour). */
  function GetIndexListByTime(pattern: string, interval: string, hour: int): (list: string)
    requires ParseInterval(interval).Some?
    ensures interval == "" ==> list == pattern
  {
    GetIndexList(pattern, interval, TimeRange(MakeTime(0), MakeTime(hour)))
  }

  /** The list for the range from makeTime(0) to makeTime(hour). */
  lemma ByTimeIsIndexList(pattern: string, interval: string, iv: Interval, hour: int)
    requires ParseInterval(interval) == Some(iv)
    ensures GetIndexListByTime(pattern, interval, hour) == IndexList(pattern, iv, MakeTimeMs(0), MakeTimeMs(hour))
  {
  }

  /** An interval setting written under an interval's own name. */
  lemma IntervalNamed(interval: string, iv: Interval)
    requires interval == IntervalName(iv)
    ensures ParseInterval(interval) == Some(iv)
  {
    ParseIntervalName(iv);
  }

  // ---------------------------------------------------------------------
  // Pieces of the resolution.

  /** The list for a pattern, given the walk and the name of each of its instants. */
  lemma ListOfWalk(pattern: string, iv: Interval, from: int, to: int, lit: string, fmt: string,
                   ws: seq<int>, names: seq<string>)
    requires iv != NoInterval && SplitPattern(pattern) == Some((lit, fmt))
    requires Walk(iv, from, to) == ws && IndexNames(lit, fmt, ws) == names
    ensures IndexList(pattern, iv, from, to) == Join(names, ',')
  {
  }

  lemma NamesTwo(lit: string, fmt: string, t1: int, t2: int)
    ensures IndexNames(lit, fmt, [t1, t2]) == [IndexName(lit, fmt, t1), IndexName(lit, fmt, t2)]
  {
    var ns := IndexNames(lit, fmt, [t1, t2]);
    assert ns[0] == IndexName(lit, fmt, t1);
    assert ns[1] == IndexName(lit, fmt, t2);
  }

  lemma NamesThree(lit: string, fmt: string, t1: int, t2: int, t3: int)
    ensures IndexNames(lit, fmt, [t1, t2, t3])
            == [IndexName(lit, fmt, t1), IndexName(lit, fmt, t2), IndexName(lit, fmt, t3)]
  {
    var ns := IndexNames(lit, fmt, [t1, t2, t3]);
    assert ns[0] == IndexName(lit, fmt, t1);
    assert ns[1] == IndexName(lit, fmt, t2);
    assert ns[2] == IndexName(lit, fmt, t3);
  }

  lemma JoinTwo(a: string, b: string)
    ensures Join([a, b], ',') == a + "," + b
  {
    assert [a, b][1..] == [b];
  }

  lemma JoinThree(a: string, b: string, c: string)
    ensures Join([a, b, c], ',') == a + "," + b + "," + c
  {
    assert [a, b, c][1..] == [b, c];
    JoinTwo(b, c);
    assert a + "," + (b + "," + c) == a + "," + b + "," + c;
  }

  /** The list for a walk of two instants. */
  lemma ListOfTwo(pattern: string, iv: Interval, from: int, to: int, lit: string, fmt: string,
                  t1: int, t2: int, n1: string, n2: string)
    requires iv != NoInterval && SplitPattern(pattern) == Some((lit, fmt))
    requires Walk(iv, from, to) == [t1, t2]
    requires IndexName(lit, fmt, t1) == n1 && IndexName(lit, fmt, t2) == n2
    ensures IndexList(pattern, iv, from, to) == n1 + "," + n2
  {
    NamesTwo(lit, fmt, t1, t2);
    ListOfWalk(pattern, iv, from, to, lit, fmt, [t1, t2], [n1, n2]);
    JoinTwo(n1, n2);
  }

  /** The list for a walk of three instants. */
  lemma ListOfThree(pattern: string, iv: Interval, from: int, to: int, lit: string, fmt: string,
                    t1: int, t2: int, t3: int, n1: string, n2: string, n3: string)
    requires iv != NoInterval && SplitPattern(pattern) == Some((lit, fmt))
    requires Walk(iv, from, to) == [t1, t2, t3]
    requires IndexName(lit, fmt, t1) == n1 && IndexName(lit, fmt, t2) == n2 && IndexName(lit, fmt, t3) == n3
    ensures IndexList(pattern, iv, from, to) == n1 + "," + n2 + "," + n3
  {
    NamesThree(lit, fmt, t1, t2, t3);
    ListOfWalk(pattern, iv, from, to, lit, fmt, [t1, t2, t3], [n1, n2, n3]);
    JoinThree(n1, n2, n3);
  }

  lemma PatternParts(pattern: string, lit: string, fmt: string)
    requires pattern == MakePattern(lit, fmt)
    requires ']' !in lit && ']' !in fmt && (lit == [] || lit[0] != '[')
    ensures SplitPattern(pattern) == Some((lit, fmt))
  {
    SplitMakePattern(lit, fmt);
  }

  lemma ParseOfRender(f: string, ts: seq<Token>)
    requires Canonical(ts) && f == RenderFormat(ts)
    ensures ParseFormat(f) == ts
  {
    ParseRenderFormat(ts);
  }

  lemma FormatCons(tok: Token, rest: seq<Token>, t: int)
    ensures FormatInstant([tok] + rest, t) == TokenText(tok, t) + FormatInstant(rest, t)
  {
    assert ([tok] + rest)[1..] == rest;
  }

  /** The text of a three-token format, piece by piece. */
  lemma FormatThree(ts: seq<Token>, t: int)
    requires |ts| == 3
    ensures FormatInstant(ts, t) == TokenText(ts[0], t) + (TokenText(ts[1], t) + TokenText(ts[2], t))
  {
    FormatOne(ts[2..], t);
    assert ts[1..][1..] == ts[2..];
    assert ts[1..][0] == ts[1];
  }

  /** The text of a one-token format. */
  lemma FormatOne(ts: seq<Token>, t: int)
    requires |ts| == 1
    ensures FormatInstant(ts, t) == TokenText(ts[0], t)
  {
    assert ts[1..] == [];
  }

  /** The text of a five-token format, piece by piece. */
  lemma FormatFive(ts: seq<Token>, t: int)
    requires |ts| == 5
    ensures FormatInstant(ts, t)
            == TokenText(ts[0], t) + (TokenText(ts[1], t) + (TokenText(ts[2], t) + (TokenText(ts[3], t) + TokenText(ts[4], t))))
  {
    FormatThree(ts[2..], t);
    assert ts[1..][0] == ts[1] && ts[1..][1..] == ts[2..];
    assert ts[2..][0] == ts[2] && ts[2..][1] == ts[3] && ts[2..][2] == ts[4];
  }

  /** `prefix` followed by the decimal digits `a` and `b`. */
  function Label(prefix: string, a: int, b: int): (s: string)
    requires 0 <= a < 10 && 0 <= b < 10
    ensures |s| == |prefix| + 2
  {
    prefix + [DigitChar(a), DigitChar(b)]
  }

  lemma LabelText(prefix: string, a: int, b: int, s: string)
    requires 0 <= a < 10 && 0 <= b < 10
    requires s == prefix + [(a + 48) as char, (b + 48) as char]
    ensures Label(prefix, a, b) == s
  {
  }

  // ---------------------------------------------------------------------
  // Digits of the fields.

  lemma Div10(n: int, q: int, r: int)
    requires 0 <= r < 10 && n == q * 10 + r
    ensures n / 10 == q && n % 10 == r
  {
  }

  lemma TwoDigits(n: nat, a: int, b: int)
    requires 0 <= a < 10 && 0 <= b < 10 && n == 10 * a + b
    ensures Field2(n) == [DigitChar(a), DigitChar(b)]
  {
    Div10(n, a, b);
    Field2Digits(n);
  }

  /** A two-digit number without padding. */
  lemma NatTwoDigits(n: nat, a: int, b: int)
    requires 1 <= a < 10 && 0 <= b < 10 && n == 10 * a + b
    ensures NatToString(n) == [DigitChar(a), DigitChar(b)]
  {
    Div10(n, a, b);
    assert NatToString(n / 10) == [DigitChar(a)];
  }

  lemma Digits20(y: int, c: int, e: int)
    requires 0 <= c < 10 && 0 <= e < 10 && y == 2000 + 10 * c + e
    ensures y / 1000 == 2 && y / 100 % 10 == 0 && y / 10 % 10 == c && y % 10 == e
  {
    DivUnique(y, 1000, 2, 10 * c + e);
    DivUnique(y, 100, 20, 10 * c + e);
    Div10(y, 200 + c, e);
    Div10(20, 2, 0);
    Div10(200 + c, 20, c);
  }

  /** A year of the twenty-first century's first decades. */
  lemma Year20(y: int, c: int, e: int)
    requires 0 <= c < 10 && 0 <= e < 10 && y == 2000 + 10 * c + e
    ensures YearText(y) == "20" + [DigitChar(c), DigitChar(e)]
  {
    YearTextDigits(y);
    Digits20(y, c, e);
    Twenty(c, e);
  }

  lemma Twenty(c: int, e: int)
    requires 0 <= c < 10 && 0 <= e < 10
    ensures [DigitChar(2), DigitChar(0), DigitChar(c), DigitChar(e)] == "20" + [DigitChar(c), DigitChar(e)]
  {
    assert DigitChar(2) == '2' && DigitChar(0) == '0';
  }

  lemma Year2017(y: int)
    requires y == 2017
    ensures YearText(y) == "2017"
  {
    Year20(y, 1, 7);
  }

  lemma Year2018(y: int)
    requires y == 2018
    ensures YearText(y) == "2018"
  {
    Year20(y, 1, 8);
  }

  lemma Year2019(y: int)
    requires y == 2019
    ensures YearText(y) == "2019"
  {
    Year20(y, 1, 9);
  }

  // ---------------------------------------------------------------------
  // The dates the cases reach.

  lemma July14(t: int)
    requires t == 1500000000000
    ensures DateOf(t) == Date(2017, 7, 14) && t / 86400000 == 17361
  {
    DateAt(t, Date(2017, 7, 14), 17361);
  }

  lemma July15(t: int)
    requires t == 1500086400000
    ensures DateOf(t) == Date(2017, 7, 15)
  {
    DateAt(t, Date(2017, 7, 15), 17362);
  }

  lemma July16(t: int)
    requires t == 1500172800000
    ensures DateOf(t) == Date(2017, 7, 16)
  {
    DateAt(t, Date(2017, 7, 16), 17363);
  }

  lemma July21(t: int)
    requires t == 1500604800000
    ensures DateOf(t) == Date(2017, 7, 21) && t / 86400000 == 17368
  {
    DateAt(t, Date(2017, 7, 21), 17368);
  }

  lemma August14(t: int)
    requires t == 1502678400000
    ensures DateOf(t) == Date(2017, 8, 14)
  {
    DateAt(t, Date(2017, 8, 14), 17392);
  }

  lemma July14Of2018(t: int)
    requires t == 1531536000000
    ensures DateOf(t) == Date(2018, 7, 14)
  {
    DateAt(t, Date(2018, 7, 14), 17726);
  }

  lemma July14Of2019(t: int)
    requires t == 1563072000000
    ensures DateOf(t) == Date(2019, 7, 14)
  {
    DateAt(t, Date(2019, 7, 14), 18091);
  }

  // ---------------------------------------------------------------------
  // Daily over 48 hours.

  lemma DailyWalk(from: int, to: int)
    requires to == from + 172800000
    ensures Walk(Daily, from, to) == [from, from + 86400000, from + 172800000]
  {
    WalkFixed(Daily, from, to);
    var w := Walk(Daily, from, to);
    DivUnique(to - from + 86400000 - 1, 86400000, 2, 86399999);
    assert |w| == 3;
    assert w[1] == from + 86400000 && w[2] == from + 172800000;
  }

  /** The three instants of the daily walk fall on July 14, 15 and 16. */
  lemma DailyDates(from: int)
    requires from == 1500000000000
    ensures DateOf(from) == Date(2017, 7, 14)
    ensures DateOf(from + 86400000) == Date(2017, 7, 15)
    ensures DateOf(from + 172800000) == Date(2017, 7, 16)
  {
    July14(from);
    July15(from + 86400000);
    July16(from + 172800000);
  }

  lemma DayFormat(fmt: string)
    requires fmt == "YYYY.MM.DD"
    ensures ParseFormat(fmt) == [Year, Lit('.'), Month, Lit('.'), Day]
  {
    ParseOfRender(fmt, [Year, Lit('.'), Month, Lit('.'), Day]);
  }

  /** The daily name of a day: year, month and day of month. */
  lemma DayName(fmt: string, t: int, d: Date)
    requires fmt == "YYYY.MM.DD" && DateOf(t) == d
    ensures IndexName("logstash-", fmt, t)
            == "logstash-" + (YearText(d.year) + ("." + (Field2(d.month) + ("." + Field2(d.day)))))
  {
    DayFormat(fmt);
    FormatFive(ParseFormat(fmt), t);
  }

  lemma July2017Name(fmt: string, t: int, y: int, m: int, day: int, a: int, b: int)
    requires fmt == "YYYY.MM.DD" && y == 2017 && m == 7 && DateOf(t) == Date(y, m, day)
    requires 0 <= a < 10 && 0 <= b < 10 && day == 10 * a + b
    ensures IndexName("logstash-", fmt, t) == Label("logstash-2017.07.", a, b)
  {
    DayName(fmt, t, Date(y, m, day));
    Year2017(y);
    TwoDigits(m, 0, 7);
    TwoDigits(day, a, b);
    JulyLabel(IndexName("logstash-", fmt, t), a, b);
  }

  lemma JulyLabel(s: string, a: int, b: int)
    requires 0 <= a < 10 && 0 <= b < 10
    requires s == "logstash-" + ("2017" + ("." + ([DigitChar(0), DigitChar(7)] + ("." + [DigitChar(a), DigitChar(b)]))))
    ensures s == Label("logstash-2017.07.", a, b)
  {
    assert [DigitChar(0), DigitChar(7)] == "07";
    assert "logstash-" + ("2017" + ("." + ("07" + "."))) == "logstash-2017.07.";
  }

  /** The names of the three days of the daily walk. */
  lemma DailyNames(fmt: string, from: int)
    requires fmt == "YYYY.MM.DD"
    requires DateOf(from) == Date(2017, 7, 14)
    requires DateOf(from + 86400000) == Date(2017, 7, 15)
    requires DateOf(from + 172800000) == Date(2017, 7, 16)
    ensures IndexName("logstash-", fmt, from) == Label("logstash-2017.07.", 1, 4)
    ensures IndexName("logstash-", fmt, from + 86400000) == Label("logstash-2017.07.", 1, 5)
    ensures IndexName("logstash-", fmt, from + 172800000) == Label("logstash-2017.07.", 1, 6)
  {
    July2017Name(fmt, from, 2017, 7, 14, 1, 4);
    July2017Name(fmt, from + 86400000, 2017, 7, 15, 1, 5);
    July2017Name(fmt, from + 172800000, 2017, 7, 16, 1, 6);
  }

  lemma DailyPattern(pattern: string)
    requires pattern == "[logstash-]YYYY.MM.DD"
    ensures SplitPattern(pattern) == Some(("logstash-", "YYYY.MM.DD"))
  {
    PatternParts(pattern, "logstash-", "YYYY.MM.DD");
  }

  lemma DailyText(s1: string, s2: string, s3: string)
    requires s1 == Label("logstash-2017.07.", 1, 4)
    requires s2 == Label("logstash-2017.07.", 1, 5)
    requires s3 == Label("logstash-2017.07.", 1, 6)
    ensures s1 + "," + s2 + "," + s3 == "logstash-2017.07.14,logstash-2017.07.15,logstash-2017.07.16"
  {
    LabelText("logstash-2017.07.", 1, 4, "logstash-2017.07.14");
    LabelText("logstash-2017.07.", 1, 5, "logstash-2017.07.15");
    LabelText("logstash-2017.07.", 1, 6, "logstash-2017.07.16");
    DailyConcat(s1, s2, s3);
  }

  lemma DailyConcat(s1: string, s2: string, s3: string)
    requires s1 == "logstash-2017.07.14" && s2 == "logstash-2017.07.15" && s3 == "logstash-2017.07.16"
    ensures s1 + "," + s2 + "," + s3 == "logstash-2017.07.14,logstash-2017.07.15,logstash-2017.07.16"
  {
  }

  lemma DailyList(pattern: string, fmt: string, from: int, to: int)
    requires pattern == "[logstash-]YYYY.MM.DD" && fmt == "YYYY.MM.DD"
    requires from == 1500000000000 && to == from + 172800000
    ensures IndexList(pattern, Daily, from, to)
            == "logstash-2017.07.14,logstash-2017.07.15,logstash-2017.07.16"
  {
    DailyDates(from);
    DailyNames(fmt, from);
    DailyPattern(pattern);
    DailyWalk(from, to);
    ListOfThree(pattern, Daily, from, to, "logstash-", fmt, from, from + 86400000, from + 172800000,
                Label("logstash-2017.07.", 1, 4), Label("logstash-2017.07.", 1, 5), Label("logstash-2017.07.", 1, 6));
    DailyText(Label("logstash-2017.07.", 1, 4), Label("logstash-2017.07.", 1, 5), Label("logstash-2017.07.", 1, 6));
  }

  lemma DailyRange(pattern: string, hour: int)
    requires pattern == "[logstash-]YYYY.MM.DD" && hour == 48
    ensures IndexList(pattern, Daily, MakeTimeMs(0), MakeTimeMs(hour))
            == "logstash-2017.07.14,logstash-2017.07.15,logstash-2017.07.16"
  {
    DailyList(pattern, "YYYY.MM.DD", MakeTimeMs(0), MakeTimeMs(hour));
  }

  /** Daily over 48 hours: the days July 14, 15 and 16 of 2017. */
  lemma DailyIndexList(pattern: string, interval: string, hour: int)
    requires pattern == "[logstash-]YYYY.MM.DD" && interval == "Daily" && hour == 48
    ensures GetIndexListByTime(pattern, interval, hour)
            == "logstash-2017.07.14,logstash-2017.07.15,logstash-2017.07.16"
  {
    IntervalNamed(interval, Daily);
    ByTimeIsIndexList(pattern, interval, Daily, hour);
    DailyRange(pattern, hour);
  }

  // ---------------------------------------------------------------------
  // Hourly over 3 hours: four names.

  lemma HourlyWalkLength(from: int, to: int)
    requires to == from + 10800000
    ensures |Walk(Hourly, from, to)| == 4
  {
    WalkFixed(Hourly, from, to);
    DivUnique(to - from + 3600000 - 1, 3600000, 3, 3599999);
  }

  lemma HourlyPattern(pattern: string)
    requires pattern == "[logstash-]YYYY.MM.DD.HH"
    ensures SplitPattern(pattern) == Some(("logstash-", "YYYY.MM.DD.HH"))
  {
    PatternParts(pattern, "logstash-", "YYYY.MM.DD.HH");
  }

  lemma HourlyNoComma(lit: string, fmt: string)
    requires lit == "logstash-" && fmt == "YYYY.MM.DD.HH"
    ensures ',' !in lit && ',' !in fmt
  {
    assert forall i :: 0 <= i < |lit| ==> lit[i] != ',';
    assert forall i :: 0 <= i < |fmt| ==> fmt[i] != ',';
  }

  lemma HourlyList(pattern: string, lit: string, fmt: string, from: int, to: int)
    requires pattern == "[logstash-]YYYY.MM.DD.HH" && lit == "logstash-" && fmt == "YYYY.MM.DD.HH"
    requires to == from + 10800000
    ensures |Split(IndexList(pattern, Hourly, from, to), ',')| == 4
  {
    HourlyPattern(pattern);
    HourlyNoComma(lit, fmt);
    IndexListParts(pattern, Hourly, from, to, lit, fmt);
    HourlyWalkLength(from, to);
  }

  /** Hourly over 3 hours: four comma-separated names, one per hour. */
  lemma HourlyIndexList(pattern: string, interval: string, hour: int)
    requires pattern == "[logstash-]YYYY.MM.DD.HH" && interval == "Hourly" && hour == 3
    ensures |Split(GetIndexListByTime(pattern, interval, hour), ',')| == 4
  {
    IntervalNamed(interval, Hourly);
    ByTimeIsIndexList(pattern, interval, Hourly, hour);
    HourlyList(pattern, "logstash-", "YYYY.MM.DD.HH", MakeTimeMs(0), MakeTimeMs(hour));
  }

  // ---------------------------------------------------------------------
  // Weekly over 100 hours: ISO weeks 28 and 29 of 2017.

  lemma WeeklyWalk(from: int, to: int)
    requires to == from + 360000000
    ensures Walk(Weekly, from, to) == [from, from + 604800000]
  {
    WalkFixed(Weekly, from, to);
    var w := Walk(Weekly, from, to);
    DivUnique(to - from + 604800000 - 1, 604800000, 1, 359999999);
    assert |w| == 2;
    assert w[1] == from + 604800000;
  }

  lemma WeekdayOf(z: int, q: int, wd: int)
    requires 0 <= wd < 7 && z + 3 == 7 * q + wd
    ensures Weekday(z) == wd + 1
  {
    DivUnique(z + 3, 7, q, wd);
  }

  /** The ordinal day of a day number whose date and January 1 are known. */
  lemma DayOfYearOf(z: int, d: Date, jan1: int)
    requires ValidDate(d) && DaysFromCivil(d) == z
    requires DaysFromCivil(Date(d.year, 1, 1)) == jan1
    ensures DayOfYear(z) == z - jan1 + 1
  {
    CivilFromDaysOfCivil(d);
  }

  /** The ISO week of day number `z`, from its weekday, the date of the
      Thursday of its week and the day number of that year's January 1. */
  lemma IsoWeekOfDay(z: int, q: int, wd: int, th: Date, jan1: int, w: int, r: int)
    requires 0 <= wd < 7 && z + 3 == 7 * q + wd
    requires ValidDate(th) && DaysFromCivil(th) == z - wd + 3
    requires DaysFromCivil(Date(th.year, 1, 1)) == jan1
    requires 0 <= r < 7 && z - wd + 3 - jan1 == 7 * (w - 1) + r
    ensures IsoWeek(z) == w
  {
    WeekdayOf(z, q, wd);
    var thursday := ThursdayOf(z);
    DayOfYearOf(thursday, th, jan1);
    IsoWeekOfThursday(z, thursday, thursday - jan1 + 1);
    DivUnique(thursday - jan1, 7, w - 1, r);
  }

  lemma Jan2017(jan1: int)
    requires jan1 == 17167
    ensures DaysFromCivil(Date(2017, 1, 1)) == jan1
  {
  }

  /** July 14, 2017 is a Friday of ISO week 28, July 21 one of week 29. */
  lemma WeeklyWeeks(z1: int, z2: int)
    requires z1 == 17361 && z2 == 17368
    ensures IsoWeek(z1) == 28 && IsoWeek(z2) == 29
  {
    Jan2017(17167);
    IsoWeekOfDay(z1, 2480, 4, Date(2017, 7, 13), 17167, 28, 4);
    IsoWeekOfDay(z2, 2481, 4, Date(2017, 7, 20), 17167, 29, 4);
  }

  lemma WeeklyDays(from: int)
    requires from == 1500000000000
    ensures from / 86400000 == 17361 && DateOf(from).year == 2017
    ensures (from + 604800000) / 86400000 == 17368 && DateOf(from + 604800000).year == 2017
  {
    July14(from);
    July21(from + 604800000);
  }

  lemma WeekFormat(fmt: string)
    requires fmt == "YYYY.W"
    ensures ParseFormat(fmt) == [Year, Lit('.'), Week]
  {
    ParseOfRender(fmt, [Year, Lit('.'), Week]);
  }

  /** The weekly name of an instant of 2017: the year and the ISO week. */
  lemma WeekName(fmt: string, t: int, y: int, w: int, a: int, b: int)
    requires fmt == "YYYY.W" && y == 2017 && DateOf(t).year == y
    requires IsoWeek(t / 86400000) == w && 1 <= a < 10 && 0 <= b < 10 && w == 10 * a + b
    ensures IndexName("logstash-", fmt, t) == Label("logstash-2017.", a, b)
  {
    WeekFormat(fmt);
    FormatCons(Week, [], t);
    FormatCons(Lit('.'), [Week], t);
    FormatCons(Year, [Lit('.'), Week], t);
    Year2017(y);
    NatTwoDigits(w, a, b);
  }

  lemma WeeklyNames(fmt: string, from: int)
    requires fmt == "YYYY.W"
    requires from / 86400000 == 17361 && DateOf(from).year == 2017
    requires (from + 604800000) / 86400000 == 17368 && DateOf(from + 604800000).year == 2017
    ensures IndexName("logstash-", fmt, from) == Label("logstash-2017.", 2, 8)
    ensures IndexName("logstash-", fmt, from + 604800000) == Label("logstash-2017.", 2, 9)
  {
    WeeklyWeeks(17361, 17368);
    WeekName(fmt, from, 2017, 28, 2, 8);
    WeekName(fmt, from + 604800000, 2017, 29, 2, 9);
  }

  lemma WeeklyPattern(pattern: string)
    requires pattern == "[logstash-]YYYY.W"
    ensures SplitPattern(pattern) == Some(("logstash-", "YYYY.W"))
  {
    PatternParts(pattern, "logstash-", "YYYY.W");
  }

  lemma WeeklyText(s1: string, s2: string)
    requires s1 == Label("logstash-2017.", 2, 8) && s2 == Label("logstash-2017.", 2, 9)
    ensures s1 + "," + s2 == "logstash-2017.28,logstash-2017.29"
  {
    LabelText("logstash-2017.", 2, 8, "logstash-2017.28");
    LabelText("logstash-2017.", 2, 9, "logstash-2017.29");
  }

  lemma WeeklyList(pattern: string, fmt: string, from: int, to: int)
    requires pattern == "[logstash-]YYYY.W" && fmt == "YYYY.W"
    requires from == 1500000000000 && to == from + 360000000
    ensures IndexList(pattern, Weekly, from, to) == "logstash-2017.28,logstash-2017.29"
  {
    WeeklyDays(from);
    WeeklyNames(fmt, from);
    WeeklyPattern(pattern);
    WeeklyWalk(from, to);
    ListOfTwo(pattern, Weekly, from, to, "logstash-", fmt, from, from + 604800000,
              Label("logstash-2017.", 2, 8), Label("logstash-2017.", 2, 9));
    WeeklyText(Label("logstash-2017.", 2, 8), Label("logstash-2017.", 2, 9));
  }

  lemma WeeklyRange(pattern: string, hour: int)
    requires pattern == "[logstash-]YYYY.W" && hour == 100
    ensures IndexList(pattern, Weekly, MakeTimeMs(0), MakeTimeMs(hour)) == "logstash-2017.28,logstash-2017.29"
  {
    WeeklyList(pattern, "YYYY.W", MakeTimeMs(0), MakeTimeMs(hour));
  }

  /** Weekly over 100 hours: ISO weeks 28 and 29 of 2017. */
  lemma WeeklyIndexList(pattern: string, interval: string, hour: int)
    requires pattern == "[logstash-]YYYY.W" && interval == "Weekly" && hour == 100
    ensures GetIndexListByTime(pattern, interval, hour) == "logstash-2017.28,logstash-2017.29"
  {
    IntervalNamed(interval, Weekly);
    ByTimeIsIndexList(pattern, interval, Weekly, hour);
    WeeklyRange(pattern, hour);
  }

  // ---------------------------------------------------------------------
  // Monthly over 700 hours: July and August 2017.

  lemma MonthlyDates(from: int)
    requires from == 1500000000000
    ensures DateOf(from) == Date(2017, 7, 14)
    ensures DateOf(from + 2678400000) == Date(2017, 8, 14)
  {
    July14(from);
    August14(from + 2678400000);
  }

  /** July has 31 days, so the month after July 14 starts 31 days later,
      past the end of the range. */
  lemma MonthlyWalk(from: int, to: int)
    requires DateOf(from) == Date(2017, 7, 14) && to == from + 2520000000
    ensures Walk(Monthly, from, to) == [from, from + 2678400000]
  {
    AddMonthStep(from);
    assert Advance(Monthly, from) == from + 2678400000;
    IsWalkUnique(Monthly, from, to, [from, from + 2678400000]);
  }

  lemma MonthFormat(fmt: string)
    requires fmt == "YYYY.MM"
    ensures ParseFormat(fmt) == [Year, Lit('.'), Month]
  {
    ParseOfRender(fmt, [Year, Lit('.'), Month]);
  }

  /** The monthly name of an instant: the year and the month. */
  lemma MonthName(fmt: string, t: int, d: Date)
    requires fmt == "YYYY.MM" && DateOf(t) == d
    ensures IndexName("logstash-", fmt, t) == "logstash-" + (YearText(d.year) + ("." + Field2(d.month)))
  {
    MonthFormat(fmt);
    FormatThree(ParseFormat(fmt), t);
  }

  lemma Month2017Name(fmt: string, t: int, y: int, m: int, day: int, a: int, b: int)
    requires fmt == "YYYY.MM" && y == 2017 && 1 <= m <= 12 && DateOf(t) == Date(y, m, day)
    requires 0 <= a < 10 && 0 <= b < 10 && m == 10 * a + b
    ensures IndexName("logstash-", fmt, t) == Label("logstash-2017.", a, b)
  {
    MonthName(fmt, t, Date(y, m, day));
    Year2017(y);
    TwoDigits(m, a, b);
    MonthLabel(IndexName("logstash-", fmt, t), a, b);
  }

  lemma MonthLabel(s: string, a: int, b: int)
    requires 0 <= a < 10 && 0 <= b < 10
    requires s == "logstash-" + ("2017" + ("." + [DigitChar(a), DigitChar(b)]))
    ensures s == Label("logstash-2017.", a, b)
  {
    assert "logstash-" + ("2017" + ".") == "logstash-2017.";
  }

  lemma MonthlyNames(fmt: string, from: int)
    requires fmt == "YYYY.MM"
    requires DateOf(from) == Date(2017, 7, 14)
    requires DateOf(from + 2678400000) == Date(2017, 8, 14)
    ensures IndexName("logstash-", fmt, from) == Label("logstash-2017.", 0, 7)
    ensures IndexName("logstash-", fmt, from + 2678400000) == Label("logstash-2017.", 0, 8)
  {
    Month2017Name(fmt, from, 2017, 7, 14, 0, 7);
    Month2017Name(fmt, from + 2678400000, 2017, 8, 14, 0, 8);
  }

  lemma MonthlyPattern(pattern: string)
    requires pattern == "[logstash-]YYYY.MM"
    ensures SplitPattern(pattern) == Some(("logstash-", "YYYY.MM"))
  {
    PatternParts(pattern, "logstash-", "YYYY.MM");
  }

  lemma MonthlyText(s1: string, s2: string)
    requires s1 == Label("logstash-2017.", 0, 7) && s2 == Label("logstash-2017.", 0, 8)
    ensures s1 + "," + s2 == "logstash-2017.07,logstash-2017.08"
  {
    LabelText("logstash-2017.", 0, 7, "logstash-2017.07");
    LabelText("logstash-2017.", 0, 8, "logstash-2017.08");
  }

  lemma MonthlyList(pattern: string, fmt: string, from: int, to: int)
    requires pattern == "[logstash-]YYYY.MM" && fmt == "YYYY.MM"
    requires from == 1500000000000 && to == from + 2520000000
    ensures IndexList(pattern, Monthly, from, to) == "logstash-2017.07,logstash-2017.08"
  {
    MonthlyDates(from);
    MonthlyNames(fmt, from);
    MonthlyPattern(pattern);
    MonthlyWalk(from, to);
    ListOfTwo(pattern, Monthly, from, to, "logstash-", fmt, from, from + 2678400000,
              Label("logstash-2017.", 0, 7), Label("logstash-2017.", 0, 8));
    MonthlyText(Label("logstash-2017.", 0, 7), Label("logstash-2017.", 0, 8));
  }

  lemma MonthlyRange(pattern: string, hour: int)
    requires pattern == "[logstash-]YYYY.MM" && hour == 700
    ensures IndexList(pattern, Monthly, MakeTimeMs(0), MakeTimeMs(hour)) == "logstash-2017.07,logstash-2017.08"
  {
    MonthlyList(pattern, "YYYY.MM", MakeTimeMs(0), MakeTimeMs(hour));
  }

  /** Monthly over 700 hours: July and August 2017. */
  lemma MonthlyIndexList(pattern: string, interval: string, hour: int)
    requires pattern == "[logstash-]YYYY.MM" && interval == "Monthly" && hour == 700
    ensures GetIndexListByTime(pattern, interval, hour) == "logstash-2017.07,logstash-2017.08"
  {
    IntervalNamed(interval, Monthly);
    ByTimeIsIndexList(pattern, interval, Monthly, hour);
    MonthlyRange(pattern, hour);
  }

  /** Names are not deduplicated, so they repeat when the format is coarser
      than the interval: the daily walk of July 14 to 16 named by month gives
      `logstash-2017.07` three times. */
  lemma DailyWalkMonthNamesRepeat(fmt: string, from: int, to: int)
    requires fmt == "YYYY.MM" && from == 1500000000000 && to == from + 172800000
    ensures IndexNames("logstash-", fmt, Walk(Daily, from, to))
            == ["logstash-2017.07", "logstash-2017.07", "logstash-2017.07"]
  {
    DailyWalk(from, to);
    DailyDates(from);
    DailyMonthNames(fmt, from);
    NamesThree("logstash-", fmt, from, from + 86400000, from + 172800000);
  }

  lemma DailyMonthNames(fmt: string, from: int)
    requires fmt == "YYYY.MM"
    requires DateOf(from) == Date(2017, 7, 14)
    requires DateOf(from + 86400000) == Date(2017, 7, 15)
    requires DateOf(from + 172800000) == Date(2017, 7, 16)
    ensures IndexName("logstash-", fmt, from) == "logstash-2017.07"
    ensures IndexName("logstash-", fmt, from + 86400000) == "logstash-2017.07"
    ensures IndexName("logstash-", fmt, from + 172800000) == "logstash-2017.07"
  {
    JulyMonthName(fmt, from, 14);
    JulyMonthName(fmt, from + 86400000, 15);
    JulyMonthName(fmt, from + 172800000, 16);
  }

  /** Any day of July 2017 is named `logstash-2017.07` by month. */
  lemma JulyMonthName(fmt: string, t: int, day: int)
    requires fmt == "YYYY.MM" && DateOf(t) == Date(2017, 7, day)
    ensures IndexName("logstash-", fmt, t) == "logstash-2017.07"
  {
    Month2017Name(fmt, t, 2017, 7, day, 0, 7);
    JulyText(IndexName("logstash-", fmt, t));
  }

  lemma JulyText(s: string)
    requires s == Label("logstash-2017.", 0, 7)
    ensures s == "logstash-2017.07"
  {
    LabelText("logstash-2017.", 0, 7, "logstash-2017.07");
  }

  // ---------------------------------------------------------------------
  // Yearly over 10000 hours: 2017, 2018 and 2019.

  lemma NotLeap(y: int)
    requires y == 2018 || y == 2019
    ensures DaysInYear(y) == 365
  {
  }

  lemma YearlyDates(from: int)
    requires from == 1500000000000
    ensures DateOf(from) == Date(2017, 7, 14)
    ensures DateOf(from + 31536000000) == Date(2018, 7, 14)
    ensures DateOf(from + 63072000000) == Date(2019, 7, 14)
  {
    July14(from);
    July14Of2018(from + 31536000000);
    July14Of2019(from + 63072000000);
  }

  /** Neither 2018 nor 2019 is a leap year, so each year step from July 14
      is 365 days; the second step passes the end of the range. */
  lemma YearlyWalk(from: int, to: int)
    requires DateOf(from) == Date(2017, 7, 14)
    requires DateOf(from + 31536000000) == Date(2018, 7, 14)
    requires to == from + 36000000000
    ensures Walk(Yearly, from, to) == [from, from + 31536000000, from + 63072000000]
  {
    YearStep(from, Date(2017, 7, 14));
    YearStep(from + 31536000000, Date(2018, 7, 14));
    IsWalkUnique(Yearly, from, to, [from, from + 31536000000, from + 63072000000]);
  }

  /** From a day after February, a year step is 365 days when the next
      year is not a leap year. */
  lemma YearStep(t: int, d: Date)
    requires DateOf(t) == d && d.month > 2 && (d.year == 2017 || d.year == 2018)
    ensures Advance(Yearly, t) == t + 31536000000
  {
    AddYearStep(t);
    NotLeap(d.year + 1);
  }

  lemma YearFormat(fmt: string)
    requires fmt == "YYYY"
    ensures ParseFormat(fmt) == [Year]
  {
    ParseOfRender(fmt, [Year]);
  }

  /** The yearly name of an instant: its year. */
  lemma YearName(fmt: string, t: int, d: Date)
    requires fmt == "YYYY" && DateOf(t) == d
    ensures IndexName("logstash-", fmt, t) == "logstash-" + YearText(d.year)
  {
    YearFormat(fmt);
    FormatCons(Year, [], t);
  }

  lemma YearIs(y: int, ys: string)
    requires || (y == 2017 && ys == "2017")
             || (y == 2018 && ys == "2018")
             || (y == 2019 && ys == "2019")
    ensures YearText(y) == ys
  {
    if y == 2017 {
      Year2017(y);
    } else if y == 2018 {
      Year2018(y);
    } else {
      Year2019(y);
    }
  }

  lemma YearNameIs(fmt: string, t: int, y: int, m: int, day: int, ys: string)
    requires fmt == "YYYY" && 1 <= m <= 12 && DateOf(t) == Date(y, m, day)
    requires || (y == 2017 && ys == "2017")
             || (y == 2018 && ys == "2018")
             || (y == 2019 && ys == "2019")
    ensures IndexName("logstash-", fmt, t) == "logstash-" + ys
  {
    YearName(fmt, t, Date(y, m, day));
    YearIs(y, ys);
  }

  lemma YearlyNames(fmt: string, from: int)
    requires fmt == "YYYY"
    requires DateOf(from) == Date(2017, 7, 14)
    requires DateOf(from + 31536000000) == Date(2018, 7, 14)
    requires DateOf(from + 63072000000) == Date(2019, 7, 14)
    ensures IndexName("logstash-", fmt, from) == "logstash-" + "2017"
    ensures IndexName("logstash-", fmt, from + 31536000000) == "logstash-" + "2018"
    ensures IndexName("logstash-", fmt, from + 63072000000) == "logstash-" + "2019"
  {
    YearNameIs(fmt, from, 2017, 7, 14, "2017");
    YearNameIs(fmt, from + 31536000000, 2018, 7, 14, "2018");
    YearNameIs(fmt, from + 63072000000, 2019, 7, 14, "2019");
  }

  lemma YearlyPattern(pattern: string)
    requires pattern == "[logstash-]YYYY"
    ensures SplitPattern(pattern) == Some(("logstash-", "YYYY"))
  {
    PatternParts(pattern, "logstash-", "YYYY");
  }

  lemma YearlyConcat(s1: string, s2: string, s3: string)
    requires s1 == "logstash-" + "2017" && s2 == "logstash-" + "2018" && s3 == "logstash-" + "2019"
    ensures s1 + "," + s2 + "," + s3 == "logstash-2017,logstash-2018,logstash-2019"
  {
  }

  lemma YearlyList(pattern: string, fmt: string, from: int, to: int)
    requires pattern == "[logstash-]YYYY" && fmt == "YYYY"
    requires from == 1500000000000 && to == from + 36000000000
    ensures IndexList(pattern, Yearly, from, to) == "logstash-2017,logstash-2018,logstash-2019"
  {
    YearlyDates(from);
    YearlyNames(fmt, from);
    YearlyPattern(pattern);
    YearlyWalk(from, to);
    ListOfThree(pattern, Yearly, from, to, "logstash-", fmt, from, from + 31536000000, from + 63072000000,
                "logstash-" + "2017", "logstash-" + "2018", "logstash-" + "2019");
    YearlyConcat("logstash-" + "2017", "logstash-" + "2018", "logstash-" + "2019");
  }

  lemma YearlyRange(pattern: string, hour: int)
    requires pattern == "[logstash-]YYYY" && hour == 10000
    ensures IndexList(pattern, Yearly, MakeTimeMs(0), MakeTimeMs(hour)) == "logstash-2017,logstash-2018,logstash-2019"
  {
    YearlyList(pattern, "YYYY", MakeTimeMs(0), MakeTimeMs(hour));
  }

  /** Yearly over 10000 hours: 2017, 2018 and 2019. */
  lemma YearlyIndexList(pattern: string, interval: string, hour: int)
    requires pattern == "[logstash-]YYYY" && interval == "Yearly" && hour == 10000
    ensures GetIndexListByTime(pattern, interval, hour) == "logstash-2017,logstash-2018,logstash-2019"
  {
    IntervalNamed(interval, Yearly);
    ByTimeIsIndexList(pattern, interval, Yearly, hour);
    YearlyRange(pattern, hour);
  }

  // ---------------------------------------------------------------------
  // No interval.

  /** Without an interval the pattern is the index itself. */
  lemma NoIntervalIndexList(pattern: string, interval: string, hour: int)
    requires pattern == "logstash-test" && interval == "" && hour == 1
    ensures GetIndexListByTime(pattern, interval, hour) == "logstash-test"
  {
    IntervalNamed(interval, NoInterval);
    ByTimeIsIndexList(pattern, interval, NoInterval, hour);
  }
}
