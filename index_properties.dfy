/** What the walk of the index-list resolver names.

    The walk is characterised by its steps; on the fixed rotations (hours,
    days, weeks) it is an arithmetic progression of known length; on every
    rotation it passes through consecutive partitions (hour, day,
    Monday-based week, month, calendar year), so that every partition the
    range touches is named, each once, and at most one partition beyond the
    end's. Monthly walks keep that promise only from a day every month has:
    from January 31 a month on is March 3, and February is skipped. */
module IndexProperties {
  import opened Wrappers
  import opened Text
  import opened Calendar
  import opened IndexPattern

  // ---------------------------------------------------------------------
  // The walk described by its steps.

  /** `ws` starts at `cur`, steps by one interval, and stops at the first
      instant at or after `end`. */
  predicate IsWalk(iv: Interval, cur: int, end: int, ws: seq<int>)
    requires iv != NoInterval
  {
    && 1 <= |ws| && ws[0] == cur && end <= ws[|ws| - 1]
    && (forall i :: 0 <= i < |ws| - 1 ==> ws[i] < end && ws[i + 1] == Advance(iv, ws[i]))
  }

  lemma {:induction false} WalkIsWalk(iv: Interval, cur: int, end: int)
    requires iv != NoInterval
    ensures IsWalk(iv, cur, end, Walk(iv, cur, end))
    decreases end - cur
  {
    if cur < end {
      var next := Advance(iv, cur);
      WalkIsWalk(iv, next, end);
      IsWalkCons(iv, cur, end, Walk(iv, next, end));
    }
  }

  /** A step before the end followed by a walk from the next instant is a walk. */
  lemma IsWalkCons(iv: Interval, cur: int, end: int, rest: seq<int>)
    requires iv != NoInterval && cur < end
    requires IsWalk(iv, Advance(iv, cur), end, rest)
    ensures IsWalk(iv, cur, end, [cur] + rest)
  {
    var w := [cur] + rest;
    forall i | 0 <= i < |w| - 1
      ensures w[i] < end && w[i + 1] == Advance(iv, w[i])
    {
      if 0 < i {
        assert w[i] == rest[i - 1] && w[i + 1] == rest[i];
      }
    }
  }

  /** The walk is the only sequence with those steps. */
  lemma {:induction false} IsWalkUnique(iv: Interval, cur: int, end: int, ws: seq<int>)
    requires iv != NoInterval
    requires IsWalk(iv, cur, end, ws)
    ensures ws == Walk(iv, cur, end)
    decreases |ws|
  {
    if |ws| > 1 {
      IsWalkTail(iv, cur, end, ws);
      IsWalkUnique(iv, Advance(iv, cur), end, ws[1..]);
      assert ws == [cur] + ws[1..];
    }
  }

  /** A walk of more than one instant starts before the end and goes on
      with a walk from the next instant. */
  lemma IsWalkTail(iv: Interval, cur: int, end: int, ws: seq<int>)
    requires iv != NoInterval && IsWalk(iv, cur, end, ws) && |ws| > 1
    ensures cur < end && ws[1] == Advance(iv, cur)
    ensures IsWalk(iv, Advance(iv, cur), end, ws[1..])
  {
    var rest := ws[1..];
    forall i | 0 <= i < |rest| - 1
      ensures rest[i] < end && rest[i + 1] == Advance(iv, rest[i])
    {
      assert rest[i] == ws[i + 1] && rest[i + 1] == ws[i + 2];
    }
  }

  predicate StrictlyIncreasing(ws: seq<int>) {
    forall i, j :: 0 <= i < j < |ws| ==> ws[i] < ws[j]
  }

  /** The instants named strictly increase. */
  lemma {:induction false} WalkIncreasing(iv: Interval, cur: int, end: int)
    requires iv != NoInterval
    ensures StrictlyIncreasing(Walk(iv, cur, end))
    decreases end - cur
  {
    if cur < end {
      var next := Advance(iv, cur);
      var w, rest := Walk(iv, cur, end), Walk(iv, next, end);
      WalkIncreasing(iv, next, end);
      assert w == [cur] + rest;
      ConsIncreasing(cur, rest);
    }
  }

  /** A value below the head of an increasing sequence extends it. */
  lemma ConsIncreasing(c: int, ws: seq<int>)
    requires StrictlyIncreasing(ws) && 1 <= |ws| && c < ws[0]
    ensures StrictlyIncreasing([c] + ws)
  {
    var w := [c] + ws;
    forall i, j | 0 <= i < j < |w|
      ensures w[i] < w[j]
    {
      assert w[j] == ws[j - 1];
      if 0 < i {
        assert w[i] == ws[i - 1];
      } else if 1 < j {
        assert ws[0] < ws[j - 1];
      }
    }
  }

  // ---------------------------------------------------------------------
  // Fixed rotations: hours, days, weeks.

  predicate FixedStep(iv: Interval) {
    iv == Hourly || iv == Daily || iv == Weekly
  }

  function StepLength(iv: Interval): (k: int)
    requires FixedStep(iv)
    ensures k > 0
  {
    match iv
    case Hourly => 3600000
    case Daily => 86400000
    case Weekly => 604800000
  }

  lemma AdvanceFixed(iv: Interval, t: int)
    requires FixedStep(iv)
    ensures Advance(iv, t) == t + StepLength(iv)
  {
    if iv == Daily {
      AddDaysIsFixed(t, 1);
    } else if iv == Weekly {
      AddDaysIsFixed(t, 7);
    }
  }

  /** The number of instants a fixed-step walk names: the start, and one per
      started step of the range. */
  function StepCount(k: int, cur: int, end: int): (n: int)
    requires k > 0
    ensures n >= 1
  {
    if cur < end then (end - cur + k - 1) / k + 1 else 1
  }

  lemma {:induction false} MulAtLeast(a: int, k: int)
    requires 1 <= a && 0 < k
    ensures a * k >= k
    decreases a
  {
    if a > 1 {
      MulAtLeast(a - 1, k);
      assert a * k == (a - 1) * k + k;
    }
  }

  /** Distinct multiples of k are at least k apart. */
  lemma MultiplesApart(a: int, b: int, k: int)
    requires 0 < k && a != b
    ensures a * k - b * k >= k || b * k - a * k >= k
  {
    if a > b {
      MulAtLeast(a - b, k);
      assert (a - b) * k == a * k - b * k;
    } else {
      MulAtLeast(b - a, k);
      assert (b - a) * k == b * k - a * k;
    }
  }

  lemma DivUnique(x: int, k: int, q: int, r: int)
    requires 0 <= r < k && x == q * k + r
    ensures x / k == q
  {
    var q', r' := x / k, x % k;
    assert x == q' * k + r';
    if q' != q {
      MultiplesApart(q, q', k);
    }
  }

  lemma StepCountStep(k: int, cur: int, end: int)
    requires k > 0 && cur < end
    ensures StepCount(k, cur, end) == StepCount(k, cur + k, end) + 1
  {
    var n := end - cur;
    var q, r := (n - 1) / k, (n - 1) % k;
    assert n - 1 == q * k + r;
    DivUnique(n + k - 1, k, q + 1, r);
    if k < n {
      DivUnique(n - k + k - 1, k, q, r);
    } else {
      assert q == 0;
    }
  }

  /** The walk by a fixed step of `k` milliseconds. */
  function FixedWalk(k: int, cur: int, end: int): seq<int>
    requires k > 0
    decreases end - cur
  {
    if cur < end then [cur] + FixedWalk(k, cur + k, end) else [cur]
  }

  /** On hours, days and weeks the walk steps by a fixed duration. */
  lemma {:induction false} WalkIsFixedWalk(iv: Interval, k: int, cur: int, end: int)
    requires FixedStep(iv) && k == StepLength(iv)
    ensures Walk(iv, cur, end) == FixedWalk(k, cur, end)
    decreases end - cur
  {
    if cur < end {
      AdvanceFixed(iv, cur);
      WalkIsFixedWalk(iv, k, cur + k, end);
    }
  }

  lemma {:induction false} FixedWalkLength(k: int, cur: int, end: int)
    requires k > 0
    ensures |FixedWalk(k, cur, end)| == StepCount(k, cur, end)
    decreases end - cur
  {
    if cur < end {
      FixedWalkLength(k, cur + k, end);
      StepCountStep(k, cur, end);
    }
  }

  /** `w` is cur, cur + k, cur + 2k, ... */
  predicate ProgressionFrom(w: seq<int>, cur: int, k: int) {
    forall i :: 0 <= i < |w| ==> w[i] == cur + i * k
  }

  lemma {:induction false} FixedWalkValues(k: int, cur: int, end: int)
    requires k > 0
    ensures ProgressionFrom(FixedWalk(k, cur, end), cur, k)
    decreases end - cur
  {
    if cur < end {
      FixedWalkValues(k, cur + k, end);
      ProgressionCons(cur, k, FixedWalk(k, cur + k, end));
    }
  }

  lemma MulSucc(i: int, k: int)
    ensures k + (i - 1) * k == i * k
  {
  }

  /** `cur` followed by the progression from cur + k is the progression from cur. */
  lemma ProgressionCons(cur: int, k: int, rest: seq<int>)
    requires ProgressionFrom(rest, cur + k, k)
    ensures ProgressionFrom([cur] + rest, cur, k)
  {
    var w := [cur] + rest;
    forall i | 0 < i < |w|
      ensures w[i] == cur + i * k
    {
      assert w[i] == rest[i - 1];
      MulSucc(i, k);
    }
  }

  /** A fixed-step walk is the progression cur, cur + k, cur + 2k, ... of
      StepCount(k, cur, end) instants. */
  lemma WalkFixed(iv: Interval, cur: int, end: int)
    requires FixedStep(iv)
    ensures var w, k := Walk(iv, cur, end), StepLength(iv);
            |w| == StepCount(k, cur, end) && forall i :: 0 <= i < |w| ==> w[i] == cur + i * k
  {
    var k := StepLength(iv);
    WalkIsFixedWalk(iv, k, cur, end);
    FixedWalkLength(k, cur, end);
    FixedWalkValues(k, cur, end);
  }

  // ---------------------------------------------------------------------
  // Partitions.

  /** The partition an instant falls in, numbered consecutively: its hour,
      its day, its Monday-based week, its month or its year. */
  function Partition(iv: Interval, t: int): int
    requires iv != NoInterval
  {
    match iv
    case Hourly => t / 3600000
    case Daily => t / 86400000
    case Weekly => (t / 86400000 + 3) / 7
    case Monthly => MonthNumber(DateOf(t))
    case Yearly => DateOf(t).year
  }

  lemma PartitionMonotone(iv: Interval, t: int, u: int)
    requires iv != NoInterval && t <= u
    ensures Partition(iv, t) <= Partition(iv, u)
  {
    DayNumberMonotone(t, u);
    if iv == Monthly || iv == Yearly {
      InstantMonthMonotone(t, u);
    }
  }

  /** A walk may take a month at a time only from a day every month has. */
  predicate StepsMonthly(iv: Interval, t: int) {
    iv == Monthly ==> DateOf(t).day <= 28
  }

  /** One step of the walk moves to the next partition. */
  lemma PartitionStep(iv: Interval, t: int)
    requires iv != NoInterval && StepsMonthly(iv, t)
    ensures Partition(iv, Advance(iv, t)) == Partition(iv, t) + 1
    ensures StepsMonthly(iv, Advance(iv, t))
  {
    match iv
    case Hourly =>
    case Daily =>
      AdvanceFixed(iv, t);
    case Weekly =>
      AdvanceFixed(iv, t);
      DivModDay(t + 604800000, t / 86400000 + 7, t % 86400000);
    case Monthly =>
      AddMonthDate(t);
    case Yearly =>
      AddYearDate(t);
  }

  /** The i-th instant of `ws` is in the i-th partition after `p`. */
  predicate ConsecutivePartitions(iv: Interval, ws: seq<int>, p: int)
    requires iv != NoInterval
  {
    forall i :: 0 <= i < |ws| ==> Partition(iv, ws[i]) == p + i
  }

  /** The i-th instant of the walk is in the i-th partition from the start's. */
  lemma {:induction false} WalkPartitions(iv: Interval, cur: int, end: int)
    requires iv != NoInterval && StepsMonthly(iv, cur)
    ensures ConsecutivePartitions(iv, Walk(iv, cur, end), Partition(iv, cur))
    decreases end - cur
  {
    if cur < end {
      var next := Advance(iv, cur);
      PartitionStep(iv, cur);
      WalkPartitions(iv, next, end);
      ConsecutiveCons(iv, cur, Walk(iv, next, end));
    }
  }

  /** An instant followed by instants from the next partition on. */
  lemma ConsecutiveCons(iv: Interval, cur: int, rest: seq<int>)
    requires iv != NoInterval && ConsecutivePartitions(iv, rest, Partition(iv, cur) + 1)
    ensures ConsecutivePartitions(iv, [cur] + rest, Partition(iv, cur))
  {
    var w := [cur] + rest;
    forall i | 0 < i < |w|
      ensures Partition(iv, w[i]) == Partition(iv, cur) + i
    {
      assert w[i] == rest[i - 1];
    }
  }

  /** Some instant of `ws` is in partition `p`. */
  predicate PartitionNamed(iv: Interval, ws: seq<int>, p: int)
    requires iv != NoInterval
  {
    exists i :: 0 <= i < |ws| && Partition(iv, ws[i]) == p
  }

  /** Every partition that [cur, end] touches is the partition of an instant
      of the walk. */
  lemma WalkCoversPartitions(iv: Interval, cur: int, end: int, t: int)
    requires iv != NoInterval && StepsMonthly(iv, cur)
    requires cur <= t <= end
    ensures PartitionNamed(iv, Walk(iv, cur, end), Partition(iv, t))
  {
    var w := Walk(iv, cur, end);
    WalkIsWalk(iv, cur, end);
    WalkPartitions(iv, cur, end);
    PartitionMonotone(iv, cur, t);
    PartitionMonotone(iv, t, w[|w| - 1]);
    assert Partition(iv, w[|w| - 1]) == Partition(iv, cur) + |w| - 1;
    var i := Partition(iv, t) - Partition(iv, cur);
    assert Partition(iv, w[i]) == Partition(iv, t);
  }

  /** Every step of the walk, from any instant, moves to a later partition;
      a monthly step from the 29th to the 31st may skip one. */
  lemma PartitionAdvances(iv: Interval, t: int)
    requires iv != NoInterval
    ensures Partition(iv, t) < Partition(iv, Advance(iv, t))
  {
    if iv == Monthly {
      AddMonthLater(t);
    } else {
      PartitionStep(iv, t);
    }
  }

  /** The partitions of `ws` strictly increase. */
  predicate PartitionsIncreasing(iv: Interval, ws: seq<int>)
    requires iv != NoInterval
  {
    forall i, j :: 0 <= i < j < |ws| ==> Partition(iv, ws[i]) < Partition(iv, ws[j])
  }

  lemma PartitionsIncreasingCons(iv: Interval, cur: int, rest: seq<int>)
    requires iv != NoInterval && 1 <= |rest| && PartitionsIncreasing(iv, rest)
    requires Partition(iv, cur) < Partition(iv, rest[0])
    ensures PartitionsIncreasing(iv, [cur] + rest)
  {
    var w := [cur] + rest;
    forall i, j | 0 <= i < j < |w|
      ensures Partition(iv, w[i]) < Partition(iv, w[j])
    {
      assert w[j] == rest[j - 1];
      if i > 0 {
        assert w[i] == rest[i - 1];
      } else if j > 1 {
        assert Partition(iv, rest[0]) < Partition(iv, rest[j - 1]);
      }
    }
  }

  /** No two instants of the walk share a partition: the partitions of the
      walk strictly increase, whatever day a monthly walk starts on. */
  lemma {:induction false} WalkPartitionsDistinct(iv: Interval, cur: int, end: int)
    requires iv != NoInterval
    ensures PartitionsIncreasing(iv, Walk(iv, cur, end))
    decreases end - cur
  {
    if cur < end {
      var next := Advance(iv, cur);
      PartitionAdvances(iv, cur);
      WalkPartitionsDistinct(iv, next, end);
      PartitionsIncreasingCons(iv, cur, Walk(iv, next, end));
    }
  }

  /** The walk goes at most one partition beyond the end's: the last instant
      is one step from an instant before the end. */
  lemma WalkOvershoot(iv: Interval, cur: int, end: int)
    requires iv != NoInterval && StepsMonthly(iv, cur) && cur < end
    ensures var w := Walk(iv, cur, end);
            Partition(iv, end) <= Partition(iv, w[|w| - 1]) <= Partition(iv, end) + 1
  {
    var w := Walk(iv, cur, end);
    var n := |w|;
    WalkIsWalk(iv, cur, end);
    WalkPartitions(iv, cur, end);
    assert n >= 2 by {
      if n == 1 {
        assert w[0] == cur;
      }
    }
    PartitionMonotone(iv, w[n - 2], end);
    PartitionMonotone(iv, end, w[n - 1]);
  }

  lemma DateOfJanuary31(t: int)
    requires t == 1485820800000
    ensures DateOf(t) == Date(2017, 1, 31)
  {
    assert DaysFromCivil(Date(2017, 1, 31)) == 17197;
    DivModDay(t, 17197, 0);
    CivilFromDaysOfCivil(Date(2017, 1, 31));
  }

  lemma DateOfFebruary28(t: int)
    requires t == 1488240000000
    ensures DateOf(t) == Date(2017, 2, 28)
  {
    assert DaysFromCivil(Date(2017, 2, 28)) == 17225;
    DivModDay(t, 17225, 0);
    CivilFromDaysOfCivil(Date(2017, 2, 28));
  }

  lemma DateOfMarch3(t: int)
    requires t == 1488499200000
    ensures DateOf(t) == Date(2017, 3, 3)
  {
    assert DaysFromCivil(Date(2017, 3, 3)) == 17228;
    DivModDay(t, 17228, 0);
    CivilFromDaysOfCivil(Date(2017, 3, 3));
  }

  /** From January 31, 2017 to February 28, 2017 the monthly walk names
      January 31 and March 3: no instant of February. */
  lemma MonthlySkipsFebruary(from: int, to: int)
    requires from == 1485820800000 && to == 1488240000000
    ensures DateOf(from) == Date(2017, 1, 31) && DateOf(to) == Date(2017, 2, 28)
    ensures var w := Walk(Monthly, from, to);
            |w| == 2 && w[0] == from && DateOf(w[1]) == Date(2017, 3, 3)
  {
    DateOfJanuary31(from);
    DateOfFebruary28(to);
    AddMonthStep(from);
    var next := Advance(Monthly, from);
    assert next == 1488499200000;
    DateOfMarch3(next);
    var ws := [from, next];
    assert IsWalk(Monthly, from, to, ws);
    IsWalkUnique(Monthly, from, to, ws);
  }

  // ---------------------------------------------------------------------
  // Names of instants in the same partition.

  /** Tokens whose text is the same throughout a partition of the rotation:
      every token for hours, all but HH for days, only W for weeks, YYYY and
      MM for months, YYYY for years; literal characters always. */
  predicate Resolves(iv: Interval, tok: Token) {
    tok.Lit? ||
    match iv
    case NoInterval => false
    case Hourly => true
    case Daily => tok != Hour
    case Weekly => tok == Week
    case Monthly => tok == Year || tok == Month
    case Yearly => tok == Year
  }

  predicate FormatResolves(iv: Interval, ts: seq<Token>) {
    forall i :: 0 <= i < |ts| ==> Resolves(iv, ts[i])
  }

  /** The hour of an instant determines its day and its hour of the day. */
  lemma HourParts(t: int)
    ensures t / 86400000 == (t / 3600000) / 24
    ensures HourOf(t) == (t / 3600000) % 24
  {
    var a, b := t / 3600000, t % 3600000;
    var q, h := a / 24, a % 24;
    assert t == q * 86400000 + (h * 3600000 + b);
    DivModDay(t, q, h * 3600000 + b);
    assert (h * 3600000 + b) / 3600000 == h;
  }

  lemma SamePartitionSameText(iv: Interval, tok: Token, t: int, u: int)
    requires iv != NoInterval && Resolves(iv, tok)
    requires Partition(iv, t) == Partition(iv, u)
    ensures TokenText(tok, t) == TokenText(tok, u)
  {
    match iv
    case Hourly => SameHourSameText(tok, t, u);
    case Daily => SameFieldsSameText(tok, t, u);
    case Weekly => SameWeekSameText(tok, t, u);
    case Monthly => SameMonthSameText(tok, t, u);
    case Yearly => SameFieldsSameText(tok, t, u);
  }

  lemma SameHourSameText(tok: Token, t: int, u: int)
    requires t / 3600000 == u / 3600000
    ensures TokenText(tok, t) == TokenText(tok, u)
  {
    SameHour(t, u);
    SameFieldsSameText(tok, t, u);
  }

  lemma SameWeekSameText(tok: Token, t: int, u: int)
    requires tok == Week || tok.Lit?
    requires (t / 86400000 + 3) / 7 == (u / 86400000 + 3) / 7
    ensures TokenText(tok, t) == TokenText(tok, u)
  {
    IsoWeekOfWeek(t / 86400000, u / 86400000);
    SameFieldsSameText(tok, t, u);
  }

  lemma SameMonthSameText(tok: Token, t: int, u: int)
    requires tok == Year || tok == Month || tok.Lit?
    requires MonthNumber(DateOf(t)) == MonthNumber(DateOf(u))
    ensures TokenText(tok, t) == TokenText(tok, u)
  {
    SameMonth(t, u);
    SameFieldsSameText(tok, t, u);
  }

  /** A token renders the same text at two instants that agree on the one
      field it shows. */
  lemma SameFieldsSameText(tok: Token, t: int, u: int)
    requires tok == Year ==> DateOf(t).year == DateOf(u).year
    requires tok == Month ==> DateOf(t).month == DateOf(u).month
    requires tok == Day ==> DateOf(t).day == DateOf(u).day
    requires tok == Hour ==> HourOf(t) == HourOf(u)
    requires tok == Week ==> IsoWeek(t / 86400000) == IsoWeek(u / 86400000)
    ensures TokenText(tok, t) == TokenText(tok, u)
  {
  }

  /** Two instants of one hour have the same day and hour of day. */
  lemma SameHour(t: int, u: int)
    requires t / 3600000 == u / 3600000
    ensures t / 86400000 == u / 86400000 && HourOf(t) == HourOf(u)
  {
    HourParts(t);
    HourParts(u);
  }

  /** Two instants of one month have the same year and month. */
  lemma SameMonth(t: int, u: int)
    requires MonthNumber(DateOf(t)) == MonthNumber(DateOf(u))
    ensures DateOf(t).year == DateOf(u).year && DateOf(t).month == DateOf(u).month
  {
    DaysFromCivilFromDays(t / 86400000);
    DaysFromCivilFromDays(u / 86400000);
    MonthNumberParts(DateOf(t));
    MonthNumberParts(DateOf(u));
  }

  lemma {:induction false} SamePartitionSameFormat(iv: Interval, ts: seq<Token>, t: int, u: int)
    requires iv != NoInterval && FormatResolves(iv, ts)
    requires Partition(iv, t) == Partition(iv, u)
    ensures FormatInstant(ts, t) == FormatInstant(ts, u)
    decreases |ts|
  {
    if ts != [] {
      SamePartitionSameText(iv, ts[0], t, u);
      assert FormatResolves(iv, ts[1..]) by {
        forall i | 0 <= i < |ts[1..]|
          ensures Resolves(iv, ts[1..][i])
        {
          assert ts[1..][i] == ts[i + 1];
        }
      }
      SamePartitionSameFormat(iv, ts[1..], t, u);
    }
  }

  /** Coverage: when the format names whole partitions of the rotation, the
      index of every instant of the range is among the names resolved. */
  lemma IndexListCovers(pattern: string, iv: Interval, from: int, to: int, t: int, lit: string, fmt: string)
    requires iv != NoInterval && SplitPattern(pattern) == Some((lit, fmt))
    requires FormatResolves(iv, ParseFormat(fmt)) && StepsMonthly(iv, from)
    requires from <= t <= to
    ensures IndexName(lit, fmt, t) in IndexNames(lit, fmt, Walk(iv, from, to))
  {
    var w := Walk(iv, from, to);
    WalkCoversPartitions(iv, from, to, t);
    var i :| 0 <= i < |w| && Partition(iv, w[i]) == Partition(iv, t);
    SamePartitionSameFormat(iv, ParseFormat(fmt), w[i], t);
    assert IndexNames(lit, fmt, w)[i] == IndexName(lit, fmt, t);
  }

  // ---------------------------------------------------------------------
  // The list as text.

  /** Every literal token of `ts` is a character of `f`. */
  predicate LiteralsFrom(ts: seq<Token>, f: string) {
    forall i :: 0 <= i < |ts| ==> ts[i].Lit? ==> ts[i].c in f
  }

  lemma {:induction false} ParseFormatLiterals(f: string)
    ensures LiteralsFrom(ParseFormat(f), f)
    decreases |f|
  {
    if f != [] {
      var ts := ParseFormat(f);
      var n := |TokenSource(ts[0])|;
      assert ts[1..] == ParseFormat(f[n..]);
      ParseFormatLiterals(f[n..]);
      forall i | 0 <= i < |ts| && ts[i].Lit?
        ensures ts[i].c in f
      {
        if i == 0 {
          assert f[0] == ts[0].c;
        } else {
          assert ts[i] == ts[1..][i - 1];
          var k :| 0 <= k < |f[n..]| && f[n..][k] == ts[i].c;
          assert f[n + k] == ts[i].c;
        }
      }
    }
  }

  lemma NoCommaInDigits(s: string)
    requires AllDigits(s)
    ensures ',' !in s
  {
    forall i | 0 <= i < |s|
      ensures s[i] != ','
    {
      assert IsDigit(s[i]);
    }
  }

  lemma TokenTextNoComma(tok: Token, t: int)
    requires tok != Lit(',')
    ensures ',' !in TokenText(tok, t)
  {
    var d := DateOf(t);
    match tok
    case Year =>
      var n: nat := if d.year < 0 then -d.year else d.year;
      NatToStringValue(n);
      ZeroPadValue(NatToString(n), 4);
      NoCommaInDigits(ZeroPad(NatToString(n), 4));
    case Month =>
      NoCommaInDigits(Field2(d.month));
    case Day =>
      NoCommaInDigits(Field2(d.day));
    case Hour =>
      NoCommaInDigits(Field2(HourOf(t)));
    case Week =>
      NoCommaInDigits(NatToString(IsoWeek(t / 86400000)));
    case Lit(c) =>
  }

  lemma {:induction false} FormatNoComma(ts: seq<Token>, t: int)
    requires forall i :: 0 <= i < |ts| ==> ts[i] != Lit(',')
    ensures ',' !in FormatInstant(ts, t)
    decreases |ts|
  {
    if ts != [] {
      TokenTextNoComma(ts[0], t);
      assert forall i :: 0 <= i < |ts[1..]| ==> ts[1..][i] == ts[i + 1];
      FormatNoComma(ts[1..], t);
    }
  }

  lemma NameNoComma(lit: string, fmt: string, t: int)
    requires ',' !in lit && ',' !in fmt
    ensures ',' !in IndexName(lit, fmt, t)
  {
    var ts := ParseFormat(fmt);
    ParseFormatLiterals(fmt);
    forall i | 0 <= i < |ts|
      ensures ts[i] != Lit(',')
    {
      if ts[i].Lit? {
        assert ts[i].c in fmt;
      }
    }
    FormatNoComma(ts, t);
  }

  /** Splitting the resolved list at commas gives back the names of the walk,
      in order, when neither the literal nor the format has a comma. */
  lemma IndexListParts(pattern: string, iv: Interval, from: int, to: int, lit: string, fmt: string)
    requires iv != NoInterval && SplitPattern(pattern) == Some((lit, fmt))
    requires ',' !in lit && ',' !in fmt
    ensures Split(IndexList(pattern, iv, from, to), ',') == IndexNames(lit, fmt, Walk(iv, from, to))
  {
    var names := IndexNames(lit, fmt, Walk(iv, from, to));
    forall i | 0 <= i < |names|
      ensures ',' !in names[i]
    {
      NameNoComma(lit, fmt, Walk(iv, from, to)[i]);
    }
    SplitJoin(names, ',');
  }
}
