/** Resolution of a time-partitioned index pattern into the comma-joined
    list of index names to search.

    A pattern `[literal]FORMAT` names one index per rotation interval: the
    bracketed literal is kept as is and FORMAT is rendered at an instant
    through the date tokens YYYY (year), MM (month), DD (day of month), HH
    (hour of day) and W (ISO 8601 week number); every other character of
    FORMAT is copied. The instants named are those of the walk: the start of
    the range, then, while the current instant is strictly before the end of
    the range, the current instant advanced by one rotation interval (not
    aligned to a partition boundary). With no interval the pattern is the
    whole answer. All dates are in UTC. */
module IndexPattern {
  import opened Wrappers
  import opened Text
  import opened Calendar

  // ---------------------------------------------------------------------
  // Rotation intervals.

  datatype Interval = NoInterval | Hourly | Daily | Weekly | Monthly | Yearly

  /** The interval setting as the datasource stores it; "" stands for none. */
  function IntervalName(iv: Interval): string {
    match iv
    case NoInterval => ""
    case Hourly => "Hourly"
    case Daily => "Daily"
    case Weekly => "Weekly"
    case Monthly => "Monthly"
    case Yearly => "Yearly"
  }

  function ParseInterval(s: string): (r: Option<Interval>)
    ensures r.Some? ==> IntervalName(r.value) == s
  {
    if s == "" then Some(NoInterval)
    else if s == "Hourly" then Some(Hourly)
    else if s == "Daily" then Some(Daily)
    else if s == "Weekly" then Some(Weekly)
    else if s == "Monthly" then Some(Monthly)
    else if s == "Yearly" then Some(Yearly)
    else None
  }

  /** Every interval is recognised under its own name. */
  lemma ParseIntervalName(iv: Interval)
    ensures ParseInterval(IntervalName(iv)) == Some(iv)
  {
  }

  /** The instant one interval after `t`: an hour is a fixed duration, the
      other steps are calendar additions that keep the time of day. */
  function Advance(iv: Interval, t: int): (r: int)
    requires iv != NoInterval
    ensures r > t
  {
    match iv
    case Hourly => t + 3600000
    case Daily => AddDaysIsFixed(t, 1); AddDate(t, 0, 0, 1)
    case Weekly => AddDaysIsFixed(t, 7); AddDate(t, 0, 0, 7)
    case Monthly => AddMonthStep(t); AddDate(t, 0, 1, 0)
    case Yearly => AddYearStep(t); AddDate(t, 1, 0, 0)
  }

  /** The instants named for the range [cur, end]: `cur`, then the walk from
      the next instant while `cur` is before `end`. */
  function Walk(iv: Interval, cur: int, end: int): (w: seq<int>)
    requires iv != NoInterval
    ensures 1 <= |w| && w[0] == cur
    ensures end <= w[|w| - 1] || w == [cur]
    decreases end - cur
  {
    if cur < end then [cur] + Walk(iv, Advance(iv, cur), end) else [cur]
  }

  // ---------------------------------------------------------------------
  // Date formats.

  datatype Token = Year | Month | Day | Hour | Week | Lit(c: char)

  /** The token a non-empty format starts with: YYYY, MM, DD, HH or W when
      the format begins with it, and otherwise its first character. */
  function HeadToken(f: string): (tok: Token)
    requires f != []
    ensures 1 <= |TokenSource(tok)| <= |f| && f[..|TokenSource(tok)|] == TokenSource(tok)
  {
    if |f| >= 4 && f[0] == f[1] == f[2] == f[3] == 'Y' then Year
    else if |f| >= 2 && f[0] == f[1] == 'M' then Month
    else if |f| >= 2 && f[0] == f[1] == 'D' then Day
    else if |f| >= 2 && f[0] == f[1] == 'H' then Hour
    else if f[0] == 'W' then Week
    else Lit(f[0])
  }

  /** Splits a format into tokens, longest token first at each position. */
  function ParseFormat(f: string): (ts: seq<Token>)
    decreases |f|
  {
    if f == [] then []
    else
      var tok := HeadToken(f);
      [tok] + ParseFormat(f[|TokenSource(tok)|..])
  }

  function TokenSource(tok: Token): string {
    match tok
    case Year => "YYYY"
    case Month => "MM"
    case Day => "DD"
    case Hour => "HH"
    case Week => "W"
    case Lit(c) => [c]
  }

  /** The format text a token list stands for. */
  function RenderFormat(ts: seq<Token>): string
    decreases |ts|
  {
    if ts == [] then "" else TokenSource(ts[0]) + RenderFormat(ts[1..])
  }

  lemma {:induction false} RenderParseFormat(f: string)
    ensures RenderFormat(ParseFormat(f)) == f
    decreases |f|
  {
    if f != [] {
      var tok := HeadToken(f);
      var n := |TokenSource(tok)|;
      var rest := ParseFormat(f[n..]);
      RenderParseFormat(f[n..]);
      assert ([tok] + rest)[0] == tok && ([tok] + rest)[1..] == rest;
      assert f == f[..n] + f[n..];
    }
  }

  /** Literal characters that cannot be mistaken for the start of a token. */
  predicate Canonical(ts: seq<Token>) {
    forall i :: 0 <= i < |ts| ==> ts[i].Lit? ==> ts[i].c !in "YMDHW"
  }

  /** A token that starts a format is read back as itself. */
  lemma ParseTokenSource(tok: Token, rest: string)
    requires tok.Lit? ==> tok.c !in "YMDHW"
    ensures ParseFormat(TokenSource(tok) + rest) == [tok] + ParseFormat(rest)
  {
    var f := TokenSource(tok) + rest;
    HeadTokenSource(tok, rest);
    assert f[|TokenSource(tok)|..] == rest;
  }

  lemma HeadTokenSource(tok: Token, rest: string)
    requires tok.Lit? ==> tok.c !in "YMDHW"
    ensures HeadToken(TokenSource(tok) + rest) == tok
  {
    var f := TokenSource(tok) + rest;
    match tok
    case Year =>
      assert f[0] == f[1] == f[2] == f[3] == 'Y';
    case Month =>
      assert f[0] == f[1] == 'M';
    case Day =>
      assert f[0] == f[1] == 'D';
    case Hour =>
      assert f[0] == f[1] == 'H';
    case Week =>
      assert f[0] == 'W';
    case Lit(c) =>
      assert f[0] == c;
  }

  lemma {:induction false} ParseRenderFormat(ts: seq<Token>)
    requires Canonical(ts)
    ensures ParseFormat(RenderFormat(ts)) == ts
    decreases |ts|
  {
    if ts != [] {
      ParseTokenSource(ts[0], RenderFormat(ts[1..]));
      assert Canonical(ts[1..]) by {
        forall i | 0 <= i < |ts[1..]| && ts[1..][i].Lit? ensures ts[1..][i].c !in "YMDHW" {
          assert ts[1..][i] == ts[i + 1];
        }
      }
      ParseRenderFormat(ts[1..]);
    }
  }

  /** YYYY: at least four digits; a year before year 0 gets a minus sign. */
  function YearText(y: int): (s: string)
    ensures 0 <= y ==> AllDigits(s) && DigitsValue(s) == y
    ensures 0 <= y <= 9999 ==> |s| == 4
  {
    var n: nat := if y < 0 then -y else y;
    NatToStringValue(n);
    ZeroPadValue(NatToString(n), 4);
    assert n <= 9999 ==> |NatToString(n)| <= 4 by {
      if n <= 9999 {
        NatToStringWidth(n, 4);
      }
    }
    if y < 0 then "-" + ZeroPad(NatToString(n), 4) else ZeroPad(NatToString(n), 4)
  }

  /** A two-digit field (MM, DD, HH). */
  function Field2(n: nat): (s: string)
    ensures AllDigits(s) && DigitsValue(s) == n
    ensures n < 100 ==> |s| == 2
  {
    NatToStringValue(n);
    ZeroPadValue(NatToString(n), 2);
    assert n < 100 ==> |NatToString(n)| <= 2 by {
      if n < 100 {
        NatToStringWidth(n, 2);
      }
    }
    ZeroPad(NatToString(n), 2)
  }

  /** A two-digit field is the tens digit and the units digit. */
  lemma Field2Digits(n: nat)
    requires n < 100
    ensures Field2(n) == [DigitChar(n / 10), DigitChar(n % 10)]
  {
    if n < 10 {
      assert NatToString(n) == [DigitChar(n)];
      assert Zeros(1) == "0";
    } else {
      assert NatToString(n / 10) == [DigitChar(n / 10)];
    }
  }

  /** A year from 1000 to 9999 is written as its four digits. */
  lemma YearTextDigits(y: int)
    requires 1000 <= y <= 9999
    ensures YearText(y) == [DigitChar(y / 1000), DigitChar(y / 100 % 10), DigitChar(y / 10 % 10), DigitChar(y % 10)]
  {
    FourDigits(y);
    assert YearText(y) == ZeroPad(NatToString(y), 4);
  }

  lemma FourDigits(y: nat)
    requires 1000 <= y <= 9999
    ensures NatToString(y) == [DigitChar(y / 1000), DigitChar(y / 100 % 10), DigitChar(y / 10 % 10), DigitChar(y % 10)]
  {
    var a, b, c := y / 10, y / 100, y / 1000;
    DivTen(y, a, b, c);
    assert NatToString(c) == [DigitChar(c)];
    assert NatToString(b) == NatToString(c) + [DigitChar(b % 10)];
    assert NatToString(a) == NatToString(b) + [DigitChar(a % 10)];
    assert NatToString(y) == NatToString(a) + [DigitChar(y % 10)];
  }

  lemma DivTen(y: int, a: int, b: int, c: int)
    requires 1000 <= y <= 9999 && a == y / 10 && b == y / 100 && c == y / 1000
    ensures a / 10 == b && b / 10 == c && 1 <= c < 10 && 10 <= b && 100 <= a
  {
  }

  /** The text a token renders to at instant `t`. */
  function TokenText(tok: Token, t: int): string {
    var d := DateOf(t);
    match tok
    case Year => YearText(d.year)
    case Month => Field2(d.month)
    case Day => Field2(d.day)
    case Hour => Field2(HourOf(t))
    case Week => NatToString(IsoWeek(t / 86400000))
    case Lit(c) => [c]
  }

  function FormatInstant(ts: seq<Token>, t: int): string
    decreases |ts|
  {
    if ts == [] then "" else TokenText(ts[0], t) + FormatInstant(ts[1..], t)
  }

  // ---------------------------------------------------------------------
  // Patterns and index lists.

  /** Leading '[' characters removed (strings.TrimLeft with the set "["). */
  function TrimOpenBrackets(s: string): (r: string)
    ensures |r| <= |s| && r == s[|s| - |r|..]
    ensures r == [] || r[0] != '['
  {
    if s != [] && s[0] == '[' then TrimOpenBrackets(s[1..]) else s
  }

  /** The literal and the format of a pattern: the first two pieces of the
      pattern, without its leading '[', split at ']'; None when there is no
      ']' to split at. */
  function SplitPattern(p: string): Option<(string, string)> {
    var parts := Split(TrimOpenBrackets(p), ']');
    if |parts| <= 1 then None else Some((parts[0], parts[1]))
  }

  /** The pattern that names the literal `lit` and the format `fmt`. */
  function MakePattern(lit: string, fmt: string): string {
    "[" + lit + "]" + fmt
  }

  lemma SplitMakePattern(lit: string, fmt: string)
    requires ']' !in lit && ']' !in fmt
    requires lit == [] || lit[0] != '['
    ensures SplitPattern(MakePattern(lit, fmt)) == Some((lit, fmt))
  {
    var body := lit + "]" + fmt;
    assert MakePattern(lit, fmt)[1..] == body;
    assert TrimOpenBrackets(MakePattern(lit, fmt)) == body;
    assert Join([lit, fmt], ']') == body;
    SplitJoin([lit, fmt], ']');
  }

  function IndexName(lit: string, fmt: string, t: int): string {
    lit + FormatInstant(ParseFormat(fmt), t)
  }

  /** The index name of each instant of `ws`, in order. */
  function IndexNames(lit: string, fmt: string, ws: seq<int>): (names: seq<string>)
    ensures |names| == |ws|
  {
    seq(|ws|, i requires 0 <= i < |ws| => IndexName(lit, fmt, ws[i]))
  }

  lemma IndexNamesCons(lit: string, fmt: string, ws: seq<int>)
    requires 1 <= |ws|
    ensures IndexNames(lit, fmt, ws) == [IndexName(lit, fmt, ws[0])] + IndexNames(lit, fmt, ws[1..])
  {
  }

  lemma AppendAssoc<T>(a: seq<T>, b: seq<T>, c: seq<T>)
    ensures (a + b) + c == a + (b + c)
  {
  }

  /** The comma-joined index names for `pattern` over [from, to]. */
  function IndexList(pattern: string, iv: Interval, from: int, to: int): (list: string)
    ensures iv == NoInterval || SplitPattern(pattern).None? ==> list == pattern
  {
    if iv == NoInterval then pattern
    else match SplitPattern(pattern)
      case None => pattern
      case Some((lit, fmt)) => Join(IndexNames(lit, fmt, Walk(iv, from, to)), ',')
  }

  /** A time range as a query carries it: each bound is a string. The model
      reads only bounds written as epoch milliseconds. */
  datatype TimeRange = TimeRange(from: string, to: string)

  predicate EpochRange(range: TimeRange) {
    ParseInt(range.from).Some? && ParseInt(range.to).Some?
  }

  /** The index list for a pattern, an interval setting and a time range. */
  function GetIndexList(pattern: string, interval: string, range: TimeRange): (list: string)
    requires ParseInterval(interval).Some? && EpochRange(range)
    ensures interval == "" ==> list == pattern
  {
    IndexList(pattern, ParseInterval(interval).value, ParseInt(range.from).value, ParseInt(range.to).value)
  }

  /** The resolver: emit the name of the start instant, then advance and
      emit again while the current instant is before the end. */
  method ResolveIndexList(pattern: string, interval: string, from: int, to: int) returns (list: string)
    requires ParseInterval(interval).Some?
    ensures list == IndexList(pattern, ParseInterval(interval).value, from, to)
    ensures interval == "" ==> list == pattern
  {
    var iv := ParseInterval(interval).value;
    if iv == NoInterval {
      return pattern;
    }
    var split := SplitPattern(pattern);
    if split.None? {
      return pattern;
    }
    var lit, fmt := split.value.0, split.value.1;
    var cur := from;
    var names := [IndexName(lit, fmt, cur)];
    IndexNamesCons(lit, fmt, Walk(iv, from, to));
    while cur < to
      invariant IndexNames(lit, fmt, Walk(iv, from, to)) == names + IndexNames(lit, fmt, Walk(iv, cur, to)[1..])
      decreases if cur < to then to - cur else 0
    {
      var next := Advance(iv, cur);
      var name := IndexName(lit, fmt, next);
      assert Walk(iv, cur, to)[1..] == Walk(iv, next, to);
      IndexNamesCons(lit, fmt, Walk(iv, next, to));
      AppendAssoc(names, [name], IndexNames(lit, fmt, Walk(iv, next, to)[1..]));
      cur := next;
      names := names + [name];
    }
    assert Walk(iv, cur, to)[1..] == [];
    assert names + IndexNames(lit, fmt, []) == names;
    assert IndexList(pattern, iv, from, to) == Join(IndexNames(lit, fmt, Walk(iv, from, to)), ',');
    list := Join(names, ',');
  }
}
