/** The date stage: `to_iso_format` (parse with `pd.to_datetime`, print with
    `strftime("%Y-%m-%d")`, `None` on failure) and `is_date_format`
    (`datetime.strptime(s, "%Y-%m-%d")` succeeds). */
module Dates {
  import opened Frames
  import opened Records
  import opened Validators

  datatype Date = Date(year: int, month: int, day: int)

  predicate IsLeap(y: int) {
    y % 4 == 0 && (y % 100 != 0 || y % 400 == 0)
  }

  function DaysInMonth(y: int, m: int): (n: int)
    requires 1 <= m <= 12
    ensures 28 <= n <= 31
    ensures n == 29 <==> m == 2 && IsLeap(y)
  {
    if m == 2 then (if IsLeap(y) then 29 else 28)
    else if m == 4 || m == 6 || m == 9 || m == 11 then 30
    else 31
  }

  /** A date Python's `datetime.date` accepts: year 1 to 9999, a real month
      and a day inside it. */
  predicate IsCalendarDate(d: Date) {
    1 <= d.year <= 9999 && 1 <= d.month <= 12 && 1 <= d.day <= DaysInMonth(d.year, d.month)
  }

  /** The dates a pandas `Timestamp` can hold (nanosecond precision limits the
      years to 1677 through 2262). */
  type Timestamp = d: Date | IsCalendarDate(d) && 1677 <= d.year <= 2262 witness Date(1970, 1, 1)

  predicate IsDigit(c: char) { '0' <= c <= '9' }

  function DigitValue(c: char): (v: int)
    requires IsDigit(c)
    ensures 0 <= v <= 9
  {
    c as int - '0' as int
  }

  function DigitChar(n: int): (c: char)
    requires 0 <= n <= 9
    ensures IsDigit(c) && DigitValue(c) == n
  {
    ('0' as int + n) as char
  }

  /** `%m` / `%d` of `strftime`: two digits, zero-padded. */
  function Pad2(n: int): (s: string)
    requires 0 <= n <= 99
    ensures |s| == 2 && IsDigit(s[0]) && IsDigit(s[1])
    ensures 10 * DigitValue(s[0]) + DigitValue(s[1]) == n
  {
    [DigitChar(n / 10), DigitChar(n % 10)]
  }

  /** `%Y` of `strftime` for a four-digit year. */
  function Pad4(n: int): (s: string)
    requires 1000 <= n <= 9999
    ensures |s| == 4 && forall i :: 0 <= i < 4 ==> IsDigit(s[i])
    ensures FourDigitValue(s) == n
  {
    Pad2(n / 100) + Pad2(n % 100)
  }

  function FourDigitValue(s: string): int
    requires |s| == 4 && forall i :: 0 <= i < 4 ==> IsDigit(s[i])
  {
    1000 * DigitValue(s[0]) + 100 * DigitValue(s[1]) + 10 * DigitValue(s[2]) + DigitValue(s[3])
  }

  /** `date.strftime("%Y-%m-%d")` on a `Timestamp`. */
  function FormatIso(d: Timestamp): (s: string)
    ensures |s| == 10 && s[4] == '-' && s[7] == '-'
  {
    Pad4(d.year) + "-" + Pad2(d.month) + "-" + Pad2(d.day)
  }

  /** What `strptime`'s `%m` pattern `1[0-2]|0[1-9]|[1-9]` accepts between the
      two dashes. */
  predicate MonthToken(t: string) {
    || (|t| == 2 && t[0] == '1' && '0' <= t[1] <= '2')
    || (|t| == 2 && t[0] == '0' && '1' <= t[1] <= '9')
    || (|t| == 1 && '1' <= t[0] <= '9')
  }

  /** What `strptime`'s `%d` pattern `3[01]|[12]\d|0[1-9]|[1-9]| [1-9]` accepts
      as the whole rest of the string (anything left over is "unconverted data"). */
  predicate DayToken(t: string) {
    || (|t| == 2 && t[0] == '3' && '0' <= t[1] <= '1')
    || (|t| == 2 && '1' <= t[0] <= '2' && IsDigit(t[1]))
    || (|t| == 2 && t[0] == '0' && '1' <= t[1] <= '9')
    || (|t| == 2 && t[0] == ' ' && '1' <= t[1] <= '9')
    || (|t| == 1 && '1' <= t[0] <= '9')
  }

  /** The number a month or day token stands for (a leading space counts as 0). */
  function TokenValue(t: string): (v: int)
    requires MonthToken(t) || DayToken(t)
    ensures 1 <= v <= 39
  {
    if |t| == 1 then DigitValue(t[0])
    else (if t[0] == ' ' then 0 else DigitValue(t[0])) * 10 + DigitValue(t[1])
  }

  /** The index of the first `-` in `s`, or `|s|` when there is none. */
  function FirstDash(s: string): (k: nat)
    ensures k <= |s|
    ensures forall i :: 0 <= i < k ==> s[i] != '-'
    ensures k < |s| ==> s[k] == '-'
  {
    if |s| == 0 || s[0] == '-' then 0 else 1 + FirstDash(s[1..])
  }

  /** `datetime.strptime(s, "%Y-%m-%d")` on ASCII text: four digits, a dash, a
      month token, a dash and a day token making up the whole string, and then
      a date `datetime` accepts (year 0 and February 30 raise). `None` is the
      `ValueError`. */
  function ParseIsoDate(s: string): (r: Option<Date>)
    ensures r.Some? ==> IsCalendarDate(r.value)
  {
    if |s| < 5 || s[4] != '-' || !(forall i :: 0 <= i < 4 ==> IsDigit(s[i])) then None
    else
      var rest := s[5..];
      var k := FirstDash(rest);
      if k == |rest| then None
      else
        var mt := rest[..k];
        var dt := rest[k + 1..];
        if !MonthToken(mt) || !DayToken(dt) then None
        else
          var y := FourDigitValue(s[..4]);
          var m := TokenValue(mt);
          var d := TokenValue(dt);
          if 1 <= y && 1 <= m <= 12 && d <= DaysInMonth(y, m) then Some(Date(y, m, d)) else None
  }

  /** `is_date_format`. */
  predicate IsDateFormat(s: string) {
    ParseIsoDate(s).Some?
  }

  /** Reading back what `strftime("%Y-%m-%d")` printed gives the same date: the
      ISO text of every `Timestamp` passes `is_date_format`. */
  lemma FormatIsoRoundTrip(d: Timestamp)
    ensures ParseIsoDate(FormatIso(d)).Some? && ParseIsoDate(FormatIso(d)).value == d
    ensures IsDateFormat(FormatIso(d))
  {
    var s := FormatIso(d);
    var ys, ms, ds := Pad4(d.year), Pad2(d.month), Pad2(d.day);
    assert s == ys + "-" + ms + "-" + ds;
    assert s[..4] == ys;
    var rest := s[5..];
    assert rest == ms + "-" + ds;
    FirstDashAt(rest, 2);
    assert rest[..2] == ms;
    assert rest[3..] == ds;
    assert MonthToken(ms);
    assert DayToken(ds);
  }

  lemma FirstDashAt(s: string, k: nat)
    requires k < |s| && s[k] == '-' && forall i :: 0 <= i < k ==> s[i] != '-'
    ensures FirstDash(s) == k
  {
    if k > 0 {
      FirstDashAt(s[1..], k - 1);
    }
  }

  /** How `ParseIsoDate` reads text of the shape year, dash, month token, dash,
      day token. */
  lemma ParseTokens(ys: string, mt: string, dt: string)
    requires |ys| == 4 && forall i :: 0 <= i < 4 ==> IsDigit(ys[i])
    requires MonthToken(mt) && DayToken(dt)
    ensures var y, m, d := FourDigitValue(ys), TokenValue(mt), TokenValue(dt);
      ParseIsoDate(ys + "-" + mt + "-" + dt) ==
        if 1 <= y && 1 <= m <= 12 && d <= DaysInMonth(y, m) then Some(Date(y, m, d)) else None
  {
    var s := ys + "-" + mt + "-" + dt;
    assert s[..4] == ys;
    var rest := s[5..];
    assert rest == mt + "-" + dt;
    FirstDashAt(rest, |mt|);
    assert rest[..|mt|] == mt;
    assert rest[|mt| + 1..] == dt;
  }

  /** Zero-padded and single-digit months and days are accepted. */
  lemma IsDateFormatAcceptsDigits()
    ensures IsDateFormat("1900-01-02") && IsDateFormat("2020-1-5")
  {
    AcceptsPaddedDate();
    AcceptsUnpaddedDate();
  }

  /** A space before a single-digit day is accepted, as is February 29 of a
      leap year. */
  lemma IsDateFormatAcceptsSpaceAndLeapDay()
    ensures IsDateFormat("2020-01- 5") && IsDateFormat("2000-02-29")
  {
    AcceptsSpacedDay();
    AcceptsLeapDay();
  }

  /** Text of the right shape naming no real date is rejected: February 29 of a
      common year, February 30, year 0, month 13. */
  lemma IsDateFormatRejectsDates()
    ensures !IsDateFormat("1900-02-29") && !IsDateFormat("2020-02-30")
    ensures !IsDateFormat("0000-01-01") && !IsDateFormat("2020-13-01")
  {
    RejectsCommonYearLeapDay();
    RejectsFebruary30();
    RejectsYearZero();
    RejectsMonth13();
  }

  lemma AcceptsPaddedDate()
    ensures IsDateFormat("1900-01-02")
  {
    ParseTokens("1900", "01", "02");
    assert "1900" + "-" + "01" + "-" + "02" == "1900-01-02";
  }

  lemma AcceptsUnpaddedDate()
    ensures IsDateFormat("2020-1-5")
  {
    ParseTokens("2020", "1", "5");
    assert "2020" + "-" + "1" + "-" + "5" == "2020-1-5";
  }

  lemma AcceptsSpacedDay()
    ensures IsDateFormat("2020-01- 5")
  {
    ParseTokens("2020", "01", " 5");
    assert "2020" + "-" + "01" + "-" + " 5" == "2020-01- 5";
  }

  lemma AcceptsLeapDay()
    ensures IsDateFormat("2000-02-29")
  {
    ParseTokens("2000", "02", "29");
    assert "2000" + "-" + "02" + "-" + "29" == "2000-02-29";
  }

  lemma RejectsCommonYearLeapDay()
    ensures !IsDateFormat("1900-02-29")
  {
    FirstDashAt("02-29", 2);
    assert "1900-02-29"[5..] == "02-29";
  }

  lemma RejectsFebruary30()
    ensures !IsDateFormat("2020-02-30")
  {
    FirstDashAt("02-30", 2);
    assert "2020-02-30"[5..] == "02-30";
  }

  lemma RejectsYearZero()
    ensures !IsDateFormat("0000-01-01")
  {
    FirstDashAt("01-01", 2);
    assert "0000-01-01"[5..] == "01-01";
  }

  lemma RejectsMonth13()
    ensures !IsDateFormat("2020-13-01")
  {
    FirstDashAt("13-01", 2);
    assert "2020-13-01"[5..] == "13-01";
  }

  /** Text of the wrong shape is rejected: a two-digit year, slashes, trailing
      text, the empty string. */
  lemma IsDateFormatRejectsShape()
    ensures !IsDateFormat("20-01-01") && !IsDateFormat("2020/01/01")
    ensures !IsDateFormat("2020-01-01 ") && !IsDateFormat("")
  {
    FirstDashAt("01-01 ", 2);
    assert "2020-01-01 "[5..] == "01-01 ";
  }

  /** `to_iso_format` on one cell. `parse` is `pd.to_datetime(s, errors="raise")`:
      the `Timestamp` it yields, or `None` when it raises or yields `NaT`. A
      missing cell gives `NaT` and so `None`; a parsed one its ISO text. */
  function ToIsoCell(c: Cell, parse: string -> Option<Timestamp>): (r: Cell)
    ensures r.Some? <==> c.Some? && parse(c.value).Some?
    ensures r.Some? ==> ParseIsoDate(r.value).Some? && ParseIsoDate(r.value).value == parse(c.value).value
  {
    match c
    case None => None
    case Some(s) =>
      match parse(s)
      case None => None
      case Some(d) => FormatIsoRoundTrip(d); Some(FormatIso(d))
  }

  function ToIsoMenuRow(r: MenuRow, parse: string -> Option<Timestamp>): MenuRow {
    r.(date := ToIsoCell(r.date, parse))
  }

  /** `ToIsoMenuRow` with the parser fixed, as `apply` runs it on each row. */
  function IsoRewriter(parse: string -> Option<Timestamp>): (f: MenuRow -> MenuRow)
    ensures forall r :: f(r) == ToIsoMenuRow(r, parse)
  {
    (r: MenuRow) => ToIsoMenuRow(r, parse)
  }

  predicate DatePresent(r: MenuRow) { r.date.Some? }

  /** The rows whose date `to_iso_format` turns into text: a present date
      that parses. */
  function DateParses(parse: string -> Option<Timestamp>): (test: MenuRow -> bool)
    ensures forall r :: test(r) == (r.date.Some? && parse(r.date.value).Some?)
  {
    (r: MenuRow) => r.date.Some? && parse(r.date.value).Some?
  }

  /** `df["date"] = df["date"].apply(to_iso_format)` then
      `dropna(subset=["date"])`: the rows whose date parses, in order and with
      their labels, the date rewritten to its ISO text and every other column
      untouched. */
  function ToIsoDates(t: Table<MenuRow>, parse: string -> Option<Timestamp>): (r: Table<MenuRow>)
    ensures |r| <= |t|
    ensures forall x :: x in r ==> exists y :: y in t && x == Indexed(y.index, ToIsoMenuRow(y.row, parse))
    ensures forall x :: x in r ==> x.row.date.Some?
    ensures forall y :: y in t && y.row.date.Some? && parse(y.row.date.value).Some? ==>
      Indexed(y.index, ToIsoMenuRow(y.row, parse)) in r
  {
    var m := MapRows(t, IsoRewriter(parse));
    var r := Filter(m, DatePresent);
    forall y | y in t && y.row.date.Some? && parse(y.row.date.value).Some?
      ensures Indexed(y.index, ToIsoMenuRow(y.row, parse)) in r
    {
      var j :| 0 <= j < |t| && t[j] == y;
      assert m[j] == Indexed(y.index, ToIsoMenuRow(y.row, parse));
    }
    forall x | x in r ensures exists y :: y in t && x == Indexed(y.index, ToIsoMenuRow(y.row, parse)) {
      var j :| 0 <= j < |m| && m[j] == x;
      assert t[j] in t;
    }
    r
  }

  /** After the date stage no date violates the ISO format. */
  lemma ToIsoDatesValid(t: Table<MenuRow>, parse: string -> Option<Timestamp>)
    ensures CountInvalid(ToIsoDates(t, parse), DateOf, IsDateFormat) == 0
  {
    var r := ToIsoDates(t, parse);
    forall i | 0 <= i < |r| ensures r[i].row.date.Some? && IsDateFormat(r[i].row.date.value) {
      assert r[i] in r;
      var y :| y in t && r[i] == Indexed(y.index, ToIsoMenuRow(y.row, parse));
    }
  }

  /** The date stage keeps the row order. */
  lemma ToIsoDatesIncreasing(t: Table<MenuRow>, parse: string -> Option<Timestamp>)
    requires Increasing(t)
    ensures Increasing(ToIsoDates(t, parse))
  {
    var m := MapRows(t, IsoRewriter(parse));
    assert Increasing(m);
    FilterIncreasing(m, DatePresent);
  }
}
