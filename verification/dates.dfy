/** The date check both validators make: `datetime.strptime(s, "%Y-%m-%d")`
    succeeds.

    CPython matches the format with one regular expression over the whole
    string: `%Y` is four digits, `%m` is `1[0-2]|0[1-9]|[1-9]` and `%d` is
    `3[01]|[12]\d|0[1-9]|[1-9]| [1-9]`, so an unpadded month or day, and a
    day padded with one space, are accepted. The parsed fields must then form
    a real date: year 1 to 9999 and a day within the month under the
    Gregorian leap-year rule. */
module Dates {
  import opened Outcomes

  datatype Date = Date(year: int, month: int, day: int)

  predicate IsLeapYear(y: int) {
    y % 4 == 0 && (y % 100 != 0 || y % 400 == 0)
  }

  function DaysInMonth(y: int, m: int): (n: int)
    requires 1 <= m <= 12
    ensures 28 <= n <= 31
    ensures n == 29 <==> m == 2 && IsLeapYear(y)
    ensures n == 31 <==> m in {1, 3, 5, 7, 8, 10, 12}
    ensures n == 30 <==> m in {4, 6, 9, 11}
  {
    if m == 2 then (if IsLeapYear(y) then 29 else 28)
    else if m in {4, 6, 9, 11} then 30
    else 31
  }

  /** A date `datetime.date` can represent. */
  predicate ValidDate(d: Date) {
    && 1 <= d.year <= 9999
    && 1 <= d.month <= 12
    && 1 <= d.day <= DaysInMonth(d.year, d.month)
  }

  predicate IsDigit(c: char) {
    '0' <= c <= '9'
  }

  function DigitValue(c: char): (n: nat)
    requires IsDigit(c)
    ensures n <= 9
  {
    (c as int) - ('0' as int)
  }

  function DigitChar(n: nat): (c: char)
    requires n <= 9
    ensures IsDigit(c) && DigitValue(c) == n
  {
    (('0' as int) + n) as char
  }

  /** `%Y`: exactly four digits. */
  function ParseYear(tok: string): (r: Option<int>)
    ensures r.Some? ==> 0 <= r.value <= 9999
  {
    if |tok| == 4 && IsDigit(tok[0]) && IsDigit(tok[1]) && IsDigit(tok[2]) && IsDigit(tok[3]) then
      Some(1000 * DigitValue(tok[0]) + 100 * DigitValue(tok[1]) + 10 * DigitValue(tok[2]) + DigitValue(tok[3]))
    else None
  }

  /** `%m`: `1[0-2]`, `0[1-9]` or `[1-9]`. */
  function ParseMonth(tok: string): (r: Option<int>)
    ensures r.Some? ==> 1 <= r.value <= 12
  {
    if |tok| == 1 && '1' <= tok[0] <= '9' then Some(DigitValue(tok[0]))
    else if |tok| == 2 && tok[0] == '1' && '0' <= tok[1] <= '2' then Some(10 + DigitValue(tok[1]))
    else if |tok| == 2 && tok[0] == '0' && '1' <= tok[1] <= '9' then Some(DigitValue(tok[1]))
    else None
  }

  /** `%d`: `3[01]`, `[12]\d`, `0[1-9]`, `[1-9]` or a space and `[1-9]`. */
  function ParseDay(tok: string): (r: Option<int>)
    ensures r.Some? ==> 1 <= r.value <= 31
  {
    if |tok| == 1 && '1' <= tok[0] <= '9' then Some(DigitValue(tok[0]))
    else if |tok| == 2 && tok[0] == '3' && '0' <= tok[1] <= '1' then Some(30 + DigitValue(tok[1]))
    else if |tok| == 2 && '1' <= tok[0] <= '2' && IsDigit(tok[1]) then Some(10 * DigitValue(tok[0]) + DigitValue(tok[1]))
    else if |tok| == 2 && (tok[0] == '0' || tok[0] == ' ') && '1' <= tok[1] <= '9' then Some(DigitValue(tok[1]))
    else None
  }

  /** `datetime.strptime(s, "%Y-%m-%d")`: the parsed date, or `None` where
      the call raises `ValueError`. The month token ends at the second `-`,
      which is the seventh or eighth character. */
  function ParseDate(s: string): (r: Option<Date>)
    ensures r.Some? ==> ValidDate(r.value)
  {
    if |s| < 8 || s[4] != '-' then None
    else
      var rest := s[5..];
      var cut := if rest[1] == '-' then 1 else 2;
      if rest[cut] != '-' then None
      else
        match (ParseYear(s[..4]), ParseMonth(rest[..cut]), ParseDay(rest[cut + 1..]))
        case (Some(y), Some(m), Some(d)) =>
          if 1 <= y && d <= DaysInMonth(y, m) then Some(Date(y, m, d)) else None
        case _ => None
  }

  /** `validate_date` / `validate_deadline` pass. */
  predicate IsDate(s: string) {
    ParseDate(s).Some?
  }

  /** The four digits of a year. */
  function YearDigits(y: int): (tok: string)
    requires 0 <= y <= 9999
    ensures |tok| == 4
  {
    [DigitChar(y / 1000), DigitChar(y / 100 % 10), DigitChar(y / 10 % 10), DigitChar(y % 10)]
  }

  /** Two digits of a month or a day, zero-padded. */
  function PairDigits(n: int): (tok: string)
    requires 0 <= n <= 99
    ensures |tok| == 2
  {
    [DigitChar(n / 10), DigitChar(n % 10)]
  }

  /** The zero-padded `YYYY-MM-DD` text of a date, as `date.isoformat()`
      writes it. */
  function FormatDate(d: Date): (s: string)
    requires ValidDate(d)
    ensures |s| == 10 && s[4] == '-' && s[7] == '-'
  {
    YearDigits(d.year) + "-" + PairDigits(d.month) + "-" + PairDigits(d.day)
  }

  lemma ParseYearDigits(y: int)
    requires 0 <= y <= 9999
    ensures ParseYear(YearDigits(y)) == Some(y)
  {
    var a, b, c, e := y / 1000, y / 100 % 10, y / 10 % 10, y % 10;
    assert y / 10 == 10 * (y / 100) + c;
    assert y / 100 == 10 * a + b;
    assert y == 1000 * a + 100 * b + 10 * c + e;
  }

  lemma ParsePairDigits(n: int)
    requires 1 <= n <= 31
    ensures ParseDay(PairDigits(n)) == Some(n)
    ensures n <= 12 ==> ParseMonth(PairDigits(n)) == Some(n)
  {
    assert n == 10 * (n / 10) + n % 10;
  }

  /** Every real date written as `YYYY-MM-DD` passes the check and parses
      back to itself. */
  lemma ParseFormattedDate(d: Date)
    requires ValidDate(d)
    ensures ParseDate(FormatDate(d)) == Some(d)
  {
    var s := FormatDate(d);
    var rest := s[5..];
    assert s[..4] == YearDigits(d.year);
    assert rest[..2] == PairDigits(d.month);
    assert rest[3..] == PairDigits(d.day);
    ParseYearDigits(d.year);
    ParsePairDigits(d.month);
    ParsePairDigits(d.day);
  }

  /** The month tokens `%m` accepts for month `m`: two digits, and a single
      digit as well for months 1 to 9. */
  function MonthTokens(m: int): (toks: set<string>)
    requires 1 <= m <= 12
    ensures PairDigits(m) in toks
  {
    if m <= 9 then {PairDigits(m), [DigitChar(m)]} else {PairDigits(m)}
  }

  /** The day tokens `%d` accepts for day `d`: two digits, and for days 1
      to 9 also a single digit or a space and a digit. */
  function DayTokens(d: int): (toks: set<string>)
    requires 1 <= d <= 31
    ensures PairDigits(d) in toks
  {
    if d <= 9 then {PairDigits(d), [DigitChar(d)], [' ', DigitChar(d)]} else {PairDigits(d)}
  }

  /** Every text that spells date `d` in the `%Y-%m-%d` format. */
  function Spellings(d: Date): (texts: set<string>)
    requires ValidDate(d)
    ensures FormatDate(d) in texts
  {
    var texts := set mt, dt | mt in MonthTokens(d.month) && dt in DayTokens(d.day) ::
                   YearDigits(d.year) + "-" + mt + "-" + dt;
    var mt, dt := PairDigits(d.month), PairDigits(d.day);
    assert mt in MonthTokens(d.month) && dt in DayTokens(d.day);
    assert FormatDate(d) == YearDigits(d.year) + "-" + mt + "-" + dt;
    texts
  }

  lemma DigitCharValue(c: char)
    requires IsDigit(c)
    ensures DigitChar(DigitValue(c)) == c
  {
  }

  /** A year token that parses is the four digits of its year. */
  lemma ParsedYearDigits(tok: string)
    requires ParseYear(tok).Some?
    ensures tok == YearDigits(ParseYear(tok).value)
  {
    var a, b, c, e := DigitValue(tok[0]), DigitValue(tok[1]), DigitValue(tok[2]), DigitValue(tok[3]);
    var y := 1000 * a + 100 * b + 10 * c + e;
    assert y / 10 == 100 * a + 10 * b + c && y % 10 == e;
    assert y / 100 == 10 * a + b && y / 10 % 10 == c;
    assert y / 1000 == a && y / 100 % 10 == b;
    DigitCharValue(tok[0]);
    DigitCharValue(tok[1]);
    DigitCharValue(tok[2]);
    DigitCharValue(tok[3]);
  }

  /** A month token that parses is one of its month's tokens. */
  lemma ParsedMonthToken(tok: string)
    requires ParseMonth(tok).Some?
    ensures tok in MonthTokens(ParseMonth(tok).value)
  {
    var m := ParseMonth(tok).value;
    DigitCharValue(tok[0]);
    if |tok| == 2 {
      DigitCharValue(tok[1]);
      assert tok == PairDigits(m);
    } else {
      assert tok == [DigitChar(m)];
    }
  }

  /** A day token that parses is one of its day's tokens. */
  lemma ParsedDayToken(tok: string)
    requires ParseDay(tok).Some?
    ensures tok in DayTokens(ParseDay(tok).value)
  {
    var d := ParseDay(tok).value;
    if |tok| == 2 {
      DigitCharValue(tok[1]);
      if tok[0] == ' ' {
        assert tok == [' ', DigitChar(d)];
      } else {
        DigitCharValue(tok[0]);
        assert tok == PairDigits(d);
      }
    } else {
      DigitCharValue(tok[0]);
      assert tok == [DigitChar(d)];
    }
  }

  /** Every text the check accepts spells the date it yields. */
  lemma {:induction false} ParsedDateSpelled(s: string)
    requires ParseDate(s).Some?
    ensures s in Spellings(ParseDate(s).value)
  {
    var d := ParseDate(s).value;
    var rest := s[5..];
    var cut := if rest[1] == '-' then 1 else 2;
    var yt, mt, dt := s[..4], rest[..cut], rest[cut + 1..];
    ParsedYearDigits(yt);
    ParsedMonthToken(mt);
    ParsedDayToken(dt);
    assert s == yt + "-" + mt + "-" + dt;
    assert s == YearDigits(d.year) + "-" + mt + "-" + dt;
  }

  /** Every spelling of a real date is accepted and yields that date. */
  lemma {:induction false} ParseSpelling(d: Date, s: string)
    requires ValidDate(d) && s in Spellings(d)
    ensures ParseDate(s) == Some(d)
  {
    var mt, dt :| mt in MonthTokens(d.month) && dt in DayTokens(d.day)
                   && s == YearDigits(d.year) + "-" + mt + "-" + dt;
    var rest := s[5..];
    assert s[..4] == YearDigits(d.year) && s[4] == '-';
    assert rest == mt + "-" + dt;
    var cut := |mt|;
    assert rest[..cut] == mt && rest[cut] == '-' && rest[cut + 1..] == dt;
    assert cut == if rest[1] == '-' then 1 else 2;
    ParseYearDigits(d.year);
    ParsePairDigits(d.day);
    ParsePairDigits(d.month);
    assert ParseMonth(mt) == Some(d.month);
    assert ParseDay(dt) == Some(d.day);
  }

  /** The check accepts a text exactly when it spells a real date, and the
      date it yields is that one. */
  lemma ParseDateExactly(s: string, d: Date)
    ensures ParseDate(s) == Some(d) <==> ValidDate(d) && s in Spellings(d)
  {
    if ParseDate(s) == Some(d) {
      ParsedDateSpelled(s);
    }
    if ValidDate(d) && s in Spellings(d) {
      ParseSpelling(d, s);
    }
  }

  /** The deadline `add_task` uses when none is given is not a date. */
  lemma NoDeadlineIsNotADate()
    ensures !IsDate("No Deadline")
  {
  }

  /** The shapes `strptime` accepts besides the padded one, and two it
      refuses. */
  lemma DateShapes()
    ensures IsDate("2024-02-29") && !IsDate("2023-02-29")
    ensures IsDate("2024-2-9") && IsDate("2024-02- 9")
    ensures !IsDate("0000-01-01") && !IsDate("2024-13-01") && !IsDate("2024-01-32")
  {
  }
}
