/** `generate_month_range` of `report_collector.py`: both bounds are parsed with
    `datetime.strptime(s, '%Y-%m')`, and a `while current <= end_date` loop appends
    `current.strftime('%Y-%m')` and steps `current` by `relativedelta(months=1)`. */
module Months {
  import opened Wrappers
  import opened Text

  datatype YearMonth = YearMonth(year: int, month: int)

  /** The months a `datetime` can hold: years 1 to 9999. */
  predicate Valid(ym: YearMonth) {
    1 <= ym.year <= 9999 && 1 <= ym.month <= 12
  }

  /** Position on the calendar, counted in months. */
  function Index(ym: YearMonth): int {
    ym.year * 12 + ym.month - 1
  }

  const FirstIndex: int := 12            // January of year 1
  const LastIndex: int := 9999 * 12 + 11 // December of year 9999

  function FromIndex(i: int): (ym: YearMonth)
    requires FirstIndex <= i <= LastIndex
    ensures Valid(ym) && Index(ym) == i
  {
    YearMonth(i / 12, i % 12 + 1)
  }

  lemma IndexInjective(a: YearMonth, b: YearMonth)
    requires Valid(a) && Valid(b) && Index(a) == Index(b)
    ensures a == b
  {
    assert a.year * 12 <= Index(a) < a.year * 12 + 12;
    assert b.year * 12 <= Index(b) < b.year * 12 + 12;
  }

  lemma FromIndexOfIndex(ym: YearMonth)
    requires Valid(ym)
    ensures FromIndex(Index(ym)) == ym
  {
    IndexInjective(FromIndex(Index(ym)), ym);
  }

  /** `current + relativedelta(months=1)`; stepping past December 9999 raises. */
  function NextMonth(ym: YearMonth): Option<YearMonth> {
    if ym.month == 12 then
      if ym.year == 9999 then None else Some(YearMonth(ym.year + 1, 1))
    else Some(YearMonth(ym.year, ym.month + 1))
  }

  /** The step is the calendar successor: December rolls over to January of the
      next year, and only December 9999 has no successor. */
  lemma NextMonthIsSuccessor(ym: YearMonth)
    requires Valid(ym)
    ensures NextMonth(ym).None? <==> ym == YearMonth(9999, 12)
    ensures NextMonth(ym).Some? ==>
      Valid(NextMonth(ym).value) && Index(NextMonth(ym).value) == Index(ym) + 1
    ensures ym.month == 12 && ym.year < 9999 ==> NextMonth(ym) == Some(YearMonth(ym.year + 1, 1))
  {
  }

  // ---------------------------------------------------------------------------
  // '%Y-%m'

  /** `datetime.strptime(s, '%Y-%m')`: four decimal digits (`\d`, which takes any
      Unicode decimal digit), a dash, then a month that matches the ASCII pattern
      `1[0-2]|0[1-9]|[1-9]` with nothing left over; year 0 is out of range. */
  function ParseMonth(s: string): (r: Option<YearMonth>)
    ensures r.Some? ==> Valid(r.value)
    ensures r.Some? ==> 6 <= |s| <= 7 && s[4] == '-' && forall i :: 0 <= i < 4 ==> DecimalDigit(s[i]).Some?
    ensures r.Some? ==> r.value.year == YearValue(s)
  {
    if !(6 <= |s| <= 7) then None
    else if !(DecimalDigit(s[0]).Some? && DecimalDigit(s[1]).Some? && DecimalDigit(s[2]).Some? &&
              DecimalDigit(s[3]).Some? && s[4] == '-') then None
    else
      var year := YearValue(s);
      var month :=
        if |s| == 6 then
          (if '1' <= s[5] <= '9' then DigitValue(s[5]) else 0)
        else if (s[5] == '1' && '0' <= s[6] <= '2') || (s[5] == '0' && '1' <= s[6] <= '9') then
          10 * DigitValue(s[5]) + DigitValue(s[6])
        else 0;
      if year == 0 || month == 0 then None else Some(YearMonth(year, month))
  }

  /** `int()` of the four year digits, each read by its decimal value. */
  function YearValue(s: string): nat
    requires |s| >= 4 && forall i :: 0 <= i < 4 ==> DecimalDigit(s[i]).Some?
  {
    1000 * DecimalDigit(s[0]).value + 100 * DecimalDigit(s[1]).value +
    10 * DecimalDigit(s[2]).value + DecimalDigit(s[3]).value
  }

  /** `strftime('%Y-%m')`, four-digit year and two-digit month. */
  function FormatMonth(ym: YearMonth): (s: string)
    requires Valid(ym)
    ensures |s| == 7
  {
    var y, m := ym.year, ym.month;
    [DigitChar(y / 1000), DigitChar(y / 100 % 10), DigitChar(y / 10 % 10), DigitChar(y % 10), '-',
     DigitChar(m / 10), DigitChar(m % 10)]
  }

  lemma FourDigits(y: int)
    requires 0 <= y <= 9999
    ensures 1000 * (y / 1000) + 100 * (y / 100 % 10) + 10 * (y / 10 % 10) + y % 10 == y
  {
    var a, b, c, d := y / 1000, y / 100 % 10, y / 10 % 10, y % 10;
    assert y / 100 == 10 * a + b;
    assert y / 10 == 10 * (y / 100) + c;
    assert y == 10 * (y / 10) + d;
  }

  /** Parsing a formatted month gives it back. */
  lemma ParseFormat(ym: YearMonth)
    requires Valid(ym)
    ensures ParseMonth(FormatMonth(ym)) == Some(ym)
  {
    FourDigits(ym.year);
    var s := FormatMonth(ym);
    assert DigitValue(s[5]) == ym.month / 10 && DigitValue(s[6]) == ym.month % 10;
    assert 10 * (ym.month / 10) + ym.month % 10 == ym.month;
  }

  lemma DivMod10(q: int, r: int)
    requires 0 <= r < 10
    ensures (q * 10 + r) / 10 == q && (q * 10 + r) % 10 == r
  {
  }

  lemma DivMod1000(q: int, r: int)
    requires 0 <= r < 1000
    ensures (q * 1000 + r) / 1000 == q
  {
  }

  lemma DigitsOfYear(y: int, d0: int, d1: int, d2: int, d3: int)
    requires 0 <= d0 < 10 && 0 <= d1 < 10 && 0 <= d2 < 10 && 0 <= d3 < 10
    requires y == 1000 * d0 + 100 * d1 + 10 * d2 + d3
    ensures y / 1000 == d0 && y / 100 % 10 == d1 && y / 10 % 10 == d2 && y % 10 == d3
  {
    DivMod10(100 * d0 + 10 * d1 + d2, d3);
    DivMod10(10 * d0 + d1, d2);
    DivMod10(d0, d1);
    DivMod1000(d0, 100 * d1 + 10 * d2 + d3);
    assert y / 10 == 100 * d0 + 10 * d1 + d2;
    assert y / 100 == (y / 10) / 10;
  }

  /** `s` with every decimal digit written as the ASCII digit of the same value. */
  function AsciiDigits(s: string): (r: string)
    ensures |r| == |s|
    ensures forall i :: 0 <= i < |s| ==>
      r[i] == (if DecimalDigit(s[i]).Some? then DigitChar(DecimalDigit(s[i]).value) else s[i])
  {
    seq(|s|, i requires 0 <= i < |s| => if DecimalDigit(s[i]).Some? then DigitChar(DecimalDigit(s[i]).value) else s[i])
  }

  /** Formatting a parsed seven-character month gives the input back with its digits
      in ASCII, so an all-ASCII input comes back unchanged; a one-digit month such as
      "2025-7" is accepted and comes back as "2025-07". */
  lemma FormatParse(s: string)
    requires ParseMonth(s).Some? && |s| == 7
    ensures FormatMonth(ParseMonth(s).value) == AsciiDigits(s)
    ensures (forall i :: 0 <= i < 4 ==> IsDigit(s[i])) ==> FormatMonth(ParseMonth(s).value) == s
  {
    var ym := ParseMonth(s).value;
    var d0, d1, d2, d3 := DecimalDigit(s[0]).value, DecimalDigit(s[1]).value, DecimalDigit(s[2]).value, DecimalDigit(s[3]).value;
    DigitsOfYear(ym.year, d0, d1, d2, d3);
    DivMod10(DigitValue(s[5]), DigitValue(s[6]));
    var f, a := FormatMonth(ym), AsciiDigits(s);
    assert DecimalDigit(s[5]) == Some(DigitValue(s[5])) && DecimalDigit(s[6]) == Some(DigitValue(s[6]));
    assert !IsDigit('-');
    forall i | 0 <= i < 7 ensures f[i] == a[i] {
      if i != 4 {
        assert DigitValue(f[i]) == DecimalDigit(s[i]).value;
      }
    }
    if forall i :: 0 <= i < 4 ==> IsDigit(s[i]) {
      forall i | 0 <= i < 7 ensures a[i] == s[i] {
        if i != 4 {
          assert DigitValue(a[i]) == DigitValue(s[i]);
        }
      }
    }
  }

  /** Digits of other scripts: a year in fullwidth digits is read like its ASCII
      spelling and comes back in ASCII. */
  lemma FullwidthYearExample()
    ensures ParseMonth("\U{FF12}\U{FF10}\U{FF12}\U{FF15}-07") == Some(YearMonth(2025, 7))
    ensures FormatMonth(YearMonth(2025, 7)) == "2025-07"
  {
    var s := "\U{FF12}\U{FF10}\U{FF12}\U{FF15}-07";
    assert DecimalDigit(s[0]) == Some(2) && DecimalDigit(s[1]) == Some(0);
    assert DecimalDigit(s[3]) == Some(5);
  }

  lemma ShortMonthNormalised()
    ensures ParseMonth("2025-7") == Some(YearMonth(2025, 7))
    ensures FormatMonth(YearMonth(2025, 7)) == "2025-07"
    ensures ParseMonth("2025-13").None? && ParseMonth("0000-01").None? && ParseMonth("2025-00").None?
  {
  }

  // ---------------------------------------------------------------------------
  // The range

  /** The `n` consecutive months that start at `first`. */
  function MonthsFrom(first: YearMonth, n: nat): (ms: seq<YearMonth>)
    requires Valid(first) && Index(first) + n - 1 <= LastIndex
    ensures |ms| == n
    ensures forall i :: 0 <= i < n ==> Valid(ms[i]) && Index(ms[i]) == Index(first) + i
  {
    var ms := seq(n, i requires 0 <= i < n => FromIndex(Index(first) + i));
    assert forall i :: 0 <= i < n ==> ms[i] == FromIndex(Index(first) + i);
    ms
  }

  /** Every month from `s` to `e` inclusive; none when `s` is later than `e`. */
  function MonthSpan(s: YearMonth, e: YearMonth): seq<YearMonth>
    requires Valid(s) && Valid(e)
  {
    MonthsFrom(s, if Index(s) <= Index(e) then Index(e) - Index(s) + 1 else 0)
  }

  function Formatted(ms: seq<YearMonth>): (r: seq<string>)
    requires forall i :: 0 <= i < |ms| ==> Valid(ms[i])
    ensures |r| == |ms|
  {
    seq(|ms|, i requires 0 <= i < |ms| => FormatMonth(ms[i]))
  }

  /** The span is inclusive and strictly consecutive: it starts at `s`, ends at `e`,
      each month is followed by its calendar successor, and it is empty exactly when
      `s` is later than `e`. */
  lemma {:induction false} MonthSpanShape(s: YearMonth, e: YearMonth)
    requires Valid(s) && Valid(e)
    ensures var span := MonthSpan(s, e);
      && (span == [] <==> Index(s) > Index(e))
      && (span != [] ==> span[0] == s && span[|span| - 1] == e)
      && (forall i :: 0 <= i < |span| - 1 ==> NextMonth(span[i]) == Some(span[i + 1]))
      && (forall i, j :: 0 <= i < j < |span| ==> Index(span[i]) < Index(span[j]))
  {
    var span := MonthSpan(s, e);
    if span != [] {
      FromIndexOfIndex(s);
      FromIndexOfIndex(e);
    }
    forall i | 0 <= i < |span| - 1 ensures NextMonth(span[i]) == Some(span[i + 1]) {
      NextMonthIsSuccessor(span[i]);
      IndexInjective(NextMonth(span[i]).value, span[i + 1]);
    }
  }

  lemma FormattedSnoc(first: YearMonth, n: nat)
    requires Valid(first) && Index(first) + n <= LastIndex
    ensures Formatted(MonthsFrom(first, n + 1)) ==
            Formatted(MonthsFrom(first, n)) + [FormatMonth(FromIndex(Index(first) + n))]
  {
    var a, b := Formatted(MonthsFrom(first, n + 1)), Formatted(MonthsFrom(first, n));
    forall i | 0 <= i < n ensures a[i] == b[i] {
      IndexInjective(MonthsFrom(first, n + 1)[i], MonthsFrom(first, n)[i]);
    }
  }

  /** `generate_month_range`. A malformed bound raises `ValueError` (as `BadMonth`);
      so does stepping past December 9999, which a range ending there reaches. */
  datatype MonthError = BadMonth(text: string) | YearOutOfRange

  /** The outcome `generate_month_range` computes, as a value. */
  function MonthRange(startMonth: string, endMonth: string): Result<seq<string>, MonthError> {
    match ParseMonth(startMonth)
    case None => Err(BadMonth(startMonth))
    case Some(s) =>
      match ParseMonth(endMonth)
      case None => Err(BadMonth(endMonth))
      case Some(e) =>
        if Index(s) <= Index(e) && e == YearMonth(9999, 12) then Err(YearOutOfRange)
        else Ok(Formatted(MonthSpan(s, e)))
  }

  /** Distinct months format to distinct strings, so the range never repeats a month. */
  lemma FormattedDistinct(ms: seq<YearMonth>)
    requires forall i :: 0 <= i < |ms| ==> Valid(ms[i])
    requires forall i, j :: 0 <= i < j < |ms| ==> Index(ms[i]) < Index(ms[j])
    ensures forall i, j :: 0 <= i < j < |ms| ==> Formatted(ms)[i] != Formatted(ms)[j]
  {
    forall i, j | 0 <= i < j < |ms| ensures Formatted(ms)[i] != Formatted(ms)[j] {
      ParseFormat(ms[i]);
      ParseFormat(ms[j]);
    }
  }

  /** Every successful range lists each month once. */
  lemma MonthRangeDistinct(startMonth: string, endMonth: string)
    requires MonthRange(startMonth, endMonth).Ok?
    ensures var ms := MonthRange(startMonth, endMonth).value;
      forall i, j :: 0 <= i < j < |ms| ==> ms[i] != ms[j]
  {
    var s, e := ParseMonth(startMonth).value, ParseMonth(endMonth).value;
    MonthSpanShape(s, e);
    FormattedDistinct(MonthSpan(s, e));
  }

  method GenerateMonthRange(startMonth: string, endMonth: string) returns (r: Result<seq<string>, MonthError>)
    ensures r == MonthRange(startMonth, endMonth)
    ensures ParseMonth(startMonth).None? ==> r == Err(BadMonth(startMonth))
    ensures ParseMonth(startMonth).Some? && ParseMonth(endMonth).None? ==> r == Err(BadMonth(endMonth))
    ensures ParseMonth(startMonth).Some? && ParseMonth(endMonth).Some? ==>
      var s, e := ParseMonth(startMonth).value, ParseMonth(endMonth).value;
      if Index(s) <= Index(e) && e == YearMonth(9999, 12) then r == Err(YearOutOfRange)
      else r == Ok(Formatted(MonthSpan(s, e)))
  {
    var start := ParseMonth(startMonth);
    if start.None? {
      return Err(BadMonth(startMonth));
    }
    var end := ParseMonth(endMonth);
    if end.None? {
      return Err(BadMonth(endMonth));
    }
    r := StepMonths(start.value, end.value);
  }

  /** The `while current <= end_date` loop of `generate_month_range`: every month from
      `s` to `e`, formatted, unless the step past the last one overflows. */
  method StepMonths(s: YearMonth, e: YearMonth) returns (r: Result<seq<string>, MonthError>)
    requires Valid(s) && Valid(e)
    ensures Index(s) <= Index(e) && e == YearMonth(9999, 12) ==> r == Err(YearOutOfRange)
    ensures !(Index(s) <= Index(e) && e == YearMonth(9999, 12)) ==> r == Ok(Formatted(MonthSpan(s, e)))
  {
    var months: seq<string> := [];
    var current := s;
    while Index(current) <= Index(e)
      invariant Valid(current)
      invariant Index(current) == Index(s) + |months|
      invariant months != [] ==> Index(current) <= Index(e) + 1
      invariant months == Formatted(MonthsFrom(s, |months|))
      decreases Index(e) - Index(current)
    {
      AppendMonth(s, current, |months|);
      months := months + [FormatMonth(current)];
      NextMonthIsSuccessor(current);
      var next := NextMonth(current);
      if next.None? {
        NoSuccessorIsEnd(current, e);
        return Err(YearOutOfRange);
      }
      current := next.value;
    }
    LoopExit(s, e, current, |months|);
    return Ok(months);
  }

  /** Appending the current month extends the formatted run of months by one. */
  lemma AppendMonth(s: YearMonth, current: YearMonth, n: nat)
    requires Valid(s) && Valid(current) && Index(current) == Index(s) + n
    ensures Formatted(MonthsFrom(s, n)) + [FormatMonth(current)] == Formatted(MonthsFrom(s, n + 1))
  {
    FromIndexOfIndex(current);
    FormattedSnoc(s, n);
  }

  /** A month without successor that is not past `e` is December 9999, and so is `e`. */
  lemma NoSuccessorIsEnd(current: YearMonth, e: YearMonth)
    requires Valid(current) && Valid(e) && Index(current) <= Index(e)
    requires NextMonth(current).None?
    ensures e == YearMonth(9999, 12)
  {
    NextMonthIsSuccessor(current);
    assert Index(e) == Index(current) == LastIndex;
    IndexInjective(current, e);
  }

  /** When the loop leaves after `n` months, it has taken every month from `s` to `e`,
      and `e` was not December 9999 unless the range was empty. */
  lemma LoopExit(s: YearMonth, e: YearMonth, current: YearMonth, n: nat)
    requires Valid(s) && Valid(e) && Valid(current)
    requires Index(current) == Index(s) + n && Index(current) > Index(e)
    requires n > 0 ==> Index(current) <= Index(e) + 1
    ensures n == (if Index(s) <= Index(e) then Index(e) - Index(s) + 1 else 0)
    ensures !(Index(s) <= Index(e) && e == YearMonth(9999, 12))
  {
    assert Index(current) <= LastIndex;
  }

  /** A three-month range, a range across a year end, and a reversed range. */
  lemma RangeExample()
    ensures Formatted(MonthSpan(YearMonth(2025, 7), YearMonth(2025, 9))) == ["2025-07", "2025-08", "2025-09"]
  {
    var span := MonthSpan(YearMonth(2025, 7), YearMonth(2025, 9));
    assert span == [YearMonth(2025, 7), YearMonth(2025, 8), YearMonth(2025, 9)];
  }

  lemma RangeExampleAcrossYearEnd()
    ensures Formatted(MonthSpan(YearMonth(2025, 11), YearMonth(2026, 2))) == ["2025-11", "2025-12", "2026-01", "2026-02"]
  {
    var span := MonthSpan(YearMonth(2025, 11), YearMonth(2026, 2));
    assert span == [YearMonth(2025, 11), YearMonth(2025, 12), YearMonth(2026, 1), YearMonth(2026, 2)];
  }

  lemma RangeExampleReversed()
    ensures Formatted(MonthSpan(YearMonth(2025, 9), YearMonth(2025, 7))) == []
  {
  }
}
