/** Calendar days as Gregorian (year, month, day) triples: what the `moment`
    objects in `rowToGrid` and the normaliser stand for. */
module Calendar {
  import opened Digits
  import opened Wrappers

  datatype Date = Date(year: int, month: int, day: int)

  predicate IsLeapYear(y: int) {
    y % 4 == 0 && (y % 100 != 0 || y % 400 == 0)
  }

  function DaysInMonth(y: int, m: int): (n: int)
    requires 1 <= m <= 12
    ensures 28 <= n <= 31
  {
    if m == 2 then (if IsLeapYear(y) then 29 else 28)
    else if m == 4 || m == 6 || m == 9 || m == 11 then 30
    else 31
  }

  predicate ValidDate(d: Date) {
    1 <= d.month <= 12 && 1 <= d.day <= DaysInMonth(d.year, d.month)
  }

  /** Years written with exactly four digits, for which the `YYYY-MM-DD` text order is the calendar order. */
  predicate FourDigitYear(d: Date) {
    1000 <= d.year <= 9999
  }

  /** A day the normaliser can produce: valid, with a four-digit year. */
  predicate GoodDate(d: Date) {
    ValidDate(d) && FourDigitYear(d)
  }

  predicate DateLt(a: Date, b: Date) {
    a.year < b.year
    || (a.year == b.year && a.month < b.month)
    || (a.year == b.year && a.month == b.month && a.day < b.day)
  }

  predicate DateLe(a: Date, b: Date) {
    a == b || DateLt(a, b)
  }

  /** `moment(d).add(1, 'd')`: the following calendar day. */
  function NextDay(d: Date): (n: Date)
    requires ValidDate(d)
    ensures ValidDate(n) && DateLt(d, n)
  {
    if d.day < DaysInMonth(d.year, d.month) then Date(d.year, d.month, d.day + 1)
    else if d.month < 12 then Date(d.year, d.month + 1, 1)
    else Date(d.year + 1, 1, 1)
  }

  /** No valid day lies strictly between a day and the next one. */
  lemma NoDayBetween(d: Date, x: Date)
    requires ValidDate(d) && ValidDate(x) && DateLt(d, x)
    ensures DateLe(NextDay(d), x)
  {
  }

  /** A measure that grows with the calendar order on valid days; it bounds the day-range loop. */
  function Ordinal(d: Date): int {
    d.year * 384 + d.month * 32 + d.day
  }

  lemma OrdinalMonotone(a: Date, b: Date)
    requires ValidDate(a) && ValidDate(b) && DateLe(a, b)
    ensures Ordinal(a) <= Ordinal(b)
  {
    if a.year < b.year {
      assert Ordinal(a) <= a.year * 384 + 12 * 32 + 31;
      assert a.year * 384 + 384 <= b.year * 384;
    }
  }

  lemma OrdinalOfNextDay(d: Date)
    requires ValidDate(d)
    ensures Ordinal(d) < Ordinal(NextDay(d))
  {
  }

  /** `_.min` of the dates: the earliest one. */
  function MinDate(ds: seq<Date>): (m: Date)
    requires |ds| > 0
    ensures m in ds
    ensures forall i :: 0 <= i < |ds| ==> DateLe(m, ds[i])
  {
    if |ds| == 1 then ds[0]
    else
      var rest := MinDate(ds[1..]);
      if DateLe(ds[0], rest) then ds[0] else rest
  }

  /** `_.max` of the dates: the latest one. */
  function MaxDate(ds: seq<Date>): (m: Date)
    requires |ds| > 0
    ensures m in ds
    ensures forall i :: 0 <= i < |ds| ==> DateLe(ds[i], m)
  {
    if |ds| == 1 then ds[0]
    else
      var rest := MaxDate(ds[1..]);
      if DateLe(rest, ds[0]) then ds[0] else rest
  }

  /** Every calendar day from `lo` up to `hi`: what the day-range loop of
      `rowToGrid` collects. DaysFromShape states what it holds. */
  function DaysFrom(lo: Date, hi: Date): seq<Date>
    requires ValidDate(lo) && ValidDate(hi)
    decreases Ordinal(hi) - Ordinal(lo)
  {
    if DateLt(hi, lo) then []
    else
      OrdinalMonotone(lo, hi);
      OrdinalOfNextDay(lo);
      [lo] + DaysFrom(NextDay(lo), hi)
  }

  /** The range runs from `lo` to `hi` inclusive, each day the one after the day
      before, strictly increasing and without gaps: it holds every valid day in between. */
  lemma DaysFromShape(lo: Date, hi: Date)
    requires ValidDate(lo) && ValidDate(hi)
    ensures var r := DaysFrom(lo, hi);
      && (DateLt(hi, lo) ==> r == [])
      && (DateLe(lo, hi) ==> |r| > 0 && r[0] == lo && r[|r| - 1] == hi)
      && (forall i :: 0 <= i < |r| ==> ValidDate(r[i]) && DateLe(lo, r[i]) && DateLe(r[i], hi))
      && (forall i :: 0 <= i < |r| - 1 ==> r[i + 1] == NextDay(r[i]))
      && (forall d :: ValidDate(d) && DateLe(lo, d) && DateLe(d, hi) ==> d in r)
      && (forall i, j :: 0 <= i < j < |r| ==> DateLt(r[i], r[j]))
  {
    DaysFromEnds(lo, hi);
    DaysFromSteps(lo, hi);
    DaysFromComplete(lo, hi);
    DaysFromIncreasing(lo, hi);
  }

  /** The range is empty when `hi` is before `lo`, and otherwise starts at
      `lo`, ends at `hi` and stays between them. */
  lemma {:induction false} DaysFromEnds(lo: Date, hi: Date)
    requires ValidDate(lo) && ValidDate(hi)
    ensures var r := DaysFrom(lo, hi);
      && (DateLt(hi, lo) ==> r == [])
      && (DateLe(lo, hi) ==> |r| > 0 && r[0] == lo && r[|r| - 1] == hi)
      && (forall i :: 0 <= i < |r| ==> ValidDate(r[i]) && DateLe(lo, r[i]) && DateLe(r[i], hi))
    decreases Ordinal(hi) - Ordinal(lo)
  {
    if !DateLt(hi, lo) {
      OrdinalMonotone(lo, hi);
      OrdinalOfNextDay(lo);
      var next := NextDay(lo);
      DaysFromEnds(next, hi);
      var rest := DaysFrom(next, hi);
      var r := DaysFrom(lo, hi);
      assert r == [lo] + rest;
      if rest == [] && lo != hi {
        NoDayBetween(lo, hi);
      }
      forall i | 0 < i < |r|
        ensures ValidDate(r[i]) && DateLe(lo, r[i]) && DateLe(r[i], hi)
      {
        assert r[i] == rest[i - 1];
      }
    }
  }

  /** Each day of the range is the one after the day before it. */
  lemma {:induction false} DaysFromSteps(lo: Date, hi: Date)
    requires ValidDate(lo) && ValidDate(hi)
    ensures var r := DaysFrom(lo, hi);
      forall i :: 0 <= i < |r| - 1 ==> ValidDate(r[i]) && r[i + 1] == NextDay(r[i])
    decreases Ordinal(hi) - Ordinal(lo)
  {
    if !DateLt(hi, lo) {
      OrdinalMonotone(lo, hi);
      OrdinalOfNextDay(lo);
      var next := NextDay(lo);
      DaysFromSteps(next, hi);
      DaysFromEnds(next, hi);
      var rest := DaysFrom(next, hi);
      var r := DaysFrom(lo, hi);
      assert r == [lo] + rest;
      forall i | 0 <= i < |r| - 1
        ensures ValidDate(r[i]) && r[i + 1] == NextDay(r[i])
      {
        if i > 0 {
          assert r[i] == rest[i - 1] && r[i + 1] == rest[i];
        }
      }
    }
  }

  /** Every valid day from `lo` to `hi` is in the range. */
  lemma {:induction false} DaysFromComplete(lo: Date, hi: Date)
    requires ValidDate(lo) && ValidDate(hi)
    ensures forall d :: ValidDate(d) && DateLe(lo, d) && DateLe(d, hi) ==> d in DaysFrom(lo, hi)
    decreases Ordinal(hi) - Ordinal(lo)
  {
    if !DateLt(hi, lo) {
      OrdinalMonotone(lo, hi);
      OrdinalOfNextDay(lo);
      var next := NextDay(lo);
      DaysFromComplete(next, hi);
      var rest := DaysFrom(next, hi);
      var r := DaysFrom(lo, hi);
      assert r == [lo] + rest;
      forall d | ValidDate(d) && DateLe(lo, d) && DateLe(d, hi)
        ensures d in r
      {
        if d != lo {
          NoDayBetween(lo, d);
          assert d in rest;
        }
      }
    }
  }

  /** The days of the range strictly increase. */
  lemma {:induction false} DaysFromIncreasing(lo: Date, hi: Date)
    requires ValidDate(lo) && ValidDate(hi)
    ensures var r := DaysFrom(lo, hi);
      forall i, j :: 0 <= i < j < |r| ==> DateLt(r[i], r[j])
    decreases Ordinal(hi) - Ordinal(lo)
  {
    if !DateLt(hi, lo) {
      OrdinalMonotone(lo, hi);
      OrdinalOfNextDay(lo);
      var next := NextDay(lo);
      DaysFromIncreasing(next, hi);
      DaysFromEnds(next, hi);
      var rest := DaysFrom(next, hi);
      var r := DaysFrom(lo, hi);
      assert r == [lo] + rest;
      forall i, j | 0 <= i < j < |r|
        ensures DateLt(r[i], r[j])
      {
        assert r[j] == rest[j - 1];
        if i > 0 {
          assert r[i] == rest[i - 1];
        } else {
          assert DateLe(next, rest[j - 1]);
        }
      }
    }
  }

  /** The `while (startDate <= maxDate)` loop of `rowToGrid`. */
  method DayRange(lo: Date, hi: Date) returns (range: seq<Date>)
    requires ValidDate(lo) && ValidDate(hi)
    ensures range == DaysFrom(lo, hi)
  {
    range := [];
    var day := lo;
    while DateLe(day, hi)
      invariant ValidDate(day)
      invariant range + DaysFrom(day, hi) == DaysFrom(lo, hi)
      decreases Ordinal(hi) - Ordinal(day) + 1
    {
      OrdinalMonotone(day, hi);
      OrdinalOfNextDay(day);
      var rest := DaysFrom(NextDay(day), hi);
      assert DaysFrom(day, hi) == [day] + rest;
      assert range + DaysFrom(day, hi) == (range + [day]) + rest;
      range := range + [day];
      day := NextDay(day);
    }
    assert range + [] == range;
  }

  // ---------------------------------------------------------------------
  // Date text: `YYYY<sep>MM<sep>DD`

  /** `moment(...).format('YYYY-MM-DD')` with `sep` = '-'. */
  function FormatDate(d: Date, sep: char): (s: string)
    requires ValidDate(d) && FourDigitYear(d)
    ensures |s| == 10 && s[4] == sep && s[7] == sep
  {
    FixedDigits(d.year, 4) + [sep] + FixedDigits(d.month, 2) + [sep] + FixedDigits(d.day, 2)
  }

  /** Text `YYYY<sep>MM<sep>DD` read as a valid day; anything else is None. */
  function ParseDate(s: string, sep: char): (r: Option<Date>)
    ensures r.Some? ==> ValidDate(r.value)
  {
    if |s| == 10 && s[4] == sep && s[7] == sep
       && AllDigits(s[..4]) && AllDigits(s[5..7]) && AllDigits(s[8..])
    then
      var d := Date(DigitsValue(s[..4]), DigitsValue(s[5..7]), DigitsValue(s[8..]));
      if ValidDate(d) then Some(d) else None
    else None
  }

  /** Formatting and parsing with the same separator are inverse: moment reads
      back in `rowToGrid` the very day the normaliser wrote. */
  lemma ParseFormatDate(d: Date, sep: char)
    requires ValidDate(d) && FourDigitYear(d)
    ensures ParseDate(FormatDate(d, sep), sep) == Some(d)
  {
    var s := FormatDate(d, sep);
    assert s[..4] == FixedDigits(d.year, 4);
    assert s[5..7] == FixedDigits(d.month, 2);
    assert s[8..] == FixedDigits(d.day, 2);
  }

  /** Distinct days have distinct texts, so comparing texts compares days. */
  lemma FormatDateInjective(a: Date, b: Date, sep: char)
    requires ValidDate(a) && FourDigitYear(a) && ValidDate(b) && FourDigitYear(b)
    requires FormatDate(a, sep) == FormatDate(b, sep)
    ensures a == b
  {
    ParseFormatDate(a, sep);
    ParseFormatDate(b, sep);
  }

  /** The other way round: ten characters that read as a day with a
      four-digit year are exactly that day's text. */
  lemma FormatParseDate(s: string, sep: char)
    requires ParseDate(s, sep).Some? && FourDigitYear(ParseDate(s, sep).value)
    ensures FormatDate(ParseDate(s, sep).value, sep) == s
  {
    FixedDigitsValue(s[..4]);
    FixedDigitsValue(s[5..7]);
    FixedDigitsValue(s[8..]);
    var d := ParseDate(s, sep).value;
    assert s == s[..4] + [sep] + s[5..7] + [sep] + s[8..];
  }

  /** `YYYY-MM-DD`, the text `rowToGrid` keys its columns by; the empty text
      for days the normaliser never produces. */
  function DateText(d: Date): (s: string)
    ensures GoodDate(d) ==> s == FormatDate(d, '-')
    ensures GoodDate(d) ==> |s| == 10 && ',' !in s
  {
    if GoodDate(d) then FormatDate(d, '-') else []
  }

  lemma DateTextInjective(a: Date, b: Date)
    requires GoodDate(a) && GoodDate(b) && DateText(a) == DateText(b)
    ensures a == b
  {
    FormatDateInjective(a, b, '-');
  }
}
