/** Proleptic Gregorian calendar arithmetic as Python's `datetime` does it:
    day ordinals (day 1 is 0001-01-01), ISO-8601 week numbers, and the
    `%m/%Y` period format that `load_dim_tempo` parses. Divisions and
    remainders are by positive constants, where Dafny's Euclidean `/` and
    `%` agree with Python's floor division. */
module Calendar {
  import opened Wrappers
  import opened Text

  datatype Date = Date(year: int, month: int, day: int)

  predicate IsLeap(y: int) {
    y % 4 == 0 && (y % 100 != 0 || y % 400 == 0)
  }

  function YearDays(y: int): int {
    if IsLeap(y) then 366 else 365
  }

  function DaysInMonth(y: int, m: int): (n: int)
    requires 1 <= m <= 12
    ensures 28 <= n <= 31
  {
    if m == 2 then (if IsLeap(y) then 29 else 28)
    else if m == 4 || m == 6 || m == 9 || m == 11 then 30
    else 31
  }

  /** Days in the months of year `y` before month `m`: a cumulative table
      for a common year, plus the leap day once February is past. */
  function DaysBeforeMonth(y: int, m: int): int
    requires 1 <= m <= 12
  {
    [0, 31, 59, 90, 120, 151, 181, 212, 243, 273, 304, 334][m - 1]
    + (if m > 2 && IsLeap(y) then 1 else 0)
  }

  /** Days in the years before year `y` (Python's `_days_before_year`). */
  function DaysBeforeYear(y: int): int {
    var y1 := y - 1;
    y1 * 365 + y1 / 4 - y1 / 100 + y1 / 400
  }

  /** The dates `datetime.date` accepts. */
  predicate ValidDate(d: Date) {
    1 <= d.year <= 9999 && 1 <= d.month <= 12 && 1 <= d.day <= DaysInMonth(d.year, d.month)
  }

  /** Python's `date.toordinal()`. */
  function Ordinal(d: Date): int
    requires 1 <= d.month <= 12
  {
    DaysBeforeYear(d.year) + DaysBeforeMonth(d.year, d.month) + d.day
  }

  /** Day of the week of an ordinal, Monday = 0 (`date.weekday()`). */
  function Weekday(ordinal: int): int {
    (ordinal + 6) % 7
  }

  /** Ordinal of the Monday that starts ISO week 1 of year `y`: the week
      holding the year's first Thursday (`_isoweek1monday`). */
  function IsoWeek1Monday(y: int): int {
    Week1Monday(DaysBeforeYear(y) + 1)
  }

  /** The Monday of week 1 for a year whose first day is `firstDay`. */
  function Week1Monday(firstDay: int): int {
    var firstWeekday := Weekday(firstDay);
    var monday := firstDay - firstWeekday;
    if firstWeekday > 3 then monday + 7 else monday
  }

  datatype IsoDate = IsoDate(year: int, week: int, weekday: int)

  /** Python's `date.isocalendar()`. */
  function IsoCalendar(d: Date): IsoDate
    requires ValidDate(d)
  {
    IsoOfOrdinal(d.year, Ordinal(d))
  }

  /** `isocalendar()` for the day with ordinal `today` in year `y`. */
  function IsoOfOrdinal(y: int, today: int): IsoDate {
    IsoPick(y, today, IsoWeek1Monday(y - 1), IsoWeek1Monday(y), IsoWeek1Monday(y + 1))
  }

  /** The body of `isocalendar()` for the day `today` of year `y`, given
      the week-1 Mondays of the previous, the current and the next year:
      count weeks from this year's week 1; before it, the day is in the
      previous year's last week; from week 53 on, it may already be in
      next year's week 1. */
  function IsoPick(y: int, today: int, earlier: int, monday: int, later: int): IsoDate {
    var week := (today - monday) / 7;
    var day := (today - monday) % 7;
    if week < 0 then
      IsoDate(y - 1, (today - earlier) / 7 + 1, (today - earlier) % 7 + 1)
    else if week >= 52 && today >= later then
      IsoDate(y + 1, 1, day + 1)
    else
      IsoDate(y, week + 1, day + 1)
  }

  /** A year has 365 days, 366 in a leap year. */
  lemma YearLength(y: int)
    ensures DaysBeforeYear(y + 1) == DaysBeforeYear(y) + YearDays(y)
  {
    FloorStep4(y);
    FloorStep100(y);
    FloorStep400(y);
    CenturyDivides(y);
    assert DaysBeforeYear(y + 1) - DaysBeforeYear(y)
        == 365 + (y / 4 - (y - 1) / 4) - (y / 100 - (y - 1) / 100) + (y / 400 - (y - 1) / 400);
  }

  /** Every 400th year is a century year, and every century year is a
      fourth year. */
  lemma CenturyDivides(y: int)
    ensures y % 400 == 0 ==> y % 100 == 0
    ensures y % 100 == 0 ==> y % 4 == 0
  {
    if y % 400 == 0 {
      var q := y / 400;
      assert y == 400 * q;
      MultipleOf100(y, 4 * q);
    }
    if y % 100 == 0 {
      var q := y / 100;
      assert y == 100 * q;
      MultipleOf4(y, 25 * q);
    }
  }

  lemma MultipleOf100(v: int, q: int)
    requires v == 100 * q
    ensures v % 100 == 0
  {
  }

  lemma MultipleOf4(v: int, q: int)
    requires v == 4 * q
    ensures v % 4 == 0
  {
  }

  lemma YearStarts(y: int)
    ensures DaysBeforeYear(y) + 365 <= DaysBeforeYear(y + 1) <= DaysBeforeYear(y) + 366
  {
    YearLength(y);
  }

  lemma FloorStep4(y: int)
    ensures y / 4 - (y - 1) / 4 == (if y % 4 == 0 then 1 else 0)
  {
  }

  lemma FloorStep100(y: int)
    ensures y / 100 - (y - 1) / 100 == (if y % 100 == 0 then 1 else 0)
  {
  }

  lemma FloorStep400(y: int)
    ensures y / 400 - (y - 1) / 400 == (if y % 400 == 0 then 1 else 0)
  {
  }

  /** Each month starts where the previous one ends, and December ends
      the year. */
  lemma MonthsTileYear(y: int, m: int)
    requires 1 <= m <= 12
    ensures m < 12 ==> DaysBeforeMonth(y, m + 1) == DaysBeforeMonth(y, m) + DaysInMonth(y, m)
    ensures m == 12 ==> DaysBeforeMonth(y, m) + DaysInMonth(y, m) == YearDays(y)
  {
  }

  lemma DaysBeforeMonthBound(y: int, m: int)
    requires 1 <= m <= 12
    ensures 0 <= DaysBeforeMonth(y, m)
    ensures DaysBeforeMonth(y, m) + DaysInMonth(y, m) <= YearDays(y)
  {
  }

  /** A valid date is a day of its year: its ordinal lies after the days
      of the preceding years and within the year's length. */
  lemma DayOfYear(d: Date)
    requires ValidDate(d)
    ensures DaysBeforeYear(d.year) < Ordinal(d) <= DaysBeforeYear(d.year + 1)
  {
    DaysBeforeMonthBound(d.year, d.month);
    YearLength(d.year);
  }

  /** Week 1 starts on a Monday and contains the year's first Thursday,
      which falls within the first seven days of the year. */
  lemma Week1Thursday(y: int)
    ensures Weekday(IsoWeek1Monday(y)) == 0
    ensures DaysBeforeYear(y) + 1 <= IsoWeek1Monday(y) + 3 <= DaysBeforeYear(y) + 7
  {
    Week1MondayFacts(DaysBeforeYear(y) + 1);
  }

  lemma Week1MondayFacts(firstDay: int)
    ensures Weekday(Week1Monday(firstDay)) == 0
    ensures firstDay <= Week1Monday(firstDay) + 3 <= firstDay + 6
  {
  }

  /** The Thursday of the Monday-to-Sunday week holding `ordinal`. */
  function ThursdayOf(ordinal: int): int {
    ordinal - Weekday(ordinal) + 3
  }

  /** `iso` numbers the week of `thursday` within the year occupying the
      ordinals `start + 1 .. end`: the Thursday lies in that year and the
      week number counts the year's Thursdays up to it. */
  predicate InIsoWeek(iso: IsoDate, thursday: int, start: int, end: int) {
    start < thursday <= end && iso.week == (thursday - start - 1) / 7 + 1
  }

  /** ISO-8601 week numbering, stated independently of Python's algorithm:
      a week belongs to the year that holds its Thursday, and its number
      counts that year's Thursdays up to and including it. */
  lemma IsoThursdayRule(d: Date)
    requires ValidDate(d)
    ensures var iso := IsoCalendar(d);
      && InIsoWeek(iso, ThursdayOf(Ordinal(d)), DaysBeforeYear(iso.year), DaysBeforeYear(iso.year + 1))
      && iso.weekday == Weekday(Ordinal(d)) + 1
  {
    DayOfYear(d);
    IsoOrdinalRule(d.year, Ordinal(d));
  }

  /** `IsoThursdayRule` for any day `today` of year `y`. */
  lemma IsoOrdinalRule(y: int, today: int)
    requires DaysBeforeYear(y) < today <= DaysBeforeYear(y + 1)
    ensures var iso := IsoOfOrdinal(y, today);
      && InIsoWeek(iso, ThursdayOf(today), DaysBeforeYear(iso.year), DaysBeforeYear(iso.year + 1))
      && iso.weekday == Weekday(today) + 1
  {
    var wd := Weekday(today);
    var f0, f1, f2, f3, m0, m1, m2 := IsoFrame(y, today);
    var k := IsoThursdayCases(y, today, wd, f0, f1, f2, f3, m0, m1, m2);
    var iso := IsoPick(y, today, m0, m1, m2);
    assert IsoOfOrdinal(y, today) == iso;
    assert ThursdayOf(today) == today - wd + 3;
    YearsAround(iso, today - wd + 3, y, k, f0, f1, f2, f3);
  }

  /** The starts of the years around `y` and the Mondays of their week 1,
      with the facts `IsoThursdayCases` needs about them. */
  lemma IsoFrame(y: int, today: int) returns (f0: int, f1: int, f2: int, f3: int, m0: int, m1: int, m2: int)
    requires DaysBeforeYear(y) < today <= DaysBeforeYear(y + 1)
    ensures f0 == DaysBeforeYear(y - 1) && f1 == DaysBeforeYear(y)
    ensures f2 == DaysBeforeYear(y + 1) && f3 == DaysBeforeYear(y + 2)
    ensures m0 == IsoWeek1Monday(y - 1) && m1 == IsoWeek1Monday(y) && m2 == IsoWeek1Monday(y + 1)
    ensures f0 + 365 <= f1 <= f0 + 366 && f1 + 365 <= f2 <= f1 + 366 && f2 + 365 <= f3 <= f2 + 366
    ensures f1 < today <= f2
    ensures f0 + 1 <= m0 + 3 <= f0 + 7 && f1 + 1 <= m1 + 3 <= f1 + 7 && f2 + 1 <= m2 + 3 <= f2 + 7
    ensures var wd := Weekday(today);
      Aligned(today, m0, wd) && Aligned(today, m1, wd) && Aligned(today, m2, wd)
  {
    f0, f1, f2, f3 := DaysBeforeYear(y - 1), DaysBeforeYear(y), DaysBeforeYear(y + 1), DaysBeforeYear(y + 2);
    m0, m1, m2 := IsoWeek1Monday(y - 1), IsoWeek1Monday(y), IsoWeek1Monday(y + 1);
    YearStarts(y - 1);
    YearStarts(y);
    YearStarts(y + 1);
    Week1Thursday(y - 1);
    Week1Thursday(y);
    Week1Thursday(y + 1);
    MondayAligned(today, m0);
    MondayAligned(today, m1);
    MondayAligned(today, m2);
  }

  /** Placing the week in one of the three years around `y` places it in
      the year `iso.year`. */
  lemma YearsAround(iso: IsoDate, thursday: int, y: int, k: int, f0: int, f1: int, f2: int, f3: int)
    requires 0 <= k <= 2 && iso.year == y - 1 + k
    requires f0 == DaysBeforeYear(y - 1) && f1 == DaysBeforeYear(y)
    requires f2 == DaysBeforeYear(y + 1) && f3 == DaysBeforeYear(y + 2)
    requires k == 0 ==> InIsoWeek(iso, thursday, f0, f1)
    requires k == 1 ==> InIsoWeek(iso, thursday, f1, f2)
    requires k == 2 ==> InIsoWeek(iso, thursday, f2, f3)
    ensures InIsoWeek(iso, thursday, DaysBeforeYear(iso.year), DaysBeforeYear(iso.year + 1))
  {
    if k == 0 {
      assert iso.year == y - 1 && iso.year + 1 == y;
    } else if k == 1 {
      assert iso.year + 1 == y + 1;
    } else {
      assert iso.year == y + 1 && iso.year + 1 == y + 2;
    }
  }

  /** The arithmetic core of `IsoThursdayRule`, over the ordinals of
      three consecutive years' starts `f0 < f1 < f2 < f3` and the Mondays
      `m0, m1, m2` of their week 1; `today` falls in the middle year `y`.
      It returns which of the three years Python's algorithm picks. */
  lemma IsoThursdayCases(y: int, today: int, wd: int, f0: int, f1: int, f2: int, f3: int,
                         m0: int, m1: int, m2: int) returns (k: int)
    requires f0 + 365 <= f1 <= f0 + 366 && f1 + 365 <= f2 <= f1 + 366 && f2 + 365 <= f3 <= f2 + 366
    requires f1 < today <= f2
    requires f0 + 1 <= m0 + 3 <= f0 + 7 && f1 + 1 <= m1 + 3 <= f1 + 7 && f2 + 1 <= m2 + 3 <= f2 + 7
    requires Aligned(today, m0, wd) && Aligned(today, m1, wd) && Aligned(today, m2, wd)
    ensures 0 <= k <= 2
    ensures var iso := IsoPick(y, today, m0, m1, m2);
      && iso.year == y - 1 + k
      && iso.weekday == wd + 1
      && (k == 0 ==> InIsoWeek(iso, today - wd + 3, f0, f1))
      && (k == 1 ==> InIsoWeek(iso, today - wd + 3, f1, f2))
      && (k == 2 ==> InIsoWeek(iso, today - wd + 3, f2, f3))
  {
    var week := (today - m1) / 7;
    var th := today - wd + 3;
    if week < 0 {
      k := 0;
      var q := (today - m0) / 7;
      assert th - f0 - 1 == 7 * q + (m0 + 3 - f0 - 1);
    } else if week >= 52 && today >= m2 {
      k := 2;
      var q := (today - m2) / 7;
      assert q == 0;
      assert th - f2 - 1 == m2 + 3 - f2 - 1;
    } else {
      k := 1;
      assert th - f1 - 1 == 7 * week + (m1 + 3 - f1 - 1);
      if week >= 52 {
        assert (today - m2) / 7 < 0;
      }
    }
  }

  /** `today` is `wd` days after a Monday a whole number of weeks from
      `monday`. */
  predicate Aligned(today: int, monday: int, wd: int) {
    && 0 <= wd < 7
    && (today - monday) % 7 == wd
    && today - wd + 3 == monday + 7 * ((today - monday) / 7) + 3
  }

  /** Counting whole weeks from a Monday lands on the Thursday of the
      current week. */
  lemma MondayAligned(today: int, monday: int)
    requires Weekday(monday) == 0
    ensures Aligned(today, monday, Weekday(today))
  {
    var q, r := (today - monday) / 7, (today - monday) % 7;
    assert today - monday == 7 * q + r;
  }

  /** ISO week numbers run from 1 to 53. */
  lemma IsoWeekBounds(d: Date)
    requires ValidDate(d)
    ensures 1 <= IsoCalendar(d).week <= 53
    ensures 1 <= IsoCalendar(d).weekday <= 7
  {
    var iso := IsoCalendar(d);
    IsoThursdayRule(d);
    YearStarts(iso.year);
  }

  /** A month of a year, as `datetime.strptime(x, "%m/%Y")` yields it. */
  datatype Period = Period(year: int, month: int)

  predicate ValidPeriod(p: Period) {
    1 <= p.year <= 9999 && 1 <= p.month <= 12
  }

  /** `strptime` raised `ValueError` on this text. */
  datatype PeriodError = BadPeriod(text: string)

  /** `datetime.strptime(s, "%m/%Y")`. The month is one or two ASCII
      digits naming 1 to 12 (the pattern `1[0-2]|0[1-9]|[1-9]`), then a
      slash, then exactly four digits (`\d\d\d\d`) and nothing else; the
      year must be at least 1 for `datetime` to accept it. */
  function ParsePeriod(s: string): (r: Result<Period, PeriodError>)
    ensures r.Ok? ==> ValidPeriod(r.value)
  {
    var k := IndexOf(s, '/');
    if k == |s| then Err(BadPeriod(s))
    else
      var monthText, yearText := s[..k], s[k + 1..];
      if !(1 <= |monthText| <= 2 && AllDigits(monthText) && |yearText| == 4 && AllDigits(yearText))
      then Err(BadPeriod(s))
      else
        var month, year := DigitsValue(monthText), DigitsValue(yearText);
        FourDigitsBound(yearText);
        if !(1 <= month <= 12) || year < 1 then Err(BadPeriod(s))
        else Ok(Period(year, month))
  }

  function DigitChar(n: int): char
    requires 0 <= n <= 9
  {
    ('0' as int + n) as char
  }

  function Digit(c: char): int {
    c as int - '0' as int
  }

  /** Two-digit month, as `strftime("%m")` writes it. */
  function MonthText(m: int): string
    requires 1 <= m <= 12
  {
    [DigitChar(m / 10), DigitChar(m % 10)]
  }

  /** Four-digit year, as `strftime("%Y")` writes it. */
  function YearText(y: int): string
    requires 0 <= y <= 9999
  {
    [DigitChar(y / 1000), DigitChar(y / 100 % 10), DigitChar(y / 10 % 10), DigitChar(y % 10)]
  }

  function FormatPeriod(p: Period): string
    requires ValidPeriod(p)
  {
    MonthText(p.month) + "/" + YearText(p.year)
  }

  /** The texts `strptime` reads as period `p`: the two-digit month, or
      the one-digit month when it is below 10, then the four-digit year. */
  predicate Spells(s: string, p: Period)
    requires ValidPeriod(p)
  {
    s == FormatPeriod(p) || (p.month < 10 && s == [DigitChar(p.month)] + "/" + YearText(p.year))
  }

  lemma OneDigit(ds: string)
    requires |ds| == 1 && AllDigits(ds)
    ensures DigitsValue(ds) == Digit(ds[0])
  {
    assert ds[..0] == [];
  }

  lemma TwoDigits(ds: string)
    requires |ds| == 2 && AllDigits(ds)
    ensures DigitsValue(ds) == 10 * Digit(ds[0]) + Digit(ds[1])
  {
    OneDigit(ds[..1]);
  }

  lemma FourDigits(ds: string)
    requires |ds| == 4 && AllDigits(ds)
    ensures DigitsValue(ds) == 1000 * Digit(ds[0]) + 100 * Digit(ds[1]) + 10 * Digit(ds[2]) + Digit(ds[3])
  {
    var three := ds[..3];
    assert three[..2] == ds[..2];
    TwoDigits(ds[..2]);
    assert DigitsValue(three) == DigitsValue(ds[..2]) * 10 + Digit(ds[2]);
  }

  lemma FourDigitsBound(ds: string)
    requires |ds| == 4 && AllDigits(ds)
    ensures DigitsValue(ds) <= 9999
  {
    FourDigits(ds);
  }

  /** Digit strings are determined by their value and length. */
  lemma YearTextOfDigits(ds: string)
    requires |ds| == 4 && AllDigits(ds)
    ensures DigitsValue(ds) <= 9999 && YearText(DigitsValue(ds)) == ds
  {
    FourDigits(ds);
    var a, b, c, d := Digit(ds[0]), Digit(ds[1]), Digit(ds[2]), Digit(ds[3]);
    var v := 1000 * a + 100 * b + 10 * c + d;
    DivMod1000(v, a, 100 * b + 10 * c + d);
    DivMod100(v, 10 * a + b, 10 * c + d);
    DivMod10(10 * a + b, a, b);
    DivMod10(v, 100 * a + 10 * b + c, d);
    DivMod10(100 * a + 10 * b + c, 10 * a + b, c);
  }

  lemma DivMod10(v: int, q: int, r: int)
    requires v == 10 * q + r && 0 <= r < 10
    ensures v / 10 == q && v % 10 == r
  {
  }

  lemma DivMod100(v: int, q: int, r: int)
    requires v == 100 * q + r && 0 <= r < 100
    ensures v / 100 == q
  {
  }

  lemma DivMod1000(v: int, q: int, r: int)
    requires v == 1000 * q + r && 0 <= r < 1000
    ensures v / 1000 == q
  {
  }

  lemma MonthTextOfDigits(ds: string)
    requires |ds| == 2 && AllDigits(ds) && 1 <= DigitsValue(ds) <= 12
    ensures MonthText(DigitsValue(ds)) == ds
  {
    TwoDigits(ds);
  }

  lemma YearTextValue(y: int)
    requires 0 <= y <= 9999
    ensures AllDigits(YearText(y)) && DigitsValue(YearText(y)) == y
  {
    var t := YearText(y);
    assert AllDigits(t);
    FourDigits(t);
    YearDecompose(y);
  }

  lemma YearDecompose(y: int)
    requires 0 <= y <= 9999
    ensures y == 1000 * (y / 1000) + 100 * (y / 100 % 10) + 10 * (y / 10 % 10) + y % 10
  {
    var q1, r0 := y / 10, y % 10;
    var q2, r1 := q1 / 10, q1 % 10;
    var q3, r2 := q2 / 10, q2 % 10;
    DivMod100(y, q2, 10 * r1 + r0);
    DivMod1000(y, q3, 100 * r2 + 10 * r1 + r0);
  }

  lemma MonthTextValue(m: int)
    requires 1 <= m <= 12
    ensures AllDigits(MonthText(m)) && DigitsValue(MonthText(m)) == m
  {
    TwoDigits(MonthText(m));
  }

  /** The pieces `ParsePeriod` cuts a text into around its first slash. */
  lemma SlashSplit(s: string, monthText: string, yearText: string)
    requires '/' !in monthText && s == monthText + "/" + yearText
    ensures IndexOf(s, '/') == |monthText|
    ensures s[..|monthText|] == monthText && s[|monthText| + 1..] == yearText
  {
    assert s[..|monthText|] == monthText;
    IndexOfAt(s, '/', |monthText|);
  }

  /** Reading a period back: the two spellings of `p`, and only they,
      parse to `p`. */
  lemma ParsePeriodExact(s: string, p: Period)
    ensures ParsePeriod(s) == Ok(p) <==> ValidPeriod(p) && Spells(s, p)
  {
    if ParsePeriod(s) == Ok(p) {
      ParsedSpells(s);
    }
    if ValidPeriod(p) && Spells(s, p) {
      SpellingParses(s, p);
    }
  }

  lemma ParsedSpells(s: string)
    requires ParsePeriod(s).Ok?
    ensures ValidPeriod(ParsePeriod(s).value) && Spells(s, ParsePeriod(s).value)
  {
    var p := ParsePeriod(s).value;
    var k := IndexOf(s, '/');
    var monthText, yearText := s[..k], s[k + 1..];
    assert s == monthText + "/" + yearText;
    assert p == Period(DigitsValue(yearText), DigitsValue(monthText));
    YearTextOfDigits(yearText);
    if |monthText| == 2 {
      MonthTextOfDigits(monthText);
      assert s == FormatPeriod(p);
    } else {
      OneDigit(monthText);
      assert monthText == [DigitChar(p.month)];
    }
  }

  lemma SpellingParses(s: string, p: Period)
    requires ValidPeriod(p) && Spells(s, p)
    ensures ParsePeriod(s) == Ok(p)
  {
    var yearText := YearText(p.year);
    var monthText := if s == FormatPeriod(p) then MonthText(p.month) else [DigitChar(p.month)];
    SlashSplit(s, monthText, yearText);
    YearTextValue(p.year);
    if |monthText| == 2 {
      MonthTextValue(p.month);
    } else {
      OneDigit(monthText);
    }
  }

  /** The `dim_tempo` row of a period: year, month, ISO week of the
      month's first day, and the month's first and last days. */
  datatype TempoRow = TempoRow(ano: int, mes: int, semana: int, inicio: Date, fim: Date)

  function TempoOf(p: Period): TempoRow
    requires ValidPeriod(p)
  {
    var first := Date(p.year, p.month, 1);
    TempoRow(p.year, p.month, IsoCalendar(first).week, first,
             Date(p.year, p.month, DaysInMonth(p.year, p.month)))
  }

  /** A tempo row covers its month exactly: it starts on day 1, ends on
      the month's last day, and its week number is a valid ISO week. */
  lemma TempoSpansMonth(p: Period)
    requires ValidPeriod(p)
    ensures var t := TempoOf(p);
      && t.ano == p.year && t.mes == p.month
      && ValidDate(t.inicio) && ValidDate(t.fim)
      && Ordinal(t.fim) - Ordinal(t.inicio) + 1 == DaysInMonth(p.year, p.month)
      && 1 <= t.semana <= 53
      && (forall d :: ValidDate(d) && d.year == p.year && d.month == p.month
            ==> Ordinal(t.inicio) <= Ordinal(d) <= Ordinal(t.fim))
  {
    IsoWeekBounds(Date(p.year, p.month, 1));
  }

  /** The month after `p`. */
  function NextPeriod(p: Period): Period {
    if p.month == 12 then Period(p.year + 1, 1) else Period(p.year, p.month + 1)
  }

  /** Consecutive months' tempo rows tile the calendar: each month ends
      the day before the next one starts. */
  lemma TemposTile(p: Period)
    requires ValidPeriod(p) && ValidPeriod(NextPeriod(p))
    ensures Ordinal(TempoOf(p).fim) + 1 == Ordinal(TempoOf(NextPeriod(p)).inicio)
  {
    MonthsTileYear(p.year, p.month);
    if p.month == 12 {
      YearLength(p.year);
    }
  }

  /** "03/2024" is March 2024; its first day is in ISO week 9 and the
      month runs from the 1st to the 31st. */
  lemma March2024()
    ensures ParsePeriod("03/2024") == Ok(Period(2024, 3))
    ensures TempoOf(Period(2024, 3)) == TempoRow(2024, 3, 9, Date(2024, 3, 1), Date(2024, 3, 31))
  {
    ParseMarch2024();
    WeekOfMarch2024();
  }

  lemma ParseMarch2024()
    ensures ParsePeriod("03/2024") == Ok(Period(2024, 3))
  {
    assert FormatPeriod(Period(2024, 3)) == "03/2024";
    SpellingParses("03/2024", Period(2024, 3));
  }

  lemma WeekOfMarch2024()
    ensures IsoCalendar(Date(2024, 3, 1)).week == 9
  {
    assert DaysBeforeYear(2024) == 738885;
    assert Ordinal(Date(2024, 3, 1)) == 738946;
    assert IsoWeek1Monday(2024) == 738886;
  }

  /** Month 13, month 0 and a two-digit year are rejected. */
  lemma RejectedPeriods()
    ensures ParsePeriod("13/2024").Err?
    ensures ParsePeriod("00/2024").Err?
    ensures ParsePeriod("03/24").Err?
  {
    MonthRejected("13/2024", "13", "2024");
    MonthRejected("00/2024", "00", "2024");
    ShortYearRejected();
  }

  lemma ShortYearRejected()
    ensures ParsePeriod("03/24").Err?
  {
    SlashSplit("03/24", "03", "24");
  }

  lemma MonthRejected(s: string, monthText: string, yearText: string)
    requires |monthText| == 2 && AllDigits(monthText) && '/' !in monthText
    requires s == monthText + "/" + yearText
    requires !(1 <= 10 * Digit(monthText[0]) + Digit(monthText[1]) <= 12)
    ensures ParsePeriod(s).Err?
  {
    SlashSplit(s, monthText, yearText);
    TwoDigits(monthText);
  }
}
