/** The part of java.time.LocalDate the service relies on: proleptic Gregorian dates, their
  * order (isBefore), subtraction of days, months and years (minus), the supported year range,
  * and the ISO-8601 text that toString produces. */
module Calendar {
  import opened Wrappers
  import opened Text

  /** A calendar date; only values satisfying ValidDate denote a LocalDate. */
  datatype Date = Date(year: int, month: int, day: int)

  /** The units the range expression can name (ChronoUnit.DAYS, MONTHS, YEARS). */
  datatype ChronoUnit = Days | Months | Years

  /** LocalDate.MIN and LocalDate.MAX lie in these years. */
  const MinYear: int := -999_999_999
  const MaxYear: int := 999_999_999

  /** IsoChronology.isLeapYear */
  predicate IsLeapYear(y: int) {
    y % 4 == 0 && (y % 100 != 0 || y % 400 == 0)
  }

  function LengthOfMonth(y: int, m: int): (n: int)
    requires 1 <= m <= 12
    ensures 28 <= n <= 31
    ensures m == 2 ==> (n == 29 <==> IsLeapYear(y))
  {
    if m == 2 then (if IsLeapYear(y) then 29 else 28)
    else if m == 4 || m == 6 || m == 9 || m == 11 then 30
    else 31
  }

  predicate ValidDate(d: Date) {
    1 <= d.month <= 12 && 1 <= d.day <= LengthOfMonth(d.year, d.month)
  }

  predicate InSupportedRange(d: Date) {
    MinYear <= d.year <= MaxYear
  }

  /** LocalDate.isBefore: chronological order, which on dates is the order of (year, month, day). */
  predicate IsBefore(a: Date, b: Date) {
    a.year < b.year || (a.year == b.year && (a.month < b.month || (a.month == b.month && a.day < b.day)))
  }

  /** isBefore is a strict total order: never reflexive, never both ways, transitive, and of two
    * different dates one is before the other. */
  lemma IsBeforeStrictTotalOrder(a: Date, b: Date, c: Date)
    ensures !IsBefore(a, a)
    ensures IsBefore(a, b) ==> !IsBefore(b, a)
    ensures IsBefore(a, b) && IsBefore(b, c) ==> IsBefore(a, c)
    ensures a != b ==> IsBefore(a, b) || IsBefore(b, a)
  {
  }

  function Min(a: int, b: int): int {
    if a <= b then a else b
  }

  function NextDay(d: Date): (r: Date)
    requires ValidDate(d)
    ensures ValidDate(r) && IsBefore(d, r)
  {
    if d.day < LengthOfMonth(d.year, d.month) then d.(day := d.day + 1)
    else if d.month < 12 then Date(d.year, d.month + 1, 1)
    else Date(d.year + 1, 1, 1)
  }

  function PreviousDay(d: Date): (r: Date)
    requires ValidDate(d)
    ensures ValidDate(r) && IsBefore(r, d)
  {
    if d.day > 1 then d.(day := d.day - 1)
    else if d.month > 1 then Date(d.year, d.month - 1, LengthOfMonth(d.year, d.month - 1))
    else Date(d.year - 1, 12, 31)
  }

  /** Stepping one day forward and one day back, in either order, returns to the same date. */
  lemma NextDayPreviousDayInverse(d: Date)
    requires ValidDate(d)
    ensures PreviousDay(NextDay(d)) == d && NextDay(PreviousDay(d)) == d
  {
  }

  /** LocalDate.plusDays: `n` days later (earlier when `n` is negative). */
  function PlusDays(d: Date, n: int): (r: Date)
    requires ValidDate(d)
    ensures ValidDate(r)
    ensures n > 0 ==> IsBefore(d, r)
    ensures n < 0 ==> IsBefore(r, d)
    decreases if n < 0 then -n else n
  {
    if n == 0 then d
    else if n > 0 then PlusDays(NextDay(d), n - 1)
    else PlusDays(PreviousDay(d), n + 1)
  }

  /** LocalDate.plusMonths: move the month by exactly `n` and keep the day of month, clamped to
    * the last day of the month reached (resolvePreviousValid). */
  function PlusMonths(d: Date, n: int): (r: Date)
    requires ValidDate(d)
    ensures ValidDate(r)
    ensures r.year * 12 + r.month == d.year * 12 + d.month + n
    ensures r.day <= d.day && (d.day <= LengthOfMonth(r.year, r.month) ==> r.day == d.day)
    ensures r.day < d.day ==> r.day == LengthOfMonth(r.year, r.month)
  {
    if n == 0 then d
    else
      var months := d.year * 12 + (d.month - 1) + n;
      var y, m := months / 12, months % 12 + 1;
      Date(y, m, Min(d.day, LengthOfMonth(y, m)))
  }

  /** LocalDate.plusYears: same month, day clamped to the month's length (29 February becomes
    * 28 February outside leap years). */
  function PlusYears(d: Date, n: int): (r: Date)
    requires ValidDate(d)
    ensures ValidDate(r)
    ensures r.year == d.year + n && r.month == d.month
    ensures r.day <= d.day && (d.day <= LengthOfMonth(r.year, r.month) ==> r.day == d.day)
    ensures r.day < d.day ==> r.day == LengthOfMonth(r.year, r.month)
  {
    if n == 0 then d else Date(d.year + n, d.month, Min(d.day, LengthOfMonth(d.year + n, d.month)))
  }

  /** LocalDate.plus(n, unit) for the three units the service uses. */
  function Plus(d: Date, n: int, unit: ChronoUnit): (r: Date)
    requires ValidDate(d)
    ensures ValidDate(r)
  {
    match unit
    case Days => PlusDays(d, n)
    case Months => PlusMonths(d, n)
    case Years => PlusYears(d, n)
  }

  /** LocalDate.minus(n, unit): None where java.time throws DateTimeException because the result
    * leaves the supported years. */
  function Minus(d: Date, n: int, unit: ChronoUnit): (r: Option<Date>)
    requires ValidDate(d)
    ensures r.Some? ==> ValidDate(r.value) && InSupportedRange(r.value)
    ensures r.None? <==> !InSupportedRange(Plus(d, -n, unit))
    ensures r.Some? ==> r.value == Plus(d, -n, unit)
  {
    var e := Plus(d, -n, unit);
    if InSupportedRange(e) then Some(e) else None
  }

  lemma {:induction false} PlusDaysStepForward(d: Date, n: int)
    requires ValidDate(d)
    ensures PlusDays(NextDay(d), n) == PlusDays(d, n + 1)
  {
    if n < 0 {
      NextDayPreviousDayInverse(d);
    }
  }

  lemma {:induction false} PlusDaysStepBack(d: Date, n: int)
    requires ValidDate(d)
    ensures PlusDays(PreviousDay(d), n) == PlusDays(d, n - 1)
  {
    if n > 0 {
      NextDayPreviousDayInverse(d);
    }
  }

  /** Adding days is exact: adding `a` then `b` days adds `a + b` days. */
  lemma {:induction false} PlusDaysAdditive(d: Date, a: int, b: int)
    requires ValidDate(d)
    ensures PlusDays(PlusDays(d, a), b) == PlusDays(d, a + b)
    decreases if a < 0 then -a else a
  {
    if a > 0 {
      PlusDaysAdditive(NextDay(d), a - 1, b);
      PlusDaysStepForward(d, a - 1 + b);
    } else if a < 0 {
      PlusDaysAdditive(PreviousDay(d), a + 1, b);
      PlusDaysStepBack(d, a + 1 + b);
    }
  }

  /** Subtracting days undoes adding them. */
  lemma PlusDaysInverse(d: Date, n: int)
    requires ValidDate(d)
    ensures PlusDays(PlusDays(d, n), -n) == d
  {
    PlusDaysAdditive(d, n, -n);
  }

  /** The same holds for every unit: plus(n, unit) is later than `d` exactly when `n` is positive. */
  lemma PlusOrder(d: Date, n: int, unit: ChronoUnit)
    requires ValidDate(d)
    ensures n == 0 ==> Plus(d, n, unit) == d
    ensures n > 0 ==> IsBefore(d, Plus(d, n, unit))
    ensures n < 0 ==> IsBefore(Plus(d, n, unit), d)
  {
  }

  /** LocalDate.toString's year: four digits at least, a '-' sign for negative years and a '+'
    * sign for years beyond 9999. */
  function YearString(y: int): string {
    if -1000 < y < 0 then "-" + Fixed(-y, 4)
    else if 0 <= y < 1000 then Fixed(y, 4)
    else if y > 9999 then "+" + IntToString(y)
    else IntToString(y)
  }

  /** A month or day field of LocalDate.toString: a dash, then at least two digits. */
  function MonthDayField(v: int): string {
    (if v < 10 then "-0" else "-") + IntToString(v)
  }

  /** LocalDate.toString: the ISO-8601 extended form uuuu-MM-dd. For a year of at most four
    * digits that is ten characters, dashes at 4 and 7, and the three fields read back as numbers. */
  function IsoString(d: Date): (r: string)
    ensures ValidDate(d) && 0 <= d.year <= 9999 ==>
      && |r| == 10 && r[4] == '-' && r[7] == '-'
      && AllDigits(r[..4]) && AllDigits(r[5..7]) && AllDigits(r[8..])
      && DecimalValue(r[..4]) == d.year && DecimalValue(r[5..7]) == d.month && DecimalValue(r[8..]) == d.day
  {
    var r := YearString(d.year) + MonthDayField(d.month) + MonthDayField(d.day);
    if ValidDate(d) && 0 <= d.year <= 9999 then
      YearStringFixedWidth(d.year);
      TwoDigitField(d.month);
      TwoDigitField(d.day);
      assert Pow10(2) == 100 && Pow10(4) == 10000;
      DecimalValueOfFixed(d.year, 4);
      DecimalValueOfFixed(d.month, 2);
      DecimalValueOfFixed(d.day, 2);
      DashedFields(Fixed(d.year, 4), Fixed(d.month, 2), Fixed(d.day, 2));
      r
    else r
  }

  /** Where the three fields sit in text of the form y-m-d with widths 4, 2 and 2. */
  lemma DashedFields(y: string, m: string, d: string)
    requires |y| == 4 && |m| == 2 && |d| == 2
    ensures var r := y + ("-" + m) + ("-" + d);
      |r| == 10 && r[4] == '-' && r[7] == '-' && r[..4] == y && r[5..7] == m && r[8..] == d
  {
  }

  /** A two-digit field of the ISO text is the zero-padded number. */
  lemma TwoDigitField(v: int)
    requires 1 <= v <= 99
    ensures MonthDayField(v) == "-" + Fixed(v, 2)
  {
    if v < 10 {
      assert Fixed(v, 2) == Fixed(0, 1) + [DigitChar(v)];
    } else {
      assert Pow10(1) == 10 && Pow10(2) == 100;
      DigitsAreFixedWidth(v, 2);
    }
  }

  /** A year from 0 to 9999 is written with exactly four digits. */
  lemma YearStringFixedWidth(y: int)
    requires 0 <= y <= 9999
    ensures YearString(y) == Fixed(y, 4)
  {
    if y >= 1000 {
      assert Pow10(3) == 1000 && Pow10(4) == 10000;
      DigitsAreFixedWidth(y, 4);
    }
  }

  /** For a year of at most four digits, toString writes fixed-width fields. */
  lemma IsoStringFixedWidth(d: Date)
    requires ValidDate(d) && 0 <= d.year <= 9999
    ensures IsoString(d) == Fixed(d.year, 4) + ("-" + (Fixed(d.month, 2) + ("-" + Fixed(d.day, 2))))
  {
    YearStringFixedWidth(d.year);
    TwoDigitField(d.month);
    TwoDigitField(d.day);
    var y, m, dd := Fixed(d.year, 4), Fixed(d.month, 2), Fixed(d.day, 2);
    assert IsoString(d) == y + ("-" + m) + ("-" + dd);
    assert ("-" + m) + ("-" + dd) == "-" + (m + ("-" + dd));
    assert y + ("-" + m) + ("-" + dd) == y + (("-" + m) + ("-" + dd));
  }

  /** For years 0 to 9999 the text order of toString agrees with the order of dates, which is what
    * a `date >= text` query on the stored YYYY-MM-DD strings relies on. */
  lemma IsoStringOrder(a: Date, b: Date)
    requires ValidDate(a) && ValidDate(b)
    requires 0 <= a.year <= 9999 && 0 <= b.year <= 9999
    ensures LexLessEq(IsoString(a), IsoString(b)) <==> !IsBefore(b, a)
    ensures IsoString(a) == IsoString(b) <==> a == b
  {
    IsoStringFixedWidth(a);
    IsoStringFixedWidth(b);
    assert Pow10(2) == 100 && Pow10(4) == 10000;
    FixedOrder(a.year, b.year, 4);
    FixedOrder(a.month, b.month, 2);
    FixedOrder(a.day, b.day, 2);
    var ya, yb := Fixed(a.year, 4), Fixed(b.year, 4);
    var ma, mb := Fixed(a.month, 2), Fixed(b.month, 2);
    var da, db := Fixed(a.day, 2), Fixed(b.day, 2);
    // the day field
    LexLessEqAppend("-", "-", da, db);
    AppendEqual("-", "-", da, db);
    // the month field
    LexLessEqAppend(ma, mb, "-" + da, "-" + db);
    AppendEqual(ma, mb, "-" + da, "-" + db);
    LexLessEqAppend("-", "-", ma + ("-" + da), mb + ("-" + db));
    AppendEqual("-", "-", ma + ("-" + da), mb + ("-" + db));
    // the year field
    LexLessEqAppend(ya, yb, "-" + (ma + ("-" + da)), "-" + (mb + ("-" + db)));
    AppendEqual(ya, yb, "-" + (ma + ("-" + da)), "-" + (mb + ("-" + db)));
  }
}
