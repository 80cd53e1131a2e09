/** From a day count to a calendar date, for the time stamp of a report. */
module Calendar {

  datatype Date = Date(year: int, month: nat, day: nat)

  // ------------------------------------------------------------ the calendar

  predicate IsLeap(y: int) {
    y % 4 == 0 && (y % 100 != 0 || y % 400 == 0)
  }

  function MonthLength(y: int, m: nat): nat {
    if m == 2 then (if IsLeap(y) then 29 else 28)
    else if m == 4 || m == 6 || m == 9 || m == 11 then 30
    else 31
  }

  /** A date of the proleptic Gregorian calendar. */
  predicate IsDate(t: Date) {
    1 <= t.month <= 12 && 1 <= t.day <= MonthLength(t.year, t.month)
  }

  /** The calendar successor. */
  function NextDay(t: Date): Date {
    if t.day < MonthLength(t.year, t.month) then t.(day := t.day + 1)
    else if t.month < 12 then Date(t.year, t.month + 1, 1)
    else Date(t.year + 1, 1, 1)
  }

  /** Days of the years before `y`, counted from year 1. */
  function DaysBeforeYear(y: int): int {
    var p := y - 1;
    365 * p + p / 4 - p / 100 + p / 400
  }

  /** Days of the months before `m`. */
  function DaysBeforeMonth(y: int, m: nat): nat {
    if m <= 1 then 0 else DaysBeforeMonth(y, m - 1) + MonthLength(y, m - 1)
  }

  /** Days since 1970-01-01, by counting years and months. */
  function DayNumber(t: Date): int {
    DaysBeforeYear(t.year) + DaysBeforeMonth(t.year, t.month) + t.day - 1 - 719_162
  }

  lemma Over4(q: int, r: int)
    requires 0 <= r < 4
    ensures (4 * q + r) / 4 == q
  {
  }

  lemma Over100(q: int, r: int)
    requires 0 <= r < 100
    ensures (100 * q + r) / 100 == q
  {
  }

  lemma Over400(q: int, r: int)
    requires 0 <= r < 400
    ensures (400 * q + r) / 400 == q
  {
  }

  lemma QuotientStep4(y: int)
    ensures y / 4 - (y - 1) / 4 == if y % 4 == 0 then 1 else 0
  {
    var q, r := y / 4, y % 4;
    if r == 0 { Over4(q - 1, 3); } else { Over4(q, r - 1); }
  }

  lemma Multiple4(q: int, r: int)
    ensures r == 0 ==> (100 * q + r) % 4 == 0
  {
  }

  lemma Multiple100(q: int, r: int)
    ensures r == 0 ==> (400 * q + r) % 100 == 0
  {
  }

  lemma QuotientStep100(y: int)
    ensures y / 100 - (y - 1) / 100 == if y % 100 == 0 then 1 else 0
    ensures y % 100 == 0 ==> y % 4 == 0
  {
    var q, r := y / 100, y % 100;
    if r == 0 { Over100(q - 1, 99); } else { Over100(q, r - 1); }
    Multiple4(q, r);
  }

  lemma QuotientStep400(y: int)
    ensures y / 400 - (y - 1) / 400 == if y % 400 == 0 then 1 else 0
    ensures y % 400 == 0 ==> y % 100 == 0
  {
    var q, r := y / 400, y % 400;
    if r == 0 { Over400(q - 1, 399); } else { Over400(q, r - 1); }
    Multiple100(q, r);
  }

  lemma YearLength(y: int)
    ensures DaysBeforeYear(y + 1) - DaysBeforeYear(y) == if IsLeap(y) then 366 else 365
  {
    QuotientStep4(y);
    QuotientStep100(y);
    QuotientStep400(y);
    YearStep(y, y / 4, (y - 1) / 4, y / 100, (y - 1) / 100, y / 400, (y - 1) / 400);
  }

  lemma YearStep(y: int, a: int, b: int, c: int, d: int, e: int, f: int)
    requires a == y / 4 && b == (y - 1) / 4 && c == y / 100 && d == (y - 1) / 100 && e == y / 400 && f == (y - 1) / 400
    ensures DaysBeforeYear(y + 1) - DaysBeforeYear(y) == 365 + (a - b) - (c - d) + (e - f)
  {
  }

  lemma MonthSums(y: int)
    ensures var leap := if IsLeap(y) then 1 else 0;
      && DaysBeforeMonth(y, 1) == 0 && DaysBeforeMonth(y, 2) == 31 && DaysBeforeMonth(y, 3) == 59 + leap
      && DaysBeforeMonth(y, 4) == 90 + leap && DaysBeforeMonth(y, 5) == 120 + leap
      && DaysBeforeMonth(y, 6) == 151 + leap
      && DaysBeforeMonth(y, 7) == 181 + leap && DaysBeforeMonth(y, 8) == 212 + leap
      && DaysBeforeMonth(y, 9) == 243 + leap
      && DaysBeforeMonth(y, 10) == 273 + leap && DaysBeforeMonth(y, 11) == 304 + leap
      && DaysBeforeMonth(y, 12) == 334 + leap
      && DaysBeforeMonth(y, 13) == 365 + leap
  {
    hide IsLeap;
    assert DaysBeforeMonth(y, 1) == 0;
    assert DaysBeforeMonth(y, 2) == 31;
    assert DaysBeforeMonth(y, 3) == 31 + MonthLength(y, 2);
    assert DaysBeforeMonth(y, 4) == DaysBeforeMonth(y, 3) + 31;
    assert DaysBeforeMonth(y, 5) == DaysBeforeMonth(y, 4) + 30;
    assert DaysBeforeMonth(y, 6) == DaysBeforeMonth(y, 5) + 31;
    assert DaysBeforeMonth(y, 7) == DaysBeforeMonth(y, 6) + 30;
    assert DaysBeforeMonth(y, 8) == DaysBeforeMonth(y, 7) + 31;
    assert DaysBeforeMonth(y, 9) == DaysBeforeMonth(y, 8) + 31;
    assert DaysBeforeMonth(y, 10) == DaysBeforeMonth(y, 9) + 30;
    assert DaysBeforeMonth(y, 11) == DaysBeforeMonth(y, 10) + 31;
    assert DaysBeforeMonth(y, 12) == DaysBeforeMonth(y, 11) + 30;
    assert DaysBeforeMonth(y, 13) == DaysBeforeMonth(y, 12) + 31;
  }

  /** The day number counts days: the epoch is day 0 and the next date is the next number. */
  lemma DayNumberCounts(t: Date)
    requires IsDate(t)
    ensures DayNumber(Date(1970, 1, 1)) == 0
    ensures IsDate(NextDay(t)) && DayNumber(NextDay(t)) == DayNumber(t) + 1
  {
    if t.day == MonthLength(t.year, t.month) && t.month == 12 {
      YearLength(t.year);
      MonthSums(t.year);
    }
    hide IsLeap, DaysBeforeYear;
    EpochIsZero();
  }

  lemma EpochIsZero()
    ensures DayNumber(Date(1970, 1, 1)) == 0
  {
    hide IsLeap, MonthLength;
    assert DaysBeforeMonth(1970, 1) == 0;
    hide DaysBeforeMonth;
    assert DaysBeforeYear(1970) == 719_162;
  }

  lemma {:induction false} MonthsIncrease(y: int, m: nat, n: nat)
    requires 1 <= m < n
    ensures DaysBeforeMonth(y, m) + MonthLength(y, m) <= DaysBeforeMonth(y, n)
  {
    if m + 1 < n { MonthsIncrease(y, m, n - 1); }
  }

  lemma {:induction false} YearsIncrease(y: int, z: int)
    requires y < z
    ensures DaysBeforeYear(y) + (if IsLeap(y) then 366 else 365) <= DaysBeforeYear(z)
    decreases z - y
  {
    YearLength(z - 1);
    if y < z - 1 {
      YearsIncrease(y, z - 1);
    }
  }

  /** Two dates with the same day number are the same date. */
  lemma DayNumberInjective(a: Date, b: Date)
    requires IsDate(a) && IsDate(b) && DayNumber(a) == DayNumber(b)
    ensures a == b
  {
    DayInYear(a);
    DayInYear(b);
    if a.year < b.year { YearsIncrease(a.year, b.year); }
    if b.year < a.year { YearsIncrease(b.year, a.year); }
    hide IsLeap, DaysBeforeYear, MonthLength;
    if a.month < b.month { MonthsIncrease(a.year, a.month, b.month); }
    if b.month < a.month { MonthsIncrease(a.year, b.month, a.month); }
  }

  lemma DayInYear(t: Date)
    requires IsDate(t)
    ensures 0 <= DaysBeforeMonth(t.year, t.month) + t.day - 1 < (if IsLeap(t.year) then 366 else 365)
  {
    MonthSums(t.year);
    MonthsIncrease(t.year, t.month, 13);
  }

  // ------------------------------------------------------- the day algorithm

  /** Shift the year to begin in March, so that the leap day comes last. */
  const MARCH_SHIFT: int := 719_468

  const ERA_DAYS: int := 146_097

  /** The era the program computes. The adjustment for negative counts is applied on top of a
  division that already rounds down. */
  function EraOf(n: int): int {
    (if n >= 0 then n else n - 146_096) / ERA_DAYS
  }

  /** The year of the era, from the day of the era. */
  function YearOfEra(doe: int): int {
    (doe - doe / 1460 + doe / 36_524 - doe / 146_096) / 365
  }

  function DayOfYear(doe: int): int {
    var yoe := YearOfEra(doe);
    doe - (365 * yoe + yoe / 4 - yoe / 100)
  }

  /** The month counted from March. */
  function MarchMonth(doy: int): int {
    (5 * doy + 2) / 153
  }

  /** Only the era is ever wrong by more than rounding: the day of the era stays below two eras. */
  lemma EraRange(n: int)
    ensures var doe := n - EraOf(n) * ERA_DAYS;
      if n >= 0 || n % ERA_DAYS == 146_096 then 0 <= doe < 146_097 else 146_097 <= doe < 292_193
  {
    var q, r := n / ERA_DAYS, n % ERA_DAYS;
    assert n == q * ERA_DAYS + r;
    if n < 0 {
      if r == 146_096 {
        assert n - 146_096 == q * ERA_DAYS;
        assert EraOf(n) == q;
      } else {
        assert n - 146_096 == (q - 1) * ERA_DAYS + (r + 1);
        assert EraOf(n) == q - 1;
      }
    }
  }

  /** The quotients the algorithm works with. */
  predicate Quotients(doe: int, a: int, c: int, e: int, y: int, p: int, q: int) {
    && 0 <= doe < 292_193
    && 1460 * a <= doe < 1460 * a + 1460
    && 36_524 * c <= doe < 36_524 * c + 36_524
    && 146_096 * e <= doe < 146_096 * e + 146_096
    && 365 * y <= doe - a + c - e < 365 * y + 365
    && 4 * p <= y < 4 * p + 4
    && 100 * q <= y < 100 * q + 100
  }

  lemma QuotientsOf(doe: int)
    requires 0 <= doe < 292_193
    ensures var y := YearOfEra(doe);
      Quotients(doe, doe / 1460, doe / 36_524, doe / 146_096, y, y / 4, y / 100)
  {
  }

  /** The four-year and hundred-year quotients of the day and of the year differ by at most one. */
  lemma QuotientsClose(doe: int, a: int, c: int, e: int, y: int, p: int, q: int)
    requires Quotients(doe, a, c, e, y, p, q)
    ensures 0 <= a - p <= 1 && 0 <= c - q <= 1
  {
    assert 25 * c <= a <= 200 && 0 <= c <= 8 && 0 <= e <= 2;
    assert q > c ==> 25 * (c + 1) <= a;
  }

  /** The last days of an era are the only ones where the hundred-year quotients differ. */
  lemma QuotientsDiffer(doe: int, a: int, c: int, e: int, y: int, p: int, q: int)
    requires Quotients(doe, a, c, e, y, p, q)
    ensures c - q <= a - p && (a - p) - (c - q) + e <= 2
  {
    QuotientsClose(doe, a, c, e, y, p, q);
    assert 25 * c <= a <= 200 && 0 <= c <= 8 && 0 <= e <= 2;
    if c - q == 1 { assert y < 100 * c; }
    if e == 2 { assert doe == 292_192; }
  }

  lemma YearRange(doe: int, a: int, c: int, e: int, y: int, p: int, q: int)
    requires Quotients(doe, a, c, e, y, p, q)
    ensures if doe < 146_097 then 0 <= y < 400 else 400 <= y < 800
  {
  }

  lemma DayRange(doe: int, a: int, c: int, e: int, y: int, p: int, q: int)
    requires Quotients(doe, a, c, e, y, p, q)
    ensures 0 <= doe - (365 * y + p - q) <= 366
  {
    QuotientsClose(doe, a, c, e, y, p, q);
    QuotientsDiffer(doe, a, c, e, y, p, q);
  }

  lemma DayRangeInEra(doe: int, a: int, c: int, e: int, y: int, p: int, q: int)
    requires Quotients(doe, a, c, e, y, p, q) && doe < 146_097
    ensures doe - (365 * y + p - q) <= 365
  {
    QuotientsClose(doe, a, c, e, y, p, q);
    if e == 1 { assert doe == 146_096; }
  }

  /** The 366th day of a March year comes only before the March of a leap year. */
  lemma LeapDayInEra(doe: int, a: int, c: int, e: int, y: int, p: int, q: int)
    requires Quotients(doe, a, c, e, y, p, q) && doe < 146_097 && doe - (365 * y + p - q) == 365
    ensures y == 4 * p + 3 && (y == 100 * q + 99 ==> y == 399)
  {
    QuotientsClose(doe, a, c, e, y, p, q);
    if e == 1 {
      assert doe == 146_096 && y == 399;
    } else {
      assert a - p == 1 && c == q && doe - a + c - e == 365 * y + 364;
    }
  }

  // ------------------------------------------------------- months from March

  /** A date whose year begins in March `y`, by month and day from there. */
  function FromMarch(y: int, mp: int, d: int): Date
    requires 0 <= mp <= 11 && d >= 0
  {
    var m := if mp < 10 then mp + 3 else mp - 9;
    Date(if m <= 2 then y + 1 else y, m, d)
  }

  /** Days before a month counted from March; the months alternate by this rule. */
  function DaysBeforeMarchMonth(mp: int): int {
    (153 * mp + 2) / 5
  }

  lemma MarchMonths(y: int, mp: int)
    requires 0 <= mp <= 11
    ensures var t := FromMarch(y, mp, 1);
      var leap := if IsLeap(t.year) then 1 else 0;
      DaysBeforeMonth(t.year, t.month) == if mp < 10 then 59 + leap + DaysBeforeMarchMonth(mp)
        else DaysBeforeMarchMonth(mp) - 306
  {
    MonthSums(y);
    MonthSums(y + 1);
    hide IsLeap;
  }

  /** The day number from the March year: the leap day is its last day, so no case is needed. */
  lemma MarchDayNumber(y: int, mp: int, d: int)
    requires 0 <= mp <= 11 && d >= 0
    ensures DayNumber(FromMarch(y, mp, d)) ==
      365 * y + y / 4 - y / 100 + y / 400 + DaysBeforeMarchMonth(mp) + d - 1 - MARCH_SHIFT
  {
    MarchMonths(y, mp);
    hide IsLeap, DaysBeforeMonth;
    if mp < 10 { MarchYear(y); }
  }

  lemma MarchYear(y: int)
    ensures DaysBeforeYear(y) + 59 + (if IsLeap(y) then 1 else 0) == 365 * y + y / 4 - y / 100 + y / 400 - 306
  {
    YearLength(y);
  }

  // --------------------------------------------------------------- the theorem

  /** The conversion: day count to date, as the program computes it. */
  function CivilFromDays(z: int): Date {
    var n := z + MARCH_SHIFT;
    var era := EraOf(n);
    var doe := n - era * ERA_DAYS;
    DoeInRange(z);
    var y := YearOfEra(doe) + era * 400;
    var doy := DayOfYear(doe);
    var mp := MarchMonth(doy);
    var d := doy - DaysBeforeMarchMonth(mp) + 1;
    var m := if mp < 10 then mp + 3 else mp - 9;
    Date(if m <= 2 then y + 1 else y, m, d)
  }

  /** Everything the conversion computes stays in range, so the casts to unsigned lose nothing. */
  lemma DoeInRange(z: int)
    ensures var n := z + MARCH_SHIFT;
      var doy := DayOfYear(n - EraOf(n) * ERA_DAYS);
      var mp := MarchMonth(doy);
      && 0 <= doy <= 366 && 0 <= mp <= 11 && 1 <= doy - DaysBeforeMarchMonth(mp) + 1 <= 31
  {
    var n := z + MARCH_SHIFT;
    var doe := n - EraOf(n) * ERA_DAYS;
    EraRange(n);
    QuotientsOf(doe);
    var y := YearOfEra(doe);
    DayRange(doe, doe / 1460, doe / 36_524, doe / 146_096, y, y / 4, y / 100);
    MarchMonthRange(DayOfYear(doe));
  }

  lemma MarchMonthRange(doy: int)
    requires 0 <= doy <= 366
    ensures 0 <= MarchMonth(doy) <= 11 && 0 <= doy - DaysBeforeMarchMonth(MarchMonth(doy)) <= 30
  {
  }

  /** The counts the conversion gets right: from 0000-03-01 on, and the last day of earlier eras. */
  predicate Converts(z: int) {
    z + MARCH_SHIFT >= 0 || (z + MARCH_SHIFT) % ERA_DAYS == 146_096
  }

  lemma EraQuotients(yoe: int, era: int)
    ensures var y := yoe + 400 * era;
      y / 4 == yoe / 4 + 100 * era && y / 100 == yoe / 100 + 4 * era && y / 400 == yoe / 400 + era
  {
    var a, b, c := yoe / 4, yoe / 100, yoe / 400;
    assert yoe + 400 * era == 4 * (a + 100 * era) + yoe % 4;
    assert yoe + 400 * era == 100 * (b + 4 * era) + yoe % 100;
    assert yoe + 400 * era == 400 * (c + era) + yoe % 400;
  }

  /** The day of the era and its year, for one count. */
  lemma EraParts(z: int)
    ensures var n := z + MARCH_SHIFT; var doe := n - EraOf(n) * ERA_DAYS; var yoe := YearOfEra(doe);
      && (if Converts(z) then 0 <= doe < 146_097 && 0 <= yoe < 400 else 146_097 <= doe < 292_193 && 400 <= yoe < 800)
      && Quotients(doe, doe / 1460, doe / 36_524, doe / 146_096, yoe, yoe / 4, yoe / 100)
  {
    var n := z + MARCH_SHIFT;
    var doe := n - EraOf(n) * ERA_DAYS;
    EraRange(n);
    QuotientsOf(doe);
    hide EraOf, YearOfEra;
    var yoe := YearOfEra(doe);
    YearRange(doe, doe / 1460, doe / 36_524, doe / 146_096, yoe, yoe / 4, yoe / 100);
  }

  lemma CivilFromMarch(z: int)
    ensures var n := z + MARCH_SHIFT; var doe := n - EraOf(n) * ERA_DAYS; var doy := DayOfYear(doe);
      var mp := MarchMonth(doy);
      && 0 <= mp <= 11 && doy - DaysBeforeMarchMonth(mp) + 1 >= 0
      && CivilFromDays(z) == FromMarch(YearOfEra(doe) + EraOf(n) * 400, mp, doy - DaysBeforeMarchMonth(mp) + 1)
  {
    DoeInRange(z);
    hide EraOf, DayOfYear, YearOfEra, MarchMonth, DaysBeforeMarchMonth;
  }

  lemma DaySum(n: int, era: int, yoe: int, p: int, q: int, h: int, doy: int)
    requires doy == n - era * ERA_DAYS - (365 * yoe + p - q)
    ensures 365 * (yoe + 400 * era) + (p + 100 * era) - (q + 4 * era) + (h + era) + doy == n + h
  {
  }

  /** The date's day number is the count it was made from, or one more when the era is off. */
  lemma CivilDayNumber(z: int)
    ensures DayNumber(CivilFromDays(z)) == if Converts(z) then z else z + 1
  {
    var n := z + MARCH_SHIFT;
    var era := EraOf(n);
    var doe := n - era * ERA_DAYS;
    var yoe := YearOfEra(doe);
    var doy := DayOfYear(doe);
    var mp := MarchMonth(doy);
    EraParts(z);
    CivilFromMarch(z);
    hide DayNumber, EraOf, YearOfEra, MarchMonth, DaysBeforeMarchMonth, CivilFromDays, FromMarch, Quotients, Converts;
    MarchDayNumber(yoe + 400 * era, mp, doy - DaysBeforeMarchMonth(mp) + 1);
    EraQuotients(yoe, era);
    DaySum(n, era, yoe, yoe / 4, yoe / 100, yoe / 400, doy);
  }

  /** Days of a March-counted month, February at its longest. */
  lemma MarchMonthLength(doy: int, y: int)
    requires 0 <= doy <= 365
    ensures var mp := MarchMonth(doy); var t := FromMarch(y, mp, doy - DaysBeforeMarchMonth(mp) + 1);
      IsDate(t) || (doy == 365 && !IsLeap(y + 1))
  {
    hide IsLeap;
    MarchMonthRange(doy);
  }

  lemma CivilIsDate(z: int)
    requires Converts(z)
    ensures IsDate(CivilFromDays(z))
  {
    var n := z + MARCH_SHIFT;
    var era := EraOf(n);
    var doe := n - era * ERA_DAYS;
    var yoe := YearOfEra(doe);
    var doy := DayOfYear(doe);
    EraParts(z);
    DoeInRange(z);
    CivilFromMarch(z);
    hide DayNumber, EraOf, YearOfEra, MarchMonth, DaysBeforeMarchMonth, CivilFromDays, FromMarch, Quotients, IsLeap,
      IsDate;
    DayRangeInEra(doe, doe / 1460, doe / 36_524, doe / 146_096, yoe, yoe / 4, yoe / 100);
    MarchMonthLength(doy, yoe + era * 400);
    if doy == 365 {
      LeapDayInEra(doe, doe / 1460, doe / 36_524, doe / 146_096, yoe, yoe / 4, yoe / 100);
      LeapAfter(yoe, era);
    }
  }

  lemma LeapAfter(yoe: int, era: int)
    requires 0 <= yoe < 400 && yoe == 4 * (yoe / 4) + 3 && (yoe == 100 * (yoe / 100) + 99 ==> yoe == 399)
    ensures IsLeap(yoe + era * 400 + 1)
  {
    EraQuotients(yoe + 1, era);
  }

  /** The conversion gives a date and the right one exactly for the counts from 0000-03-01 on and
  the last day of each earlier era. For every other count it is one day late. */
  lemma CivilExactly(z: int)
    ensures DayNumber(CivilFromDays(z)) == z <==> Converts(z)
    ensures Converts(z) ==> IsDate(CivilFromDays(z))
  {
    hide CivilFromDays, DayNumber, IsDate;
    CivilDayNumber(z);
    if Converts(z) { CivilIsDate(z); }
  }

  /** The day-number formula undoes the conversion, and the conversion the formula. */
  lemma CivilInverse(t: Date)
    requires IsDate(t) && Converts(DayNumber(t))
    ensures CivilFromDays(DayNumber(t)) == t
  {
    hide CivilFromDays, DayNumber, IsDate;
    CivilExactly(DayNumber(t));
    DayNumberInjective(CivilFromDays(DayNumber(t)), t);
  }

  /** The next count is the next day. */
  lemma CivilSuccessor(z: int)
    requires z >= -MARCH_SHIFT
    ensures CivilFromDays(z + 1) == NextDay(CivilFromDays(z))
    ensures CivilFromDays(0) == Date(1970, 1, 1)
  {
    hide CivilFromDays, DayNumber, NextDay, IsDate;
    assert IsDate(Date(1970, 1, 1)) by { EpochIsDate(); }
    CivilExactly(z);
    CivilExactly(z + 1);
    CivilExactly(0);
    DayNumberCounts(CivilFromDays(z));
    DayNumberInjective(CivilFromDays(z + 1), NextDay(CivilFromDays(z)));
    DayNumberInjective(CivilFromDays(0), Date(1970, 1, 1));
  }

  lemma EpochIsDate()
    ensures IsDate(Date(1970, 1, 1))
  {
  }

  // -------------------------------------------------------------- time stamps

  datatype Stamp = Stamp(date: Date, hour: int, minute: int, second: int)

  /** A time stamp from seconds since the epoch. */
  function StampFrom(secs: int): Stamp {
    var rem := secs % 86_400;
    Stamp(CivilFromDays(secs / 86_400), rem / 3600, rem % 3600 / 60, rem % 60)
  }

  /** The second a stamp denotes. */
  function SecondOf(s: Stamp): int {
    DayNumber(s.date) * 86_400 + s.hour * 3600 + s.minute * 60 + s.second
  }

  /** The time of a stamp is always a time of a day. Its date is one, and the stamp denotes the very
  second, exactly on the days the conversion gets right; on the others it is a day late. */
  lemma StampExact(secs: int)
    ensures var s := StampFrom(secs); 0 <= s.hour < 24 && 0 <= s.minute < 60 && 0 <= s.second < 60
    ensures SecondOf(StampFrom(secs)) == if Converts(secs / 86_400) then secs else secs + 86_400
    ensures IsDate(StampFrom(secs).date) && SecondOf(StampFrom(secs)) == secs <==> Converts(secs / 86_400)
  {
    hide CivilFromDays, DayNumber, IsDate, Converts;
    CivilExactly(secs / 86_400);
    CivilDayNumber(secs / 86_400);
    var rem := secs % 86_400;
    SecondsSplit(rem);
  }

  lemma SecondsSplit(rem: int)
    requires 0 <= rem < 86_400
    ensures 0 <= rem / 3600 < 24 && 0 <= rem % 3600 / 60 < 60
    ensures rem / 3600 * 3600 + rem % 3600 / 60 * 60 + rem % 60 == rem
  {
    var h, r := rem / 3600, rem % 3600;
    assert rem == 3600 * h + r;
    assert rem % 60 == r % 60 by { assert rem == 60 * (60 * h + r / 60) + r % 60; }
  }
}
