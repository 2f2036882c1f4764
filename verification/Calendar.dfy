/** The proleptic Gregorian calendar: the era-based day count against summed month and year lengths. */
module Calendar {

  /** Rust's `/` on signed integers truncates toward zero. */
  function TruncDiv(a: int, b: nat): int
    requires b > 0
  {
    if a >= 0 then a / b else -((-a) / b)
  }

  predicate IsLeapYear(year: int) { (year % 4 == 0 && year % 100 != 0) || year % 400 == 0 }

  function LeapDay(year: int): nat { if IsLeapYear(year) then 1 else 0 }

  function DaysInMonth(year: int, month: int): nat {
    if month in {1, 3, 5, 7, 8, 10, 12} then 31
    else if month in {4, 6, 9, 11} then 30
    else if month == 2 then 28 + LeapDay(year)
    else 0
  }

  predicate IsDate(year: int, month: int, day: int) { 1 <= month <= 12 && 1 <= day <= DaysInMonth(year, month) }

  // ---------- the arithmetic of the source ----------

  function ShiftedYear(year: int, month: int): int { if month <= 2 then year - 1 else year }

  function Era(shifted: int): int { TruncDiv(if shifted >= 0 then shifted else shifted - 399, 400) }

  function YearOfEra(shifted: int): int { shifted - Era(shifted) * 400 }

  function MonthFromMarch(month: int): int { if month > 2 then month - 3 else month + 9 }

  function DayOfYear(month: int, day: int): int { TruncDiv(153 * MonthFromMarch(month) + 2, 5) + day - 1 }

  function DayOfEra(shifted: int, month: int, day: int): int {
    var yoe := YearOfEra(shifted);
    yoe * 365 + TruncDiv(yoe, 4) - TruncDiv(yoe, 100) + DayOfYear(month, day)
  }

  function DaysFromCivil(year: int, month: int, day: int): int {
    var shifted := ShiftedYear(year, month);
    Era(shifted) * 146_097 + DayOfEra(shifted, month, day) - 719_468
  }

  // ---------- the definition ----------

  function YearLength(year: int): nat { 365 + LeapDay(year) }

  /** Days from 1970-01-01 to the first day of `year`, by adding up whole years. */
  function DaysBeforeYear(year: int): int
    decreases if year >= 1970 then year - 1970 else 1970 - year
  {
    if year == 1970 then 0
    else if year > 1970 then DaysBeforeYear(year - 1) + YearLength(year - 1)
    else DaysBeforeYear(year + 1) - YearLength(year)
  }

  /** Days from the first day of the year to the first day of `month`, by adding up whole months. */
  function DaysBeforeMonth(year: int, month: int): nat
    requires 1 <= month <= 13
    decreases month
  {
    if month == 1 then 0 else DaysBeforeMonth(year, month - 1) + DaysInMonth(year, month - 1)
  }

  function DayNumber(year: int, month: int, day: int): int
    requires 1 <= month <= 13
  {
    DaysBeforeYear(year) + DaysBeforeMonth(year, month) + day - 1
  }

  // ---------- the two agree ----------

  /** The adjusted truncating division is a floor division, also for the negative shifted years. */
  lemma EraIsFloor(shifted: int)
    ensures Era(shifted) == shifted / 400 && YearOfEra(shifted) == shifted % 400
  {
  }

  function FirstOfMarch(shifted: int): int { DaysFromCivil(shifted, 3, 1) }

  /** From one first of March to the next there are 365 days, and one more when a leap day lies between. */
  lemma MarchStep(y: int)
    ensures FirstOfMarch(y + 1) == FirstOfMarch(y) + 365 + LeapDay(y + 1)
  {
    EraIsFloor(y);
    EraIsFloor(y + 1);
    var e, r := y / 400, y % 400;
    assert y == 400 * e + r;
    if r < 399 {
      assert (y + 1) / 400 == e && (y + 1) % 400 == r + 1;
      LeapByYearOfEra(y + 1, e, r + 1);
      assert (r + 1) / 4 - r / 4 == if (r + 1) % 4 == 0 then 1 else 0;
      assert (r + 1) / 100 - r / 100 == if (r + 1) % 100 == 0 then 1 else 0;
    } else {
      assert (y + 1) / 400 == e + 1 && (y + 1) % 400 == 0;
    }
  }

  lemma LeapByYearOfEra(y: int, e: int, r: nat)
    requires y == 400 * e + r && 0 < r < 400
    ensures IsLeapYear(y) <==> r % 4 == 0 && r % 100 != 0
  {
    assert y % 4 == r % 4 by { assert y == 4 * (100 * e) + r; }
    assert y % 100 == r % 100 by { assert y == 100 * (4 * e) + r; }
    assert y % 400 == r;
  }

  lemma FirstOfMarchByDefinition(y: int)
    ensures DayNumber(y, 3, 1) == DaysBeforeYear(y) + 59 + LeapDay(y)
  {
    assert DaysBeforeMonth(y, 2) == 31;
  }

  lemma YearStep(y: int)
    ensures DaysBeforeYear(y + 1) == DaysBeforeYear(y) + YearLength(y)
  {
  }

  lemma {:induction false} FirstOfMarchAgrees(y: int)
    ensures FirstOfMarch(y) == DayNumber(y, 3, 1)
    decreases if y >= 1970 then y - 1970 else 1970 - y
  {
    FirstOfMarchByDefinition(y);
    if y == 1970 {
      EraIsFloor(1970);
    } else if y > 1970 {
      FirstOfMarchAgrees(y - 1);
      FirstOfMarchByDefinition(y - 1);
      MarchStep(y - 1);
      YearStep(y - 1);
    } else {
      FirstOfMarchAgrees(y + 1);
      FirstOfMarchByDefinition(y + 1);
      MarchStep(y);
      YearStep(y);
    }
  }

  lemma MonthTable(year: int)
    ensures DaysBeforeMonth(year, 1) == 0 && DaysBeforeMonth(year, 2) == 31
    ensures var march := 59 + LeapDay(year);
            && DaysBeforeMonth(year, 3) == march && DaysBeforeMonth(year, 4) == march + 31
            && DaysBeforeMonth(year, 5) == march + 61 && DaysBeforeMonth(year, 6) == march + 92
            && DaysBeforeMonth(year, 7) == march + 122 && DaysBeforeMonth(year, 8) == march + 153
            && DaysBeforeMonth(year, 9) == march + 184 && DaysBeforeMonth(year, 10) == march + 214
            && DaysBeforeMonth(year, 11) == march + 245 && DaysBeforeMonth(year, 12) == march + 275
            && DaysBeforeMonth(year, 13) == march + 306
  {
    assert DaysBeforeMonth(year, 3) == 59 + LeapDay(year);
    assert DaysBeforeMonth(year, 5) == DaysBeforeMonth(year, 3) + 61;
    assert DaysBeforeMonth(year, 7) == DaysBeforeMonth(year, 5) + 61;
    assert DaysBeforeMonth(year, 9) == DaysBeforeMonth(year, 7) + 62;
    assert DaysBeforeMonth(year, 11) == DaysBeforeMonth(year, 9) + 61;
    assert DaysBeforeMonth(year, 13) == DaysBeforeMonth(year, 11) + 61;
  }

  /** For every year, positive or not, the era formula counts the days of the calendar from 1970-01-01. */
  lemma DaysFromCivilIsDayNumber(year: int, month: int, day: int)
    requires 1 <= month <= 12
    ensures DaysFromCivil(year, month, day) == DayNumber(year, month, day)
  {
    var shifted := ShiftedYear(year, month);
    FirstOfMarchAgrees(shifted);
    FirstOfMarchByDefinition(shifted);
    MonthTable(year);
    assert DaysFromCivil(year, month, day) == FirstOfMarch(shifted) + DayOfYear(month, day);
    if month <= 2 {
      YearStep(year - 1);
    }
  }

  /** The calendar's own successor of a date. */
  function NextDate(year: int, month: int, day: int): (int, int, int) {
    if day < DaysInMonth(year, month) then (year, month, day + 1)
    else if month < 12 then (year, month + 1, 1)
    else (year + 1, 1, 1)
  }

  lemma DaysAdvanceByOne(year: int, month: int, day: int)
    requires IsDate(year, month, day)
    ensures var (y, m, d) := NextDate(year, month, day);
            IsDate(y, m, d) && DaysFromCivil(y, m, d) == DaysFromCivil(year, month, day) + 1
  {
    var (y, m, d) := NextDate(year, month, day);
    DaysFromCivilIsDayNumber(year, month, day);
    DaysFromCivilIsDayNumber(y, m, d);
    YearStep(year);
    MonthTable(year);
    MonthTable(y);
  }

  predicate DateBefore(y1: int, m1: int, d1: int, y2: int, m2: int, d2: int) {
    y1 < y2 || (y1 == y2 && (m1 < m2 || (m1 == m2 && d1 < d2)))
  }

  lemma {:induction false} YearsAdvance(y1: int, y2: int)
    requires y1 < y2
    ensures DaysBeforeYear(y1) + YearLength(y1) <= DaysBeforeYear(y2)
    decreases y2 - y1
  {
    YearStep(y2 - 1);
    if y1 < y2 - 1 { YearsAdvance(y1, y2 - 1); }
  }

  lemma {:induction false} MonthsAdvance(year: int, m1: int, m2: int)
    requires 1 <= m1 < m2 <= 13
    ensures DaysBeforeMonth(year, m1) + DaysInMonth(year, m1) <= DaysBeforeMonth(year, m2)
    decreases m2
  {
    if m1 < m2 - 1 { MonthsAdvance(year, m1, m2 - 1); }
  }

  /** The count is strictly increasing in the calendar order of dates, hence injective. */
  lemma DaysStrictlyIncrease(y1: int, m1: int, d1: int, y2: int, m2: int, d2: int)
    requires IsDate(y1, m1, d1) && IsDate(y2, m2, d2)
    ensures DateBefore(y1, m1, d1, y2, m2, d2) ==> DaysFromCivil(y1, m1, d1) < DaysFromCivil(y2, m2, d2)
    ensures DaysFromCivil(y1, m1, d1) == DaysFromCivil(y2, m2, d2) <==> (y1, m1, d1) == (y2, m2, d2)
  {
    DaysFromCivilIsDayNumber(y1, m1, d1);
    DaysFromCivilIsDayNumber(y2, m2, d2);
    MonthTable(y1);
    MonthTable(y2);
    if y1 < y2 {
      YearsAdvance(y1, y2);
      MonthsAdvance(y1, m1, 13);
    } else if y2 < y1 {
      YearsAdvance(y2, y1);
      MonthsAdvance(y2, m2, 13);
    } else if m1 < m2 {
      MonthsAdvance(y1, m1, m2);
    } else if m2 < m1 {
      MonthsAdvance(y1, m2, m1);
    }
  }
}
