/** The proleptic Gregorian calendar in UTC: month starts and the month of an instant. */
module Calendar {

  const US_PER_HOUR := 3_600_000_000
  const US_PER_DAY := 24 * US_PER_HOUR

  predicate IsLeap(y: int) { y % 4 == 0 && (y % 100 != 0 || y % 400 == 0) }

  function DaysInMonth(y: int, m: int): (d: int)
    requires 1 <= m <= 12
    ensures 28 <= d <= 31
  {
    if m == 2 then (if IsLeap(y) then 29 else 28)
    else if m == 4 || m == 6 || m == 9 || m == 11 then 30
    else 31
  }

  function DaysBeforeMonth(y: int, m: int): int
    requires 1 <= m <= 12
  {
    if m == 1 then 0 else DaysBeforeMonth(y, m - 1) + DaysInMonth(y, m - 1)
  }

  /** Days from 0001-01-01 to January 1st of year y. */
  function DaysBeforeYear(y: int): int {
    365 * (y - 1) + (y - 1) / 4 - (y - 1) / 100 + (y - 1) / 400
  }

  const EPOCH_DAY := 719162

  /** Day number of the first of the month, counted from 1970-01-01. */
  function MonthStartDay(y: int, m: int): int
    requires 1 <= m <= 12
  {
    DaysBeforeYear(y) + DaysBeforeMonth(y, m) - EPOCH_DAY
  }

  /** The instant a month starts, in microseconds since the epoch. */
  function MonthStart(y: int, m: int): int
    requires 1 <= m <= 12
  {
    MonthStartDay(y, m) * US_PER_DAY
  }

  lemma YearLength(y: int)
    ensures DaysBeforeYear(y + 1) - DaysBeforeYear(y) == if IsLeap(y) then 366 else 365
  {
    var (q4, q100, q400) := (y / 4, y / 100, y / 400);
    var (p4, p100, p400) := ((y - 1) / 4, (y - 1) / 100, (y - 1) / 400);
    ModZero(y, 4, q4);
    ModZero(y, 100, q100);
    ModZero(y, 400, q400);
    Leaps(y, q4, q100, q400);
    StepDiv(y, 4, q4, p4);
    StepDiv(y, 100, q100, p100);
    StepDiv(y, 400, q400, p400);
  }

  lemma ModZero(y: int, k: int, q: int)
    requires (k == 4 || k == 100 || k == 400) && q == y / k
    ensures y % k == 0 <==> y == k * q
  {
    assert y == k * q + y % k;
  }

  lemma Leaps(y: int, q4: int, q100: int, q400: int)
    requires 0 <= y - 4 * q4 < 4 && 0 <= y - 100 * q100 < 100 && 0 <= y - 400 * q400 < 400
    ensures (y == 400 * q400 ==> y == 100 * q100) && (y == 100 * q100 ==> y == 4 * q4)
  {
  }

  lemma StepDiv(y: int, k: int, q: int, p: int)
    requires k == 4 || k == 100 || k == 400
    requires 0 <= y - k * q < k && 0 <= (y - 1) - k * p < k
    ensures q - p == if y == k * q then 1 else 0
  {
    if k == 4 {
    } else if k == 100 {
    } else {
    }
  }

  lemma DaysBeforeDecember(y: int)
    ensures DaysBeforeMonth(y, 12) == if IsLeap(y) then 335 else 334
  {
    var feb := if IsLeap(y) then 29 else 28;
    assert DaysBeforeMonth(y, 3) == 31 + feb by {
      assert DaysBeforeMonth(y, 2) == 31;
    }
    assert DaysBeforeMonth(y, 5) == 92 + feb by {
      assert DaysBeforeMonth(y, 4) == 62 + feb;
    }
    assert DaysBeforeMonth(y, 7) == 153 + feb by {
      assert DaysBeforeMonth(y, 6) == 123 + feb;
    }
    assert DaysBeforeMonth(y, 9) == 215 + feb by {
      assert DaysBeforeMonth(y, 8) == 184 + feb;
    }
    assert DaysBeforeMonth(y, 11) == 276 + feb by {
      assert DaysBeforeMonth(y, 10) == 245 + feb;
    }
  }

  // ----- months numbered consecutively -----

  /** Month k counts from January of year 0. */
  function MonthNumber(y: int, m: int): (k: int)
    requires 1 <= m <= 12
    ensures YearOf(k) == y && MonthOf(k) == m
  {
    12 * y + (m - 1)
  }

  function YearOf(k: int): int { k / 12 }

  function MonthOf(k: int): (m: int)
    ensures 1 <= m <= 12
  {
    k % 12 + 1
  }

  function StartDay(k: int): int { MonthStartDay(YearOf(k), MonthOf(k)) }

  function Start(k: int): int { StartDay(k) * US_PER_DAY }

  /** The month after (y, m), rolling December over. */
  function NextMonth(y: int, m: int): (r: (int, int))
    requires 1 <= m <= 12
    ensures 1 <= r.1 <= 12 && MonthNumber(r.0, r.1) == MonthNumber(y, m) + 1
  {
    (y + (if m == 12 then 1 else 0), if m == 12 then 1 else m + 1)
  }

  /** A month lasts as many days as the calendar says, the December roll-over included. */
  lemma MonthLength(y: int, m: int)
    requires 1 <= m <= 12
    ensures MonthStartDay(NextMonth(y, m).0, NextMonth(y, m).1) - MonthStartDay(y, m) == DaysInMonth(y, m)
  {
    if m == 12 {
      YearLength(y);
      DaysBeforeDecember(y);
    }
  }

  lemma StartStep(k: int)
    ensures 28 <= StartDay(k + 1) - StartDay(k) <= 31
  {
    var (y, m) := (YearOf(k), MonthOf(k));
    assert MonthNumber(y, m) == k;
    var n := NextMonth(y, m);
    assert n.0 == YearOf(k + 1) && n.1 == MonthOf(k + 1);
    MonthLength(y, m);
  }

  lemma {:induction false} StartMonotone(j: int, k: int)
    requires j <= k
    ensures StartDay(j) + 28 * (k - j) <= StartDay(k)
    decreases k - j
  {
    if j < k {
      StartMonotone(j, k - 1);
      StartStep(k - 1);
    }
  }

  predicate InMonth(t: int, k: int) { Start(k) <= t < Start(k + 1) }

  /** The day number of an instant, rounding down. */
  function DayOf(t: int): int { t / US_PER_DAY }

  lemma InMonthByDay(t: int, k: int)
    ensures InMonth(t, k) <==> StartDay(k) <= DayOf(t) < StartDay(k + 1)
  {
    hide StartDay;
  }

  /** The month number of a day, searched from month k. */
  function FindMonth(d: int, k: int): (r: int)
    ensures StartDay(r) <= d < StartDay(r + 1)
    decreases if d < StartDay(k) then StartDay(k) - d else if d >= StartDay(k + 1) then d - StartDay(k) else 0
  {
    hide StartDay;
    StartStep(k);
    StartStep(k - 1);
    if d < StartDay(k) then FindMonth(d, k - 1)
    else if d >= StartDay(k + 1) then FindMonth(d, k + 1)
    else k
  }

  /** Month windows tile time: every instant lies in exactly one. */
  lemma MonthsTileTime(t: int)
    ensures exists k :: InMonth(t, k)
    ensures forall j, k :: InMonth(t, j) && InMonth(t, k) ==> j == k
  {
    hide StartDay, InMonth;
    InMonthByDay(t, FindMonth(DayOf(t), 0));
    forall j, k | InMonth(t, j) && InMonth(t, k) ensures j == k {
      InMonthByDay(t, j);
      InMonthByDay(t, k);
      MonthOfDayUnique(DayOf(t), j, k);
    }
  }

  lemma MonthOfDayUnique(d: int, j: int, k: int)
    requires StartDay(j) <= d < StartDay(j + 1) && StartDay(k) <= d < StartDay(k + 1)
    ensures j == k
  {
    hide StartDay;
    if j < k {
      StartMonotone(j + 1, k);
    } else if k < j {
      StartMonotone(k + 1, j);
    }
  }

  /**
   * The Gregorian lengths of the twelve months, as distances between their starts; February has 29 days in the years
   * that 4 divides and 100 does not, or 400 does.
   */
  lemma GregorianMonths(y: int)
    ensures MonthStartDay(y, 2) - MonthStartDay(y, 1) == 31
    ensures MonthStartDay(y, 3) - MonthStartDay(y, 2)
         == if y % 400 == 0 then 29 else if y % 100 == 0 then 28 else if y % 4 == 0 then 29 else 28
    ensures MonthStartDay(y, 4) - MonthStartDay(y, 3) == 31 && MonthStartDay(y, 5) - MonthStartDay(y, 4) == 30
    ensures MonthStartDay(y, 6) - MonthStartDay(y, 5) == 31 && MonthStartDay(y, 7) - MonthStartDay(y, 6) == 30
    ensures MonthStartDay(y, 8) - MonthStartDay(y, 7) == 31 && MonthStartDay(y, 9) - MonthStartDay(y, 8) == 31
    ensures MonthStartDay(y, 10) - MonthStartDay(y, 9) == 30 && MonthStartDay(y, 11) - MonthStartDay(y, 10) == 31
    ensures MonthStartDay(y, 12) - MonthStartDay(y, 11) == 30 && MonthStartDay(y + 1, 1) - MonthStartDay(y, 12) == 31
  {
    LeapByHundreds(y);
    MonthLength(y, 12);
  }

  lemma LeapByHundreds(y: int)
    ensures y % 400 == 0 ==> y % 100 == 0 && y % 4 == 0
    ensures y % 100 == 0 ==> y % 4 == 0
  {
    assert y == 400 * (y / 400) + y % 400 && y == 100 * (y / 100) + y % 100;
    ModZero(y, 4, y / 4);
    ModZero(y, 100, y / 100);
    ModZero(y, 400, y / 400);
    Leaps(y, y / 4, y / 100, y / 400);
  }

  /** Fixed points of the calendar, in days and in microseconds. */
  lemma KnownStarts()
    ensures MonthStart(1970, 1) == 0 && MonthStart(1970, 2) == 31 * 86_400_000_000
    ensures MonthStartDay(2000, 3) == 11017 && MonthStartDay(2026, 4) == 20544 && MonthStartDay(2026, 7) == 20635
  {
    GregorianMonths(2026);
    GregorianMonths(2000);
  }
}
