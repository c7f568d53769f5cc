/** Days since 1970-01-01 and civil dates (`when.rs`), against the Gregorian calendar walked day by day. */
module Calendar {
  import opened Basics

  datatype Date = Date(y: int, m: int, d: int)

  // ----- the calendar itself -----

  predicate IsLeap(y: int) { y % 4 == 0 && (y % 100 != 0 || y % 400 == 0) }

  function DaysInMonth(y: int, m: int): int
  {
    if m == 2 then (if IsLeap(y) then 29 else 28)
    else if m == 4 || m == 6 || m == 9 || m == 11 then 30
    else 31
  }

  /** The date exists in the proleptic Gregorian calendar. */
  predicate Exists(t: Date) { 1 <= t.m <= 12 && 1 <= t.d <= DaysInMonth(t.y, t.m) }

  function DayAfter(t: Date): Date
  {
    if t.d < DaysInMonth(t.y, t.m) then t.(d := t.d + 1)
    else if t.m < 12 then Date(t.y, t.m + 1, 1)
    else Date(t.y + 1, 1, 1)
  }

  // ----- the closed forms -----

  function DaysFromCivil(y: int, m: int, d: int): int
  {
    var y := if m <= 2 then y - 1 else y;
    var era := y / 400;
    var yoe := y % 400;
    var mp := (m + 9) % 12;
    var doy := (153 * mp + 2) / 5 + d - 1;
    var doe := yoe * 365 + yoe / 4 - yoe / 100 + doy;
    era * 146_097 + doe - 719_468
  }

  function Days(t: Date): int { DaysFromCivil(t.y, t.m, t.d) }

  function CivilFromDays(days: int): Date
  {
    var z := days + 719_468;
    var era := z / 146_097;
    var doe := z % 146_097;
    var yoe := YearOfEra(doe);
    var y := yoe + era * 400;
    var doy := doe - (365 * yoe + yoe / 4 - yoe / 100);
    var mp := (5 * doy + 2) / 153;
    var d := doy - (153 * mp + 2) / 5 + 1;
    var m := if mp < 10 then mp + 3 else mp - 9;
    Date(if m <= 2 then y + 1 else y, m, d)
  }

  function YearOfEra(doe: int): int { (doe - doe / 1460 + doe / 36_524 - doe / 146_096) / 365 }

  /** The day of the era a year that starts in March begins on. */
  function YearStart(yoe: int): int { 365 * yoe + yoe / 4 - yoe / 100 }

  /** The year that starts in March of `yoe` ends with a leap day. */
  predicate EndsLeap(yoe: int) { yoe % 4 == 3 && (yoe % 100 != 99 || yoe % 400 == 399) }

  function YearLength(yoe: int): int { if EndsLeap(yoe) then 366 else 365 }

  lemma {:induction false} YearsAbut(yoe: int)
    requires 0 <= yoe < 399
    ensures YearStart(yoe + 1) == YearStart(yoe) + YearLength(yoe)
  {
    assert (yoe + 1) / 4 == yoe / 4 + (if yoe % 4 == 3 then 1 else 0);
    assert (yoe + 1) / 100 == yoe / 100 + (if yoe % 100 == 99 then 1 else 0);
    assert yoe % 100 == 99 ==> yoe % 4 == 3;
  }

  lemma {:induction false} CenturyTerms(century: int, day: int)
    requires 0 <= century <= 3 && 0 <= day <= 36_524 && (day == 36_524 ==> century == 3)
    ensures var doe := 36_524 * century + day; doe / 36_524 - doe / 146_096 == century
  {
    var doe := 36_524 * century + day;
    if day == 36_524 {
      assert doe == 146_096;
    } else {
      assert doe / 36_524 == century;
      assert doe < 146_096;
    }
  }

  lemma {:induction false} FourYearTerm(q: int, r: int)
    requires 0 <= q && 0 <= r < 2920
    ensures (1460 * q + r) / 1460 == q + (if r < 1460 then 0 else 1)
  {
  }

  /** The four-year correction is one step ahead only where the day of the year can spare it. */
  lemma {:induction false} StepSpared(century: int, four: int, one: int, doy: int, r: int)
    requires 0 <= century <= 3 && 0 <= four < 25 && 0 <= one < 4 && 0 <= doy <= 365 && (doy == 365 ==> one == 3)
    requires r == 365 * one + 24 * century + four + doy
    ensures 0 <= r < 2920 && 0 <= doy - (if r < 1460 then 0 else 1) < 365
  {
  }

  /** The correction terms add up to whole years and a day of the year. */
  lemma {:induction false} TermsGiveYear(doe: int, century: int, yoe: int, left: int)
    requires doe / 36_524 - doe / 146_096 == century && doe - doe / 1460 + century == 365 * yoe + left
    requires 0 <= left < 365
    ensures YearOfEra(doe) == yoe
  {
  }

  lemma {:induction false} YearAsParts(century: int, four: int, one: int, yoe: int)
    requires 0 <= century <= 3 && 0 <= four < 25 && 0 <= one < 4 && yoe == 100 * century + 4 * four + one
    ensures yoe / 4 == 25 * century + four && yoe % 4 == one && yoe / 100 == century
    ensures EndsLeap(yoe) ==> one == 3 && (four == 24 ==> century == 3)
  {
  }

  /** The day of the era, as years of its centuries and of its four-year steps. */
  lemma {:induction false} EraDay(century: int, four: int, one: int, yoe: int, doy: int, doe: int)
    requires 0 <= century <= 3 && 0 <= four < 25 && 0 <= one < 4 && yoe == 100 * century + 4 * four + one
    requires 0 <= doy < YearLength(yoe) && doe == YearStart(yoe) + doy
    ensures doe == 36_524 * century + (1461 * four + 365 * one + doy)
    ensures doe == 1460 * (25 * century + four) + (365 * one + 24 * century + four + doy)
    ensures 1461 * four + 365 * one + doy <= 36_524
    ensures 1461 * four + 365 * one + doy == 36_524 ==> century == 3
  {
    YearAsParts(century, four, one, yoe);
  }

  /** The correction terms recover the year: four-year steps, centuries and the last day of the era. */
  lemma {:induction false} YearOfDay(century: int, four: int, one: int, yoe: int, doy: int, doe: int)
    requires 0 <= century <= 3 && 0 <= four < 25 && 0 <= one < 4 && yoe == 100 * century + 4 * four + one
    requires 0 <= doy < YearLength(yoe) && doe == YearStart(yoe) + doy
    ensures YearOfEra(doe) == yoe && 0 <= doe < 146_097
  {
    YearAsParts(century, four, one, yoe);
    EraDay(century, four, one, yoe, doy, doe);
    CenturyTerms(century, 1461 * four + 365 * one + doy);
    var r := 365 * one + 24 * century + four + doy;
    StepSpared(century, four, one, doy, r);
    FourYearTerm(25 * century + four, r);
    TermsGiveYear(doe, century, yoe, doy - (if r < 1460 then 0 else 1));
  }

  lemma {:induction false} YearRecovered(yoe: int, doy: int)
    requires 0 <= yoe < 400 && 0 <= doy < YearLength(yoe)
    ensures YearOfEra(YearStart(yoe) + doy) == yoe
    ensures 0 <= YearStart(yoe) + doy < 146_097
  {
    YearOfDay(yoe / 100, yoe % 100 / 4, yoe % 4, yoe, doy, YearStart(yoe) + doy);
  }

  lemma {:induction false} FindYear(doe: int) returns (yoe: int)
    requires 0 <= doe < 146_097
    ensures 0 <= yoe < 400 && 0 <= doe - YearStart(yoe) < YearLength(yoe)
  {
    yoe := 0;
    while yoe < 399 && YearStart(yoe + 1) <= doe
      invariant 0 <= yoe < 400 && YearStart(yoe) <= doe
    {
      yoe := yoe + 1;
    }
    if yoe < 399 {
      YearsAbut(yoe);
    }
  }

  function MonthStart(mp: int): int { (153 * mp + 2) / 5 }

  /** The length of the `mp`-th month counted from March, a February given its leap day. */
  function LongMonth(mp: int): int
  {
    if mp == 11 then 29 else if mp == 1 || mp == 3 || mp == 6 || mp == 8 then 30 else 31
  }

  lemma {:induction false} MonthRecovered(mp: int, day: int)
    requires 0 <= mp <= 11 && 1 <= day <= LongMonth(mp)
    ensures var doy := MonthStart(mp) + day - 1;
            0 <= doy <= 365 && (5 * doy + 2) / 153 == mp && (doy == 365 <==> mp == 11 && day == 29)
  {
  }

  lemma {:induction false} MonthOfDay(doy: int)
    requires 0 <= doy <= 365
    ensures var mp := (5 * doy + 2) / 153;
            0 <= mp <= 11 && 1 <= doy - MonthStart(mp) + 1 <= LongMonth(mp)
  {
  }

  lemma {:induction false} LeapDays(era: int, yoe: int)
    requires 0 <= yoe < 400
    ensures IsLeap(yoe + era * 400 + 1) <==> EndsLeap(yoe)
  {
    var y := yoe + era * 400 + 1;
    Modulo4(era * 100, yoe + 1);
    Modulo100(era * 4, yoe + 1);
    Modulo400(era, yoe + 1);
    assert y == era * 100 * 4 + (yoe + 1) && y == era * 4 * 100 + (yoe + 1);
  }

  lemma {:induction false} Modulo4(q: int, r: int)
    ensures (q * 4 + r) % 4 == r % 4
  {
  }

  lemma {:induction false} Modulo100(q: int, r: int)
    ensures (q * 100 + r) % 100 == r % 100
  {
  }

  lemma {:induction false} Modulo400(q: int, r: int)
    ensures (q * 400 + r) % 400 == r % 400
  {
  }

  /** The parts of an existing date: its era, year of the era, month from March and day. */
  lemma {:induction false} DateParts(t: Date)
    requires Exists(t)
    ensures var y := if t.m <= 2 then t.y - 1 else t.y;
            var mp := (t.m + 9) % 12;
            && 0 <= mp <= 11 && t.m == (if mp < 10 then mp + 3 else mp - 9)
            && 1 <= t.d <= LongMonth(mp)
            && 0 <= MonthStart(mp) + t.d - 1 < YearLength(y % 400)
            && Days(t) == (y / 400) * 146_097 + YearStart(y % 400) + MonthStart(mp) + t.d - 1 - 719_468
  {
    var y := if t.m <= 2 then t.y - 1 else t.y;
    var mp := (t.m + 9) % 12;
    assert mp == if t.m <= 2 then t.m + 9 else t.m - 3;
    LeapDays(y / 400, y % 400);
    assert t.m == 2 ==> t.y == y % 400 + (y / 400) * 400 + 1;
    MonthRecovered(mp, t.d);
  }

  /** The date of a day counted from March of the year `y`. */
  function DateIn(y: int, doy: int): Date
  {
    var mp := (5 * doy + 2) / 153;
    Date(if mp < 10 then y else y + 1, if mp < 10 then mp + 3 else mp - 9, doy - MonthStart(mp) + 1)
  }

  lemma {:induction false} EraSplits(era: int, doe: int)
    requires 0 <= doe < 146_097
    ensures (era * 146_097 + doe) / 146_097 == era && (era * 146_097 + doe) % 146_097 == doe
  {
  }

  lemma {:induction false} CivilOfParts(era: int, yoe: int, doy: int, z: int, y: int)
    requires 0 <= yoe < 400 && 0 <= doy < YearLength(yoe)
    requires z == era * 146_097 + (YearStart(yoe) + doy) - 719_468 && y == yoe + era * 400
    ensures CivilFromDays(z) == DateIn(y, doy)
  {
    YearRecovered(yoe, doy);
    var doe := YearStart(yoe) + doy;
    EraSplits(era, doe);
    CivilOfEra(z, era, doe, yoe, doy);
  }

  lemma {:induction false} CivilOfEra(z: int, era: int, doe: int, yoe: int, doy: int)
    requires (z + 719_468) / 146_097 == era && (z + 719_468) % 146_097 == doe
    requires YearOfEra(doe) == yoe && doe == YearStart(yoe) + doy && 0 <= doy <= 365
    ensures CivilFromDays(z) == DateIn(yoe + era * 400, doy)
  {
    MonthOfDay(doy);
  }

  lemma {:induction false} DateInParts(y: int, mp: int, day: int, doy: int)
    requires 0 <= mp <= 11 && 1 <= day <= LongMonth(mp) && doy == MonthStart(mp) + day - 1
    ensures DateIn(y, doy) == Date(if mp < 10 then y else y + 1, if mp < 10 then mp + 3 else mp - 9, day)
  {
    MonthRecovered(mp, day);
  }

  lemma {:induction false} SplitDate(t: Date) returns (era: int, yoe: int, mp: int)
    requires Exists(t)
    ensures 0 <= yoe < 400 && 0 <= mp <= 11 && 1 <= t.d <= LongMonth(mp)
    ensures 0 <= MonthStart(mp) + t.d - 1 < YearLength(yoe)
    ensures t.y == (if mp < 10 then yoe + era * 400 else yoe + era * 400 + 1)
    ensures t.m == (if mp < 10 then mp + 3 else mp - 9)
    ensures Days(t) == era * 146_097 + YearStart(yoe) + (MonthStart(mp) + t.d - 1) - 719_468
  {
    DateParts(t);
    var y := if t.m <= 2 then t.y - 1 else t.y;
    era, yoe, mp := y / 400, y % 400, (t.m + 9) % 12;
  }

  lemma {:induction false} CivilOfSplit(era: int, yoe: int, mp: int, day: int, doy: int, z: int, y: int)
    requires 0 <= yoe < 400 && 0 <= mp <= 11 && 1 <= day <= LongMonth(mp)
    requires doy == MonthStart(mp) + day - 1 && 0 <= doy < YearLength(yoe)
    requires z == era * 146_097 + (YearStart(yoe) + doy) - 719_468 && y == yoe + era * 400
    ensures CivilFromDays(z) == Date(if mp < 10 then y else y + 1, if mp < 10 then mp + 3 else mp - 9, day)
  {
    CivilOfParts(era, yoe, doy, z, y);
    DateInParts(y, mp, day, doy);
  }

  /** A date that exists is recovered from its day number. */
  lemma {:induction false} DateRecovered(t: Date)
    requires Exists(t)
    ensures CivilFromDays(Days(t)) == t
  {
    var era, yoe, mp := SplitDate(t);
    CivilOfSplit(era, yoe, mp, t.d, MonthStart(mp) + t.d - 1, Days(t), yoe + era * 400);
  }

  lemma {:induction false} PartsOfDate(era: int, yoe: int, doy: int)
    requires 0 <= yoe < 400 && 0 <= doy < YearLength(yoe)
    ensures var t := DateIn(yoe + era * 400, doy);
            Exists(t) && Days(t) == era * 146_097 + YearStart(yoe) + doy - 719_468
  {
    MonthOfDay(doy);
    var mp := (5 * doy + 2) / 153;
    MonthRecovered(mp, doy - MonthStart(mp) + 1);
    LeapDays(era, yoe);
    var t := DateIn(yoe + era * 400, doy);
    assert Exists(t);
    var y := if t.m <= 2 then t.y - 1 else t.y;
    assert y == yoe + era * 400;
    YearSplits(era, yoe);
    assert (t.m + 9) % 12 == mp;
    DateParts(t);
  }

  lemma {:induction false} YearSplits(era: int, yoe: int)
    requires 0 <= yoe < 400
    ensures (yoe + era * 400) / 400 == era && (yoe + era * 400) % 400 == yoe
  {
  }

  /** Every day number is that of the date it converts to, and that date exists. */
  lemma {:induction false} DayRecovered(z: int)
    ensures Exists(CivilFromDays(z)) && Days(CivilFromDays(z)) == z
  {
    var era, doe := (z + 719_468) / 146_097, (z + 719_468) % 146_097;
    var yoe := FindYear(doe);
    var doy := doe - YearStart(yoe);
    CivilOfParts(era, yoe, doy, z, yoe + era * 400);
    PartsOfDate(era, yoe, doy);
    assert z == era * 146_097 + YearStart(yoe) + doy - 719_468;
  }

  lemma {:induction false} NextYearStarts(y: int)
    ensures ((y + 1) / 400) * 146_097 + YearStart((y + 1) % 400) ==
            (y / 400) * 146_097 + YearStart(y % 400) + YearLength(y % 400)
  {
    if y % 400 < 399 {
      YearsAbut(y % 400);
      assert (y + 1) / 400 == y / 400 && (y + 1) % 400 == y % 400 + 1;
    } else {
      assert (y + 1) / 400 == y / 400 + 1 && (y + 1) % 400 == 0;
    }
  }

  lemma {:induction false} MonthsAbut(y: int, m: int)
    requires 1 <= m < 12 && m != 2
    ensures MonthStart((m + 9) % 12) + DaysInMonth(y, m) == MonthStart((m + 10) % 12)
  {
  }

  /** A later day of the same month is numbered as much later. */
  lemma {:induction false} SameMonth(t: Date, u: Date)
    requires u.y == t.y && u.m == t.m
    ensures Days(u) - Days(t) == u.d - t.d
  {
  }

  lemma {:induction false} WithinMonth(t: Date)
    requires Exists(t) && t.d < DaysInMonth(t.y, t.m)
    ensures Exists(DayAfter(t)) && Days(DayAfter(t)) == Days(t) + 1
  {
    SameMonth(t, DayAfter(t));
  }

  lemma {:induction false} MonthEnds(t: Date)
    requires Exists(t) && t.d == DaysInMonth(t.y, t.m) && t.m != 2 && t.m < 12
    ensures Days(Date(t.y, t.m + 1, 1)) == Days(t) + 1
  {
    DateParts(t);
    DateParts(Date(t.y, t.m + 1, 1));
    MonthsAbut(t.y, t.m);
  }

  lemma {:induction false} YearEnds(t: Date)
    requires Exists(t) && t.m == 12 && t.d == 31
    ensures Days(Date(t.y + 1, 1, 1)) == Days(t) + 1
  {
    DateParts(t);
    DateParts(Date(t.y + 1, 1, 1));
    assert MonthStart(9) + 31 == MonthStart(10);
  }

  /** The day after an existing date exists and is numbered one more. */
  lemma {:induction false} NumbersFollow(t: Date)
    requires Exists(t)
    ensures Exists(DayAfter(t)) && Days(DayAfter(t)) == Days(t) + 1
  {
    if t.d < DaysInMonth(t.y, t.m) {
      WithinMonth(t);
    } else if t.m == 2 {
      FebruaryEnds(t);
    } else if t.m < 12 {
      MonthEnds(t);
    } else {
      YearEnds(t);
    }
  }

  lemma {:induction false} FebruaryEnds(t: Date)
    requires t.m == 2 && t.d == DaysInMonth(t.y, 2)
    ensures Days(Date(t.y, 3, 1)) == Days(t) + 1
  {
    NextYearStarts(t.y - 1);
    LeapDays((t.y - 1) / 400, (t.y - 1) % 400);
    assert t.y == (t.y - 1) % 400 + ((t.y - 1) / 400) * 400 + 1;
    assert MonthStart(11) == 337 && MonthStart(0) == 0;
    DateParts(t);
    DateParts(Date(t.y, 3, 1));
  }

  lemma {:induction false} EpochIsDayZero()
    ensures CivilFromDays(0) == Date(1970, 1, 1)
  {
    assert Days(Date(1970, 1, 1)) == 0;
    DateRecovered(Date(1970, 1, 1));
  }

  lemma {:induction false} DateOfDay(t: Date, z: int)
    requires Exists(t) && Days(t) == z
    ensures CivilFromDays(z) == t
  {
    DateRecovered(t);
  }

  /** `civil_from_days` walks the Gregorian calendar: one day number on is the next calendar day. */
  lemma {:induction false} WalksTheCalendar(z: int)
    ensures CivilFromDays(z + 1) == DayAfter(CivilFromDays(z))
  {
    var t := CivilFromDays(z);
    DayRecovered(z);
    NumbersFollow(t);
    DateOfDay(DayAfter(t), z + 1);
  }

  /** The date `n` days after 1970-01-01, counted on the calendar. */
  function Walk(n: nat): Date { if n == 0 then Date(1970, 1, 1) else DayAfter(Walk(n - 1)) }

  lemma {:induction false} WalkedDate(n: nat)
    ensures CivilFromDays(n) == Walk(n)
  {
    if n == 0 {
      EpochIsDayZero();
    } else {
      WalkedDate(n - 1);
      WalksTheCalendar(n - 1);
    }
  }

  // ----- dates given by hand, and the start of a day -----

  /** `date_start_with_offset`: the instant a local date begins, when the date exists. */
  function DateStart(y: int, m: nat, d: nat, offset: int): Option<int>
  {
    if !(1 <= m <= 12) || !(1 <= d <= 31) || CivilFromDays(DaysFromCivil(y, m, d)) != Date(y, m, d) then None
    else Some(DaysFromCivil(y, m, d) * 86_400 - offset)
  }

  /** Exactly the dates of the Gregorian calendar are accepted. */
  lemma {:induction false} DateStartAcceptsReal(y: int, m: nat, d: nat, offset: int)
    ensures DateStart(y, m, d, offset).Some? <==> Exists(Date(y, m, d))
  {
    if Exists(Date(y, m, d)) {
      DateRecovered(Date(y, m, d));
    } else {
      DayRecovered(DaysFromCivil(y, m, d));
    }
  }

  /** `day_start_with_offset`: local midnight at the start of the day that holds `t`. */
  function DayStart(t: int, offset: int): int { ((t + offset) / 86_400) * 86_400 - offset }

  /** The local date of an instant begins at its day's start, a whole day or less before it. */
  lemma {:induction false} DayStartIsDateStart(t: int, offset: int)
    ensures var date := CivilFromDays((t + offset) / 86_400);
            date.m >= 0 && date.d >= 0 && DateStart(date.y, date.m, date.d, offset) == Some(DayStart(t, offset))
    ensures 0 <= t - DayStart(t, offset) < 86_400
  {
    DayRecovered((t + offset) / 86_400);
  }
}
