/** Calendar dates for log lines: days since 1970-01-01 to a Gregorian date. */
module CivilDate {

  datatype Date = Date(year: int, month: nat, day: nat)

  // ---------- The calendar ----------

  predicate Leap(year: int) {
    year % 4 == 0 && (year % 100 != 0 || year % 400 == 0)
  }

  function DaysIn(year: int, month: nat): nat {
    if month == 2 then (if Leap(year) then 29 else 28)
    else if month == 4 || month == 6 || month == 9 || month == 11 then 30
    else 31
  }

  predicate IsDate(d: Date) {
    1 <= d.month <= 12 && 1 <= d.day <= DaysIn(d.year, d.month)
  }

  function NextDay(d: Date): Date {
    if d.day < DaysIn(d.year, d.month) then d.(day := d.day + 1)
    else if d.month < 12 then Date(d.year, d.month + 1, 1)
    else Date(d.year + 1, 1, 1)
  }

  // ---------- The program's arithmetic ----------

  /** Division that truncates toward zero. */
  function TruncDiv(a: int, b: int): int
    requires b > 0
  {
    if a >= 0 then a / b else -((-a) / b)
  }

  /** `try_from` with a fallback of zero. */
  function OrZero(a: int): nat {
    if a >= 0 then a else 0
  }

  function Era(s: int): int {
    TruncDiv(if s >= 0 then s else s - 146_096, 146_097)
  }

  function DayOfEra(s: int): nat {
    OrZero(s - Era(s) * 146_097)
  }

  function YearOfEra(doe: nat): int {
    (doe - doe / 1460 + doe / 36524 - doe / 146096) / 365
  }

  function DayOfYear(doe: nat): int {
    var yoe := YearOfEra(doe);
    doe - (365 * yoe + yoe / 4 - yoe / 100)
  }

  /** The date of day `doy` of the year from March that starts in `year`. */
  function FromMarch(year: int, doy: int): Date {
    var mp := (5 * doy + 2) / 153;
    var day := doy - (153 * mp + 2) / 5 + 1;
    var month := if mp < 10 then mp + 3 else mp - 9;
    Date(if month <= 2 then year + 1 else year, OrZero(month), OrZero(day))
  }

  function CivilFromDays(z: int): Date {
    var s := z + 719_468;
    var doe := DayOfEra(s);
    FromMarch(YearOfEra(doe) + Era(s) * 400, DayOfYear(doe))
  }

  // ---------- Years from March ----------

  /** Days in the year from March that starts in `yoe`: it ends with the next year's February. */
  function YearLength(yoe: int): nat {
    if Leap(yoe + 1) then 366 else 365
  }

  /** Days of the era before the year `yoe`. */
  function DaysBefore(yoe: int): int {
    365 * yoe + yoe / 4 - yoe / 100 + yoe / 400
  }

  lemma EraIsFloor(s: int)
    ensures Era(s) == s / 146_097 && DayOfEra(s) == s % 146_097
  {
  }

  /** Century `c`, four-year group `q` and year `i` of the era, and the day `t` of the group. */
  lemma GroupYear(c: nat, q: nat, t: nat) returns (i: nat)
    requires c <= 3 && q <= 24 && t < 1461 && (q == 24 && c < 3 ==> t < 1460)
    ensures var doe := 36524 * c + 1461 * q + t;
            i <= 3 && YearOfEra(doe) == 100 * c + 4 * q + i && 365 * i <= t && (i < 3 ==> t < 365 * (i + 1))
  {
    var doe := 36524 * c + 1461 * q + t;
    var w := (24 * c + q + t) / 1460;
    assert w <= 1 && (w == 1 ==> t >= 1364);
    if c == 3 && q == 24 && t == 1460 {
      assert doe == 146_096;
      return 3;
    }
    assert doe / 146_096 == 0 && doe / 36524 == c;
    assert doe / 1460 == 25 * c + q + w;
    assert doe - doe / 1460 + doe / 36524 - doe / 146_096 == 365 * (100 * c + 4 * q) + (t - w);
    i := if t < 365 then 0 else if t < 730 then 1 else if t < 1095 then 2 else 3;
    assert (t - w) / 365 == i;
  }

  lemma GroupDays(c: nat, q: nat, i: nat)
    requires c <= 3 && q <= 24 && i <= 3
    ensures var yoe := 100 * c + 4 * q + i;
            && DaysBefore(yoe) == 36524 * c + 1461 * q + 365 * i
            && DaysBefore(yoe + 1) == DaysBefore(yoe) + YearLength(yoe)
            && (YearLength(yoe) == 366 <==> i == 3 && (q < 24 || c == 3))
  {
    var yoe := 100 * c + 4 * q + i;
    assert yoe / 4 == 25 * c + q && yoe / 100 == c && yoe / 400 == 0;
    if i < 3 {
      assert (yoe + 1) / 4 == 25 * c + q && (yoe + 1) / 100 == c && (yoe + 1) / 400 == 0 && (yoe + 1) % 4 != 0;
    } else if q < 24 {
      assert (yoe + 1) / 4 == 25 * c + q + 1 && (yoe + 1) / 100 == c && (yoe + 1) / 400 == 0;
      assert (yoe + 1) % 4 == 0 && (yoe + 1) % 100 == 4 * (q + 1);
    } else {
      assert yoe + 1 == 100 * (c + 1);
    }
  }

  /** The year of the era is the one the day falls in, and the day of the year counts from its start. */
  lemma YearOfEraExact(doe: nat)
    requires doe < 146_097
    ensures var yoe := YearOfEra(doe);
            && 0 <= yoe <= 399 && doe == DaysBefore(yoe) + DayOfYear(doe)
            && 0 <= DayOfYear(doe) < YearLength(yoe) && DaysBefore(yoe + 1) == DaysBefore(yoe) + YearLength(yoe)
  {
    var c := if doe == 146_096 then 3 else doe / 36524;
    var r := doe - 36524 * c;
    var q := if r / 1461 > 24 then 24 else r / 1461;
    var t := r - 1461 * q;
    var i := GroupYear(c, q, t);
    GroupDays(c, q, i);
  }

  lemma {:induction false} DaysBeforeGrows(a: int, b: int)
    requires 0 <= a <= b <= 400
    ensures DaysBefore(b) >= DaysBefore(a)
    decreases b - a
  {
    hide DaysBefore, YearLength;
    if a < b {
      DaysBeforeGrows(a, b - 1);
      YearEnd(b - 1);
    }
  }

  lemma SameYear(doe: nat, yoe: int)
    requires doe < 146_097 && 0 <= yoe <= 399
    requires DaysBefore(yoe) <= doe < DaysBefore(yoe) + YearLength(yoe)
    ensures YearOfEra(doe) == yoe
  {
    hide DaysBefore, YearOfEra, DayOfYear, YearLength;
    YearOfEraExact(doe);
    var y := YearOfEra(doe);
    YearEnd(yoe);
    if y < yoe {
      DaysBeforeGrows(y + 1, yoe);
    } else if y > yoe {
      DaysBeforeGrows(yoe + 1, y);
    }
  }

  lemma YearEnd(yoe: int)
    requires 0 <= yoe <= 399
    ensures DaysBefore(yoe + 1) == DaysBefore(yoe) + YearLength(yoe)
  {
    var c := yoe / 100;
    var q := yoe % 100 / 4;
    GroupDays(c, q, yoe - 100 * c - 4 * q);
  }

  lemma RemFour(a: int, k: int)
    ensures (a + 400 * k) % 4 == a % 4
  {
    assert a + 400 * k == 4 * (a / 4 + 100 * k) + a % 4;
  }

  lemma RemHundred(a: int, k: int)
    ensures (a + 400 * k) % 100 == a % 100
  {
    assert a + 400 * k == 100 * (a / 100 + 4 * k) + a % 100;
  }

  lemma RemFourHundred(a: int, k: int)
    ensures (a + 400 * k) % 400 == a % 400
  {
    assert a + 400 * k == 400 * (a / 400 + k) + a % 400;
  }

  lemma YearLengthRepeats(yoe: int, era: int)
    ensures YearLength(yoe + era * 400) == YearLength(yoe)
  {
    RemFour(yoe + 1, era);
    RemHundred(yoe + 1, era);
    RemFourHundred(yoe + 1, era);
    assert yoe + era * 400 + 1 == yoe + 1 + 400 * era;
  }

  // ---------- The theorem ----------

  /** Where each month of the year from March starts. */
  function FirstDay(mp: int): int {
    if mp <= 0 then 0 else if mp == 1 then 31 else if mp == 2 then 61 else if mp == 3 then 92
    else if mp == 4 then 122 else if mp == 5 then 153 else if mp == 6 then 184 else if mp == 7 then 214
    else if mp == 8 then 245 else if mp == 9 then 275 else if mp == 10 then 306 else if mp == 11 then 337
    else 366
  }

  lemma MonthStart(doy: int, mp: int)
    requires 0 <= doy < 366 && mp == (5 * doy + 2) / 153
    ensures 0 <= mp <= 11 && FirstDay(mp) == (153 * mp + 2) / 5 && FirstDay(mp) <= doy < FirstDay(mp + 1)
  {
  }

  function MonthOf(mp: int): nat
    requires 0 <= mp <= 11
  {
    if mp < 10 then mp + 3 else mp - 9
  }

  lemma FromMarchIs(year: int, doy: int, mp: int)
    requires 0 <= doy < 366 && 0 <= mp <= 11 && FirstDay(mp) <= doy < FirstDay(mp + 1)
    ensures FromMarch(year, doy) ==
              Date(if mp >= 10 then year + 1 else year, MonthOf(mp), doy - FirstDay(mp) + 1)
  {
    var m := (5 * doy + 2) / 153;
    MonthStart(doy, m);
    FirstDayGrows(m, mp);
    FirstDayGrows(mp, m);
  }

  lemma FirstDayGrows(a: int, b: int)
    requires 0 <= a <= 11 && 0 <= b <= 11
    ensures a < b ==> FirstDay(a + 1) <= FirstDay(b)
  {
  }

  /** Days of a year from March give valid dates, each followed by the calendar's next. */
  lemma FromMarchNext(year: int, doy: int)
    requires 0 <= doy < YearLength(year)
    ensures IsDate(FromMarch(year, doy))
    ensures NextDay(FromMarch(year, doy)) ==
              if doy + 1 < YearLength(year) then FromMarch(year, doy + 1) else FromMarch(year + 1, 0)
  {
    hide FromMarch, Leap;
    var mp := (5 * doy + 2) / 153;
    MonthStart(doy, mp);
    FromMarchIs(year, doy, mp);
    FromMarchIs(year + 1, 0, 0);
    if doy + 1 < YearLength(year) {
      FromMarchIs(year, doy + 1, if doy + 1 < FirstDay(mp + 1) then mp else mp + 1);
    }
  }

  /** The arithmetic never needs its fallbacks: every intermediate value is in range. */
  lemma NoFallback(z: int)
    ensures var s := z + 719_468;
            var doe := DayOfEra(s);
            && s - Era(s) * 146_097 == doe < 146_097
            && 0 <= YearOfEra(doe) <= 399 && 0 <= DayOfYear(doe) < 366
            && CivilFromDays(z).month > 0 && CivilFromDays(z).day > 0
  {
    var s := z + 719_468;
    EraIsFloor(s);
    YearOfEraExact(DayOfEra(s));
    YearLengthRepeats(YearOfEra(DayOfEra(s)), Era(s));
    FromMarchNext(YearOfEra(DayOfEra(s)) + Era(s) * 400, DayOfYear(DayOfEra(s)));
  }

  /** The day after the epoch, and so on for every day: the dates are the calendar's, in order. */
  lemma DatesFollowTheCalendar(z: int)
    ensures IsDate(CivilFromDays(z))
    ensures CivilFromDays(z + 1) == NextDay(CivilFromDays(z))
    ensures CivilFromDays(0) == Date(1970, 1, 1)
  {
    hide FromMarch, NextDay, IsDate, YearLength, YearOfEra, DayOfYear, DaysBefore, Era, DayOfEra;
    var s := z + 719_468;
    var era, doe := Era(s), DayOfEra(s);
    EraNext(s);
    YearOfEraExact(doe);
    var yoe, doy := YearOfEra(doe), DayOfYear(doe);
    YearLengthRepeats(yoe, era);
    FromMarchNext(yoe + era * 400, doy);
    Epoch();
    if doe == 146_096 {
      LastDay();
    } else {
      if doy + 1 < YearLength(yoe) {
        SameYear(doe + 1, yoe);
        DayIs(doe + 1);
      } else {
        NextYear(doe, yoe);
      }
    }
  }

  lemma EraNext(s: int)
    ensures DayOfEra(s) < 146_097
    ensures if DayOfEra(s) == 146_096 then Era(s + 1) == Era(s) + 1 && DayOfEra(s + 1) == 0
            else Era(s + 1) == Era(s) && DayOfEra(s + 1) == DayOfEra(s) + 1
  {
    EraIsFloor(s);
    EraIsFloor(s + 1);
  }

  lemma Epoch()
    ensures CivilFromDays(0) == Date(1970, 1, 1)
  {
    assert Era(719_468) == 4 && DayOfEra(719_468) == 135_080;
    assert YearOfEra(135_080) == 369 && DayOfYear(135_080) == 306;
    assert FromMarch(1969, 306) == Date(1970, 1, 1);
  }

  lemma DayIs(doe: nat)
    requires doe < 146_097
    ensures DayOfYear(doe) == doe - DaysBefore(YearOfEra(doe))
  {
    YearOfEraExact(doe);
  }

  /** The last day of an era is the last of its year; the next era starts afresh. */
  lemma LastDay()
    ensures YearOfEra(146_096) == 399 && DayOfYear(146_096) + 1 == YearLength(399)
    ensures YearOfEra(0) == 0 && DayOfYear(0) == 0
  {
  }

  lemma NextYear(doe: nat, yoe: int)
    requires doe < 146_096 && 0 <= yoe <= 399 && doe + 1 == DaysBefore(yoe) + YearLength(yoe)
    ensures yoe < 399 && YearOfEra(doe + 1) == yoe + 1 && DayOfYear(doe + 1) == 0
  {
    hide YearOfEra, DayOfYear;
    YearEnd(yoe);
    assert DaysBefore(400) == 146_097;
    SameYear(doe + 1, yoe + 1);
    DayIs(doe + 1);
  }
}
