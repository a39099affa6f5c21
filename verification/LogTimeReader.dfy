/** The time of a log line read back: days from a date, and the instant from its RFC 3339 text. */
module LogTimeReader {
  import opened Wrappers
  import opened CivilDate
  import opened DecimalText
  import opened LogTime

  // ---------- Days of a date ----------

  /** Days from 1970-01-01 to the first of January of `year`. */
  function DaysToYear(year: int): int {
    365 * (year - 1970) + (year - 1) / 4 - (year - 1) / 100 + (year - 1) / 400 - 477
  }

  function DaysToMonth(year: int, month: nat): nat
    requires 1 <= month <= 12
  {
    if month == 1 then 0 else DaysToMonth(year, month - 1) + DaysIn(year, month - 1)
  }

  function DayNumber(d: Date): int
    requires 1 <= d.month <= 12
  {
    DaysToYear(d.year) + DaysToMonth(d.year, d.month) + d.day - 1
  }

  lemma YearHasDays(year: int)
    ensures DaysToYear(year + 1) == DaysToYear(year) + (if Leap(year) then 366 else 365)
  {
    DivNext(year - 1);
    LeapIs(year);
  }

  lemma DivNext(y: int)
    ensures (y + 1) / 4 == y / 4 + if (y + 1) % 4 == 0 then 1 else 0
    ensures (y + 1) / 100 == y / 100 + if (y + 1) % 100 == 0 then 1 else 0
    ensures (y + 1) / 400 == y / 400 + if (y + 1) % 400 == 0 then 1 else 0
  {
  }

  lemma HundredsOfFour(year: int)
    ensures year % 100 == 0 ==> year % 4 == 0
  {
    if year % 100 == 0 {
      assert year == 4 * (25 * (year / 100));
    }
  }

  lemma FourHundreds(year: int)
    ensures year % 400 == 0 ==> year % 100 == 0
  {
    if year % 400 == 0 {
      assert year == 100 * (4 * (year / 400));
    }
  }

  lemma LeapIs(year: int)
    ensures Leap(year) <==> (year % 4 == 0 && year % 100 != 0) || year % 400 == 0
    ensures year % 400 == 0 ==> year % 100 == 0
    ensures year % 100 == 0 ==> year % 4 == 0
  {
    HundredsOfFour(year);
    FourHundreds(year);
  }

  lemma MonthsFillYear(year: int)
    ensures DaysToMonth(year, 12) + DaysIn(year, 12) == if Leap(year) then 366 else 365
  {
    var f := 31 + DaysIn(year, 2);
    assert DaysToMonth(year, 1) == 0;
    assert DaysToMonth(year, 3) == f;
    assert DaysToMonth(year, 5) == f + 61;
    assert DaysToMonth(year, 7) == f + 122;
    assert DaysToMonth(year, 9) == f + 184;
    assert DaysToMonth(year, 11) == f + 245;
  }

  lemma NextDayNumber(d: Date)
    requires IsDate(d)
    ensures 1 <= NextDay(d).month <= 12 && DayNumber(NextDay(d)) == DayNumber(d) + 1
  {
    hide Leap, DaysToYear;
    YearHasDays(d.year);
    MonthsFillYear(d.year);
  }

  lemma {:induction false} DayNumberFrom(a: int, n: nat)
    requires 1 <= CivilFromDays(a).month <= 12
    ensures var d, e := CivilFromDays(a), CivilFromDays(a + n);
            1 <= e.month <= 12 && DayNumber(e) == DayNumber(d) + n
  {
    hide CivilFromDays, DayNumber, NextDay;
    if n > 0 {
      DayNumberFrom(a, n - 1);
      DatesFollowTheCalendar(a + n - 1);
      NextDayNumber(CivilFromDays(a + n - 1));
      assert a + n - 1 + 1 == a + n;
    }
  }

  lemma EpochIsDayZero()
    ensures DayNumber(Date(1970, 1, 1)) == 0
  {
    assert DaysToMonth(1970, 1) == 0;
    assert 1969 / 4 == 492 && 1969 / 100 == 19 && 1969 / 400 == 4;
  }

  /** The date of a day number has that day number, counted by the calendar's years and months. */
  lemma DayNumberBack(z: int)
    ensures 1 <= CivilFromDays(z).month <= 12 && DayNumber(CivilFromDays(z)) == z
  {
    hide CivilFromDays, DayNumber, NextDay;
    DatesFollowTheCalendar(z);
    DatesFollowTheCalendar(0);
    EpochIsDayZero();
    if z >= 0 {
      DayNumberFrom(0, z);
    } else {
      DayNumberFrom(z, -z);
    }
  }

  // ---------- The text ----------

  predicate AllDigits(s: string) {
    forall k :: 0 <= k < |s| ==> IsDigit(s[k])
  }

  /** Reads `YYYY-MM-DDTHH:MM:SS`, the fraction and `Z`: nanoseconds since 1970. */
  function ReadTime(s: string): Option<int> {
    if |s| < 20 || s[4] != '-' || s[7] != '-' || s[10] != 'T' || s[13] != ':' || s[16] != ':' then None
    else
      var y, mo, d, h, mi, sec := s[0..4], s[5..7], s[8..10], s[11..13], s[14..16], s[17..19];
      if !(AllDigits(y) && AllDigits(mo) && AllDigits(d) && AllDigits(h) && AllDigits(mi) && AllDigits(sec))
         || !(1 <= Parse(mo) <= 12)
      then None
      else
        match ReadNanos(s[19..])
        case None => None
        case Some(nanos) =>
          var days := DayNumber(Date(Parse(y), Parse(mo), Parse(d)));
          Some((days * 86_400 + Parse(h) * 3600 + Parse(mi) * 60 + Parse(sec)) * 1_000_000_000 + nanos)
  }

  /** Where the fields of a second's text stand. */
  lemma HeadFields(secs: int)
    requires Reachable(secs)
    ensures var s, t := Head(secs), CivilHms(secs);
            && t.date.year >= 0
            && s[0..4] == Digits(t.date.year, 4) && s[4] == '-' && s[5..7] == Digits(t.date.month, 2) && s[7] == '-'
            && s[8..10] == Digits(t.date.day, 2) && s[10] == 'T' && s[11..13] == Digits(t.hour, 2) && s[13] == ':'
            && s[14..16] == Digits(t.min, 2) && s[16] == ':' && s[17..19] == Digits(t.sec, 2)
  {
    hide CivilHms, Digits;
    FourDigitYear(secs);
    var t := CivilHms(secs);
    var s5 := Put(t.sec, 2, "", "");
    var s4 := Put(t.min, 2, ":", s5);
    var s3 := Put(t.hour, 2, ":", s4);
    var s2 := Put(t.date.day, 2, "T", s3);
    var s1 := Put(t.date.month, 2, "-", s2);
    var s := Put(t.date.year, 4, "-", s1);
    PutFields(t.date.year, 4, "-", s1);
    PutFields(t.date.month, 2, "-", s2);
    PutFields(t.date.day, 2, "T", s3);
    PutFields(t.hour, 2, ":", s4);
    PutFields(t.min, 2, ":", s5);
    PutFields(t.sec, 2, "", "");
    assert s == Head(secs);
    assert s[5..] == s1 && s1[3..] == s2 && s2[3..] == s3 && s3[3..] == s4 && s4[3..] == s5;
    Nested(s, s1, 5);
    Nested(s1, s2, 3);
    Nested(s2, s3, 3);
    Nested(s3, s4, 3);
    Nested(s4, s5, 3);
  }

  lemma PutFields(n: nat, w: nat, sep: string, rest: string)
    ensures var s := Put(n, w, sep, rest);
            |s| == w + |sep| + |rest| && s[..w] == Digits(n, w) && s[w..w + |sep|] == sep && s[w + |sep|..] == rest
  {
    hide Digits;
  }

  lemma Nested(s: string, t: string, k: nat)
    requires k <= |s| && s[k..] == t
    ensures forall i :: 0 <= i < |t| ==> t[i] == s[k + i]
    ensures forall i, j :: 0 <= i <= j <= |t| ==> t[i..j] == s[k + i..k + j]
  {
  }

  lemma FieldsSum(secs: int)
    ensures var t := CivilHms(secs);
            1 <= t.date.month <= 12
            && DayNumber(t.date) * 86_400 + t.hour * 3600 + t.min * 60 + t.sec == secs
  {
    hide CivilFromDays, DayNumber;
    var day, tod := secs / DAY, secs % DAY;
    DayNumberBack(day);
    TimeSplit(tod);
    assert secs == DAY * day + tod;
  }

  lemma FieldsRead(secs: int)
    requires Reachable(secs)
    ensures var t := CivilHms(secs);
            && t.date.year >= 0 && Parse(Digits(t.date.year, 4)) == t.date.year
            && Parse(Digits(t.date.month, 2)) == t.date.month && Parse(Digits(t.date.day, 2)) == t.date.day
            && Parse(Digits(t.hour, 2)) == t.hour && Parse(Digits(t.min, 2)) == t.min
            && Parse(Digits(t.sec, 2)) == t.sec
  {
    hide CivilHms, Digits, Pow10;
    var t := CivilHms(secs);
    FourDigitYear(secs);
    TwoDigits(secs);
    ParseDigits(t.date.year, 4);
    ParseDigits(t.date.month, 2);
    ParseDigits(t.date.day, 2);
    ParseDigits(t.hour, 2);
    ParseDigits(t.min, 2);
    ParseDigits(t.sec, 2);
  }

  /** Every instant is read back from its text. */
  lemma TimeReadsBack(at: UnixNs)
    ensures ReadTime(Text(at)) == Some(at)
  {
    hide CivilHms, Digits, Parse, DayNumber, Head, Nanos, ReadNanos;
    var secs, nanos := at / NANOS, at % NANOS;
    var s, head := Text(at), Head(secs);
    assert s == head + Nanos(nanos);
    HeadFields(secs);
    FieldsRead(secs);
    FieldsSum(secs);
    NanosReadBack(nanos);
    NanosNotEmpty(nanos);
    Front(head, Nanos(nanos), s);
    assert at == secs * NANOS + nanos;
  }

  lemma NanosNotEmpty(n: nat)
    ensures Nanos(n) != ""
  {
  }

  lemma Front(head: string, tail: string, s: string)
    requires s == head + tail && |head| == 19
    ensures s[19..] == tail && forall i :: 0 <= i < 19 ==> s[i] == head[i]
    ensures s[0..4] == head[0..4] && s[5..7] == head[5..7] && s[8..10] == head[8..10]
    ensures s[11..13] == head[11..13] && s[14..16] == head[14..16] && s[17..19] == head[17..19]
  {
  }
}
