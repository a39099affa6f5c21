/** The time of a log line: RFC 3339 with nanoseconds in UTC, its second kept from line to line. */
module LogTime {
  import opened Wrappers
  import opened CivilDate
  import opened DecimalText

  const NANOS: nat := 1_000_000_000
  const DAY: nat := 86_400

  /** What a 64-bit count of nanoseconds can say. */
  type UnixNs = n: int | -0x8000_0000_0000_0000 <= n < 0x8000_0000_0000_0000

  /** A second that some such count falls in. */
  predicate Reachable(secs: int) {
    -9_223_372_037 <= secs <= 9_223_372_036
  }

  datatype Civil = Civil(date: Date, hour: nat, min: nat, sec: nat)

  function CivilHms(secs: int): Civil {
    var tod := secs % DAY;
    Civil(CivilFromDays(secs / DAY), tod / 3600, tod % 3600 / 60, tod % 60)
  }

  /** The last `w` digits of `n`. */
  function Digits(n: nat, w: nat): (s: string)
    ensures |s| == w && forall k :: 0 <= k < w ==> IsDigit(s[k])
  {
    if w == 0 then "" else Digits(n / 10, w - 1) + [DigitChar(n % 10)]
  }

  /** A number in `w` digits, what separates it from the next, and the rest of the text. */
  function Put(n: nat, w: nat, sep: string, rest: string): string {
    Digits(n, w) + sep + rest
  }

  function Head(secs: int): (s: string)
    requires Reachable(secs)
    ensures |s| == 19
  {
    var t := CivilHms(secs);
    FourDigitYear(secs);
    Put(t.date.year, 4, "-", Put(t.date.month, 2, "-", Put(t.date.day, 2, "T",
      Put(t.hour, 2, ":", Put(t.min, 2, ":", Put(t.sec, 2, "", ""))))))
  }

  /** Without the zeros at the end. */
  function Trim(s: string): string {
    if s != "" && s[|s| - 1] == '0' then Trim(s[..|s| - 1]) else s
  }

  function Nanos(n: nat): string {
    if n == 0 then "Z" else Trim("." + Digits(n, 9)) + "Z"
  }

  function Text(at: UnixNs): string {
    Head(at / NANOS) + Nanos(at % NANOS)
  }

  // ---------- The date and the time of day ----------

  lemma FourDigitYear(secs: int)
    requires Reachable(secs)
    ensures 1600 <= CivilHms(secs).date.year <= 2400
  {
    hide YearOfEra, DayOfYear;
    var s := secs / DAY + 719_468;
    assert 612_000 <= s <= 827_000;
    EraIsFloor(s);
    assert Era(s) == 4 || Era(s) == 5;
    NoFallback(secs / DAY);
  }

  predicate DateLess(a: Date, b: Date) {
    || a.year < b.year
    || (a.year == b.year && (a.month < b.month || (a.month == b.month && a.day < b.day)))
  }

  /** Later days have later dates. */
  lemma {:induction false} DatesIncrease(a: int, b: int)
    requires a < b
    ensures DateLess(CivilFromDays(a), CivilFromDays(b))
    decreases b - a
  {
    hide CivilFromDays;
    DatesFollowTheCalendar(b - 1);
    if a < b - 1 {
      DatesIncrease(a, b - 1);
    }
  }

  predicate CivilLess(a: Civil, b: Civil) {
    || DateLess(a.date, b.date)
    || (a.date == b.date && (
      || a.hour < b.hour
      || (a.hour == b.hour && (a.min < b.min || (a.min == b.min && a.sec < b.sec)))))
  }

  /** Later seconds have later fields. */
  lemma FieldsIncrease(a: int, b: int)
    requires a < b
    ensures CivilLess(CivilHms(a), CivilHms(b))
  {
    hide CivilFromDays, DateLess;
    var d, e := a / DAY, b / DAY;
    if d < e {
      DatesIncrease(d, e);
    } else {
      assert a % DAY < b % DAY;
      TimesIncrease(a % DAY, b % DAY);
    }
  }

  lemma TimeSplit(a: nat)
    ensures a == 3600 * (a / 3600) + 60 * (a % 3600 / 60) + a % 60
    ensures a % 3600 / 60 < 60 && a % 60 < 60
  {
    var m := a % 3600;
    assert a == 60 * (60 * (a / 3600) + m / 60) + m % 60;
  }

  lemma TimesIncrease(a: nat, b: nat)
    requires a < b
    ensures || a / 3600 < b / 3600
            || (a / 3600 == b / 3600 && (a % 3600 / 60 < b % 3600 / 60
                                         || (a % 3600 / 60 == b % 3600 / 60 && a % 60 < b % 60)))
  {
    TimeSplit(a);
    TimeSplit(b);
    InOrder(a / 3600, a % 3600 / 60, a % 60, b / 3600, b % 3600 / 60, b % 60);
  }

  lemma InOrder(h: nat, m: nat, s: nat, i: nat, n: nat, t: nat)
    requires m < 60 && s < 60 && n < 60 && t < 60 && 3600 * h + 60 * m + s < 3600 * i + 60 * n + t
    ensures h < i || (h == i && (m < n || (m == n && s < t)))
  {
  }

  // ---------- The text of a second ----------

  lemma {:induction false} ParseDigits(n: nat, w: nat)
    requires n < Pow10(w)
    ensures Parse(Digits(n, w)) == n
  {
    if w > 0 {
      ParseDigits(n / 10, w - 1);
      assert Digits(n, w)[..w - 1] == Digits(n / 10, w - 1);
    }
  }

  lemma {:induction false} TextLessJoin(a: string, c: string, b: string, d: string)
    requires |a| == |b|
    ensures TextLess(a + c, b + d) <==> TextLess(a, b) || (a == b && TextLess(c, d))
  {
    if a == "" {
      assert a + c == c && b + d == d;
    } else {
      assert (a + c)[1..] == a[1..] + c && (b + d)[1..] == b[1..] + d;
      assert a == b <==> a[0] == b[0] && a[1..] == b[1..] by {
        assert a == [a[0]] + a[1..] && b == [b[0]] + b[1..];
      }
      TextLessJoin(a[1..], c, b[1..], d);
    }
  }

  /** Numbers of one width sort as text by their value, and then by what follows. */
  lemma PutOrder(n: nat, m: nat, w: nat, sep: string, c: string, d: string)
    requires n < Pow10(w) && m < Pow10(w)
    ensures TextLess(Put(n, w, sep, c), Put(m, w, sep, d)) <==> n < m || (n == m && TextLess(c, d))
  {
    hide TextLess, Parse, Pow10, Digits;
    ParseDigits(n, w);
    ParseDigits(m, w);
    TextIsNumeric(Digits(n, w), Digits(m, w));
    TextLessJoin(Digits(n, w), sep + c, Digits(m, w), sep + d);
    TextLessJoin(sep, c, sep, d);
    Irreflexive(sep);
    assert Put(n, w, sep, c) == Digits(n, w) + (sep + c) && Put(m, w, sep, d) == Digits(m, w) + (sep + d);
  }

  lemma {:induction false} Irreflexive(s: string)
    ensures !TextLess(s, s)
  {
    if s != "" {
      Irreflexive(s[1..]);
    }
  }

  lemma TwoDigits(secs: int)
    ensures Pow10(2) == 100 && Pow10(4) == 10_000
    ensures var t := CivilHms(secs);
            t.date.month < 100 && t.date.day < 100 && t.hour < 100 && t.min < 100 && t.sec < 100
  {
    hide CivilFromDays;
    DatesFollowTheCalendar(secs / DAY);
    assert Pow10(2) == 100;
  }

  /** The texts of two seconds sort as text the way the seconds do. */
  lemma HeadsSortAsTime(a: int, b: int)
    requires Reachable(a) && Reachable(b)
    ensures TextLess(Head(a), Head(b)) <==> a < b
  {
    hide CivilHms, Put, TextLess, DateLess, Pow10;
    HeadsCompare(a, b);
    if a < b {
      FieldsIncrease(a, b);
    } else if b < a {
      FieldsIncrease(b, a);
      LessOneWay(CivilHms(b), CivilHms(a));
    } else {
      LessOneWay(CivilHms(a), CivilHms(b));
    }
  }

  lemma LessOneWay(a: Civil, b: Civil)
    ensures CivilLess(a, b) ==> !CivilLess(b, a) && a != b
  {
  }

  lemma HeadsCompare(a: int, b: int)
    requires Reachable(a) && Reachable(b)
    ensures TextLess(Head(a), Head(b)) <==> CivilLess(CivilHms(a), CivilHms(b))
  {
    hide CivilHms, Put, TextLess, Pow10;
    var s, t := CivilHms(a), CivilHms(b);
    TwoDigits(a);
    TwoDigits(b);
    FourDigitYear(a);
    FourDigitYear(b);
    var s5, t5 := Put(s.sec, 2, "", ""), Put(t.sec, 2, "", "");
    var s4, t4 := Put(s.min, 2, ":", s5), Put(t.min, 2, ":", t5);
    var s3, t3 := Put(s.hour, 2, ":", s4), Put(t.hour, 2, ":", t4);
    var s2, t2 := Put(s.date.day, 2, "T", s3), Put(t.date.day, 2, "T", t3);
    var s1, t1 := Put(s.date.month, 2, "-", s2), Put(t.date.month, 2, "-", t2);
    PutOrder(s.sec, t.sec, 2, "", "", "");
    Irreflexive("");
    PutOrder(s.min, t.min, 2, ":", s5, t5);
    PutOrder(s.hour, t.hour, 2, ":", s4, t4);
    PutOrder(s.date.day, t.date.day, 2, "T", s3, t3);
    PutOrder(s.date.month, t.date.month, 2, "-", s2, t2);
    PutOrder(s.date.year, t.date.year, 4, "-", s1, t1);
  }

  // ---------- The text of the nanoseconds ----------

  /** Reads `Z`, or a point, up to nine digits and `Z`. */
  function ReadNanos(s: string): Option<nat> {
    if s == "Z" then Some(0)
    else if !(3 <= |s| <= 11) || s[0] != '.' || s[|s| - 1] != 'Z' then None
    else
      var d := s[1..|s| - 1];
      if exists k :: 0 <= k < |d| && !IsDigit(d[k]) then None else Some(Parse(d) * Pow10(9 - |d|))
  }

  /** Cutting zeros off a fraction keeps its value and leaves no zero at the end. */
  lemma {:induction false} TrimFraction(d: string)
    requires (forall k :: 0 <= k < |d| ==> IsDigit(d[k])) && Parse(d) > 0
    ensures var t := Trim("." + d);
            && 2 <= |t| <= |d| + 1 && t == ("." + d)[..|t|] && t[|t| - 1] != '0'
            && Parse(d[..|t| - 1]) * Pow10(|d| + 1 - |t|) == Parse(d)
  {
    var n := |d| - 1;
    var s := "." + d;
    if d[n] == '0' {
      assert s[..n + 1] == "." + d[..n];
      TrimFraction(d[..n]);
      var t := Trim("." + d[..n]);
      assert d[..n][..|t| - 1] == d[..|t| - 1];
      assert t == s[..|t|];
      assert Pow10(|d| + 1 - |t|) == 10 * Pow10(n + 1 - |t|);
      Shift(Parse(d[..|t| - 1]), Pow10(n + 1 - |t|));
    } else {
      assert Trim(s) == s && s[..|s|] == s && d[..|d|] == d;
      assert Pow10(0) == 1;
    }
  }

  lemma Shift(a: nat, p: nat)
    ensures a * (10 * p) == a * p * 10
  {
  }

  /** The fraction reads back as the nanoseconds, and is spelt without zeros at its end. */
  lemma NanosReadBack(n: nat)
    requires n < NANOS
    ensures ReadNanos(Nanos(n)) == Some(n)
    ensures n > 0 ==> |Nanos(n)| >= 3 && Nanos(n)[|Nanos(n)| - 2] != '0'
  {
    hide Trim, Digits, Parse, Pow10;
    if n > 0 {
      NinePlaces();
      ParseDigits(n, 9);
      var d := Digits(n, 9);
      TrimFraction(d);
      var t := Trim("." + d);
      assert (t + "Z")[1..|t|] == d[..|t| - 1];
    }
  }

  lemma NinePlaces()
    ensures Pow10(9) == NANOS
  {
    assert Pow10(3) == 1000 && Pow10(6) == 1_000_000;
  }

  /** Different instants are written differently: the second by its order, the fraction by its value. */
  lemma TextIsOneToOne(a: UnixNs, b: UnixNs)
    ensures Text(a) == Text(b) ==> a == b
  {
    hide Nanos, Head, ReadNanos, TextLess;
    if Text(a) == Text(b) {
      var s, t := a / NANOS, b / NANOS;
      assert Text(a)[..19] == Head(s) && Text(b)[..19] == Head(t);
      assert Text(a)[19..] == Nanos(a % NANOS) && Text(b)[19..] == Nanos(b % NANOS);
      HeadsSortAsTime(s, t);
      HeadsSortAsTime(t, s);
      Irreflexive(Head(s));
      NanosReadBack(a % NANOS);
      NanosReadBack(b % NANOS);
    }
  }

  // ---------- As the program writes it ----------

  /** A point and nine digits, filled in from the last. */
  method NineDigits(nanos: nat) returns (text: array<char>)
    ensures fresh(text) && text.Length == 10 && text[0] == '.' && text[..] == "." + Digits(nanos, 9)
  {
    text := new char[10](_ => '.');
    var rest := nanos;
    for k := 9 downto 0
      invariant text[0] == '.' && Digits(nanos, 9) == Digits(rest, k) + text[k + 1..]
    {
      text[k + 1] := DigitChar(rest % 10);
      rest := rest / 10;
      assert text[k + 1..] == [text[k + 1]] + text[k + 2..];
    }
    assert text[..] == [text[0]] + text[1..];
  }

  method AppendNanos(buf: string, nanos: nat) returns (out: string)
    ensures out == buf + Nanos(nanos)
  {
    hide Digits;
    if nanos == 0 {
      return buf + "Z";
    }
    var text := NineDigits(nanos);
    var end := text.Length;
    assert text[..end] == text[..];
    while text[end - 1] == '0'
      invariant 0 < end <= text.Length
      invariant Trim(text[..end]) == Trim("." + Digits(nanos, 9))
      decreases end
    {
      assert text[..end][..end - 1] == text[..end - 1];
      end := end - 1;
    }
    out := buf + text[..end] + "Z";
  }

  class Stamp {
    var secs: Option<int>
    var head: string

    /** The kept text is that of the kept second. */
    ghost predicate Valid()
      reads this
    {
      secs.Some? ==> Reachable(secs.value) && head == Head(secs.value)
    }

    constructor ()
      ensures Valid()
    {
      secs, head := None, "";
    }

    /** Whatever was written before, this writes what a stamp without a memory would. */
    method Append(buf: string, at: UnixNs) returns (out: string)
      requires Valid()
      modifies this
      ensures Valid() && out == buf + Text(at)
    {
      hide Nanos, Head;
      var now := at / NANOS;
      if secs != Some(now) {
        head := Head(now);
        secs := Some(now);
      }
      out := buf + head;
      out := AppendNanos(out, at % NANOS);
    }
  }
}
