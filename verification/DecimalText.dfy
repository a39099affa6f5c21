/** Decimal digits, and the order of strings. */
module DecimalText {

  function DigitChar(d: nat): char
    requires d < 10
  {
    '0' + d as char
  }

  predicate IsDigit(c: char) {
    '0' <= c <= '9'
  }

  function DigitValue(c: char): nat
    requires IsDigit(c)
  {
    c as nat - '0' as nat
  }

  function Parse(s: string): nat
    requires forall k :: 0 <= k < |s| ==> IsDigit(s[k])
  {
    if s == [] then 0 else Parse(s[..|s| - 1]) * 10 + DigitValue(s[|s| - 1])
  }

  function Pow10(k: nat): (p: nat)
    ensures p > 0
  {
    if k == 0 then 1 else 10 * Pow10(k - 1)
  }

  /** The order of strings. */
  predicate TextLess(s: string, t: string) {
    t != [] && (s == [] || s[0] < t[0] || (s[0] == t[0] && TextLess(s[1..], t[1..])))
  }

  lemma {:induction false} TextLessLast(s: string, c: char, t: string, d: char)
    requires |s| == |t|
    ensures TextLess(s + [c], t + [d]) <==> TextLess(s, t) || (s == t && c < d)
  {
    if s == [] {
      assert s + [c] == [c] && t + [d] == [d];
    } else {
      assert (s + [c])[1..] == s[1..] + [c] && (t + [d])[1..] == t[1..] + [d];
      assert s == t <==> s[0] == t[0] && s[1..] == t[1..] by {
        assert s == [s[0]] + s[1..] && t == [t[0]] + t[1..];
      }
      TextLessLast(s[1..], c, t[1..], d);
    }
  }

  lemma {:induction false} TextIsNumeric(s: string, t: string)
    requires |s| == |t|
    requires forall k :: 0 <= k < |s| ==> IsDigit(s[k]) && IsDigit(t[k])
    ensures TextLess(s, t) <==> Parse(s) < Parse(t)
    ensures s == t <==> Parse(s) == Parse(t)
  {
    if s != [] {
      var a, b, c, d := s[..|s| - 1], t[..|t| - 1], s[|s| - 1], t[|t| - 1];
      TextIsNumeric(a, b);
      TextLessLast(a, c, b, d);
      assert s == a + [c] && t == b + [d];
    }
  }

  lemma {:induction false} ParseJoin(a: string, b: string)
    requires forall k :: 0 <= k < |a| ==> IsDigit(a[k])
    requires forall k :: 0 <= k < |b| ==> IsDigit(b[k])
    ensures Parse(a + b) == Parse(a) * Pow10(|b|) + Parse(b)
  {
    if b == "" {
      assert a + b == a;
    } else {
      var init := b[..|b| - 1];
      ParseJoin(a, init);
      assert (a + b)[..|a + b| - 1] == a + init;
      TimesTen(Parse(a), Pow10(|init|));
    }
  }

  lemma TimesTen(a: nat, p: nat)
    ensures a * (10 * p) == 10 * (a * p)
  {
  }
}
