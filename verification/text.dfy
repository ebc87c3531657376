/** String helpers: Python's ordering on `str`, and reading the year out of a
    release date the way `str.split('-').str[0].astype(int)` does. */
module Text {
  import opened Outcomes

  /** Python's `a <= b` on `str`: code points compared left to right, and a
      proper prefix sorts before the longer string. */
  predicate LexLe(a: string, b: string): (le: bool)
    ensures a <= b ==> le
    ensures le && |a| > 0 ==> |b| > 0 && a[0] <= b[0]
    decreases |a|
  {
    |a| == 0 || (|b| > 0 && (a[0] < b[0] || (a[0] == b[0] && LexLe(a[1..], b[1..]))))
  }

  lemma {:induction false} LexLeTransitive(a: string, b: string, c: string)
    requires LexLe(a, b) && LexLe(b, c)
    ensures LexLe(a, c)
    decreases |a|
  {
    if |a| > 0 && a[0] == b[0] && b[0] == c[0] {
      LexLeTransitive(a[1..], b[1..], c[1..]);
    }
  }

  lemma {:induction false} LexLeTotal(a: string, b: string)
    ensures LexLe(a, b) || LexLe(b, a)
    decreases |a|
  {
    if |a| > 0 && |b| > 0 && a[0] == b[0] {
      LexLeTotal(a[1..], b[1..]);
    }
  }

  lemma {:induction false} LexLeAntisymmetric(a: string, b: string)
    requires LexLe(a, b) && LexLe(b, a)
    ensures a == b
    decreases |a|
  {
    if |a| > 0 {
      LexLeAntisymmetric(a[1..], b[1..]);
      assert a == [a[0]] + a[1..] && b == [b[0]] + b[1..];
    }
  }

  /** No string lies between `lo` and `hi` when `lo` sorts after `hi`. */
  lemma EmptyRange(lo: string, hi: string, s: string)
    requires !LexLe(lo, hi)
    ensures !(LexLe(lo, s) && LexLe(s, hi))
  {
    if LexLe(lo, s) && LexLe(s, hi) {
      LexLeTransitive(lo, s, hi);
    }
  }

  /** The part of `s` before its first '-' (all of `s` when it has none). */
  function BeforeDash(s: string): (p: string)
    ensures p <= s
    ensures '-' !in p
    ensures |p| == |s| || s[|p|] == '-'
  {
    if |s| == 0 || s[0] == '-' then "" else [s[0]] + BeforeDash(s[1..])
  }

  predicate IsDigit(c: char)
  {
    '0' <= c <= '9'
  }

  /** A non-empty run of ASCII decimal digits. */
  predicate IsDecimal(s: string)
  {
    |s| > 0 && forall i :: 0 <= i < |s| ==> IsDigit(s[i])
  }

  /** The value of a run of decimal digits, read most significant first. */
  function DecimalValue(s: string): nat
    requires forall i :: 0 <= i < |s| ==> IsDigit(s[i])
  {
    if |s| == 0 then 0
    else
      assert IsDigit(s[|s| - 1]);
      DecimalValue(s[..|s| - 1]) * 10 + (s[|s| - 1] as int - '0' as int)
  }

  function DigitChar(d: nat): (c: char)
    requires d < 10
    ensures IsDigit(c) && c as int - '0' as int == d
  {
    ('0' as int + d) as char
  }

  /** The shortest decimal spelling of `n`. */
  function Decimal(n: nat): (s: string)
    ensures IsDecimal(s)
  {
    if n < 10 then [DigitChar(n)] else Decimal(n / 10) + [DigitChar(n % 10)]
  }

  /** The year of a release date: the digits before the first '-', or None when
      that prefix is empty or holds anything but digits (where `astype(int)` raises). */
  function YearOf(date: string): (y: Option<int>)
    ensures y.Some? ==> y.value >= 0
    ensures y.Some? <==> IsDecimal(BeforeDash(date))
  {
    var prefix := BeforeDash(date);
    if IsDecimal(prefix) then Some(DecimalValue(prefix)) else None
  }

  lemma {:induction false} DecimalRoundTrip(n: nat)
    ensures DecimalValue(Decimal(n)) == n
  {
    if n >= 10 {
      DecimalRoundTrip(n / 10);
      var s := Decimal(n);
      assert s[..|s| - 1] == Decimal(n / 10);
    }
  }

  lemma {:induction false} BeforeDashSkips(a: string, b: string)
    requires '-' !in a
    ensures BeforeDash(a + b) == a + BeforeDash(b)
    decreases |a|
  {
    if |a| > 0 {
      assert (a + b)[1..] == a[1..] + b;
      BeforeDashSkips(a[1..], b);
    } else {
      assert a + b == b;
    }
  }

  /** Writing a year as "YYYY-rest" and reading it back gives the year. */
  lemma YearOfRoundTrip(year: nat, rest: string)
    ensures YearOf(Decimal(year) + "-" + rest) == Some(year)
    ensures YearOf(Decimal(year)) == Some(year)
  {
    var digits := Decimal(year);
    BeforeDashSkips(digits, "-" + rest);
    assert digits + "-" + rest == digits + ("-" + rest);
    BeforeDashSkips(digits, "");
    assert digits + "" == digits;
    DecimalRoundTrip(year);
  }
}
