/**
 * Character-level facts about the strings the attendance handlers check
 * and compare: ASCII digits, fixed-width decimal numerals, and the
 * code-point lexicographic order that stands in for the database's
 * comparison in the listing's date filters and its `ORDER BY date DESC`.
 */
module Text {

  /** `\d` of a JavaScript regular expression without the `u` flag. */
  predicate IsDigit(c: char) {
    '0' <= c <= '9'
  }

  predicate AllDigits(s: string) {
    forall i :: 0 <= i < |s| ==> IsDigit(s[i])
  }

  function DigitValue(c: char): (d: nat)
    requires IsDigit(c)
    ensures d < 10
  {
    c as int - '0' as int
  }

  function DigitChar(d: nat): (c: char)
    requires d < 10
    ensures IsDigit(c) && DigitValue(c) == d
  {
    ('0' as int + d) as char
  }

  function Pow10(n: nat): (p: nat)
    ensures p >= 1
  {
    if n == 0 then 1 else 10 * Pow10(n - 1)
  }

  /** The value of a decimal numeral, most significant digit first. */
  function Num(s: string): (n: nat)
    requires AllDigits(s)
    ensures n < Pow10(|s|)
  {
    if s == [] then 0 else Num(s[..|s| - 1]) * 10 + DigitValue(s[|s| - 1])
  }

  /** The numeral of `n`, left-padded with zeros to exactly `width` digits. */
  function Digits(n: nat, width: nat): (s: string)
    requires n < Pow10(width)
    ensures |s| == width && AllDigits(s)
    ensures Num(s) == n
  {
    if width == 0 then ""
    else
      var s := Digits(n / 10, width - 1) + [DigitChar(n % 10)];
      assert s[..|s| - 1] == Digits(n / 10, width - 1);
      s
  }

  /** Reading a numeral and writing it back at the same width gives the numeral back. */
  lemma {:induction false} DigitsOfNum(s: string)
    requires AllDigits(s)
    ensures Digits(Num(s), |s|) == s
  {
    if s != [] {
      var init := s[..|s| - 1];
      DigitsOfNum(init);
      assert Num(s) / 10 == Num(init);
      assert Num(s) % 10 == DigitValue(s[|s| - 1]);
      assert s == init + [s[|s| - 1]];
    }
  }

  /** Two numerals of the same width are equal exactly when their values are. */
  lemma NumInjective(a: string, b: string)
    requires AllDigits(a) && AllDigits(b) && |a| == |b|
    ensures Num(a) == Num(b) <==> a == b
  {
    if Num(a) == Num(b) {
      DigitsOfNum(a);
      DigitsOfNum(b);
    }
  }

  /** Of two numerals of equal width, the one with the smaller leading digit is the smaller. */
  lemma {:induction false} LeadingDigitLess(a: string, b: string)
    requires AllDigits(a) && AllDigits(b) && |a| == |b| > 0 && a[0] < b[0]
    ensures Num(a) < Num(b)
  {
    if |a| > 1 {
      var ia, ib := a[..|a| - 1], b[..|b| - 1];
      LeadingDigitLess(ia, ib);
      assert Num(a) <= Num(ia) * 10 + 9;
      assert Num(ib) * 10 <= Num(b);
    }
  }

  /** Numerals of equal width with the same leading digit differ by what their tails differ by. */
  lemma {:induction false} LeadingDigitSame(a: string, b: string)
    requires AllDigits(a) && AllDigits(b) && |a| == |b| > 0 && a[0] == b[0]
    ensures Num(a) - Num(b) == Num(a[1..]) - Num(b[1..])
  {
    if |a| > 1 {
      var ia, ib := a[..|a| - 1], b[..|b| - 1];
      LeadingDigitSame(ia, ib);
      assert ia[1..] == a[1..][..|a| - 2] && ib[1..] == b[1..][..|b| - 2];
      assert a[1..][|a| - 2] == a[|a| - 1] && b[1..][|b| - 2] == b[|b| - 1];
    }
  }

  /**
   * `a <= b` in code-point lexicographic order, standing in for the
   * database's comparison of dates: a proper prefix sorts first.
   */
  predicate LexLe(a: string, b: string) {
    |a| == 0 || (|b| > 0 && (a[0] < b[0] || (a[0] == b[0] && LexLe(a[1..], b[1..]))))
  }

  lemma {:induction false} LexLeTotal(a: string, b: string)
    ensures LexLe(a, b) || LexLe(b, a)
  {
    if |a| > 0 && |b| > 0 && a[0] == b[0] {
      LexLeTotal(a[1..], b[1..]);
    }
  }

  lemma {:induction false} LexLeTransitive(a: string, b: string, c: string)
    requires LexLe(a, b) && LexLe(b, c)
    ensures LexLe(a, c)
  {
    if |a| > 0 && a[0] == b[0] && b[0] == c[0] {
      LexLeTransitive(a[1..], b[1..], c[1..]);
    }
  }

  /** Comparing two strings that start with equally long heads: the heads decide unless they are equal. */
  lemma {:induction false} LexLeConcat(x: string, y: string, x': string, y': string)
    requires |x| == |x'|
    ensures x == x' ==> (LexLe(x + y, x' + y') <==> LexLe(y, y'))
    ensures x != x' ==> (LexLe(x + y, x' + y') <==> LexLe(x, x'))
  {
    if |x| > 0 {
      assert (x + y)[0] == x[0] && (x' + y')[0] == x'[0];
      assert (x + y)[1..] == x[1..] + y;
      assert (x' + y')[1..] == x'[1..] + y';
      LexLeConcat(x[1..], y, x'[1..], y');
      if x[0] == x'[0] && x[1..] == x'[1..] {
        assert x == [x[0]] + x[1..] && x' == [x'[0]] + x'[1..];
      }
    } else {
      assert x + y == y && x' + y' == y';
    }
  }

  /** On numerals of equal width the string order is the numeric order. */
  lemma {:induction false} LexLeDigits(a: string, b: string)
    requires AllDigits(a) && AllDigits(b) && |a| == |b|
    ensures LexLe(a, b) <==> Num(a) <= Num(b)
  {
    if |a| > 0 {
      if a[0] < b[0] {
        LeadingDigitLess(a, b);
      } else if b[0] < a[0] {
        LeadingDigitLess(b, a);
      } else {
        LeadingDigitSame(a, b);
        LexLeDigits(a[1..], b[1..]);
      }
    }
  }

  /** A fixed-width numeral heading two strings orders them by value first, then by what follows. */
  lemma LexLeNumeralField(x: string, y: string, x': string, y': string)
    requires AllDigits(x) && AllDigits(x') && |x| == |x'|
    ensures LexLe(x + y, x' + y') <==> Num(x) < Num(x') || (Num(x) == Num(x') && LexLe(y, y'))
  {
    LexLeConcat(x, y, x', y');
    NumInjective(x, x');
    LexLeDigits(x, x');
  }
}
