/**
 * Strings as JavaScript compares and prints them: the lexicographic order that
 * `Array.prototype.sort()` without a comparator uses, the decimal form of an
 * integer (`String(n)`), and ASCII lower-casing.
 */
module Text {

  predicate IsDigit(c: char) {
    '0' <= c <= '9'
  }

  predicate AllDigits(s: string) {
    forall i :: 0 <= i < |s| ==> IsDigit(s[i])
  }

  function DigitChar(d: nat): (c: char)
    requires d < 10
    ensures IsDigit(c)
  {
    (48 + d) as char
  }

  function DigitValue(c: char): nat
    requires IsDigit(c)
  {
    c as int - 48
  }

  /** The decimal digits of `n`, most significant first, without leading zeros. */
  function NatDigits(n: nat): (s: string)
    ensures |s| >= 1
    ensures AllDigits(s)
    ensures s[0] == '0' <==> n == 0
  {
    if n < 10 then [DigitChar(n)]
    else NatDigits(n / 10) + [DigitChar(n % 10)]
  }

  /** The number a string of decimal digits denotes. */
  function DigitsValue(s: string): nat
    requires AllDigits(s)
  {
    if s == [] then 0 else 10 * DigitsValue(s[..|s| - 1]) + DigitValue(s[|s| - 1])
  }

  /** Reading back the digits of `n` gives `n`. */
  lemma {:induction false} NatDigitsValue(n: nat)
    ensures DigitsValue(NatDigits(n)) == n
  {
    var s := NatDigits(n);
    if n >= 10 {
      NatDigitsValue(n / 10);
      assert s[..|s| - 1] == NatDigits(n / 10);
    }
  }

  lemma NatDigitsInjective(a: nat, b: nat)
    requires NatDigits(a) == NatDigits(b)
    ensures a == b
  {
    NatDigitsValue(a);
    NatDigitsValue(b);
  }

  /** `String(n)` for an integer-valued number. */
  function IntString(n: int): string {
    if n < 0 then "-" + NatDigits(-n) else NatDigits(n)
  }

  /**
   * `a <= b` on strings: lexicographic by character code, a proper prefix
   * coming first.
   */
  predicate LexLe(a: string, b: string)
    decreases |a|
  {
    a == [] || (b != [] && (a[0] < b[0] || (a[0] == b[0] && LexLe(a[1..], b[1..]))))
  }

  lemma {:induction false} LexLeTotal(a: string, b: string)
    ensures LexLe(a, b) || LexLe(b, a)
    decreases |a|
  {
    if a != [] && b != [] && a[0] == b[0] {
      LexLeTotal(a[1..], b[1..]);
    }
  }

  lemma {:induction false} LexLeTransitive(a: string, b: string, c: string)
    requires LexLe(a, b) && LexLe(b, c)
    ensures LexLe(a, c)
    decreases |a|
  {
    if a != [] && a[0] == b[0] && b[0] == c[0] {
      LexLeTransitive(a[1..], b[1..], c[1..]);
    }
  }

  lemma {:induction false} LexLeAntisymmetric(a: string, b: string)
    requires LexLe(a, b) && LexLe(b, a)
    ensures a == b
    decreases |a|
  {
    if a != [] {
      LexLeAntisymmetric(a[1..], b[1..]);
      assert a == [a[0]] + a[1..] && b == [b[0]] + b[1..];
    }
  }

  /** Comparing two equally long strings that differ only from the last character on. */
  lemma {:induction false} LexLeSnoc(a: string, x: char, b: string, y: char)
    requires |a| == |b|
    ensures LexLe(a + [x], b + [y]) <==> (a != b && LexLe(a, b)) || (a == b && x <= y)
    decreases |a|
  {
    if a != [] {
      assert (a + [x])[1..] == a[1..] + [x];
      assert (b + [y])[1..] == b[1..] + [y];
      LexLeSnoc(a[1..], x, b[1..], y);
      assert a == [a[0]] + a[1..] && b == [b[0]] + b[1..];
    }
  }

  /** Digit strings of the same length sort as the numbers they denote. */
  lemma {:induction false} SameLengthDigitsOrder(n: nat, m: nat)
    requires |NatDigits(n)| == |NatDigits(m)|
    ensures LexLe(NatDigits(n), NatDigits(m)) <==> n <= m
  {
    if n < 10 {
      assert m < 10;
    } else {
      assert m >= 10;
      var a, b := NatDigits(n / 10), NatDigits(m / 10);
      SameLengthDigitsOrder(n / 10, m / 10);
      LexLeSnoc(a, DigitChar(n % 10), b, DigitChar(m % 10));
      if a == b {
        NatDigitsInjective(n / 10, m / 10);
      }
    }
  }

  lemma FourDigitLength(n: nat)
    requires 1000 <= n <= 9999
    ensures |NatDigits(n)| == 4
  {
    assert |NatDigits(n / 1000)| == 1;
    assert NatDigits(n / 100) == NatDigits(n / 1000) + [DigitChar(n / 100 % 10)];
    assert NatDigits(n / 10) == NatDigits(n / 100) + [DigitChar(n / 10 % 10)];
  }

  /**
   * `Array.prototype.sort()` compares numbers by their decimal strings; for
   * four-digit years that is the numeric order.
   */
  lemma FourDigitYearsOrder(a: int, b: int)
    requires 1000 <= a <= 9999 && 1000 <= b <= 9999
    ensures LexLe(IntString(a), IntString(b)) <==> a <= b
  {
    FourDigitLength(a);
    FourDigitLength(b);
    SameLengthDigitsOrder(a, b);
  }

  /**
   * `toLowerCase()` on one character of the Latin-1 range: the capitals
   * 'A'–'Z', 'À'–'Ö' and 'Ø'–'Þ' become their small letters, anything else is kept.
   */
  function LowerChar(c: char): char {
    if 'A' <= c <= 'Z' || '\U{C0}' <= c <= '\U{D6}' || '\U{D8}' <= c <= '\U{DE}' then (c as int + 32) as char else c
  }

  /** `s.toLowerCase()`, character by character, for Latin-1 text. */
  function Lower(s: string): (r: string)
    ensures |r| == |s|
    ensures forall i :: 0 <= i < |s| ==> r[i] == LowerChar(s[i])
    ensures forall i :: 0 <= i < |s| ==> !('A' <= r[i] <= 'Z')
  {
    if s == [] then [] else [LowerChar(s[0])] + Lower(s[1..])
  }
}
