/** Decimal printing and the order of strings. */
module Decimal {

  function Digit(d: nat): char
    requires d < 10
  {
    '0' + (d as char)
  }

  predicate IsDigit(c: char) {
    '0' <= c <= '9'
  }

  predicate Digits(s: string) {
    forall i :: 0 <= i < |s| ==> IsDigit(s[i])
  }

  function DigitValue(c: char): (v: nat)
    requires IsDigit(c)
    ensures v < 10
  {
    (c - '0') as int
  }

  function Pow10(n: nat): nat {
    if n == 0 then 1 else 10 * Pow10(n - 1)
  }

  /** n in decimal, with zeros in front up to `width` digits. */
  function Pad(n: nat, width: nat): (s: string)
    ensures |s| >= width
    ensures n > 0 ==> |s| > 0
    ensures Digits(s)
    decreases n, width
  {
    if n == 0 && width == 0 then "" else Pad(n / 10, if width == 0 then 0 else width - 1) + [Digit(n % 10)]
  }

  /** The number that a digit string denotes. */
  function Value(s: string): nat
    requires Digits(s)
  {
    if s == "" then 0 else 10 * Value(s[..|s| - 1]) + DigitValue(s[|s| - 1])
  }

  lemma ValueAppend(s: string, d: nat)
    requires Digits(s) && d < 10
    ensures Digits(s + [Digit(d)]) && Value(s + [Digit(d)]) == 10 * Value(s) + d
  {
    var t := s + [Digit(d)];
    assert t[..|t| - 1] == s && t[|t| - 1] == Digit(d);
  }

  lemma LastDigit(n: nat)
    ensures n == 10 * (n / 10) + n % 10
  {
  }

  /** Printing denotes the printed number. */
  lemma {:induction false} PadValue(n: nat, width: nat)
    ensures Value(Pad(n, width)) == n
    decreases n, width
  {
    if n > 0 || width > 0 {
      var front := Pad(n / 10, if width == 0 then 0 else width - 1);
      assert Value(front) == n / 10 by {
        PadValue(n / 10, if width == 0 then 0 else width - 1);
      }
      assert Pad(n, width) == front + [Digit(n % 10)];
      ValueAppend(front, n % 10);
      LastDigit(n);
    }
  }

  lemma {:induction false} PadWidth(n: nat, width: nat)
    requires n < Pow10(width)
    ensures |Pad(n, width)| == width
    decreases width
  {
    if width > 0 {
      PadWidth(n / 10, width - 1);
    }
  }

  /** Lexicographic order of strings by character code. */
  predicate Less(a: string, b: string) {
    b != "" && (a == "" || a[0] < b[0] || (a[0] == b[0] && Less(a[1..], b[1..])))
  }

  /** With a common length in front, the front decides first. */
  lemma {:induction false} LessConcat(a: string, b: string, x: string, y: string)
    requires |a| == |b|
    ensures Less(a + x, b + y) <==> Less(a, b) || (a == b && Less(x, y))
  {
    if a == "" {
      assert a + x == x && b + y == y;
    } else {
      assert (a + x)[1..] == a[1..] + x && (b + y)[1..] == b[1..] + y;
      LessConcat(a[1..], b[1..], x, y);
      assert a == [a[0]] + a[1..] && b == [b[0]] + b[1..];
    }
  }

  lemma LessIrreflexive(a: string)
    ensures !Less(a, a)
  {
  }

  lemma DigitOrder(c: nat, d: nat)
    requires c < 10 && d < 10
    ensures Less([Digit(c)], [Digit(d)]) <==> c < d
    ensures [Digit(c)] == [Digit(d)] <==> c == d
  {
    assert Digit(c) < Digit(d) <==> c < d;
  }

  /** Equally wide decimals are ordered like their numbers. */
  lemma {:induction false} PadOrder(m: nat, n: nat, width: nat)
    requires m < Pow10(width) && n < Pow10(width)
    ensures Less(Pad(m, width), Pad(n, width)) <==> m < n
    ensures Pad(m, width) == Pad(n, width) <==> m == n
    decreases width
  {
    if width > 0 {
      PadOrder(m / 10, n / 10, width - 1);
      PadWidth(m / 10, width - 1);
      PadWidth(n / 10, width - 1);
      LessConcat(Pad(m / 10, width - 1), Pad(n / 10, width - 1), [Digit(m % 10)], [Digit(n % 10)]);
      DigitOrder(m % 10, n % 10);
      PadValue(m, width);
      PadValue(n, width);
    }
  }
}
