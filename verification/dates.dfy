/** Reservation dates are `YYYY-MM-DD` strings compared with the string
    operators. This module shows when that is sound: on strings of the
    zero-padded digit-and-dash shape, string order is (year, month, day)
    order. The shape does not check ranges, so `2024-13-45` has it too. */
module Dates {
  import opened Strings

  predicate IsDigit(c: char) {
    '0' <= c <= '9'
  }

  predicate AllDigits(s: string) {
    forall k :: 0 <= k < |s| ==> IsDigit(s[k])
  }

  /** The zero-padded digit-and-dash shape `DDDD-DD-DD` of an ISO date;
      month and day ranges are not checked. */
  predicate IsIsoDate(s: string) {
    && |s| == 10
    && s[4] == '-' && s[7] == '-'
    && AllDigits(s[..4]) && AllDigits(s[5..7]) && AllDigits(s[8..])
  }

  function Pow10(n: nat): (r: nat)
    ensures r >= 1
  {
    if n == 0 then 1 else 10 * Pow10(n - 1)
  }

  function DigitValue(c: char): nat
    requires IsDigit(c)
  {
    c as int - '0' as int
  }

  /** The number a string of decimal digits denotes. */
  function Value(s: string): nat
    requires AllDigits(s)
  {
    if |s| == 0 then 0 else DigitValue(s[0]) * Pow10(|s| - 1) + Value(s[1..])
  }

  function Year(s: string): nat
    requires IsIsoDate(s)
  {
    Value(s[..4])
  }

  function Month(s: string): nat
    requires IsIsoDate(s)
  {
    Value(s[5..7])
  }

  function Day(s: string): nat
    requires IsIsoDate(s)
  {
    Value(s[8..])
  }

  /** Date order: by year, then month, then day, as numbers. */
  predicate ChronoLe(a: string, b: string)
    requires IsIsoDate(a) && IsIsoDate(b)
  {
    || Year(a) < Year(b)
    || (Year(a) == Year(b) && Month(a) < Month(b))
    || (Year(a) == Year(b) && Month(a) == Month(b) && Day(a) <= Day(b))
  }

  lemma {:induction false} ValueBound(s: string)
    requires AllDigits(s)
    ensures Value(s) < Pow10(|s|)
    decreases |s|
  {
    if |s| > 0 {
      ValueBound(s[1..]);
      var p := Pow10(|s| - 1);
      assert DigitValue(s[0]) <= 9;
      MulMono(DigitValue(s[0]), 9, p);
    }
  }

  lemma MulMono(a: int, b: int, p: int)
    requires a <= b && p >= 0
    ensures a * p <= b * p
  {
  }

  /** A smaller leading digit means a smaller number, whatever follows. */
  lemma HeadDigitDominates(x: string, y: string)
    requires AllDigits(x) && AllDigits(y) && |x| == |y| > 0
    requires x[0] < y[0]
    ensures Value(x) < Value(y)
  {
    ValueBound(x[1..]);
    PlaceValueOrder(DigitValue(x[0]), DigitValue(y[0]), Pow10(|x| - 1), Value(x[1..]), Value(y[1..]));
  }

  /** `dx * p + rx < dy * p + ry` when `dx < dy` and `rx < p`. */
  lemma PlaceValueOrder(dx: int, dy: int, p: int, rx: int, ry: int)
    requires dx < dy && 0 <= rx < p && ry >= 0
    ensures dx * p + rx < dy * p + ry
  {
    MulMono(dx + 1, dy, p);
    assert (dx + 1) * p == dx * p + p;
  }

  /** On digit strings of one length, string order is numeric order, and
      equal numbers mean equal strings. */
  lemma {:induction false} DigitsOrder(x: string, y: string)
    requires AllDigits(x) && AllDigits(y) && |x| == |y|
    ensures LexLe(x, y) <==> Value(x) <= Value(y)
    ensures x == y <==> Value(x) == Value(y)
    decreases |x|
  {
    if |x| > 0 {
      if x[0] == y[0] {
        DigitsOrder(x[1..], y[1..]);
        assert x == [x[0]] + x[1..] && y == [y[0]] + y[1..];
      } else if x[0] < y[0] {
        HeadDigitDominates(x, y);
      } else {
        HeadDigitDominates(y, x);
      }
    }
  }

  /** String order on two concatenations with equal-length heads compares
      the heads first and the tails only when the heads are equal. */
  lemma {:induction false} LexLeConcat(x1: string, x2: string, y1: string, y2: string)
    requires |x1| == |y1|
    ensures LexLe(x1 + x2, y1 + y2) <==> (x1 != y1 && LexLe(x1, y1)) || (x1 == y1 && LexLe(x2, y2))
    decreases |x1|
  {
    if |x1| > 0 {
      assert (x1 + x2)[0] == x1[0] && (y1 + y2)[0] == y1[0];
      assert (x1 + x2)[1..] == x1[1..] + x2 && (y1 + y2)[1..] == y1[1..] + y2;
      LexLeConcat(x1[1..], x2, y1[1..], y2);
      if x1[0] == y1[0] {
        assert x1 == [x1[0]] + x1[1..] && y1 == [y1[0]] + y1[1..];
      }
    } else {
      assert x1 + x2 == x2 && y1 + y2 == y2;
    }
  }

  /** Comparing two parts of equal length one after the other, as
      lexicographic order does, agrees with comparing their values. */
  lemma DigitsHeadOrder(x1: string, x2: string, y1: string, y2: string)
    requires AllDigits(x1) && AllDigits(y1) && |x1| == |y1|
    ensures LexLe(x1 + x2, y1 + y2) <==>
      Value(x1) < Value(y1) || (Value(x1) == Value(y1) && LexLe(x2, y2))
  {
    LexLeConcat(x1, x2, y1, y2);
    DigitsOrder(x1, y1);
  }

  /** The string comparison the reservation code uses is (year, month, day)
      order on strings of the date shape. */
  lemma IsoDateOrder(a: string, b: string)
    requires IsIsoDate(a) && IsIsoDate(b)
    ensures LexLe(a, b) <==> ChronoLe(a, b)
  {
    assert a == a[..4] + ("-" + (a[5..7] + ("-" + a[8..])));
    assert b == b[..4] + ("-" + (b[5..7] + ("-" + b[8..])));
    DigitsHeadOrder(a[..4], "-" + (a[5..7] + ("-" + a[8..])), b[..4], "-" + (b[5..7] + ("-" + b[8..])));
    LexLeConcat("-", a[5..7] + ("-" + a[8..]), "-", b[5..7] + ("-" + b[8..]));
    DigitsHeadOrder(a[5..7], "-" + a[8..], b[5..7], "-" + b[8..]);
    LexLeConcat("-", a[8..], "-", b[8..]);
    DigitsOrder(a[8..], b[8..]);
  }
}
