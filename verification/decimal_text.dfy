/** Decimal numbers as text, and the order of texts. */
module DecimalText {

  predicate IsDigit(c: char) {
    '0' <= c <= '9'
  }

  predicate AllDigits(text: string) {
    forall i | 0 <= i < |text| :: IsDigit(text[i])
  }

  function DigitChar(d: nat): char
    requires d < 10
  {
    ('0' as int + d) as char
  }

  function DigitValue(c: char): nat
    requires IsDigit(c)
  {
    c as int - '0' as int
  }

  function Power10(n: nat): nat {
    if n == 0 then 1 else 10 * Power10(n - 1)
  }

  /** A number printed with no padding. */
  function Decimal(n: nat): string {
    if n < 10 then [DigitChar(n)] else Decimal(n / 10) + [DigitChar(n % 10)]
  }

  /** A number printed with zeros in front up to a least width. */
  function Padded(n: nat, width: nat): string {
    var digits := Decimal(n);
    if |digits| >= width then digits else seq(width - |digits|, i => '0') + digits
  }

  function DigitsValue(digits: string): nat
    requires AllDigits(digits)
  {
    if digits == [] then 0
    else DigitsValue(digits[..|digits| - 1]) * 10 + DigitValue(digits[|digits| - 1])
  }

  /** The last `width` digits of a number. */
  function Fixed(n: nat, width: nat): (text: string)
    ensures |text| == width && AllDigits(text)
  {
    if width == 0 then [] else Fixed(n / 10, width - 1) + [DigitChar(n % 10)]
  }

  lemma {:induction false} FixedValue(n: nat, width: nat)
    requires n < Power10(width)
    ensures DigitsValue(Fixed(n, width)) == n
  {
    if width > 0 {
      FixedValue(n / 10, width - 1);
      assert Fixed(n, width)[..width - 1] == Fixed(n / 10, width - 1);
    }
  }

  lemma {:induction false} FixedOfValue(digits: string)
    requires AllDigits(digits)
    ensures DigitsValue(digits) < Power10(|digits|)
    ensures Fixed(DigitsValue(digits), |digits|) == digits
  {
    if digits != [] {
      var front, last := digits[..|digits| - 1], digits[|digits| - 1];
      FixedOfValue(front);
      var n := DigitsValue(digits);
      assert n / 10 == DigitsValue(front) && n % 10 == DigitValue(last);
      assert DigitChar(DigitValue(last)) == last;
      assert digits == front + [last];
    }
  }

  lemma {:induction false} DecimalIsFixed(n: nat)
    ensures |Decimal(n)| >= 1 && Decimal(n) == Fixed(n, |Decimal(n)|) && n < Power10(|Decimal(n)|)
    ensures |Decimal(n)| == 1 || Power10(|Decimal(n)| - 1) <= n
  {
    if n < 10 {
      assert Fixed(n, 1) == Fixed(n / 10, 0) + [DigitChar(n % 10)];
      assert Power10(1) == 10;
    } else {
      DecimalIsFixed(n / 10);
      assert Decimal(n)[..|Decimal(n)| - 1] == Decimal(n / 10);
    }
  }

  /** Printing a number and reading the digits back gives the number. */
  lemma DecimalRoundTrip(n: nat)
    ensures AllDigits(Decimal(n)) && DigitsValue(Decimal(n)) == n
  {
    DecimalIsFixed(n);
    FixedValue(n, |Decimal(n)|);
  }

  lemma {:induction false} FixedGrows(n: nat, width: nat, more: nat)
    requires n < Power10(width)
    ensures Fixed(n, width + more) == seq(more, i => '0') + Fixed(n, width)
  {
    if width == 0 {
      FixedZero(more);
    } else {
      FixedGrows(n / 10, width - 1, more);
    }
  }

  lemma {:induction false} FixedZero(width: nat)
    ensures Fixed(0, width) == seq(width, i => '0')
  {
    if width > 0 {
      FixedZero(width - 1);
    }
  }

  lemma {:induction false} Power10Grows(a: nat, b: nat)
    requires a <= b
    ensures Power10(a) <= Power10(b)
  {
    if a < b {
      Power10Grows(a, b - 1);
    }
  }

  /** Padding yields exactly the width when the number fits it, and a longer text when not. */
  lemma PaddedIsFixed(n: nat, width: nat)
    requires width >= 1
    ensures n < Power10(width) ==> Padded(n, width) == Fixed(n, width)
    ensures n >= Power10(width) ==> |Padded(n, width)| > width
  {
    var digits := Decimal(n);
    DecimalIsFixed(n);
    if |digits| <= width {
      Power10Grows(|digits|, width);
      FixedGrows(n, |digits|, width - |digits|);
    } else {
      Power10Grows(width, |digits| - 1);
    }
  }

  // Text order.

  /** Lexicographic order by code point. */
  predicate TextLess(a: string, b: string) {
    b != [] && (a == [] || a[0] < b[0] || (a[0] == b[0] && TextLess(a[1..], b[1..])))
  }

  lemma {:induction false} TextLessByPrefix(a: string, b: string, restA: string, restB: string)
    requires |a| == |b|
    ensures TextLess(a + restA, b + restB) <==> TextLess(a, b) || (a == b && TextLess(restA, restB))
  {
    if a == [] {
      assert a + restA == restA && b + restB == restB;
    } else {
      TextLessByPrefix(a[1..], b[1..], restA, restB);
      assert (a + restA)[1..] == a[1..] + restA;
      assert (b + restB)[1..] == b[1..] + restB;
      assert a == [a[0]] + a[1..] && b == [b[0]] + b[1..];
    }
  }

  /** Numbers of one width are in order exactly when their texts are. */
  lemma {:induction false} FixedOrder(n: nat, m: nat, width: nat)
    requires n < Power10(width) && m < Power10(width)
    ensures TextLess(Fixed(n, width), Fixed(m, width)) <==> n < m
    ensures Fixed(n, width) == Fixed(m, width) <==> n == m
  {
    FixedValue(n, width);
    FixedValue(m, width);
    if width > 0 {
      FixedOrder(n / 10, m / 10, width - 1);
      TextLessByPrefix(Fixed(n / 10, width - 1), Fixed(m / 10, width - 1),
                       [DigitChar(n % 10)], [DigitChar(m % 10)]);
    }
  }

  /** Two different texts are in order one way or the other, and never both. */
  lemma {:induction false} TextOrderIsTotal(a: string, b: string)
    ensures TextLess(a, b) || TextLess(b, a) || a == b
    ensures !(TextLess(a, b) && (TextLess(b, a) || a == b))
  {
    if a != [] && b != [] {
      TextOrderIsTotal(a[1..], b[1..]);
      assert a == [a[0]] + a[1..] && b == [b[0]] + b[1..];
    }
  }
}
