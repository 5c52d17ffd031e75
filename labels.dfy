/**
 * The text of one row of the feed pad: `Feed <n>` where n is the
 * one-based row number written as a decimal numeral, the way Python's
 * f-string formats a non-negative int (no sign, no leading zeros).
 * A parser for such labels is the partner that shows the label of a
 * row determines the row.
 */
module Labels {

  datatype Option<T> = None | Some(value: T)

  const Prefix := "Feed "

  predicate IsDigit(ch: char) {
    '0' <= ch <= '9'
  }

  predicate AllDigits(s: string) {
    forall i :: 0 <= i < |s| ==> IsDigit(s[i])
  }

  function DigitChar(d: nat): char
    requires d < 10
  {
    (('0' as int) + d) as char
  }

  function DigitValue(ch: char): nat
    requires IsDigit(ch)
  {
    (ch as int) - ('0' as int)
  }

  /** The decimal numeral of n, most significant digit first. */
  function Decimal(n: nat): (s: string)
    ensures |s| >= 1 && AllDigits(s)
    ensures |s| > 1 ==> s[0] != '0'
  {
    if n < 10 then [DigitChar(n)] else Decimal(n / 10) + [DigitChar(n % 10)]
  }

  /** The value of a string of decimal digits (the empty string reads as 0). */
  function ParseDecimal(s: string): (n: nat)
    requires AllDigits(s)
  {
    if s == [] then 0 else ParseDecimal(s[..|s| - 1]) * 10 + DigitValue(s[|s| - 1])
  }

  lemma {:induction false} DecimalRoundTrip(n: nat)
    ensures ParseDecimal(Decimal(n)) == n
  {
    var s := Decimal(n);
    if n >= 10 {
      assert s[..|s| - 1] == Decimal(n / 10);
      DecimalRoundTrip(n / 10);
    }
  }

  /** Numerals of numbers below 10, 100 and 1000 take at most 1, 2 and 3 digits. */
  lemma {:induction false} DecimalWidth(n: nat)
    ensures n < 10 ==> |Decimal(n)| == 1
    ensures n < 100 ==> |Decimal(n)| <= 2
    ensures n < 1000 ==> |Decimal(n)| <= 3
  {
    if n >= 10 {
      DecimalWidth(n / 10);
    }
  }

  /** The label drawn on pad row x (rows are numbered from 0, labels from 1). */
  function Label(x: nat): (s: string)
    ensures |s| > |Prefix| && s[..|Prefix|] == Prefix && AllDigits(s[|Prefix|..])
    ensures s[|Prefix|] != '0'
  {
    Prefix + Decimal(x + 1)
  }

  /** The row a label names, or None when the text is not a row label. */
  function ParseLabel(s: string): (x: Option<nat>) {
    if |s| > |Prefix| && s[..|Prefix|] == Prefix && AllDigits(s[|Prefix|..])
       && ParseDecimal(s[|Prefix|..]) >= 1
    then Some(ParseDecimal(s[|Prefix|..]) - 1)
    else None
  }

  lemma LabelRoundTrip(x: nat)
    ensures ParseLabel(Label(x)) == Some(x)
  {
    var s := Label(x);
    assert s[..|Prefix|] == Prefix;
    assert s[|Prefix|..] == Decimal(x + 1);
    DecimalRoundTrip(x + 1);
  }

  /** The labels of the first 999 rows are at most eight characters wide. */
  lemma LabelWidth(x: nat)
    requires x < 999
    ensures |Label(x)| <= 8
  {
    DecimalWidth(x + 1);
  }

  /** Distinct rows carry distinct labels. */
  lemma LabelInjective(x: nat, y: nat)
    ensures Label(x) == Label(y) <==> x == y
  {
    LabelRoundTrip(x);
    LabelRoundTrip(y);
  }
}
