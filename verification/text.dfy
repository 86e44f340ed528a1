/** Decimal rendering of naturals, as JavaScript's template strings print them,
    the zero padding of date fields, and the `sv-SE` date stamp `YYYY-MM-DD`
    that names the day's log file. */
module Text {

  import opened Wrappers

  predicate IsDigit(c: char) {
    '0' <= c <= '9'
  }

  predicate AllDigits(s: string) {
    forall i :: 0 <= i < |s| ==> IsDigit(s[i])
  }

  function DigitChar(d: nat): (c: char)
    requires d < 10
    ensures IsDigit(c)
  {
    (d + '0' as int) as char
  }

  function DigitValue(c: char): (d: nat)
    requires IsDigit(c)
    ensures d < 10 && DigitChar(d) == c
  {
    c as int - '0' as int
  }

  /** The shortest decimal representation of `n`, as `${n}` prints it. */
  function Decimal(n: nat): (s: string)
    ensures |s| >= 1 && AllDigits(s)
    ensures s[0] == '0' ==> n == 0
    decreases n
  {
    if n < 10 then [DigitChar(n)] else Decimal(n / 10) + [DigitChar(n % 10)]
  }

  /** Reads a string of digits as a natural number (leading zeros allowed). */
  function ParseDecimal(s: string): nat
    requires AllDigits(s)
  {
    if |s| == 0 then 0 else ParseDecimal(s[..|s| - 1]) * 10 + DigitValue(s[|s| - 1])
  }

  lemma {:induction false} ParseDecimalRoundTrip(n: nat)
    ensures ParseDecimal(Decimal(n)) == n
    decreases n
  {
    if n >= 10 {
      var s := Decimal(n);
      assert s[..|s| - 1] == Decimal(n / 10);
      ParseDecimalRoundTrip(n / 10);
    }
  }

  lemma DecimalInjective(a: nat, b: nat)
    ensures Decimal(a) == Decimal(b) ==> a == b
  {
    ParseDecimalRoundTrip(a);
    ParseDecimalRoundTrip(b);
  }

  function Pow10(k: nat): (p: nat)
    ensures p >= 1
  {
    if k == 0 then 1 else 10 * Pow10(k - 1)
  }

  lemma {:induction false} DecimalLength(n: nat, k: nat)
    requires 1 <= k && n < Pow10(k)
    ensures |Decimal(n)| <= k
    decreases k
  {
    if n >= 10 {
      assert k >= 2;
      DecimalLength(n / 10, k - 1);
    }
  }

  /** The zero padding of the `sv-SE` date fields: `s` preceded by enough '0's to reach `width`. */
  function PadZero(s: string, width: nat): (r: string)
    ensures |r| == if |s| >= width then |s| else width
    ensures r[|r| - |s|..] == s
    ensures forall i :: 0 <= i < |r| - |s| ==> r[i] == '0'
  {
    if |s| >= width then s else seq(width - |s|, _ => '0') + s
  }

  lemma {:induction false} ParseZeros(z: string)
    requires forall i :: 0 <= i < |z| ==> z[i] == '0'
    ensures AllDigits(z) && ParseDecimal(z) == 0
    decreases |z|
  {
    if |z| > 0 {
      ParseZeros(z[..|z| - 1]);
    }
  }

  lemma {:induction false} ParseIgnoresZeroPrefix(a: string, b: string)
    requires AllDigits(a) && AllDigits(b) && ParseDecimal(a) == 0
    ensures AllDigits(a + b) && ParseDecimal(a + b) == ParseDecimal(b)
    decreases |b|
  {
    if |b| > 0 {
      var b' := b[..|b| - 1];
      assert (a + b)[..|a + b| - 1] == a + b';
      ParseIgnoresZeroPrefix(a, b');
    } else {
      assert a + b == a;
    }
  }

  lemma PadZeroParses(n: nat, width: nat)
    ensures AllDigits(PadZero(Decimal(n), width))
    ensures ParseDecimal(PadZero(Decimal(n), width)) == n
  {
    var s := Decimal(n);
    ParseDecimalRoundTrip(n);
    if |s| < width {
      var z := seq(width - |s|, _ => '0');
      ParseZeros(z);
      ParseIgnoresZeroPrefix(z, s);
    }
  }

  /** The date as `toLocaleDateString('sv-SE')` prints it: `YYYY-MM-DD`. */
  function DateStamp(year: nat, month: nat, day: nat): (s: string)
    ensures |s| >= 10
  {
    PadZero(Decimal(year), 4) + "-" + PadZero(Decimal(month), 2) + "-" + PadZero(Decimal(day), 2)
  }

  /** A stamp holds only digits and dashes, so it never introduces a path separator. */
  lemma DateStampNoSlash(year: nat, month: nat, day: nat)
    ensures forall i :: 0 <= i < |DateStamp(year, month, day)| ==>
              DateStamp(year, month, day)[i] == '-' || IsDigit(DateStamp(year, month, day)[i])
    ensures '/' !in DateStamp(year, month, day)
  {
    var y, m, d := PadZero(Decimal(year), 4), PadZero(Decimal(month), 2), PadZero(Decimal(day), 2);
    assert AllDigits(y) && AllDigits(m) && AllDigits(d) by {
      PadZeroParses(year, 4);
      PadZeroParses(month, 2);
      PadZeroParses(day, 2);
    }
  }

  /** Reads a ten-character `YYYY-MM-DD` stamp back into its three numbers. */
  function ParseDateStamp(s: string): (r: Option<(nat, nat, nat)>)
    ensures r.Some? ==> |s| == 10 && s[4] == '-' && s[7] == '-'
  {
    if |s| == 10 && s[4] == '-' && s[7] == '-'
       && AllDigits(s[..4]) && AllDigits(s[5..7]) && AllDigits(s[8..])
    then Some((ParseDecimal(s[..4]), ParseDecimal(s[5..7]), ParseDecimal(s[8..])))
    else None
  }

  /** For every four-digit year and two-digit month and day, the stamp is exactly
      ten characters and reads back to the same date, so two different dates
      never share a stamp (and so never share a log file). */
  lemma DateStampRoundTrip(year: nat, month: nat, day: nat)
    requires year < 10000 && month < 100 && day < 100
    ensures |DateStamp(year, month, day)| == 10
    ensures ParseDateStamp(DateStamp(year, month, day)) == Some((year, month, day))
  {
    DecimalLength(year, 4);
    DecimalLength(month, 2);
    DecimalLength(day, 2);
    PadZeroParses(year, 4);
    PadZeroParses(month, 2);
    PadZeroParses(day, 2);
    var y, m, d := PadZero(Decimal(year), 4), PadZero(Decimal(month), 2), PadZero(Decimal(day), 2);
    var s := DateStamp(year, month, day);
    assert s == y + "-" + m + "-" + d;
    assert s[..4] == y;
    assert s[5..7] == m;
    assert s[8..] == d;
  }

  lemma DateStampInjective(y1: nat, m1: nat, d1: nat, y2: nat, m2: nat, d2: nat)
    requires y1 < 10000 && m1 < 100 && d1 < 100
    requires y2 < 10000 && m2 < 100 && d2 < 100
    requires DateStamp(y1, m1, d1) == DateStamp(y2, m2, d2)
    ensures y1 == y2 && m1 == m2 && d1 == d2
  {
    DateStampRoundTrip(y1, m1, d1);
    DateStampRoundTrip(y2, m2, d2);
  }
}
