/** The two integer formats the upload logic prints with Go's fmt: `%o` (octal, which
    `%#o` prefixes with "0") and `%d` (decimal). */
module Format {

  predicate IsOctalDigit(c: char) { '0' <= c <= '7' }

  predicate IsDecimalDigit(c: char) { '0' <= c <= '9' }

  function DigitChar(d: nat): (c: char)
    requires d < 10
  {
    ('0' as int + d) as char
  }

  /** The base-8 digits of `n`, most significant first, without leading zeros. */
  function Octal(n: nat): (r: string)
    ensures |r| >= 1
    ensures forall i :: 0 <= i < |r| ==> IsOctalDigit(r[i])
    ensures n > 0 ==> r[0] != '0'
    decreases n
  {
    if n < 8 then [DigitChar(n)] else Octal(n / 8) + [DigitChar(n % 8)]
  }

  function DigitValue(c: char): (d: nat)
    requires IsDecimalDigit(c)
    ensures d < 10 && DigitChar(d) == c
  {
    c as int - '0' as int
  }

  /** The number a string of octal digits denotes. */
  function OctalValue(s: string): nat
    requires forall i :: 0 <= i < |s| ==> IsOctalDigit(s[i])
  {
    if s == [] then 0
    else
      assert IsOctalDigit(s[|s| - 1]);
      8 * OctalValue(s[..|s| - 1]) + DigitValue(s[|s| - 1])
  }

  /** Reading back what Octal prints gives the number printed. */
  lemma {:induction false} OctalRoundTrip(n: nat)
    ensures OctalValue(Octal(n)) == n
  {
    if n >= 8 {
      var s := Octal(n);
      assert s[..|s| - 1] == Octal(n / 8);
      OctalRoundTrip(n / 8);
    }
  }

  function Pow8(k: nat): (r: nat)
    ensures r >= 1
  {
    if k == 0 then 1 else 8 * Pow8(k - 1)
  }

  /** The leading octal digit of `n` is at least 4 exactly when `n` lies in
      [4 * 8^k, 8 * 8^k) for some k, that is when the highest of its 3-bit groups has
      its top bit set. */
  lemma {:induction false} LeadingOctalDigit(n: nat)
    requires n > 0
    ensures Octal(n)[0] >= '4' <==> exists k: nat :: 4 * Pow8(k) <= n < 8 * Pow8(k)
  {
    forall k: nat | 4 * Pow8(k) <= n < 8 * Pow8(k) ensures Octal(n)[0] >= '4' {
      LeadingOctalDigitInRange(n, k);
    }
    if Octal(n)[0] >= '4' {
      if n < 8 {
        assert Pow8(0) == 1;
      } else {
        assert Octal(n)[0] == Octal(n / 8)[0];
        LeadingOctalDigit(n / 8);
        var k: nat :| 4 * Pow8(k) <= n / 8 < 8 * Pow8(k);
        var p := Pow8(k);
        assert Pow8(k + 1) == 8 * p;
        assert 4 * Pow8(k + 1) <= n < 8 * Pow8(k + 1);
      }
    }
  }

  lemma {:induction false} LeadingOctalDigitInRange(n: nat, k: nat)
    requires 4 * Pow8(k) <= n < 8 * Pow8(k)
    ensures n > 0 && Octal(n)[0] >= '4'
  {
    if k == 0 {
      assert Octal(n) == [DigitChar(n)];
    } else {
      var p := Pow8(k - 1);
      assert Pow8(k) == 8 * p;
      assert Octal(n)[0] == Octal(n / 8)[0];
      LeadingOctalDigitInRange(n / 8, k - 1);
    }
  }

  /** The decimal digits of `n`, most significant first, without leading zeros. */
  function Decimal(n: nat): (r: string)
    ensures |r| >= 1
    ensures forall i :: 0 <= i < |r| ==> IsDecimalDigit(r[i])
    ensures n > 0 ==> r[0] != '0'
    decreases n
  {
    if n < 10 then [DigitChar(n)] else Decimal(n / 10) + [DigitChar(n % 10)]
  }

  /** The number a string of decimal digits denotes. */
  function DecimalValue(s: string): nat
    requires forall i :: 0 <= i < |s| ==> IsDecimalDigit(s[i])
  {
    if s == [] then 0
    else
      assert IsDecimalDigit(s[|s| - 1]);
      10 * DecimalValue(s[..|s| - 1]) + DigitValue(s[|s| - 1])
  }

  /** Reading back what Decimal prints gives the number printed. */
  lemma {:induction false} DecimalRoundTrip(n: nat)
    ensures DecimalValue(Decimal(n)) == n
  {
    if n >= 10 {
      var s := Decimal(n);
      assert s[..|s| - 1] == Decimal(n / 10);
      DecimalRoundTrip(n / 10);
    }
  }
}
