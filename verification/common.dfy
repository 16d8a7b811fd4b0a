/** Small shared vocabulary: an optional value, decimal digits, ASCII case. */
module Common {

  datatype Option<+T> = None | Some(value: T)

  // ---------------------------------------------------------------------
  // Decimal digits
  // ---------------------------------------------------------------------

  predicate IsDigit(c: char) {
    '0' <= c <= '9'
  }

  predicate AllDigits(s: string) {
    forall i :: 0 <= i < |s| ==> IsDigit(s[i])
  }

  function DigitValue(c: char): (d: nat)
    requires IsDigit(c)
    ensures d < 10
  {
    (c as int) - ('0' as int)
  }

  function DigitChar(d: nat): (c: char)
    requires d < 10
    ensures IsDigit(c) && DigitValue(c) == d
  {
    (('0' as int) + d) as char
  }

  /** The number a string of decimal digits denotes (most significant first). */
  function DigitsValue(s: string): nat
    requires AllDigits(s)
  {
    if |s| == 0 then 0 else DigitsValue(s[..|s| - 1]) * 10 + DigitValue(s[|s| - 1])
  }

  /** Python's `f"{n}"` / `str(n)` for a non-negative integer: no sign, no leading zero. */
  function Decimal(n: nat): (r: string)
    ensures 1 <= |r| && AllDigits(r) && DigitsValue(r) == n
    ensures |r| > 1 ==> r[0] != '0'
    ensures n < 10 <==> |r| == 1
  {
    if n < 10 then [DigitChar(n)]
    else
      var r := Decimal(n / 10) + [DigitChar(n % 10)];
      assert r[..|r| - 1] == Decimal(n / 10);
      r
  }

  /** `width` copies of '0'. */
  function Zeros(width: nat): (r: string)
    ensures |r| == width && AllDigits(r)
  {
    if width == 0 then "" else "0" + Zeros(width - 1)
  }

  /** Python's `f"{n:0{width}d}"`: the decimal form of `n`, left-padded with zeros to `width`. */
  function ZeroPad(n: nat, width: nat): (r: string)
    ensures |r| == if |Decimal(n)| < width then width else |Decimal(n)|
    ensures AllDigits(r) && DigitsValue(r) == n
  {
    var d := Decimal(n);
    var z := if |d| < width then Zeros(width - |d|) else "";
    LeadingZerosValue(|z|, d);
    z + d
  }

  lemma {:induction false} LeadingZerosValue(k: nat, s: string)
    requires AllDigits(s)
    ensures AllDigits(Zeros(k) + s) && DigitsValue(Zeros(k) + s) == DigitsValue(s)
  {
    if k > 0 {
      LeadingZerosValue(k - 1, s);
      LeadingZeroValue(Zeros(k - 1) + s);
      assert Zeros(k) + s == "0" + (Zeros(k - 1) + s);
    } else {
      assert Zeros(k) + s == s;
    }
  }

  lemma {:induction false} LeadingZeroValue(s: string)
    requires AllDigits(s)
    ensures AllDigits("0" + s) && DigitsValue("0" + s) == DigitsValue(s)
    decreases |s|
  {
    if |s| > 0 {
      var t := "0" + s;
      assert t[..|t| - 1] == "0" + s[..|s| - 1];
      LeadingZeroValue(s[..|s| - 1]);
    }
  }

  /** A two-digit field, as Python's `f"{n:02d}"` renders every `n < 100`. */
  lemma Pad2Shape(n: nat)
    requires n < 100
    ensures |ZeroPad(n, 2)| == 2
  {
    var d := Decimal(n);
    if n >= 10 {
      assert d == Decimal(n / 10) + [DigitChar(n % 10)];
    }
  }

  /** A four-digit field for every year Python's `date` allows. */
  lemma Pad4Shape(n: nat)
    requires n < 10000
    ensures |ZeroPad(n, 4)| == 4
  {
    DecimalLength(n, 4);
  }

  lemma {:induction false} DecimalLength(n: nat, k: nat)
    requires k >= 1
    requires n < Pow10(k)
    ensures |Decimal(n)| <= k
  {
    if n >= 10 {
      DecimalLength(n / 10, k - 1);
    }
  }

  function Pow10(k: nat): (p: nat)
    ensures p >= 1
  {
    if k == 0 then 1 else 10 * Pow10(k - 1)
  }

  /** A fixed-width decimal field as Python's ISO parser reads it: exactly `width` digits. */
  function ParseFixed(s: string, width: nat): (r: Option<nat>)
    ensures r.Some? <==> |s| == width && AllDigits(s)
    ensures r.Some? ==> r.value == DigitsValue(s)
  {
    if |s| == width && AllDigits(s) then Some(DigitsValue(s)) else None
  }

  /** Reading back a zero-padded field gives the number that was written. */
  lemma ParseZeroPad(n: nat, width: nat)
    requires |Decimal(n)| <= width
    ensures ParseFixed(ZeroPad(n, width), width) == Some(n)
  {
  }

  // ---------------------------------------------------------------------
  // ASCII case
  // ---------------------------------------------------------------------

  function AsciiLowerChar(c: char): (r: char)
    ensures 'A' <= c <= 'Z' ==> 'a' <= r <= 'z' && r as int == c as int + 32
    ensures !('A' <= c <= 'Z') ==> r == c
  {
    if 'A' <= c <= 'Z' then (c as int + 32) as char else c
  }

  /** `str.lower()` restricted to ASCII letters. */
  function AsciiLower(s: string): (r: string)
    ensures |r| == |s|
    ensures forall i :: 0 <= i < |s| ==> r[i] == AsciiLowerChar(s[i])
    ensures forall i :: 0 <= i < |r| ==> !('A' <= r[i] <= 'Z')
  {
    if |s| == 0 then "" else [AsciiLowerChar(s[0])] + AsciiLower(s[1..])
  }
}
