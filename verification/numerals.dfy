/** Non-negative integers written in base 10 or 16, the way Python's
    string formatting writes them for the report and the dump: lowercase
    digits, no sign, zero-padded on the left to a minimum
    width and never truncated. */
module Numerals {
  import opened Text

  /** A numeral base Python's formatting is used with here. */
  predicate IsBase(base: nat) { 2 <= base <= 16 }

  /** The lowercase digit for `d`. */
  function DigitChar(d: nat): (c: char)
    requires d < 16
  {
    if d < 10 then ('0' as int + d) as char else ('a' as int + d - 10) as char
  }

  /** The value of a lowercase digit, or -1 for any other character. */
  function DigitValue(c: char): (d: int)
    ensures -1 <= d < 16
    ensures 0 <= d ==> DigitChar(d) == c
  {
    if '0' <= c <= '9' then c as int - '0' as int
    else if 'a' <= c <= 'f' then c as int - 'a' as int + 10
    else -1
  }

  lemma DigitValueOfDigitChar(d: nat)
    requires d < 16
    ensures DigitValue(DigitChar(d)) == d
  {
  }

  /** Every character of `s` is a lowercase digit of `base`. */
  predicate AllDigits(s: string, base: nat)
  {
    forall i :: 0 <= i < |s| ==> 0 <= DigitValue(s[i]) < base
  }

  /** A numeral has no line break in it. */
  lemma DigitsNoNewline(s: string, base: nat)
    requires AllDigits(s, base)
    ensures '\n' !in s
  {
    assert forall i :: 0 <= i < |s| ==> 0 <= DigitValue(s[i]);
  }

  /** The value of a digit string, most significant digit first. */
  function FromDigits(s: string, base: nat): nat
    requires AllDigits(s, base)
  {
    if |s| == 0 then 0
    else FromDigits(s[..|s| - 1], base) * base + DigitValue(s[|s| - 1])
  }

  /** The shortest numeral for `n` (one `0` for zero). */
  function ToDigits(n: nat, base: nat): (s: string)
    requires IsBase(base)
    ensures |s| >= 1
    ensures AllDigits(s, base)
    ensures FromDigits(s, base) == n
    ensures |s| > 1 ==> s[0] != '0'
    decreases n
  {
    if n < base then
      DigitValueOfDigitChar(n);
      [DigitChar(n)]
    else
      var q, d := n / base, n % base;
      DivMod(n, base);
      var hi := ToDigits(q, base);
      DigitValueOfDigitChar(d);
      var s := hi + [DigitChar(d)];
      assert s[..|s| - 1] == hi;
      assert FromDigits(s, base) == q * base + d;
      s
  }

  /** Euclidean division by a base, as the digit loop uses it. */
  lemma DivMod(n: nat, base: nat)
    requires IsBase(base) && n >= base
    ensures n == (n / base) * base + n % base
    ensures 0 <= n % base < base
    ensures 1 <= n / base < n
  {
  }

  lemma DivBelow(n: nat, base: nat, p: nat)
    requires IsBase(base) && n < base * p
    ensures n / base < p
  {
  }

  function Pow(base: nat, k: nat): nat
  {
    if k == 0 then 1 else base * Pow(base, k - 1)
  }

  /** A number below `base^k` needs at most `k` digits. */
  lemma {:induction false} ToDigitsLength(n: nat, base: nat, k: nat)
    requires IsBase(base) && 1 <= k
    requires n < Pow(base, k)
    ensures |ToDigits(n, base)| <= k
    decreases k
  {
    if n >= base {
      assert Pow(base, 1) == base * Pow(base, 0);
      var p := Pow(base, k - 1);
      assert Pow(base, k) == base * p;
      DivBelow(n, base, p);
      ToDigitsLength(n / base, base, k - 1);
      ToDigitsStep(n, base);
    }
  }

  /** Above the base, the digits are those of the quotient and one more. */
  lemma ToDigitsStep(n: nat, base: nat)
    requires IsBase(base) && n >= base
    ensures |ToDigits(n, base)| == |ToDigits(n / base, base)| + 1
  {
  }

  /** Leading zeros do not change the value of a digit string. */
  lemma {:induction false} FromDigitsLeadingZeros(z: nat, s: string, base: nat)
    requires IsBase(base) && AllDigits(s, base)
    ensures AllDigits(Repeat('0', z) + s, base)
    ensures FromDigits(Repeat('0', z) + s, base) == FromDigits(s, base)
  {
    var t := Repeat('0', z) + s;
    assert AllDigits(t, base) by {
      forall i | 0 <= i < |t| ensures 0 <= DigitValue(t[i]) < base {
        if i >= z { assert t[i] == s[i - z]; }
      }
    }
    if |s| == 0 {
      assert t == Repeat('0', z);
      ZerosValue(z, base);
    } else {
      FromDigitsLeadingZeros(z, s[..|s| - 1], base);
      assert t[..|t| - 1] == Repeat('0', z) + s[..|s| - 1];
    }
  }

  lemma {:induction false} ZerosValue(z: nat, base: nat)
    requires IsBase(base)
    ensures AllDigits(Repeat('0', z), base)
    ensures FromDigits(Repeat('0', z), base) == 0
  {
    if z > 0 {
      ZerosValue(z - 1, base);
      assert Repeat('0', z)[..z - 1] == Repeat('0', z - 1);
    }
  }

  /** `n` in `base`, zero-padded on the left to at least `width` digits:
      Python's zero-padded hex format for base 16, and its plain decimal
      format for base 10 with width 0. The result is never cut short: its value is
      `n`, whatever the width. */
  function FormatNat(n: nat, base: nat, width: nat): (s: string)
    requires IsBase(base)
    ensures |s| == if |ToDigits(n, base)| < width then width else |ToDigits(n, base)|
    ensures AllDigits(s, base)
    ensures FromDigits(s, base) == n
    ensures |s| > 1 && s[0] == '0' ==> |s| == width
  {
    var digits := ToDigits(n, base);
    var pad := if |digits| < width then width - |digits| else 0;
    FromDigitsLeadingZeros(pad, digits, base);
    Repeat('0', pad) + digits
  }

  /** Two-digit numerals with the same value are the same numeral. */
  lemma TwoDigitsUnique(x: string, y: string, base: nat)
    requires IsBase(base)
    requires |x| == 2 && |y| == 2 && AllDigits(x, base) && AllDigits(y, base)
    requires FromDigits(x, base) == FromDigits(y, base)
    ensures x == y
  {
    assert FromDigits(x, base) == DigitValue(x[0]) * base + DigitValue(x[1]) by {
      assert x[..1][..0] == [] && x[..1][0] == x[0];
      assert FromDigits(x[..1], base) == DigitValue(x[0]);
    }
    assert FromDigits(y, base) == DigitValue(y[0]) * base + DigitValue(y[1]) by {
      assert y[..1][..0] == [] && y[..1][0] == y[0];
      assert FromDigits(y[..1], base) == DigitValue(y[0]);
    }
    DigitsUnique(DigitValue(x[0]), DigitValue(x[1]), DigitValue(y[0]), DigitValue(y[1]), base);
  }

  lemma DigitsUnique(a0: nat, a1: nat, b0: nat, b1: nat, base: nat)
    requires a1 < base && b1 < base
    requires a0 * base + a1 == b0 * base + b1
    ensures a0 == b0 && a1 == b1
  {
    if a0 < b0 {
      MulStep(a0, b0, base);
    } else if b0 < a0 {
      MulStep(b0, a0, base);
    }
  }

  lemma MulStep(a: nat, b: nat, c: nat)
    requires a < b
    ensures a * c + c <= b * c
  {
    var d := b - a - 1;
    assert b * c == a * c + c + d * c;
  }

  /** A byte value zero-padded to two hex digits is exactly two digits. */
  lemma ByteHexWidth(b: nat)
    requires b < 256
    ensures |FormatNat(b, 16, 2)| == 2
  {
    assert Pow(16, 2) == 256 by {
      assert Pow(16, 1) == 16;
    }
    ToDigitsLength(b, 16, 2);
  }
}
