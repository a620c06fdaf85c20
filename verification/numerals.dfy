/** Printing integers the way Python's `str(n)` and `f"{n:04x}"` do, with
    the reading-back partner that shows the printed digits denote `n`. */
module Numerals {

  /** The digit for `d`: `0`-`9`, then lower-case `a`-`f`. */
  function DigitChar(d: nat): (c: char)
    requires d < 16
    ensures IsDigit(c, 16)
  {
    if d < 10 then ('0' as int + d) as char else ('a' as int + d - 10) as char
  }

  /** The value of a digit character; characters that are not digits count
      as 0. */
  function DigitValue(c: char): (d: nat)
    ensures d < 16
  {
    if '0' <= c <= '9' then c as int - '0' as int
    else if 'a' <= c <= 'f' then c as int - 'a' as int + 10
    else 0
  }

  /** `c` is a digit of `base`, lower-case for the letters. */
  predicate IsDigit(c: char, base: nat) {
    (('0' <= c <= '9') || ('a' <= c <= 'f')) && DigitValue(c) < base
  }

  lemma DigitRoundTrip(d: nat)
    requires d < 16
    ensures DigitValue(DigitChar(d)) == d
  {
  }

  /** The shortest digit string for `n` in `base`, as `str` and `format`
      print a non-negative integer. */
  function ToBase(n: nat, base: nat): (r: string)
    requires 2 <= base <= 16
    ensures 1 <= |r|
    ensures forall k :: 0 <= k < |r| ==> IsDigit(r[k], base)
    ensures n == 0 ==> r == "0"
    ensures n > 0 ==> r[0] != '0'
    decreases n
  {
    if n < base then
      [DigitChar(n)]
    else
      DivStep(n, base);
      ToBase(n / base, base) + [DigitChar(n % base)]
  }

  /** One step of peeling off the last digit. */
  lemma DivStep(n: nat, base: nat)
    requires 2 <= base <= n
    ensures 0 <= n % base < base && 1 <= n / base < n
    ensures n == n / base * base + n % base
  {
  }

  /** The number a digit string denotes in `base`. */
  function FromBase(s: string, base: nat): nat
    decreases |s|
  {
    if |s| == 0 then 0
    else FromBase(s[..|s| - 1], base) * base + DigitValue(s[|s| - 1])
  }

  /** Reading back what `ToBase` printed gives the number. */
  lemma {:induction false} FromToBase(n: nat, base: nat)
    requires 2 <= base <= 16
    ensures FromBase(ToBase(n, base), base) == n
    decreases n
  {
    var r := ToBase(n, base);
    if n < base {
      DigitRoundTrip(n);
    } else {
      DivStep(n, base);
      FromToBase(n / base, base);
      assert r[..|r| - 1] == ToBase(n / base, base);
      DigitRoundTrip(n % base);
    }
  }

  function Zeros(k: nat): (r: string)
    ensures |r| == k && forall i :: 0 <= i < k ==> r[i] == '0'
  {
    seq(k, i => '0')
  }

  /** Leading zeros do not change the value. */
  lemma {:induction false} FromBaseZeros(k: nat, s: string, base: nat)
    ensures FromBase(Zeros(k) + s, base) == FromBase(s, base)
    decreases |s|, k
  {
    if |s| == 0 {
      if k > 0 {
        assert Zeros(k) + s == Zeros(k - 1) + ['0'];
        assert (Zeros(k - 1) + ['0'])[..k - 1] == Zeros(k - 1);
        FromBaseZeros(k - 1, s, base);
        assert Zeros(k - 1) + s == Zeros(k - 1);
      }
    } else {
      var t := Zeros(k) + s;
      assert t[..|t| - 1] == Zeros(k) + s[..|s| - 1];
      FromBaseZeros(k, s[..|s| - 1], base);
    }
  }

  /** `f"{n:0{width}x}"` and its decimal twin for a non-negative `n`: the
      digits, zero-padded on the left to at least `width` characters. */
  function Padded(n: nat, base: nat, width: nat): (r: string)
    requires 2 <= base <= 16
    ensures |r| >= width
    ensures FromBase(r, base) == n
    ensures forall k :: 0 <= k < |r| ==> IsDigit(r[k], base)
  {
    var d := ToBase(n, base);
    FromToBase(n, base);
    if |d| < width then
      FromBaseZeros(width - |d|, d, base);
      var r := Zeros(width - |d|) + d;
      r
    else d
  }

  function Pow(base: nat, e: nat): nat {
    if e == 0 then 1 else base * Pow(base, e - 1)
  }

  /** A number below `base^width` prints in at most `width` digits, so the
      padded form has exactly `width`. */
  lemma {:induction false} ToBaseFits(n: nat, base: nat, width: nat)
    requires 2 <= base <= 16 && 1 <= width && n < Pow(base, width)
    ensures |ToBase(n, base)| <= width
    decreases n
  {
    if n >= base {
      DivStep(n, base);
      DivBound(n, base, Pow(base, width - 1));
      ToBaseFits(n / base, base, width - 1);
    }
  }

  lemma DivBound(n: nat, base: nat, p: nat)
    requires 2 <= base && n < base * p
    ensures n / base < p
  {
  }

  /** Python's `f"{n:04x}"`: four lower-case hex digits for a 16-bit
      value, more for a larger one, and a minus sign counted in the width
      for a negative one. */
  function Hex4(n: int): (r: string)
    ensures n >= 0 ==> r == Padded(n, 16, 4)
    ensures n < 0 ==> r == "-" + Padded(-n, 16, 3)
    ensures 0 <= n < 0x10000 ==> |r| == 4 && FromBase(r, 16) == n
  {
    if n >= 0 then
      assert Pow(16, 4) == 0x10000;
      if n < 0x10000 then
        ToBaseFits(n, 16, 4);
        Padded(n, 16, 4)
      else Padded(n, 16, 4)
    else "-" + Padded(-n, 16, 3)
  }

  /** `str(n)` for a non-negative integer: decimal digits denoting `n`,
      with no leading zero except for `0` itself. */
  function Decimal(n: nat): (r: string)
    ensures FromBase(r, 10) == n
    ensures forall k :: 0 <= k < |r| ==> '0' <= r[k] <= '9'
    ensures 1 <= |r|
    ensures r[0] == '0' <==> r == "0"
    ensures n == 0 <==> r == "0"
  {
    FromToBase(n, 10);
    var r := ToBase(n, 10);
    r
  }
}
