/**
 * Python's integer/string conversions used by the conversions, stated as
 * digit arithmetic: `bin`, `hex`, `'%d'`, and `int(s, base)` for bases 2, 10
 * and 16 on strings made only of digits.
 */
module Numerals {

  import opened Arithmetic

  function Pow2(k: nat): (r: nat)
    ensures r >= 1
  {
    if k == 0 then 1 else 2 * Pow2(k - 1)
  }

  lemma {:induction false} Pow2Monotone(j: nat, k: nat)
    requires j <= k
    ensures Pow2(j) <= Pow2(k)
  {
    if j < k {
      Pow2Monotone(j, k - 1);
    }
  }

  function Zeros(k: nat): (r: string)
    ensures |r| == k && forall i | 0 <= i < k :: r[i] == '0'
  {
    seq(k, _ => '0')
  }

  // ---------------------------------------------------------------------
  // Base 2: `bin(n)[2:]` and `int(s, 2)`

  lemma ZerosAppend(a: nat, b: nat)
    ensures Zeros(a + b) == Zeros(a) + Zeros(b)
  {
    assert forall i | 0 <= i < a + b :: (Zeros(a) + Zeros(b))[i] == '0';
  }

  predicate IsBinaryDigit(c: char)
  {
    c == '0' || c == '1'
  }

  predicate IsBinary(s: string)
  {
    forall i | 0 <= i < |s| :: IsBinaryDigit(s[i])
  }

  function BinDigit(b: nat): char
    requires b < 2
  {
    if b == 0 then '0' else '1'
  }

  /** `int(s, 2)`: the value of a string of binary digits, most significant first. */
  function BinValue(s: string): (r: nat)
    requires IsBinary(s)
    ensures r < Pow2(|s|)
  {
    if s == [] then 0 else 2 * BinValue(s[..|s| - 1]) + (if s[|s| - 1] == '1' then 1 else 0)
  }

  lemma BinaryAppend(x: string, y: string)
    requires IsBinary(x) && IsBinary(y)
    ensures IsBinary(x + y)
  {
    forall i | 0 <= i < |x + y| ensures IsBinaryDigit((x + y)[i]) {
      if i >= |x| {
        assert (x + y)[i] == y[i - |x|];
      }
    }
  }

  lemma BinValueSnoc(s: string, c: char)
    requires IsBinary(s) && IsBinaryDigit(c)
    ensures IsBinary(s + [c])
    ensures BinValue(s + [c]) == 2 * BinValue(s) + (if c == '1' then 1 else 0)
  {
    assert (s + [c])[..|s|] == s;
  }

  /** The value of `x + y` is that of `x` shifted left by `|y|` bits, plus that of `y`. */
  lemma {:induction false} BinValueAppend(x: string, y: string)
    requires IsBinary(x) && IsBinary(y)
    ensures IsBinary(x + y)
    ensures BinValue(x + y) == BinValue(x) * Pow2(|y|) + BinValue(y)
  {
    BinaryAppend(x, y);
    if y == [] {
      assert x + y == x;
    } else {
      var y', c := y[..|y| - 1], y[|y| - 1];
      assert y == y' + [c];
      assert x + y == (x + y') + [c];
      BinaryAppend(x, y');
      BinValueAppend(x, y');
      BinValueSnoc(x + y', c);
      BinValueSnoc(y', c);
      DoubleShift(BinValue(x), Pow2(|y'|), BinValue(y'), if c == '1' then 1 else 0);
    }
  }

  /** Leading zeros do not change the value. */
  lemma BinValueZeros(k: nat, s: string)
    requires IsBinary(s)
    ensures IsBinary(Zeros(k) + s) && BinValue(Zeros(k) + s) == BinValue(s)
  {
    BinValueAppend(Zeros(k), s);
    ZerosValue(k);
  }

  lemma {:induction false} ZerosValue(k: nat)
    ensures BinValue(Zeros(k)) == 0
  {
    if k > 0 {
      ZerosValue(k - 1);
      assert Zeros(k)[..k - 1] == Zeros(k - 1);
    }
  }

  /** Two binary strings of the same width with the same value are the same string. */
  lemma {:induction false} BinValueInjective(x: string, y: string)
    requires IsBinary(x) && IsBinary(y) && |x| == |y|
    requires BinValue(x) == BinValue(y)
    ensures x == y
  {
    if x != [] {
      var n := |x|;
      assert x[n - 1] == y[n - 1];
      BinValueInjective(x[..n - 1], y[..n - 1]);
      assert x == x[..n - 1] + [x[n - 1]];
      assert y == y[..n - 1] + [y[n - 1]];
    }
  }

  /** `bin(n)[2:]`: the binary digits of `n`, with no leading zero unless `n` is 0. */
  function Bits(n: nat): (r: string)
    ensures IsBinary(r) && BinValue(r) == n
    ensures |r| >= 1 && (|r| > 1 ==> r[0] == '1')
    ensures |r| > 1 ==> Pow2(|r| - 1) <= n
  {
    if n < 2 then [BinDigit(n)]
    else
      var r := Bits(n / 2) + [BinDigit(n % 2)];
      assert r[..|r| - 1] == Bits(n / 2);
      r
  }

  /** `bin(n)[2:]` has at most `w` digits exactly when `n < 2^w`. */
  lemma BitsWidth(n: nat, w: nat)
    requires w >= 1
    ensures |Bits(n)| <= w <==> n < Pow2(w)
  {
    var b := Bits(n);
    if |b| <= w {
      Pow2Monotone(|b|, w);
    } else {
      Pow2Monotone(w, |b| - 1);
    }
  }

  // ---------------------------------------------------------------------
  // Base 10: `'%d' % n` and `int(s)`

  predicate IsDecimalDigit(c: char)
  {
    '0' <= c <= '9'
  }

  predicate IsDecimal(s: string)
  {
    forall i | 0 <= i < |s| :: IsDecimalDigit(s[i])
  }

  /** A digit string with no superfluous leading zero, as Python renders integers. */
  predicate NoLeadingZero(s: string)
  {
    |s| >= 1 && (|s| > 1 ==> s[0] != '0')
  }

  function DecDigit(d: nat): (c: char)
    requires d < 10
    ensures IsDecimalDigit(c)
  {
    (('0' as int) + d) as char
  }

  function DigitValue(c: char): nat
    requires IsDecimalDigit(c)
  {
    (c as int) - ('0' as int)
  }

  /** `int(s)`: the value of a string of decimal digits. */
  function DecValue(s: string): nat
    requires IsDecimal(s)
  {
    if s == [] then 0 else 10 * DecValue(s[..|s| - 1]) + DigitValue(s[|s| - 1])
  }

  /** `'%d' % n`: the decimal digits of `n`. */
  function Decimal(n: nat): (r: string)
    ensures IsDecimal(r) && DecValue(r) == n && NoLeadingZero(r)
  {
    if n < 10 then [DecDigit(n)]
    else
      var r := Decimal(n / 10) + [DecDigit(n % 10)];
      assert r[..|r| - 1] == Decimal(n / 10);
      r
  }

  lemma {:induction false} DecValuePositive(s: string)
    requires IsDecimal(s) && |s| >= 1 && s[0] != '0'
    ensures DecValue(s) >= 1
  {
    if |s| > 1 {
      DecValuePositive(s[..|s| - 1]);
    }
  }

  /** Rendering the value of a digit string with no leading zero gives the string back. */
  lemma {:induction false} DecimalOfDigits(s: string)
    requires IsDecimal(s) && NoLeadingZero(s)
    ensures Decimal(DecValue(s)) == s
  {
    if |s| > 1 {
      var front := s[..|s| - 1];
      DecValuePositive(front);
      DecimalOfDigits(front);
      var n := DecValue(s);
      DivUnique(n, 10, DecValue(front), DigitValue(s[|s| - 1]));
      assert s == front + [s[|s| - 1]];
    }
  }

  /** Leading zeros do not change the decimal value either. */
  lemma {:induction false} DecValueZeros(k: nat, s: string)
    requires IsDecimal(s)
    ensures IsDecimal(Zeros(k) + s) && DecValue(Zeros(k) + s) == DecValue(s)
  {
    if s == [] {
      assert Zeros(k) + s == Zeros(k);
      DecValueZerosOnly(k);
    } else {
      var front := s[..|s| - 1];
      DecValueZeros(k, front);
      assert (Zeros(k) + s)[..|Zeros(k) + s| - 1] == Zeros(k) + front;
    }
  }

  lemma {:induction false} DecValueZerosOnly(k: nat)
    ensures DecValue(Zeros(k)) == 0
  {
    if k > 0 {
      DecValueZerosOnly(k - 1);
      assert Zeros(k)[..k - 1] == Zeros(k - 1);
    }
  }

  /** `s` left-padded with '0' to width `w` (unchanged when already that wide). */
  function ZeroPad(s: string, w: nat): (r: string)
    ensures |r| == if |s| < w then w else |s|
    ensures r[|r| - |s|..] == s
    ensures forall k | 0 <= k < |r| - |s| :: r[k] == '0'
  {
    if |s| < w then Zeros(w - |s|) + s else s
  }

  lemma DecValueZeroPad(s: string, w: nat)
    requires IsDecimal(s)
    ensures IsDecimal(ZeroPad(s, w)) && DecValue(ZeroPad(s, w)) == DecValue(s)
  {
    if |s| < w {
      DecValueZeros(w - |s|, s);
    }
  }

  lemma BinValueZeroPad(s: string, w: nat)
    requires IsBinary(s)
    ensures IsBinary(ZeroPad(s, w)) && BinValue(ZeroPad(s, w)) == BinValue(s)
  {
    if |s| < w {
      BinValueZeros(w - |s|, s);
    }
  }

  // ---------------------------------------------------------------------
  // Base 16: `hex(n)[2:]` and `int(s, 16)`

  /** The digits `hex` emits: 0-9 and lower-case a-f. */
  predicate IsLowerHexDigit(c: char)
  {
    '0' <= c <= '9' || 'a' <= c <= 'f'
  }

  /** The digits `int(s, 16)` accepts: 0-9, a-f and A-F. */
  predicate IsHexDigit(c: char)
  {
    '0' <= c <= '9' || 'a' <= c <= 'f' || 'A' <= c <= 'F'
  }

  predicate IsHex(s: string)
  {
    forall i | 0 <= i < |s| :: IsHexDigit(s[i])
  }

  function HexDigit(d: nat): (c: char)
    requires d < 16
    ensures IsLowerHexDigit(c)
  {
    if d < 10 then (('0' as int) + d) as char else (('a' as int) + d - 10) as char
  }

  function HexDigitValue(c: char): (d: nat)
    requires IsHexDigit(c)
    ensures d < 16
  {
    if c <= '9' then (c as int) - ('0' as int)
    else if c <= 'F' then (c as int) - ('A' as int) + 10
    else (c as int) - ('a' as int) + 10
  }

  /** `int(s, 16)`: the value of a string of hex digits. */
  function HexValue(s: string): nat
    requires IsHex(s)
  {
    if s == [] then 0 else 16 * HexValue(s[..|s| - 1]) + HexDigitValue(s[|s| - 1])
  }

  /** `hex(n)[2:]`: the lower-case hex digits of `n`, with no leading zero unless `n` is 0. */
  function Hex(n: nat): (r: string)
    ensures IsHex(r) && HexValue(r) == n
    ensures forall i | 0 <= i < |r| :: IsLowerHexDigit(r[i])
    ensures |r| >= 1 && (|r| > 1 ==> r[0] != '0')
  {
    if n < 16 then [HexDigit(n)]
    else
      var r := Hex(n / 16) + [HexDigit(n % 16)];
      assert r[..|r| - 1] == Hex(n / 16);
      r
  }

  /**
   * For a byte `n`, `hex(n)[2:]` is two digits, high nibble first, when
   * `n >= 16`, and a single digit when `n < 16`: it is not zero-padded.
   */
  lemma HexOfByte(n: nat)
    requires n < 256
    ensures n < 16 ==> Hex(n) == [HexDigit(n)]
    ensures n >= 16 ==> Hex(n) == [HexDigit(n / 16), HexDigit(n % 16)]
    ensures |Hex(n)| == if n < 16 then 1 else 2
  {
  }

  /** At most two hex digits always denote a value that fits in a byte. */
  lemma HexValueOfPair(s: string)
    requires IsHex(s) && |s| <= 2
    ensures HexValue(s) < 256
  {
    if |s| == 2 {
      assert s[..1][..0] == [];
    } else if |s| == 1 {
      assert s[..0] == [];
    }
  }
}
