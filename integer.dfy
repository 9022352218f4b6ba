/** The `Integer` helper class: a non-negative integer rendered as binary digits. */
module Integer {

  import opened Numerals

  /**
   * `Integer._pad8(s)`, written `'%08d' % int(s)`: the digit string is read
   * as a decimal number and rendered again with leading zeros up to width 8.
   * The value is kept, the result has at least 8 digits, and for a digit
   * string without leading zeros (what `bin` produces) the result is `s`
   * left-padded with '0' to width 8.
   */
  function Pad8(s: string): (r: string)
    requires |s| >= 1 && IsDecimal(s)
    ensures IsDecimal(r) && DecValue(r) == DecValue(s)
    ensures |r| >= 8
    ensures NoLeadingZero(s) ==> r == ZeroPad(s, 8)
  {
    var d := Decimal(DecValue(s));
    DecValueZeroPad(d, 8);
    assert NoLeadingZero(s) ==> d == s by {
      if NoLeadingZero(s) { DecimalOfDigits(s); }
    }
    ZeroPad(d, 8)
  }

  /**
   * `Integer(i).to_binary()`: the binary digits of `i`, left-padded with '0'
   * to width 8. The width is a minimum and not a cap: it is exactly 8 when
   * `i < 256` and more than 8 (with no padding) otherwise.
   */
  function ToBinary(i: nat): (r: string)
    ensures r == ZeroPad(Bits(i), 8)
    ensures IsBinary(r) && BinValue(r) == i
    ensures |r| == 8 <==> i < 256
    ensures |r| > 8 ==> r == Bits(i)
  {
    BitsPad8(Bits(i));
    PaddedBits(i);
    Pad8(Bits(i))
  }

  /** `bin(i)[2:]` zero-padded to 8 digits keeps its value, and needs no padding from 256 on. */
  lemma PaddedBits(i: nat)
    ensures IsBinary(ZeroPad(Bits(i), 8)) && BinValue(ZeroPad(Bits(i), 8)) == i
    ensures |ZeroPad(Bits(i), 8)| == 8 <==> i < 256
  {
    var b := Bits(i);
    BinValueZeroPad(b, 8);
    BitsFitByte(i);
    assert |ZeroPad(b, 8)| == 8 <==> |b| <= 8;
  }

  /** `bin(i)[2:]` has at most 8 digits exactly when `i` is below 256. */
  lemma BitsFitByte(i: nat)
    ensures |Bits(i)| <= 8 <==> i < 256
  {
    assert Pow2(8) == 256;
    BitsWidth(i, 8);
  }

  /** A binary digit string without leading zeros is one `_pad8` zero-pads. */
  lemma BitsPad8(b: string)
    requires IsBinary(b) && NoLeadingZero(b)
    ensures IsDecimal(b) && Pad8(b) == ZeroPad(b, 8)
  {
    assert IsDecimal(b) by {
      assert forall k | 0 <= k < |b| :: IsBinaryDigit(b[k]);
    }
  }

  /** An 8-digit binary string is the padded rendering of its own value. */
  lemma ToBinaryOfGroup(w: string)
    requires IsBinary(w) && |w| == 8
    ensures ToBinary(BinValue(w)) == w
  {
    assert Pow2(8) == 256;
    BinValueInjective(ToBinary(BinValue(w)), w);
  }

  /**
   * Below 64 the two leading digits of the 8-digit rendering are '0' and
   * the remaining six digits carry the whole value.
   */
  lemma ToBinaryBelow64(i: nat)
    requires i < 64
    ensures ToBinary(i)[..2] == "00"
    ensures |ToBinary(i)[2..]| == 6 && IsBinary(ToBinary(i)[2..]) && BinValue(ToBinary(i)[2..]) == i
  {
    var b := Bits(i);
    assert |b| <= 6 by {
      BitsWidth(i, 6);
      assert Pow2(6) == 64;
    }
    PadTwoMore(b);
    var r := ToBinary(i);
    assert r[..2] == "00" && r[2..] == ZeroPad(b, 6);
    BinValueZeroPad(b, 6);
  }

  /** Padding at most six digits to eight puts "00" in front of their padding to six. */
  lemma PadTwoMore(b: string)
    requires |b| <= 6
    ensures ZeroPad(b, 8) == "00" + ZeroPad(b, 6)
  {
    var z := Zeros(6 - |b|);
    assert ZeroPad(b, 8) == Zeros(8 - |b|) + b;
    assert ZeroPad(b, 6) == z + b;
    assert Zeros(8 - |b|) == "00" + z by {
      ZerosAppend(2, 6 - |b|);
      assert Zeros(2) == "00";
    }
    assert ("00" + z) + b == "00" + (z + b);
  }

  /** A 6-digit binary string comes back from the last six digits of the rendering of its value. */
  lemma SixBitsOfValue(w: string)
    requires IsBinary(w) && |w| == 6
    ensures BinValue(w) < 64 && ToBinary(BinValue(w))[2..] == w
  {
    assert Pow2(6) == 64;
    ToBinaryBelow64(BinValue(w));
    BinValueInjective(ToBinary(BinValue(w))[2..], w);
  }
}
