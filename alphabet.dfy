/** `_get_base64_alphabet`: the 64-character table base64 digits index into. */
module Base64Alphabet {

  import opened Strings
  import opened Numerals

  /** The 26 letters counted from `first` ('a' or 'A'). */
  function LetterRun(first: char): (r: string)
    requires first == 'a' || first == 'A'
    ensures |r| == 26 && forall i | 0 <= i < 26 :: r[i] as int == first as int + i
  {
    seq(26, i requires 0 <= i < 26 => (first as int + i) as char)
  }

  /** `string.letters` in the C locale: "a".."z" followed by "A".."Z". */
  const Letters: string := LetterRun('a') + LetterRun('A')

  /**
   * The table is the upper-case letters (indices 0-25), the lower-case
   * letters (26-51), the decimal digits (52-61), then '+' and '/'; its 64
   * characters are distinct, and '=' is not among them.
   */
  function GetBase64Alphabet(): (r: string)
    ensures |r| == 64
    ensures forall i | 0 <= i < 26 :: r[i] as int == 'A' as int + i
    ensures forall i | 26 <= i < 52 :: r[i] as int == 'a' as int + (i - 26)
    ensures forall i | 52 <= i < 62 :: r[i] as int == '0' as int + (i - 52)
    ensures r[62] == '+' && r[63] == '/'
  {
    var lower := Letters[..26];
    var upper := Letters[26..];
    var numerals := Join(seq(10, i requires 0 <= i < 10 => Decimal(i)));
    assert lower == LetterRun('a') && upper == LetterRun('A');
    NumeralsJoined();
    upper + lower + numerals + "+/"
  }

  /** `''.join(map(bytes, range(0, 10)))`: the ten decimal digits in order. */
  lemma NumeralsJoined()
    ensures var n := Join(seq(10, i requires 0 <= i < 10 => Decimal(i)));
      |n| == 10 && forall i | 0 <= i < 10 :: n[i] as int == '0' as int + i
  {
    var digits := seq(10, i requires 0 <= i < 10 => DecDigit(i));
    assert seq(10, i requires 0 <= i < 10 => Decimal(i)) == Singletons(digits);
    JoinSingletons(digits);
  }

  /** The 64 characters are pairwise distinct. */
  lemma AlphabetDistinct()
    ensures forall i, j | 0 <= i < j < 64 :: GetBase64Alphabet()[i] != GetBase64Alphabet()[j]
  {
  }

  /**
   * A character is in the table exactly when it is an ASCII letter, a
   * decimal digit, '+' or '/'; in particular the padding character '=' is not.
   */
  lemma AlphabetMembers(c: char)
    ensures c in GetBase64Alphabet()
        <==> 'A' <= c <= 'Z' || 'a' <= c <= 'z' || '0' <= c <= '9' || c == '+' || c == '/'
  {
    var a := GetBase64Alphabet();
    if 'A' <= c <= 'Z' {
      assert a[c as int - 'A' as int] == c;
    } else if 'a' <= c <= 'z' {
      assert a[c as int - 'a' as int + 26] == c;
    } else if '0' <= c <= '9' {
      assert a[c as int - '0' as int + 52] == c;
    } else if c == '+' {
      assert a[62] == c;
    } else if c == '/' {
      assert a[63] == c;
    }
  }

  /** `alphabet.index` finds every entry of the table at its own position. */
  lemma AlphabetIndex(k: nat)
    requires k < 64
    ensures IndexOf(GetBase64Alphabet(), GetBase64Alphabet()[k]) == Some(k)
  {
    AlphabetDistinct();
  }
}
