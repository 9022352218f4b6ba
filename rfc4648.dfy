/**
 * The base64 encoding of section 4 of RFC 4648, written independently of
 * the bit strings `to_base64` goes through: every 3 bytes form a 24-bit
 * number whose four 6-bit digits, most significant first, index the
 * table; a final group of 1 or 2 bytes is right-padded with zero bits to
 * a whole number of 6-bit digits and the text is completed with '='.
 */
module Rfc4648 {

  import opened Arithmetic
  import opened Base64Alphabet
  import opened Bytes

  /**
   * The four characters for three bytes: the 24-bit number they form, cut
   * into four 6-bit digits, most significant first.
   */
  function Quad(b0: nat, b1: nat, b2: nat): (r: string)
    requires b0 < 256 && b1 < 256 && b2 < 256
    ensures |r| == 4 && '=' !in r
  {
    var a := GetBase64Alphabet();
    AlphabetMembers('=');
    [a[b0 / 4], a[b0 % 4 * 16 + b1 / 16], a[b1 % 16 * 4 + b2 / 64], a[b2 % 64]]
  }

  lemma ByteStringDrop(s: string, k: nat)
    requires IsByteString(s) && k <= |s|
    ensures IsByteString(s[k..])
  {
    assert forall i | 0 <= i < |s| - k :: s[k..][i] == s[k + i];
  }

  /**
   * The standard encoding of a byte string: four characters per three
   * bytes, rounded up.
   */
  function StandardBase64(s: string): (r: string)
    requires IsByteString(s)
    ensures |r| == 4 * ((|s| + 2) / 3)
    decreases |s|
  {
    var a := GetBase64Alphabet();
    if |s| == 0 then ""
    else if |s| == 1 then
      [a[Ord(s[0]) / 4], a[Ord(s[0]) % 4 * 16], '=', '=']
    else if |s| == 2 then
      [a[Ord(s[0]) / 4], a[Ord(s[0]) % 4 * 16 + Ord(s[1]) / 16], a[Ord(s[1]) % 16 * 4], '=']
    else
      var rest := s[3..];
      ByteStringDrop(s, 3);
      var r := Quad(Ord(s[0]), Ord(s[1]), Ord(s[2])) + StandardBase64(rest);
      DivStep(|rest| + 2, 3);
      r
  }

  /** The text holds '=' exactly when the length is not a multiple of 3. */
  lemma {:induction false} StandardPadding(s: string)
    requires IsByteString(s)
    ensures '=' in StandardBase64(s) <==> |s| % 3 != 0
    decreases |s|
  {
    AlphabetMembers('=');
    if |s| >= 3 {
      var rest := s[3..];
      ByteStringDrop(s, 3);
      StandardPadding(rest);
      DivUnique(|s|, 3, |rest| / 3 + 1, |rest| % 3);
      var q := Quad(Ord(s[0]), Ord(s[1]), Ord(s[2]));
      assert StandardBase64(s) == q + StandardBase64(rest);
    }
  }
}
