/**
 * How the encoders and decoders of `Bytes` compose: which round trips
 * give the original bytes back, and where the two quirks of the encoders
 * (one hex digit for bytes below 16, no right padding of the last base64
 * group) break them.
 */
module RoundTrips {

  import opened Arithmetic
  import opened Strings
  import opened Numerals
  import Integer
  import opened Base64Alphabet
  import opened Bytes
  import opened Rfc4648

  // -----------------------------------------------------------------------
  // Binary

  /** Two byte strings whose characters have the same codes are equal. */
  lemma SameCodes(x: string, y: string)
    requires |x| == |y| && forall k | 0 <= k < |x| :: Ord(x[k]) == Ord(y[k])
    ensures x == y
  {
    assert forall k | 0 <= k < |x| :: x[k] == y[k] by {
      forall k | 0 <= k < |x| ensures x[k] == y[k] {
        assert x[k] as int == y[k] as int;
      }
    }
  }

  /** Decoding the binary form of raw bytes gives the bytes back, as a raw value. */
  lemma BinaryRoundTrip(b: Bytes)
    requires IsByteString(b.data)
    ensures BinaryToBytes(ToBinary(b)) == Ok(Bytes(Raw, b.data))
  {
    var bits := ToBinary(b);
    var r := BinaryToBytes(bits);
    ToBinaryGroups(b);
    DivUnique(8 * Len(b) + 7, 8, Len(b), 7);
    assert Len(r.value) == Len(b);
    forall k | 0 <= k < Len(b) ensures Ord(r.value.data[k]) == Ord(b.data[k]) {
      assert Ord(r.value.data[k]) == BinValue(Chunks(bits.data, 8)[k]);
    }
    SameCodes(r.value.data, b.data);
  }

  /**
   * The other direction: a string of binary digits whose length is a
   * multiple of 8 is the binary form of the bytes it decodes to.
   */
  lemma BinaryDecodeRoundTrip(d: Bytes)
    requires d.view == BinaryEncoded && IsBinary(d.data) && Len(d) % 8 == 0
    ensures BinaryToBytes(d).Ok? && ToBinary(BinaryToBytes(d).value).data == d.data
  {
    var x := BinaryToBytes(d).value;
    var groups := Chunks(d.data, 8);
    DivUnique(Len(d), 8, Len(d) / 8, 0);
    ChunksExact(d.data, 8, Len(d) / 8);
    RenderedGroups(x.data, groups);
    ChunksJoin(d.data, 8);
  }

  /** Characters whose codes are the values of 8-digit groups render back to those groups. */
  lemma RenderedGroups(x: string, groups: seq<string>)
    requires |x| == |groups|
    requires forall k | 0 <= k < |x| ::
      |groups[k]| == 8 && IsBinary(groups[k]) && Ord(x[k]) == BinValue(groups[k])
    ensures BinaryGroups(x) == groups
  {
    forall k | 0 <= k < |x| ensures BinaryGroups(x)[k] == groups[k] {
      Integer.ToBinaryOfGroup(groups[k]);
    }
  }

  // -----------------------------------------------------------------------
  // Hexadecimal

  /** Hex digits produced by `to_hex` are accepted by `int(_, 16)`. */
  lemma ToHexIsHex(b: Bytes)
    ensures IsHex(ToHex(b).data)
  {
  }

  /** The digit groups of a string split where the string does. */
  lemma HexGroupsSplit(s: string, i: nat)
    requires i <= |s|
    ensures Join(HexGroups(s)) == Join(HexGroups(s[..i])) + Join(HexGroups(s[i..]))
  {
    assert HexGroups(s) == HexGroups(s[..i]) + HexGroups(s[i..]);
    JoinAppend(HexGroups(s[..i]), HexGroups(s[i..]));
  }

  /**
   * The hex digits of raw bytes decode to the bytes when every byte except
   * possibly the last is at least 16: only the last group may be a single
   * digit, and `chunked(_, 2)` then leaves it on its own.
   */
  lemma HexRoundTrip(b: Bytes)
    requires IsByteString(b.data)
    requires forall k | 0 <= k < Len(b) - 1 :: Ord(b.data[k]) >= 16
    ensures HexToBytes(ToHex(b)) == Ok(Bytes(Raw, b.data))
  {
    ToHexIsHex(b);
    assert ToHex(b) == Bytes(HexEncoded, Join(HexGroups(b.data)));
    WideGroupsDecode(b.data);
  }

  /** The joined digit groups of such bytes decode to the bytes. */
  lemma WideGroupsDecode(s: string)
    requires IsByteString(s) && IsHex(Join(HexGroups(s)))
    requires forall k | 0 <= k < |s| - 1 :: Ord(s[k]) >= 16
    ensures HexToBytes(Bytes(HexEncoded, Join(HexGroups(s)))) == Ok(Bytes(Raw, s))
  {
    WideGroupsRechunk(s);
    DecodeOfPairs(Bytes(HexEncoded, Join(HexGroups(s))), s);
  }

  /** Hex text whose pieces of two denote the codes of `s`, one per character, decodes to `s`. */
  lemma DecodeOfPairs(h: Bytes, s: string)
    requires h.view == HexEncoded && IsHex(h.data)
    requires |Chunks(h.data, 2)| == |s|
    requires forall k | 0 <= k < |s| ::
      IsHex(Chunks(h.data, 2)[k]) && HexValue(Chunks(h.data, 2)[k]) == Ord(s[k])
    ensures HexToBytes(h) == Ok(Bytes(Raw, s))
  {
    var r := HexToBytes(h);
    assert |r.value.data| == |s|;
    SameCodes(r.value.data, s);
  }

  /** When only the last byte may be below 16, cutting the digits into pairs gives back each byte's digits. */
  lemma WideGroupsRechunk(s: string)
    requires IsByteString(s)
    requires forall k | 0 <= k < |s| - 1 :: Ord(s[k]) >= 16
    ensures Chunks(Join(HexGroups(s)), 2) == HexGroups(s)
  {
    var groups := HexGroups(s);
    forall k | 0 <= k < |groups| ensures 0 < |groups[k]| <= 2 && (k < |groups| - 1 ==> |groups[k]| == 2) {
      HexOfByte(Ord(s[k]));
    }
    ChunksOfJoin(groups, 2);
  }

  /** Two bytes below 16 leave the hex digits at least two short of two per byte. */
  lemma TwoShortBytes(s: string, i: nat, j: nat)
    requires IsByteString(s) && i < j < |s| && Ord(s[i]) < 16 && Ord(s[j]) < 16
    ensures |Join(HexGroups(s))| <= 2 * |s| - 2
  {
    HexGroupsSplit(s, j);
    var front, back := s[..j], s[j..];
    assert front[i] == s[i] && back[0] == s[j];
    HexLength(front);
    HexLength(back);
  }

  /**
   * When exactly the byte at `j` is below 16 and a byte follows it, the
   * `j`-th pair of digits is that byte's digit followed by the first digit
   * of the next byte, which is not '0'.
   */
  lemma ShortBytePair(s: string, j: nat)
    requires IsByteString(s) && j < |s| - 1 && Ord(s[j]) < 16
    requires forall k | 0 <= k < |s| && k != j :: Ord(s[k]) >= 16
    ensures |Chunks(Join(HexGroups(s)), 2)| > j
    ensures Chunks(Join(HexGroups(s)), 2)[j] == Hex(Ord(s[j])) + [Hex(Ord(s[j + 1]))[0]]
  {
    HexGroupsSplit(s, j);
    WholePairsBefore(s, j);
    ShortByteThenLong(s, j);
    PairAfterWhole(Join(HexGroups(s[..j])), Join(HexGroups(s[j..])), j);
  }

  /** Bytes of at least 16 before `j` give exactly two digits each. */
  lemma WholePairsBefore(s: string, j: nat)
    requires j <= |s|
    requires forall k | 0 <= k < j :: Ord(s[k]) >= 16 && Ord(s[k]) < 256
    ensures |Join(HexGroups(s[..j]))| == 2 * j
  {
    var front := s[..j];
    forall k | 0 <= k < |front| ensures 16 <= Ord(front[k]) < 256 {
      assert front[k] == s[k];
    }
    HexLength(front);
  }

  /** The digits from a short byte at `j` followed by a byte of at least 16. */
  lemma ShortByteThenLong(s: string, j: nat)
    requires IsByteString(s) && j < |s| - 1 && Ord(s[j]) < 16 && Ord(s[j + 1]) >= 16
    ensures |Join(HexGroups(s[j..]))| > 2
    ensures Join(HexGroups(s[j..]))[..2] == Hex(Ord(s[j])) + [Hex(Ord(s[j + 1]))[0]]
  {
    var rest := s[j..];
    forall k | 0 <= k < |rest| ensures Ord(rest[k]) < 256 {
      assert rest[k] == s[j + k];
    }
    assert rest[0] == s[j] && rest[1] == s[j + 1];
    DigitsAfterShortByte(rest);
  }

  /** After `j` whole pairs, the next pair is the first two of the remaining digits. */
  lemma PairAfterWhole(x: string, y: string, j: nat)
    requires |x| == 2 * j && |y| > 2
    ensures |Chunks(x + y, 2)| > j && Chunks(x + y, 2)[j] == y[..2]
  {
    ChunksExact(x, 2, j);
    ChunksAppend(x, y, 2, j);
    assert Chunks(y, 2)[0] == y[..2];
  }

  /** The digits of a string starting with a byte below 16 and then one of at least 16. */
  lemma DigitsAfterShortByte(rest: string)
    requires IsByteString(rest) && |rest| >= 2 && Ord(rest[0]) < 16 && Ord(rest[1]) >= 16
    ensures |Join(HexGroups(rest))| > 2
    ensures Join(HexGroups(rest))[..2] == Hex(Ord(rest[0])) + [Hex(Ord(rest[1]))[0]]
  {
    HexGroupsHeadTwo(rest);
    ShortThenLong(rest[0], rest[1]);
    FirstTwoOfThree(Hex(Ord(rest[0])), Hex(Ord(rest[1])), Join(HexGroups(rest[2..])));
  }

  /** The digits of a string of two or more characters: those of the first two, then the rest. */
  lemma HexGroupsHeadTwo(s: string)
    requires |s| >= 2
    ensures Join(HexGroups(s)) == Hex(Ord(s[0])) + Hex(Ord(s[1])) + Join(HexGroups(s[2..]))
  {
    var head := s[..2];
    HexGroupsSplit(s, 2);
    assert head == [s[0], s[1]];
    HexGroupsOfTwo(s[0], s[1]);
    assert Join(HexGroups(head)) == Hex(Ord(s[0])) + Hex(Ord(s[1]));
  }

  lemma ShortThenLong(x: char, y: char)
    requires Ord(x) < 16 && 16 <= Ord(y) < 256
    ensures |Hex(Ord(x))| == 1 && |Hex(Ord(y))| == 2
  {
    HexOfByte(Ord(x));
    HexOfByte(Ord(y));
  }

  lemma FirstTwoOfThree(x: string, y: string, z: string)
    requires |x| == 1 && |y| == 2
    ensures |x + y + z| > 2 && (x + y + z)[..2] == x + [y[0]]
  {
    assert (x + y + z)[0] == x[0] && (x + y + z)[1] == y[0];
  }

  /** The digits of two characters are the digits of the first, then those of the second. */
  lemma HexGroupsOfTwo(x: char, y: char)
    ensures Join(HexGroups([x, y])) == Hex(Ord(x)) + Hex(Ord(y))
  {
    assert HexGroups([x, y]) == [Hex(Ord(x)), Hex(Ord(y))];
    JoinTwo(Hex(Ord(x)), Hex(Ord(y)));
  }

  /** Appending a digit multiplies the value by 16 and adds the digit. */
  lemma HexValueSnoc(p: string, c: char)
    requires IsHex(p) && IsHexDigit(c)
    ensures IsHex(p + [c]) && HexValue(p + [c]) == 16 * HexValue(p) + HexDigitValue(c)
  {
    assert (p + [c])[..|p|] == p;
  }

  /** A hex digit other than '0' has a positive value. */
  lemma NonZeroDigit(c: char)
    requires IsLowerHexDigit(c) && c != '0'
    ensures IsHexDigit(c) && HexDigitValue(c) >= 1
  {
  }

  /** A byte below 16 anywhere but last makes the decoded bytes differ from the original ones. */
  lemma ShortByteBreaks(b: Bytes, j: nat)
    requires IsByteString(b.data) && j < Len(b) - 1 && Ord(b.data[j]) < 16
    ensures HexToBytes(ToHex(b)) != Ok(Bytes(Raw, b.data))
  {
    var s := b.data;
    var h := ToHex(b);
    ToHexIsHex(b);
    assert h.data == Join(HexGroups(s));
    var r := HexToBytes(h);
    if i :| 0 <= i < |s| && i != j && Ord(s[i]) < 16 {
      if i < j { TwoShortBytes(s, i, j); } else { TwoShortBytes(s, j, i); }
      assert Len(r.value) < |s|;
    } else {
      ShortBytePair(s, j);
      var pair := Chunks(h.data, 2)[j];
      var next := Hex(Ord(s[j + 1]));
      HexOfByte(Ord(s[j]));
      HexOfByte(Ord(s[j + 1]));
      NonZeroDigit(next[0]);
      HexValueSnoc(Hex(Ord(s[j])), next[0]);
      assert Ord(r.value.data[j]) == HexValue(pair);
    }
  }

  /**
   * The converse: if the hex digits of raw bytes decode to the bytes, then
   * every byte except possibly the last is at least 16.
   */
  lemma HexRoundTripOnlyIf(b: Bytes)
    requires IsByteString(b.data)
    requires HexToBytes(ToHex(b)) == Ok(Bytes(Raw, b.data))
    ensures forall k | 0 <= k < Len(b) - 1 :: Ord(b.data[k]) >= 16
  {
    forall k | 0 <= k < Len(b) - 1 ensures Ord(b.data[k]) >= 16 {
      if Ord(b.data[k]) < 16 {
        ShortByteBreaks(b, k);
        assert false;
      }
    }
  }

  /**
   * A concrete case of the converse: the bytes 1 and 2 give the digits
   * "12", which decode to the single byte 18.
   */
  lemma HexShortBytesMerge()
    ensures ToHex(Bytes(Raw, [1 as char, 2 as char])).data == "12"
    ensures HexToBytes(ToHex(Bytes(Raw, [1 as char, 2 as char]))) == Ok(Bytes(Raw, [18 as char]))
  {
    HexOfOneTwo(Bytes(Raw, [1 as char, 2 as char]));
    DecodeTwelve(ToHex(Bytes(Raw, [1 as char, 2 as char])));
  }

  /** Bytes 1 and 2 render as "12". */
  lemma HexOfOneTwo(b: Bytes)
    requires b.data == [1 as char, 2 as char]
    ensures ToHex(b) == Bytes(HexEncoded, "12")
  {
    HexOfByte(1);
    HexOfByte(2);
    assert HexGroups(b.data) == ["1", "2"];
    JoinAppend(["1"], ["2"]);
    JoinOne("1");
    JoinOne("2");
    assert ["1", "2"] == ["1"] + ["2"];
  }

  /** The text "12" decodes to the single byte 18. */
  lemma DecodeTwelve(h: Bytes)
    requires h == Bytes(HexEncoded, "12")
    ensures HexToBytes(h) == Ok(Bytes(Raw, [18 as char]))
  {
    assert HexValue("12") == 18 by {
      assert "12"[..1] == "1";
      assert "1"[..0] == [];
    }
    DecodePair(h);
  }

  /** Two hex digits decode to the one byte they denote. */
  lemma DecodePair(h: Bytes)
    requires h.view == HexEncoded && |h.data| == 2 && IsHex(h.data)
    ensures HexValue(h.data) < 256
    ensures HexToBytes(h) == Ok(Bytes(Raw, [HexValue(h.data) as char]))
  {
    HexValueOfPair(h.data);
    assert Chunks(h.data, 2) == [h.data];
    var r := HexToBytes(h);
    SameCodes(r.value.data, [HexValue(h.data) as char]);
  }

  // -----------------------------------------------------------------------
  // Base64

  /** The table character of a full group of six bits decodes to that group. */
  lemma SixBitsOfGroup(g: string)
    requires IsBinary(g) && |g| == 6
    ensures BinValue(g) < 64 && SixBits(GetBase64Alphabet()[BinValue(g)]) == Some(g)
  {
    Integer.SixBitsOfValue(g);
    AlphabetIndex(BinValue(g));
  }

  /**
   * A text whose characters are the table characters of full six-bit
   * groups stands for those groups, in order.
   */
  lemma {:induction false} Base64BitsOfGroups(t: string, groups: seq<string>)
    requires |t| == |groups|
    requires forall i | 0 <= i < |t| ::
      IsBinary(groups[i]) && |groups[i]| == 6 && BinValue(groups[i]) < 64 &&
      t[i] == GetBase64Alphabet()[BinValue(groups[i])]
    ensures InAlphabet(t) && Base64Bits(t) == Join(groups)
  {
    if t != [] {
      var n := |t| - 1;
      forall i | 0 <= i < n
        ensures IsBinary(groups[..n][i]) && |groups[..n][i]| == 6 && BinValue(groups[..n][i]) < 64
        ensures t[..n][i] == GetBase64Alphabet()[BinValue(groups[..n][i])]
      {
        assert groups[..n][i] == groups[i] && t[..n][i] == t[i];
      }
      Base64BitsOfGroups(t[..n], groups[..n]);
      SixBitsOfGroup(groups[n]);
    }
  }

  /** Encoding then decoding raw bytes: the decoded text is the bits of the encoding, read back. */
  lemma Base64DecodeOfEncode(b: Bytes)
    requires IsByteString(b.data) && Len(b) % 3 == 0
    ensures Base64Decode(Bytes(Base64Encoded, Base64Encode(ToBinary(b)))) == BinaryToBytes(ToBinary(b))
  {
    var bits := ToBinary(b);
    var t := Base64Encode(bits);
    var groups := Chunks(bits.data, 6);
    var m := Len(b) / 3;
    DivUnique(Len(b), 3, m, 0);
    ChunksExact(bits.data, 6, 4 * m);
    DivUnique(8 * Len(b) + 5, 6, 4 * m, 5);
    Base64BitsOfGroups(t, groups);
    ChunksJoin(bits.data, 6);
  }

  /** Raw bytes whose length is a multiple of 3 survive base64 encoding and decoding. */
  lemma Base64RoundTrip(b: Bytes)
    requires IsByteString(b.data) && Len(b) % 3 == 0
    ensures Base64Decode(Bytes(Base64Encoded, Base64Encode(ToBinary(b)))) == Ok(Bytes(Raw, b.data))
  {
    Base64DecodeOfEncode(b);
    BinaryRoundTrip(b);
  }

  /**
   * For any other length the unpadded last group makes decoding yield one
   * byte too many: 1 byte encodes to 2 characters that decode to 2 bytes,
   * 2 bytes to 3 characters that decode to 3 bytes.
   */
  lemma Base64ExtraByte(b: Bytes)
    requires IsByteString(b.data) && Len(b) % 3 != 0
    ensures var d := Base64Decode(Bytes(Base64Encoded, Base64Encode(ToBinary(b))));
      d.Ok? && Len(d.value) == Len(b) + 1
  {
    EncodeInAlphabet(ToBinary(b));
    ExtraByteLength(Len(b));
  }

  /** For a multiple of 3 bytes, the text has 4 characters per 3 bytes, as the class comment of `Base64EncodedBytes` says. */
  lemma Base64LengthWhole(b: Bytes)
    requires IsByteString(b.data) && Len(b) % 3 == 0
    ensures |Base64Encode(ToBinary(b))| * 3 == 4 * Len(b)
  {
    var x := ToBinary(b);
    assert Len(x) == 8 * Len(b);
    WholeGroupsLength(Len(b));
  }

  /** Three bytes are 24 bits, which are four groups of six. */
  lemma WholeGroupsLength(n: nat)
    requires n % 3 == 0
    ensures (8 * n + 5) / 6 * 3 == 4 * n
  {
    var m := n / 3;
    DivUnique(n, 3, m, 0);
    DivUnique(8 * n + 5, 6, 4 * m, 5);
  }

  /** Every character of an encoding is in the table. */
  lemma EncodeInAlphabet(bits: Bytes)
    requires bits.view == BinaryEncoded && IsBinary(bits.data)
    ensures InAlphabet(Base64Encode(bits))
  {
  }

  /** The length arithmetic of encoding `n` bytes to base64 and decoding the text. */
  lemma ExtraByteLength(n: nat)
    ensures n % 3 == 0 ==> (6 * ((8 * n + 5) / 6) + 7) / 8 == n
    ensures n % 3 != 0 ==> (6 * ((8 * n + 5) / 6) + 7) / 8 == n + 1
  {
    var m := n / 3;
    var t := (8 * n + 5) / 6;
    if n % 3 == 0 {
      DivUnique(n, 3, m, 0);
      DivUnique(8 * n + 5, 6, 4 * m, 5);
      DivUnique(6 * t + 7, 8, 3 * m, 7);
    } else if n % 3 == 1 {
      DivUnique(n, 3, m, 1);
      DivUnique(8 * n + 5, 6, 4 * m + 2, 1);
      DivUnique(6 * t + 7, 8, 3 * m + 2, 3);
    } else {
      DivUnique(n, 3, m, 2);
      DivUnique(8 * n + 5, 6, 4 * m + 3, 3);
      DivUnique(6 * t + 7, 8, 3 * m + 3, 1);
    }
  }

  /** The base64 round trip of raw bytes holds exactly when their length is a multiple of 3. */
  lemma Base64RoundTripIff(b: Bytes)
    requires IsByteString(b.data)
    ensures Base64Decode(Bytes(Base64Encoded, Base64Encode(ToBinary(b)))) == Ok(Bytes(Raw, b.data))
        <==> Len(b) % 3 == 0
  {
    if Len(b) % 3 == 0 {
      Base64RoundTrip(b);
    } else {
      Base64ExtraByte(b);
    }
  }

  // -----------------------------------------------------------------------
  // Base64 against section 4 of RFC 4648

  /** `c` is the table character for the binary digits `g`. */
  predicate CharFor(g: string, c: char)
  {
    IsBinary(g) && BinValue(g) < 64 && c == GetBase64Alphabet()[BinValue(g)]
  }

  /** Character-for-group correspondence extends by one group at the front. */
  lemma ConsChars(g: string, c: char, gs: seq<string>, e: string)
    requires CharFor(g, c) && |gs| == |e|
    requires forall i | 0 <= i < |e| :: CharFor(gs[i], e[i])
    ensures forall i | 0 <= i < |e| + 1 :: CharFor(([g] + gs)[i], ([c] + e)[i])
  {
    forall i | 0 <= i < |e| + 1 ensures CharFor(([g] + gs)[i], ([c] + e)[i]) {
      if i > 0 {
        assert ([g] + gs)[i] == gs[i - 1] && ([c] + e)[i] == e[i - 1];
      }
    }
  }

  /**
   * The encoding of a string of binary digits, one group of six at a time:
   * the character for each group's value, the last group read as it is.
   * This is not a further encoder: it is a recursive, proof-side copy of
   * `Bytes.Base64Encode`, equal to it by `EncodeIsBase64Encode`, kept because
   * the proofs below unfold it one group at a time.
   */
  function Encode(x: string): (r: string)
    requires IsBinary(x)
    ensures |r| == |Chunks(x, 6)|
    ensures forall i | 0 <= i < |r| :: CharFor(Chunks(x, 6)[i], r[i])
    decreases |x|
  {
    var a := GetBase64Alphabet();
    assert Pow2(6) == 64;
    if x == [] then []
    else if |x| <= 6 then
      Pow2Monotone(|x|, 6);
      [a[BinValue(x)]]
    else
      var g, rest := x[..6], x[6..];
      assert IsBinary(g) && IsBinary(rest) by {
        assert forall i | 0 <= i < |g| :: g[i] == x[i];
        assert forall i | 0 <= i < |rest| :: rest[i] == x[6 + i];
      }
      ConsChars(g, a[BinValue(g)], Chunks(rest, 6), Encode(rest));
      [a[BinValue(g)]] + Encode(rest)
  }

  /** The encoding agrees with `Base64Encode` on every string of binary digits. */
  lemma EncodeIsBase64Encode(x: string)
    requires IsBinary(x)
    ensures Base64Encode(Bytes(BinaryEncoded, x)) == Encode(x)
  {
    var e, f := Base64Encode(Bytes(BinaryEncoded, x)), Encode(x);
    assert |e| == |f|;
    assert forall i | 0 <= i < |e| :: e[i] == f[i];
  }

  /**
   * The binary digits `to_binary` gives for a string: the eight-digit groups
   * of its bytes, joined. A proof-side copy of `Bytes.ToBinary(b).data`, equal
   * to it by `BitsOfToBinary`, stated on strings so the proofs need not carry
   * the `Bytes` wrapper.
   */
  function BitsOf(s: string): (x: string)
    ensures IsBinary(x)
    ensures IsByteString(s) ==> |x| == 8 * |s|
  {
    BinaryGroupsFacts(s);
    Join(BinaryGroups(s))
  }

  /** `to_binary` gives the bits of the string. */
  lemma BitsOfToBinary(b: Bytes)
    ensures ToBinary(b).data == BitsOf(b.data)
  {
  }

  /** Encoding splits after any whole number of six-bit groups. */
  lemma EncodeAppend(x: string, y: string, k: nat)
    requires IsBinary(x) && IsBinary(y) && |x| == 6 * k
    ensures IsBinary(x + y) && Encode(x + y) == Encode(x) + Encode(y)
  {
    BinaryAppend(x, y);
    ChunksAppend(x, y, 6, k);
    var cx := Chunks(x, 6);
    forall i | 0 <= i < |Encode(x + y)| ensures Encode(x + y)[i] == (Encode(x) + Encode(y))[i] {
      if i < |cx| {
        assert Chunks(x + y, 6)[i] == cx[i];
      } else {
        assert Chunks(x + y, 6)[i] == Chunks(y, 6)[i - |cx|];
      }
    }
  }

  lemma BinaryGroupsSplit(s: string, i: nat)
    requires i <= |s|
    ensures BinaryGroups(s) == BinaryGroups(s[..i]) + BinaryGroups(s[i..])
  {
    assert forall k | 0 <= k < |s| - i :: s[i..][k] == s[i + k];
  }

  /** The bits of a string split where the string does. */
  lemma BitsSplit(s: string, i: nat)
    requires i <= |s|
    ensures BitsOf(s) == BitsOf(s[..i]) + BitsOf(s[i..])
  {
    BinaryGroupsSplit(s, i);
    JoinAppend(BinaryGroups(s[..i]), BinaryGroups(s[i..]));
  }

  /** Twenty-four binary digits are cut into four groups of six. */
  lemma FourGroups(x: string)
    requires |x| == 24
    ensures Chunks(x, 6) == [x[..6], x[6..12], x[12..18], x[18..]]
  {
    var g0, g1, g2, g3 := x[..6], x[6..12], x[12..18], x[18..];
    assert x == Join([g0, g1, g2, g3]) by {
      JoinAppend([g0, g1, g2], [g3]);
      JoinAppend([g0, g1], [g2]);
      JoinAppend([g0], [g1]);
      JoinOne(g0);
      assert [g0, g1, g2, g3] == [g0, g1, g2] + [g3];
      assert [g0, g1, g2] == [g0, g1] + [g2];
      assert [g0, g1] == [g0] + [g1];
      assert x == g0 + g1 + g2 + g3;
    }
    ChunksOfJoin([g0, g1, g2, g3], 6);
  }

  /** Appending six binary digits multiplies the value by 64 and adds theirs. */
  lemma AppendSix(x: string, g: string)
    requires IsBinary(x) && IsBinary(g) && |g| == 6
    ensures IsBinary(x + g) && BinValue(x + g) == BinValue(x) * 64 + BinValue(g)
  {
    assert Pow2(6) == 64;
    BinValueAppend(x, g);
  }

  /** Appending eight binary digits multiplies the value by 256 and adds theirs. */
  lemma AppendEight(x: string, g: string)
    requires IsBinary(x) && IsBinary(g) && |g| == 8
    ensures IsBinary(x + g) && BinValue(x + g) == BinValue(x) * 0x100 + BinValue(g)
  {
    assert Pow2(8) == 0x100;
    BinValueAppend(x, g);
  }

  /** The value of twenty-four binary digits from their four groups of six. */
  lemma FourGroupsValue(x: string)
    requires IsBinary(x) && |x| == 24
    ensures BinValue(x) == BinValue(x[..6]) * 0x4_0000 + BinValue(x[6..12]) * 0x1000
                           + BinValue(x[12..18]) * 64 + BinValue(x[18..])
  {
    var g0, g1, g2, g3 := x[..6], x[6..12], x[12..18], x[18..];
    assert x == g0 + g1 + g2 + g3;
    AppendSix(g0, g1);
    AppendSix(g0 + g1, g2);
    AppendSix(g0 + g1 + g2, g3);
  }

  /**
   * Three bytes and four 6-bit digits that form the same 24-bit number:
   * the digits are those `Quad` takes from the bytes.
   */
  lemma QuadDigits(b0: nat, b1: nat, b2: nat, v0: nat, v1: nat, v2: nat, v3: nat)
    requires b0 < 256 && b1 < 256 && b2 < 256
    requires v0 < 64 && v1 < 64 && v2 < 64 && v3 < 64
    requires b0 * 0x1_0000 + b1 * 0x100 + b2 == v0 * 0x4_0000 + v1 * 0x1000 + v2 * 64 + v3
    ensures var a := GetBase64Alphabet();
      Quad(b0, b1, b2) == [a[v0], a[v1], a[v2], a[v3]]
  {
    var n := b0 * 0x1_0000 + b1 * 0x100 + b2;
    var m := v0 * 0x1000 + v1 * 64 + v2;
    DivUnique(n, 64, m, v3);
    DivUnique(n, 64, b0 * 0x400 + b1 * 4 + b2 / 64, b2 % 64);
    var k := v0 * 64 + v1;
    DivUnique(m, 64, k, v2);
    DivUnique(m, 64, b0 * 16 + b1 / 16, b1 % 16 * 4 + b2 / 64);
    DivUnique(k, 64, v0, v1);
    DivUnique(k, 64, b0 / 4, b0 % 4 * 16 + b1 / 16);
  }

  /** Joining three parts. */
  lemma JoinThree(parts: seq<string>)
    requires |parts| == 3
    ensures Join(parts) == parts[0] + parts[1] + parts[2]
  {
    var p2, p1 := parts[..2], parts[..1];
    assert p2[..1] == p1 && p1[..0] == [];
    assert Join(p1) == parts[0];
    assert Join(p2) == parts[0] + parts[1];
  }

  /** Three groups of eight binary digits are worth the 24-bit number of their values. */
  lemma ThreeBytesValue(t0: string, t1: string, t2: string)
    requires IsBinary(t0) && IsBinary(t1) && IsBinary(t2) && |t1| == 8 && |t2| == 8
    ensures IsBinary(t0 + t1 + t2)
    ensures BinValue(t0 + t1 + t2) == BinValue(t0) * 0x1_0000 + BinValue(t1) * 0x100 + BinValue(t2)
  {
    AppendEight(t0, t1);
    AppendEight(t0 + t1, t2);
  }

  /** The bits of the first three bytes: twenty-four digits worth their 24-bit number. */
  lemma TripleBits(s: string)
    requires IsByteString(s) && |s| >= 3
    ensures IsByteString(s[..3]) && |BitsOf(s[..3])| == 24
    ensures BinValue(BitsOf(s[..3])) == Ord(s[0]) * 0x1_0000 + Ord(s[1]) * 0x100 + Ord(s[2])
  {
    var head := s[..3];
    assert head[0] == s[0] && head[1] == s[1] && head[2] == s[2];
    var g := BinaryGroups(head);
    JoinThree(g);
    ThreeBytesValue(g[0], g[1], g[2]);
  }

  /** The four characters for twenty-four binary digits: one per group of six. */
  lemma EncodeFour(x: string)
    requires IsBinary(x) && |x| == 24
    ensures var g := Chunks(x, 6);
      |g| == 4 && forall i | 0 <= i < 4 :: IsBinary(g[i]) && BinValue(g[i]) < 64
    ensures var g, a := Chunks(x, 6), GetBase64Alphabet();
      Encode(x) == [a[BinValue(g[0])], a[BinValue(g[1])], a[BinValue(g[2])], a[BinValue(g[3])]]
  {
    var e := Encode(x);
    assert |e| == 4;
  }

  /** Twenty-four binary digits encode to the four characters of their value `n`. */
  lemma EncodeOfTwentyFour(x: string, b0: nat, b1: nat, b2: nat)
    requires b0 < 256 && b1 < 256 && b2 < 256
    requires IsBinary(x) && |x| == 24 && BinValue(x) == b0 * 0x1_0000 + b1 * 0x100 + b2
    ensures Encode(x) == Quad(b0, b1, b2)
  {
    FourGroups(x);
    FourGroupsValue(x);
    EncodeFour(x);
    var g, a := Chunks(x, 6), GetBase64Alphabet();
    var v0, v1, v2, v3 := BinValue(g[0]), BinValue(g[1]), BinValue(g[2]), BinValue(g[3]);
    assert Encode(x) == [a[v0], a[v1], a[v2], a[v3]];
    QuadDigits(b0, b1, b2, v0, v1, v2, v3);
  }

  /** Twenty-four binary digits for three bytes, then more: the four characters of the bytes, then the encoding of the rest. */
  lemma EncodeAfterTwentyFour(x: string, y: string, b0: nat, b1: nat, b2: nat)
    requires b0 < 256 && b1 < 256 && b2 < 256
    requires IsBinary(x) && IsBinary(y) && |x| == 24 && BinValue(x) == b0 * 0x1_0000 + b1 * 0x100 + b2
    ensures IsBinary(x + y) && Encode(x + y) == Quad(b0, b1, b2) + Encode(y)
  {
    EncodeOfTwentyFour(x, b0, b1, b2);
    EncodeAppend(x, y, 4);
  }

  /** The encoding of the bits of a string: that of its first three bytes, then that of the rest. */
  lemma EncodeStep(s: string)
    requires IsByteString(s) && |s| >= 3
    ensures Encode(BitsOf(s)) == Quad(Ord(s[0]), Ord(s[1]), Ord(s[2])) + Encode(BitsOf(s[3..]))
  {
    TripleBits(s);
    BitsSplit(s, 3);
    EncodeAfterTwentyFour(BitsOf(s[..3]), BitsOf(s[3..]), Ord(s[0]), Ord(s[1]), Ord(s[2]));
  }

  /**
   * For whole groups of three bytes, the encoding of the bits is the standard
   * one. It is stated on the proof-side copies `Encode` and `BitsOf`;
   * `EncodeOfBits` carries it over to `Base64Encode(ToBinary(b))`, which is
   * what `to_base64` computes, and `Base64MatchesStandard` is that form.
   */
  lemma {:induction false} EncodeMatchesStandard(s: string)
    requires IsByteString(s) && |s| % 3 == 0
    ensures Encode(BitsOf(s)) == StandardBase64(s)
    decreases |s|
  {
    if |s| > 0 {
      StandardStep(s);
      DivUnique(|s|, 3, |s| / 3, 0);
      DivUnique(|s| - 3, 3, |s| / 3 - 1, 0);
      EncodeMatchesStandard(s[3..]);
      EncodeStep(s);
    }
  }

  /**
   * `to_base64` agrees with the standard encoding exactly when the length is
   * a multiple of 3; otherwise the standard text holds '=' and this one
   * does not.
   */
  lemma Base64MatchesStandard(b: Bytes)
    requires IsByteString(b.data)
    ensures Base64Encode(ToBinary(b)) == StandardBase64(b.data) <==> Len(b) % 3 == 0
  {
    if Len(b) % 3 == 0 {
      EncodeMatchesStandard(b.data);
      EncodeOfBits(b);
    } else {
      StandardPadding(b.data);
      Base64EncodeNoPadding(ToBinary(b));
    }
  }

  /** The encoding `to_base64` computes from raw bytes is that of their bits. */
  lemma EncodeOfBits(b: Bytes)
    ensures Base64Encode(ToBinary(b)) == Encode(BitsOf(b.data))
  {
    BitsOfToBinary(b);
    assert ToBinary(b) == Bytes(BinaryEncoded, BitsOf(b.data));
    EncodeIsBase64Encode(BitsOf(b.data));
  }

  /** The bits of one byte: the eight digits of its code. */
  lemma OneByteBits(s: string)
    requires IsByteString(s) && |s| == 1
    ensures |BitsOf(s)| == 8 && BinValue(BitsOf(s)) == Ord(s[0])
  {
    var g := BinaryGroups(s);
    assert g == [g[0]];
    JoinOne(g[0]);
  }

  /** Binary digits cut after six: the value is the first six digits' value shifted, plus the rest's. */
  lemma SplitAfterSix(x: string, w: nat)
    requires IsBinary(x) && |x| == 6 + w && w <= 6
    ensures Chunks(x, 6) == (if w == 0 then [x] else [x[..6], x[6..]])
    ensures BinValue(x) == BinValue(x[..6]) * Pow2(w) + BinValue(x[6..])
  {
    assert x == x[..6] + x[6..];
    BinValueAppend(x[..6], x[6..]);
    if w > 0 {
      JoinAppend([x[..6]], [x[6..]]);
      JoinOne(x[..6]);
      JoinOne(x[6..]);
      assert [x[..6], x[6..]] == [x[..6]] + [x[6..]];
      ChunksOfJoin([x[..6], x[6..]], 6);
    }
  }

  /** Eight binary digits: groups of six and two, the value they make and their two characters. */
  lemma SixTwo(x: string) returns (v0: nat, v1: nat)
    requires IsBinary(x) && |x| == 8
    ensures v0 < 64 && v1 < 4
    ensures BinValue(x) == v0 * 4 + v1
    ensures var a := GetBase64Alphabet(); Encode(x) == [a[v0], a[v1]]
  {
    SplitAfterSix(x, 2);
    assert Pow2(2) == 4 && Pow2(6) == 64;
    v0, v1 := BinValue(x[..6]), BinValue(x[6..]);
    var a := GetBase64Alphabet();
    assert Encode(x) == [a[v0], a[v1]];
  }

  /**
   * One byte `n` encodes to the characters for `n / 4` and `n % 4`: the
   * last two bits are read as they are, where the standard shifts them left
   * by four and appends "==". Stated on the proof-side copies `Encode` and
   * `BitsOf`; `EncodeOfBits` carries it over to `Base64Encode(ToBinary(b))`,
   * as `Base64OfM` does for the byte 'M'.
   */
  lemma OneByteEncoding(s: string)
    requires IsByteString(s) && |s| == 1
    ensures var a, n := GetBase64Alphabet(), Ord(s[0]);
      Encode(BitsOf(s)) == [a[n / 4], a[n % 4]]
  {
    var x := BitsOf(s);
    OneByteBits(s);
    var v0, v1 := SixTwo(x);
    DivUnique(Ord(s[0]), 4, v0, v1);
  }

  /** The standard encoding of one byte `n`: the characters for `n / 4` and `(n % 4) * 16`, then "==". */
  lemma OneByteStandard(s: string)
    requires IsByteString(s) && |s| == 1
    ensures var a, n := GetBase64Alphabet(), Ord(s[0]);
      StandardBase64(s) == [a[n / 4], a[n % 4 * 16], '=', '=']
  {
  }

  /** The standard encoding of three or more bytes: the first three's four characters, then the rest. */
  lemma StandardStep(s: string)
    requires IsByteString(s) && |s| >= 3
    ensures IsByteString(s[3..])
    ensures StandardBase64(s) == Quad(Ord(s[0]), Ord(s[1]), Ord(s[2])) + StandardBase64(s[3..])
  {
    ByteStringDrop(s, 3);
  }

  /** The standard encoding of "Man" is "TWFu". */
  lemma StandardOfMan(s: string)
    requires s == "Man"
    ensures IsByteString(s) && StandardBase64(s) == "TWFu"
  {
    var a := GetBase64Alphabet();
    assert Ord(s[0]) == 77 && Ord(s[1]) == 97 && Ord(s[2]) == 110;
    StandardStep(s);
    assert s[3..] == [];
    assert StandardBase64(s[3..]) == [];
    var e := StandardBase64(s);
    assert e == Quad(77, 97, 110) == [a[19], a[22], a[5], a[46]];
    assert a[19] == 'T' && a[22] == 'W' && a[5] == 'F' && a[46] == 'u';
    assert e[0] == 'T' && e[1] == 'W' && e[2] == 'F' && e[3] == 'u';
  }

  /** "Man" encodes to "TWFu", as in the standard. */
  lemma Base64OfMan(b: Bytes)
    requires b.data == "Man"
    ensures Base64Encode(ToBinary(b)) == "TWFu"
  {
    StandardOfMan(b.data);
    EncodeMatchesStandard(b.data);
    EncodeOfBits(b);
  }

  /**
   * "M" encodes to "TB": its last group "01" is read as the number 1,
   * where the standard reads "010000" and gives "TQ==".
   */
  lemma Base64OfM(b: Bytes)
    requires b.data == "M"
    ensures Base64Encode(ToBinary(b)) == "TB"
    ensures StandardBase64(b.data) == "TQ=="
  {
    EncodeOfBits(b);
    EncodeOfM(b.data);
    StandardOfM(b.data);
  }

  /** The bits of "M" encode to "TB". */
  lemma EncodeOfM(s: string)
    requires s == "M"
    ensures Encode(BitsOf(s)) == "TB"
  {
    assert Ord(s[0]) == 77;
    OneByteEncoding(s);
    DigitsOfM(Encode(BitsOf(s)), Ord(s[0]));
  }

  /** The two digits of byte 77 without padding bits. */
  lemma DigitsOfM(e: string, n: nat)
    requires n == 77
    requires var a := GetBase64Alphabet(); e == [a[n / 4], a[n % 4]]
    ensures e == "TB"
  {
    var a := GetBase64Alphabet();
    assert n / 4 == 19 && n % 4 == 1;
    assert a[19] == 'T' && a[1] == 'B';
    assert e[0] == 'T' && e[1] == 'B';
  }

  /** The standard encoding of "M" is "TQ==". */
  lemma StandardOfM(s: string)
    requires s == "M"
    ensures StandardBase64(s) == "TQ=="
  {
    var a := GetBase64Alphabet();
    assert Ord(s[0]) == 77;
    OneByteStandard(s);
    var e := StandardBase64(s);
    assert e == [a[19], a[16], '=', '='];
    assert a[19] == 'T' && a[16] == 'Q';
    assert e[0] == 'T' && e[1] == 'Q';
  }
}
