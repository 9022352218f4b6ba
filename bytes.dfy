/**
 * The `Bytes` container and its three encoded views. A `Bytes` value holds
 * one string (`_bytes`), fixed when it is built; raw bytes are characters
 * whose codes are 0-255, and the encoded views hold the digit characters of
 * their encoding. Every conversion builds a new value.
 */
module Bytes {

  import opened Strings
  import opened Numerals
  import Integer
  import opened Base64Alphabet

  /** The class a value belongs to: `Bytes` itself or one of its three encoded subclasses. */
  datatype View = Raw | BinaryEncoded | HexEncoded | Base64Encoded

  /** A `Bytes` object: its class and its string `_bytes`. */
  datatype Bytes = Bytes(view: View, data: string)

  /** The ways a decoder fails, each standing for the Python exception raised at that point. */
  datatype Error = MalformedBinary | InvalidHexDigit | InvalidBase64Character

  datatype Result<T> = Ok(value: T) | Err(error: Error)

  /** `ord(c)` */
  function Ord(c: char): nat
  {
    c as int
  }

  /** `chr(n)`, defined for the codes of single bytes. */
  function Chr(n: nat): (c: char)
    requires n < 256
    ensures Ord(c) == n
  {
    n as char
  }

  /** A string of raw bytes: every character code fits in 8 bits. */
  predicate IsByteString(s: string)
  {
    forall i | 0 <= i < |s| :: Ord(s[i]) < 256
  }

  /** `__init__`: a class applied to an iterable of strings keeps their concatenation. */
  function New(view: View, parts: seq<string>): Bytes
  {
    Bytes(view, Join(parts))
  }

  /** `__eq__`: two values are equal when their strings are, whatever their classes. */
  predicate Eq(a: Bytes, b: Bytes)
  {
    a.data == b.data
  }

  /** `__len__`: the number of characters, which is also the number of items `__iter__` yields. */
  function Len(b: Bytes): nat
  {
    |b.data|
  }

  /** `__iter__`: the characters in order, each as a one-character string. */
  function Elements(b: Bytes): (r: seq<string>)
    ensures |r| == Len(b)
    ensures forall i | 0 <= i < Len(b) :: r[i] == [b.data[i]]
  {
    Singletons(b.data)
  }

  /** Equal values have equal lengths, and the class plays no part in equality. */
  lemma EqProperties(a: Bytes, b: Bytes)
    ensures Eq(a, b) ==> Len(a) == Len(b)
    ensures Eq(a, b) <==> Eq(Bytes(Raw, a.data), Bytes(HexEncoded, b.data))
    ensures Eq(a, a) && (Eq(a, b) <==> Eq(b, a))
  {
  }

  /** Building a value of any class from the iteration of `b` gives a value equal to `b`. */
  lemma NewOfElements(b: Bytes, view: View)
    ensures Eq(New(view, Elements(b)), b)
    ensures New(b.view, Elements(b)) == b
  {
    JoinSingletons(b.data);
  }

  function Datas(bs: seq<Bytes>): (r: seq<string>)
    ensures |r| == |bs| && forall i | 0 <= i < |bs| :: r[i] == bs[i].data
  {
    seq(|bs|, i requires 0 <= i < |bs| => bs[i].data)
  }

  lemma JoinEachSingletons(cs: seq<string>)
    ensures forall i | 0 <= i < |cs| :: Join(Singletons(cs[i])) == cs[i]
  {
    forall i | 0 <= i < |cs| ensures Join(Singletons(cs[i])) == cs[i] {
      JoinSingletons(cs[i]);
    }
  }

  /**
   * `chunked(n)`: the pieces `more_itertools.chunked` cuts, in order, each
   * made a value of the same class as `b` from the list of characters.
   */
  function Chunked(b: Bytes, n: nat): (r: seq<Bytes>)
    requires n >= 1
    ensures |r| == |Chunks(b.data, n)|
    ensures forall i | 0 <= i < |r| :: r[i] == Bytes(b.view, Chunks(b.data, n)[i])
  {
    var cs := Chunks(b.data, n);
    JoinEachSingletons(cs);
    seq(|cs|, i requires 0 <= i < |cs| => New(b.view, Singletons(cs[i])))
  }

  /**
   * The laws of `chunked(n)`: the pieces' strings concatenate to `b`'s;
   * there are ceil(len / n) of them; none is empty; all but the last have
   * exactly `n` characters; each keeps the class of `b`.
   */
  lemma ChunkedLaws(b: Bytes, n: nat)
    requires n >= 1
    ensures var r := Chunked(b, n);
      && |r| == (Len(b) + n - 1) / n
      && Join(Datas(r)) == b.data
      && (forall i | 0 <= i < |r| :: r[i].view == b.view && 0 < Len(r[i]) <= n)
      && (forall i | 0 <= i < |r| - 1 :: Len(r[i]) == n)
  {
    var r := Chunked(b, n);
    ChunksJoin(b.data, n);
    assert Datas(r) == Chunks(b.data, n);
  }

  /** A string is binary exactly when each of its pieces is. */
  lemma ChunksBinary(s: string, n: nat)
    requires n >= 1
    ensures IsBinary(s) <==> forall k | 0 <= k < |Chunks(s, n)| :: IsBinary(Chunks(s, n)[k])
  {
    ChunksJoin(s, n);
    JoinAll(Chunks(s, n), IsBinaryDigit);
  }

  /** A string is all hex digits exactly when each of its pieces is. */
  lemma ChunksHex(s: string, n: nat)
    requires n >= 1
    ensures IsHex(s) <==> forall k | 0 <= k < |Chunks(s, n)| :: IsHex(Chunks(s, n)[k])
  {
    ChunksJoin(s, n);
    JoinAll(Chunks(s, n), IsHexDigit);
  }

  // -----------------------------------------------------------------------
  // Binary

  /** The 8-digit groups `to_binary` joins: one per character, in order. */
  function BinaryGroups(s: string): (r: seq<string>)
    ensures |r| == |s|
    ensures forall k | 0 <= k < |s| :: r[k] == Integer.ToBinary(Ord(s[k]))
  {
    seq(|s|, k requires 0 <= k < |s| => Integer.ToBinary(Ord(s[k])))
  }

  lemma BinaryGroupsFacts(s: string)
    ensures IsBinary(Join(BinaryGroups(s)))
    ensures IsByteString(s) ==> Chunks(Join(BinaryGroups(s)), 8) == BinaryGroups(s)
    ensures IsByteString(s) ==> |Join(BinaryGroups(s))| == 8 * |s|
  {
    var groups := BinaryGroups(s);
    assert IsBinary(Join(groups)) by {
      assert forall k | 0 <= k < |groups| :: IsBinary(groups[k]);
      JoinAll(groups, IsBinaryDigit);
    }
    if IsByteString(s) {
      assert forall k | 0 <= k < |groups| :: |groups[k]| == 8 by {
        forall k | 0 <= k < |groups| ensures |groups[k]| == 8 {
          assert Ord(s[k]) < 256;
        }
      }
      JoinUniformLength(groups, 8);
      ChunksOfJoin(groups, 8);
    }
  }

  /**
   * `to_binary`: each character's code rendered by `Integer.to_binary`,
   * joined. The result is all '0'/'1'; for raw bytes it has 8 digits per
   * byte and its k-th group of 8 digits is the padded binary form of the
   * k-th byte.
   */
  function ToBinary(b: Bytes): (r: Bytes)
    ensures r.view == BinaryEncoded && IsBinary(r.data)
    ensures IsByteString(b.data) ==> Len(r) == 8 * Len(b)
  {
    BinaryGroupsFacts(b.data);
    New(BinaryEncoded, BinaryGroups(b.data))
  }

  /** For raw bytes, the k-th group of 8 digits of `to_binary` is the padded binary form of the k-th byte. */
  lemma ToBinaryGroups(b: Bytes)
    requires IsByteString(b.data)
    ensures |Chunks(ToBinary(b).data, 8)| == Len(b)
    ensures forall k | 0 <= k < Len(b) :: Chunks(ToBinary(b).data, 8)[k] == Integer.ToBinary(Ord(b.data[k]))
  {
    BinaryGroupsFacts(b.data);
  }

  /** `BinaryEncodedBytes.to_integer`: the value of the whole digit string, below 2^len. */
  function ToInteger(b: Bytes): (r: nat)
    requires b.view == BinaryEncoded && Len(b) >= 1 && IsBinary(b.data)
    ensures r < Pow2(Len(b))
  {
    BinValue(b.data)
  }

  /**
   * For at most 8 digits, `Integer.to_binary` renders the value of
   * `to_integer` back as the same digits, zero-padded to 8.
   */
  lemma ToIntegerRendersBack(b: Bytes)
    requires b.view == BinaryEncoded && 1 <= Len(b) <= 8 && IsBinary(b.data)
    ensures Integer.ToBinary(ToInteger(b)) == ZeroPad(b.data, 8)
  {
    BinValueZeroPad(b.data, 8);
    Pow2Monotone(Len(b), 8);
    assert Pow2(8) == 256;
    BinValueInjective(Integer.ToBinary(ToInteger(b)), ZeroPad(b.data, 8));
  }

  /** `chr(bits.to_integer())` for one group of at most 8 digits. */
  function GroupByte(g: Bytes): (c: char)
    requires g.view == BinaryEncoded && 1 <= Len(g) <= 8 && IsBinary(g.data)
    ensures Ord(c) == BinValue(g.data) && Ord(c) < 256
  {
    Pow2Monotone(Len(g), 8);
    assert Pow2(8) == 256;
    Chr(ToInteger(g))
  }

  /** The groups of at most 8 binary digits a decoder reads, one byte each. */
  predicate BinaryPieces(groups: seq<Bytes>)
  {
    forall k | 0 <= k < |groups| ::
      groups[k].view == BinaryEncoded && 1 <= Len(groups[k]) <= 8 && IsBinary(groups[k].data)
  }

  /** The bytes the groups stand for, in order. */
  function GroupBytes(groups: seq<Bytes>): (r: string)
    requires BinaryPieces(groups)
    ensures |r| == |groups| && IsByteString(r)
    ensures forall k | 0 <= k < |groups| :: Ord(r[k]) == BinValue(groups[k].data)
  {
    seq(|groups|, k requires 0 <= k < |groups| => GroupByte(groups[k]))
  }

  /** The groups of 8 a binary string is cut into are all readable. */
  lemma BinaryChunked(b: Bytes)
    requires b.view == BinaryEncoded && IsBinary(b.data)
    ensures BinaryPieces(Chunked(b, 8))
  {
    var groups, cs := Chunked(b, 8), Chunks(b.data, 8);
    ChunksBinary(b.data, 8);
    assert IsBinary(b.data) <==>
      forall k | 0 <= k < |Chunks(b.data, 8)| :: IsBinary(Chunks(b.data, 8)[k]);
    forall k | 0 <= k < |groups|
      ensures groups[k].view == BinaryEncoded && 1 <= Len(groups[k]) <= 8 && IsBinary(groups[k].data)
    {
      assert groups[k].data == cs[k];
    }
  }

  /**
   * `BinaryEncodedBytes.to_bytes`: the digits cut into groups of 8, each
   * group's value becoming one byte; a shorter last group is read as it is.
   * It fails exactly when some character is not '0' or '1'.
   */
  function BinaryToBytes(b: Bytes): (r: Result<Bytes>)
    requires b.view == BinaryEncoded
    ensures r.Ok? <==> IsBinary(b.data)
    ensures r.Err? ==> r.error == MalformedBinary
    ensures r.Ok? ==> r.value.view == Raw && IsByteString(r.value.data)
    ensures r.Ok? ==> Len(r.value) == (Len(b) + 7) / 8
    ensures r.Ok? ==> forall k | 0 <= k < Len(r.value) ::
      IsBinary(Chunks(b.data, 8)[k]) && Ord(r.value.data[k]) == BinValue(Chunks(b.data, 8)[k])
  {
    // `int(_, 2)` raises on the first group holding a non-digit
    if IsBinary(b.data) then
      BinaryChunked(b);
      var bytes := GroupBytes(Chunked(b, 8));
      JoinSingletons(bytes);
      Ok(New(Raw, Singletons(bytes)))
    else
      ChunksBinary(b.data, 8);
      Err(MalformedBinary)
  }

  // -----------------------------------------------------------------------
  // Hexadecimal

  /** The digit groups `to_hex` joins: `hex(ord(c))[2:]` per character, in order. */
  function HexGroups(s: string): (r: seq<string>)
    ensures |r| == |s|
    ensures forall k | 0 <= k < |s| :: r[k] == Hex(Ord(s[k]))
  {
    seq(|s|, k requires 0 <= k < |s| => Hex(Ord(s[k])))
  }

  /**
   * `to_hex`: each character's code in lower-case hex without "0x",
   * joined. For raw bytes the result is two digits per byte only when every
   * byte is at least 16: a byte below 16 gives a single digit.
   */
  function ToHex(b: Bytes): (r: Bytes)
    ensures r.view == HexEncoded
    ensures forall i | 0 <= i < Len(r) :: IsLowerHexDigit(r.data[i])
    ensures IsByteString(b.data) ==> Len(b) <= Len(r) <= 2 * Len(b)
    ensures IsByteString(b.data) ==>
      (Len(r) == 2 * Len(b) <==> forall k | 0 <= k < Len(b) :: Ord(b.data[k]) >= 16)
  {
    JoinAll(HexGroups(b.data), IsLowerHexDigit);
    assert IsByteString(b.data) ==> |b.data| <= |Join(HexGroups(b.data))| <= 2 * |b.data| by {
      if IsByteString(b.data) { HexLength(b.data); }
    }
    assert IsByteString(b.data) ==> (|Join(HexGroups(b.data))| == 2 * |b.data| <==> forall k | 0 <= k < |b.data| :: Ord(b.data[k]) >= 16) by {
      if IsByteString(b.data) { HexLength(b.data); }
    }
    New(HexEncoded, HexGroups(b.data))
  }

  lemma {:induction false} HexLength(s: string)
    requires IsByteString(s)
    ensures |s| <= |Join(HexGroups(s))| <= 2 * |s|
    ensures |Join(HexGroups(s))| == 2 * |s| <==> forall k | 0 <= k < |s| :: Ord(s[k]) >= 16
  {
    if s != [] {
      var front, last := s[..|s| - 1], s[|s| - 1];
      var wide := forall k | 0 <= k < |s| :: Ord(s[k]) >= 16;
      var frontWide := forall k | 0 <= k < |front| :: Ord(front[k]) >= 16;
      assert IsByteString(front) && (wide <==> frontWide && Ord(last) >= 16) by {
        assert forall k | 0 <= k < |front| :: front[k] == s[k];
      }
      HexLength(front);
      HexGroupsSnoc(s);
      HexOfByte(Ord(last));
    }
  }

  /** The digits of a string are those of all but its last character, then those of the last. */
  lemma HexGroupsSnoc(s: string)
    requires |s| >= 1
    ensures |Join(HexGroups(s))| == |Join(HexGroups(s[..|s| - 1]))| + |Hex(Ord(s[|s| - 1]))|
  {
    var front, last := s[..|s| - 1], s[|s| - 1];
    assert HexGroups(s) == HexGroups(front) + [Hex(Ord(last))];
    JoinAppend(HexGroups(front), [Hex(Ord(last))]);
    JoinOne(Hex(Ord(last)));
  }

  /** `chr(int(b._bytes, 16))` for one piece of at most two hex digits. */
  function PairByte(p: Bytes): (c: char)
    requires p.view == HexEncoded && 1 <= Len(p) <= 2 && IsHex(p.data)
    ensures Ord(c) == HexValue(p.data) && Ord(c) < 256
  {
    HexValueOfPair(p.data);
    Chr(HexValue(p.data))
  }

  /** The pieces of at most two hex digits a decoder reads, one byte each. */
  predicate HexPieces(pairs: seq<Bytes>)
  {
    forall k | 0 <= k < |pairs| ::
      pairs[k].view == HexEncoded && 1 <= Len(pairs[k]) <= 2 && IsHex(pairs[k].data)
  }

  /** The bytes the pieces stand for, in order. */
  function PairBytes(pairs: seq<Bytes>): (r: string)
    requires HexPieces(pairs)
    ensures |r| == |pairs| && IsByteString(r)
    ensures forall k | 0 <= k < |pairs| :: Ord(r[k]) == HexValue(pairs[k].data)
  {
    seq(|pairs|, k requires 0 <= k < |pairs| => PairByte(pairs[k]))
  }

  /** The pairs a hex string is cut into are all readable. */
  lemma HexChunked(b: Bytes)
    requires b.view == HexEncoded && IsHex(b.data)
    ensures HexPieces(Chunked(b, 2))
  {
    var pairs, cs := Chunked(b, 2), Chunks(b.data, 2);
    ChunksHex(b.data, 2);
    assert IsHex(b.data) <==>
      forall k | 0 <= k < |Chunks(b.data, 2)| :: IsHex(Chunks(b.data, 2)[k]);
    forall k | 0 <= k < |pairs|
      ensures pairs[k].view == HexEncoded && 1 <= Len(pairs[k]) <= 2 && IsHex(pairs[k].data)
    {
      assert pairs[k].data == cs[k];
    }
  }

  /**
   * `HexEncodedBytes.to_bytes`: the digits cut into pairs, each pair's value
   * becoming one byte; a single digit left at the end is read on its own.
   * It fails exactly when some character is not a hex digit (either case).
   */
  function HexToBytes(b: Bytes): (r: Result<Bytes>)
    requires b.view == HexEncoded
    ensures r.Ok? <==> IsHex(b.data)
    ensures r.Err? ==> r.error == InvalidHexDigit
    ensures r.Ok? ==> r.value.view == Raw && IsByteString(r.value.data)
    ensures r.Ok? ==> Len(r.value) == (Len(b) + 1) / 2
    ensures r.Ok? ==> forall k | 0 <= k < Len(r.value) ::
      IsHex(Chunks(b.data, 2)[k]) && Ord(r.value.data[k]) == HexValue(Chunks(b.data, 2)[k])
  {
    // `int(_, 16)` raises on the first pair holding a non-digit
    if IsHex(b.data) then
      HexChunked(b);
      var bytes := PairBytes(Chunked(b, 2));
      JoinSingletons(bytes);
      Ok(New(Raw, Singletons(bytes)))
    else
      ChunksHex(b.data, 2);
      Err(InvalidHexDigit)
  }

  // -----------------------------------------------------------------------
  // Base64

  /** The table character for one group of at most 6 bits, read as a binary number. */
  function GroupChar(g: Bytes): (c: char)
    requires g.view == BinaryEncoded && 1 <= Len(g) <= 6 && IsBinary(g.data)
    ensures BinValue(g.data) < 64 && c == GetBase64Alphabet()[BinValue(g.data)]
  {
    Pow2Monotone(Len(g), 6);
    assert Pow2(6) == 64;
    GetBase64Alphabet()[ToInteger(g)]
  }

  /** The groups of at most 6 binary digits the encoder reads, one character each. */
  predicate SixBitPieces(groups: seq<Bytes>)
  {
    forall k | 0 <= k < |groups| ::
      groups[k].view == BinaryEncoded && 1 <= Len(groups[k]) <= 6 && IsBinary(groups[k].data)
  }

  /** The groups of 6 a binary string is cut into are all readable. */
  lemma SixBitChunked(b: Bytes)
    requires b.view == BinaryEncoded && IsBinary(b.data)
    ensures SixBitPieces(Chunked(b, 6))
  {
    var groups, cs := Chunked(b, 6), Chunks(b.data, 6);
    ChunksBinary(b.data, 6);
    assert IsBinary(b.data) <==>
      forall k | 0 <= k < |Chunks(b.data, 6)| :: IsBinary(Chunks(b.data, 6)[k]);
    forall k | 0 <= k < |groups|
      ensures groups[k].view == BinaryEncoded && 1 <= Len(groups[k]) <= 6 && IsBinary(groups[k].data)
    {
      assert groups[k].data == cs[k];
    }
  }

  /** The characters the groups stand for, in order. */
  function GroupChars(groups: seq<Bytes>): (r: string)
    requires SixBitPieces(groups)
    ensures |r| == |groups|
    ensures forall k | 0 <= k < |groups| ::
      BinValue(groups[k].data) < 64 && r[k] == GetBase64Alphabet()[BinValue(groups[k].data)]
  {
    var r := seq(|groups|, k requires 0 <= k < |groups| => GroupChar(groups[k]));
    assert forall k | 0 <= k < |groups| :: r[k] == GroupChar(groups[k]);
    r
  }

  /**
   * The text `to_base64` produces from the digits of `to_binary`: one
   * table character per group of 6 bits, the group read as a binary number;
   * the last group is read as it is when shorter (it is not right-padded
   * with zero bits), and no '=' is added.
   */
  function Base64Encode(bits: Bytes): (r: string)
    requires bits.view == BinaryEncoded && IsBinary(bits.data)
    ensures |r| == (Len(bits) + 5) / 6
    ensures forall i | 0 <= i < |r| ::
      var g := Chunks(bits.data, 6)[i];
      IsBinary(g) && BinValue(g) < 64 && r[i] == GetBase64Alphabet()[BinValue(g)]
  {
    SixBitChunked(bits);
    var r := GroupChars(Chunked(bits, 6));
    assert forall i | 0 <= i < |r| :: Chunked(bits, 6)[i].data == Chunks(bits.data, 6)[i];
    r
  }

  /** No character of the encoding is '='. */
  lemma Base64EncodeNoPadding(bits: Bytes)
    requires bits.view == BinaryEncoded && IsBinary(bits.data)
    ensures '=' !in Base64Encode(bits)
  {
    AlphabetMembers('=');
  }

  /**
   * The loop of `to_base64`: for each group of at most 6 bits, its value
   * indexes the table and the character found is appended to the list.
   */
  method AppendTableChars(groups: seq<Bytes>) returns (chars: seq<string>)
    requires SixBitPieces(groups)
    ensures chars == Singletons(GroupChars(groups))
  {
    var alphabet := GetBase64Alphabet();
    ghost var text := GroupChars(groups);
    chars := [];
    for k := 0 to |groups|
      invariant |chars| == k
      invariant forall j | 0 <= j < k :: chars[j] == [text[j]]
    {
      var index := ToInteger(groups[k]);
      chars := chars + [[alphabet[index]]];
    }
  }

  /** `to_base64`: the table characters of the 6-bit groups of `to_binary`, as a base64-encoded value. */
  method ToBase64(b: Bytes) returns (r: Bytes)
    ensures r.view == Base64Encoded && r.data == Base64Encode(ToBinary(b))
    ensures IsByteString(b.data) ==> Len(r) == (8 * Len(b) + 5) / 6
  {
    var bits := ToBinary(b);
    SixBitChunked(bits);
    var chars := AppendTableChars(Chunked(bits, 6));
    JoinSingletons(Base64Encode(bits));
    r := New(Base64Encoded, chars);
  }

  /** The six bits a character contributes to `Base64EncodedBytes.to_bytes`, or None outside the table. */
  function SixBits(c: char): (r: Option<string>)
    ensures r.Some? <==> c in GetBase64Alphabet()
    ensures r.Some? ==> |r.value| == 6 && IsBinary(r.value)
    ensures r.Some? ==> GetBase64Alphabet()[BinValue(r.value)] == c
  {
    match IndexOf(GetBase64Alphabet(), c)
    case None => None
    case Some(i) =>
      Integer.ToBinaryBelow64(i);
      Some(Integer.ToBinary(i)[2..])
  }

  predicate InAlphabet(s: string)
  {
    forall i | 0 <= i < |s| :: s[i] in GetBase64Alphabet()
  }

  lemma InAlphabetSnoc(s: string, c: char)
    requires InAlphabet(s) && c in GetBase64Alphabet()
    ensures InAlphabet(s + [c])
  {
    assert forall i | 0 <= i < |s| :: (s + [c])[i] == s[i];
  }

  /** The bits a base64 text stands for: six per character, in order. */
  function Base64Bits(s: string): (r: string)
    requires InAlphabet(s)
    ensures |r| == 6 * |s| && IsBinary(r)
  {
    if s == [] then []
    else
      var r := Base64Bits(s[..|s| - 1]) + SixBits(s[|s| - 1]).value;
      BinaryAppend(Base64Bits(s[..|s| - 1]), SixBits(s[|s| - 1]).value);
      r
  }

  /**
   * What `Base64EncodedBytes.to_bytes` returns: the six bits of every
   * character, decoded as binary. It fails exactly when a character is
   * not in the table; otherwise it gives ceil(6 * len / 8) bytes.
   */
  function Base64Decode(b: Bytes): (r: Result<Bytes>)
    ensures r.Ok? <==> InAlphabet(b.data)
    ensures r.Err? ==> r.error == InvalidBase64Character
    ensures r.Ok? ==> r.value.view == Raw && IsByteString(r.value.data)
    ensures r.Ok? ==> Len(r.value) == (6 * Len(b) + 7) / 8
  {
    if InAlphabet(b.data) then
      BinaryToBytes(Bytes(BinaryEncoded, Base64Bits(b.data)))
    else
      Err(InvalidBase64Character)
  }

  /** One step of the decoding loop: the character at `k` is in the table at `i`, and its six bits follow. */
  lemma Base64BitsStep(s: string, k: nat)
    requires k < |s| && InAlphabet(s[..k]) && s[k] in GetBase64Alphabet()
    ensures InAlphabet(s[..k + 1])
    ensures Base64Bits(s[..k + 1]) == Base64Bits(s[..k]) + SixBits(s[k]).value
  {
    var t := s[..k + 1];
    assert t == s[..k] + [s[k]];
    InAlphabetSnoc(s[..k], s[k]);
    assert t[..|t| - 1] == s[..k] && t[|t| - 1] == s[k];
  }

  /** The bits of a table character are those of its position. */
  lemma SixBitsOfIndex(c: char, i: nat)
    requires IndexOf(GetBase64Alphabet(), c) == Some(i)
    ensures c in GetBase64Alphabet() && SixBits(c) == Some(Integer.ToBinary(i)[2..])
  {
  }

  /** A character outside the table makes the decoding fail. */
  lemma Base64DecodeFails(b: Bytes, k: nat)
    requires k < Len(b) && b.data[k] !in GetBase64Alphabet()
    ensures Base64Decode(b) == Err(InvalidBase64Character)
  {
  }

  /** Decoding the list of all the characters' bits is decoding the text. */
  lemma Base64DecodeOfBits(b: Bytes, bits: string)
    requires InAlphabet(b.data) && bits == Base64Bits(b.data)
    ensures BinaryToBytes(New(BinaryEncoded, Singletons(bits))) == Base64Decode(b)
  {
    JoinSingletons(bits);
  }

  /** `Base64EncodedBytes.to_bytes`: loops over the characters, extending a list of bits. */
  method Base64ToBytes(b: Bytes) returns (r: Result<Bytes>)
    requires b.view == Base64Encoded
    ensures r == Base64Decode(b)
  {
    var alphabet := GetBase64Alphabet();
    var bits: seq<char> := [];
    for k := 0 to Len(b)
      invariant InAlphabet(b.data[..k]) && bits == Base64Bits(b.data[..k])
    {
      var found := IndexOf(alphabet, b.data[k]);
      if found.None? {
        Base64DecodeFails(b, k);
        return Err(InvalidBase64Character);
      }
      var sixBits := Integer.ToBinary(found.value)[2..];
      SixBitsOfIndex(b.data[k], found.value);
      Base64BitsStep(b.data, k);
      bits := bits + sixBits;
    }
    assert b.data[..Len(b)] == b.data;
    Base64DecodeOfBits(b, bits);
    r := BinaryToBytes(New(BinaryEncoded, Singletons(bits)));
  }
}
