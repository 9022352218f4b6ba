# bytes: binary, hex and base64 views of a byte string

This project models `bytes/bytes.py`, a small Python 2 module that converts a string of
raw bytes into binary, hexadecimal or base64 text and back, and proves what those
conversions do.

- A `Bytes` object holds one string, `_bytes`. It is built by joining an iterable of
  strings and never changes afterwards.
- Three subclasses give encoded views of the same container:
  - `BinaryEncodedBytes` holds '0'/'1' digits;
  - `HexEncodedBytes` holds hex digits;
  - `Base64EncodedBytes` holds characters of the base64 table.
- Each view has a decoder, `to_bytes`.
- `Integer.to_binary` renders a number as binary digits zero-padded to width 8.
- `_get_base64_alphabet` builds the 64-character table.

The Dafny model:

- Every Python string is a `string`, and `ord` is the character's code. Raw bytes are
  strings whose codes are below 256.
- `Bytes` is a datatype holding a view tag and the string. The tag stands for the
  subclass, so `chunked` can keep the class of the value it cuts.
- A Python exception raised by `int(_, 2)`, `int(_, 16)` or `alphabet.index` becomes an
  `Err` result.
- The two loops in the source become methods proved against functions:
  - the loop of `to_base64` is `Bytes.AppendTableChars`, called by `Bytes.ToBase64`;
  - the loop of `Base64EncodedBytes.to_bytes` is `Bytes.Base64ToBytes`.
  Everything else is a function.

The model keeps two quirks of the code rather than fixing them, and states exactly where
they break the round trips:

- `to_hex` writes a byte below 16 as a single digit. Decoding the hex text gives the
  bytes back exactly when every byte but the last is at least 16.
- `to_base64` reads the last, shorter bit group as it is, with no right padding and no
  '='. Decoding the text gives the bytes back exactly when their count is a multiple
  of 3. Otherwise decoding yields one extra byte.

Module `Rfc4648` is a reference: an independent definition of the base64 encoding of
section 4 of RFC 4648. `to_base64` agrees with it exactly when the number of bytes is a
multiple of 3.

Module layout:

- `Arithmetic`: Euclidean division facts.
- `Strings`: `''.join`, `str.index` and `more_itertools.chunked`.
- `Numerals`: `bin`, `hex`, `'%d'` and `int(_, base)` as digit functions.
- `Integer`: the `Integer` class.
- `Base64Alphabet`: `_get_base64_alphabet`.
- `Bytes`: the classes and their conversions.
- `Rfc4648`: the reference encoding.
- `RoundTrips`: properties relating the conversions.

## Model

| member | source | states |
|---|---|---|
| Bytes.NewOfElements | bytes/bytes.py:12-13 | `__init__` joins the parts it is given: building any class from the iteration of a value gives a value equal to it, and the same value when the class is kept |
| Bytes.EqProperties | bytes/bytes.py:18-19 | `__eq__` compares the strings only, whatever the classes; it is reflexive and symmetric, and equal values have equal lengths |
| Bytes.Elements | bytes/bytes.py:24-28 | iteration yields as many one-character strings as `__len__` gives, the i-th being the i-th character |
| Strings.Chunks | bytes/bytes.py:30-34 | `more_itertools.chunked(s, n)` for n >= 1: ceil(len/n) pieces, none empty, each at most n long, all but the last exactly n long |
| Strings.ChunksJoin | bytes/bytes.py:30-34 | joining the pieces of `chunked` in order gives the string back |
| Bytes.Chunked | bytes/bytes.py:30-34 | `chunked(n)` gives, in order, one value per piece, each of the class of the value cut and holding that piece |
| Bytes.ChunkedLaws | bytes/bytes.py:30-34 | the pieces' strings join back to `_bytes`; there are ceil(len/n) of them; each keeps the class, is non-empty and at most n long; all but the last are exactly n long |
| Integer.Pad8 | bytes/bytes.py:117-122 | `'%08d' % int(s)` keeps the decimal value and has at least 8 digits; for digits without a leading zero it is `s` left-padded with '0' to width 8 |
| Integer.ToBinary | bytes/bytes.py:114-115 | `bin(i)[2:]` padded to width 8: all '0'/'1' with base-2 value i; exactly 8 digits iff i < 256, and for i >= 256 the unpadded binary form, longer than 8 |
| Integer.ToBinaryOfGroup | bytes/bytes.py:114-115 | every 8-digit binary string is `to_binary` of its own value |
| Integer.ToBinaryBelow64 | bytes/bytes.py:98 | below 64, `to_binary()[2:]` drops "00" and keeps six digits whose value is the number |
| Bytes.ToBinary | bytes/bytes.py:47-56 | `to_binary` is all '0'/'1', tagged as the binary view, and has 8 digits per raw byte |
| Bytes.ToBinaryGroups | bytes/bytes.py:47-56 | for raw bytes, the k-th group of 8 digits of `to_binary` is `Integer(ord(b_k)).to_binary()` |
| Bytes.ToInteger | bytes/bytes.py:74-75 | `to_integer` is the base-2 value of the digits, below 2^len |
| Bytes.ToIntegerRendersBack | bytes/bytes.py:74-75 | for 1 to 8 digits, `Integer.to_binary` of `to_integer` is the digits zero-padded to 8 |
| Bytes.BinaryToBytes | bytes/bytes.py:68-72 | binary `to_bytes` succeeds iff every character is '0' or '1', and fails with the binary-parse error otherwise; on success it gives ceil(len/8) raw bytes, the k-th being the value of the k-th group of 8 |
| RoundTrips.BinaryRoundTrip | bytes/bytes.py:47-72 | for all raw bytes, `to_binary().to_bytes()` gives the same bytes back |
| RoundTrips.BinaryDecodeRoundTrip | bytes/bytes.py:47-72 | a binary string whose length is a multiple of 8 decodes, and `to_binary` of the result is that string again |
| Numerals.Bits | bytes/bytes.py:115 | `bin(n)[2:]` is all '0'/'1' with base-2 value n, at least one digit, no leading zero unless n is 0, and at most as long as n needs (2^(len-1) <= n) |
| Numerals.HexOfByte | bytes/bytes.py:60 | `hex(n)[2:]` of a byte is one digit below 16 and two digits, high nibble first, from 16 on |
| Bytes.ToHex | bytes/bytes.py:58-61 | `to_hex` is all lower-case hex digits, tagged as the hex view |
| Bytes.HexLength | bytes/bytes.py:58-61 | the hex text of n raw bytes has between n and 2n digits, and exactly 2n iff every byte is at least 16 |
| Bytes.HexToBytes | bytes/bytes.py:82-86 | hex `to_bytes` succeeds iff every character is a hex digit of either case, and fails with the hex-parse error otherwise; on success it gives ceil(len/2) raw bytes, the k-th being the value of the k-th pair, a trailing single digit read on its own |
| RoundTrips.HexRoundTrip | bytes/bytes.py:58-86 | when every byte except possibly the last is at least 16, `to_hex().to_bytes()` gives the bytes back |
| RoundTrips.HexRoundTripOnlyIf | bytes/bytes.py:58-86 | conversely, if `to_hex().to_bytes()` gives the bytes back, then every byte except possibly the last is at least 16 |
| RoundTrips.HexShortBytesMerge | bytes/bytes.py:58-86 | the bytes 1, 2 give hex "12", which decodes to the single byte 18 |
| Base64Alphabet.GetBase64Alphabet | bytes/bytes.py:103-107 | the table has 64 characters: 'A'-'Z' at 0-25, 'a'-'z' at 26-51, '0'-'9' at 52-61, '+' at 62 and '/' at 63 |
| Base64Alphabet.AlphabetDistinct | bytes/bytes.py:103-107 | the 64 characters are pairwise distinct |
| Base64Alphabet.AlphabetMembers | bytes/bytes.py:103-107 | a character is in the table iff it is an ASCII letter, a decimal digit, '+' or '/'; so '=' is not |
| Strings.IndexOf | bytes/bytes.py:97 | `str.index` finds a position holding the character, and there is none exactly when the character is absent |
| Strings.IndexOfFirst | bytes/bytes.py:97 | the position `str.index` finds is the first occurrence |
| Base64Alphabet.AlphabetIndex | bytes/bytes.py:97 | `alphabet.index` finds every table entry at its own position |
| Bytes.Base64Encode | bytes/bytes.py:36-45 | the text has ceil(len/6) characters; the i-th is the table entry at the value of the i-th group of at most 6 bits, read as it is |
| Bytes.Base64EncodeNoPadding | bytes/bytes.py:36-45 | the text never contains '=' |
| RoundTrips.EncodeInAlphabet | bytes/bytes.py:36-45 | every character of the text is in the table |
| Bytes.AppendTableChars | bytes/bytes.py:40-43 | the loop appends, for each 6-bit group in order, the one-character string of the table entry at the group's value |
| Bytes.ToBase64 | bytes/bytes.py:36-45 | `to_base64` is a base64 view holding `Base64Encode` of `to_binary`, with ceil(8L/6) characters for L raw bytes |
| RoundTrips.Base64LengthWhole | bytes/bytes.py:89-92 | for a multiple of 3 bytes the text has 4 characters per 3 bytes, as the class comment says |
| Bytes.SixBits | bytes/bytes.py:96-99 | a character contributes bits iff it is in the table; they are 6 binary digits whose value is the character's table position |
| Bytes.Base64Decode | bytes/bytes.py:93-100 | base64 `to_bytes` succeeds iff every character is in the table, and fails with the lookup error otherwise; on success it gives ceil(6·len/8) raw bytes |
| Bytes.Base64DecodeFails | bytes/bytes.py:96-97 | a character outside the table makes decoding fail |
| Bytes.Base64ToBytes | bytes/bytes.py:93-100 | the loop that extends a bit list per character returns exactly `Base64Decode` of the text |
| RoundTrips.Base64RoundTrip | bytes/bytes.py:36-100 | raw bytes whose count is a multiple of 3 come back from `to_base64().to_bytes()` |
| RoundTrips.Base64ExtraByte | bytes/bytes.py:36-100 | for any other count, decoding succeeds but gives one byte more than was encoded |
| RoundTrips.Base64RoundTripIff | bytes/bytes.py:36-100 | the base64 round trip holds iff the number of bytes is a multiple of 3 |
| RoundTrips.EncodeMatchesStandard | bytes/bytes.py:36-56 | for whole groups of 3 bytes, the characters of the bits of `to_binary` are the standard base64 text of RFC 4648 |
| RoundTrips.Base64MatchesStandard | bytes/bytes.py:36-56 | `to_base64` equals the standard RFC 4648 encoding iff the number of bytes is a multiple of 3 |
| RoundTrips.OneByteEncoding | bytes/bytes.py:36-56 | one byte n encodes to the characters for n / 4 and n % 4; its last two bits are not shifted into place |
| RoundTrips.Base64OfMan | bytes/bytes.py:36-56 | "Man" encodes to "TWFu" |
| RoundTrips.Base64OfM | bytes/bytes.py:36-56 | "M" encodes to "TB", where the standard text is "TQ==" |

## Left out

- Laziness: `imap` and `more_itertools.chunked` return generators. They are modelled as the eager sequences they produce.
- `__repr__` only returns `_bytes`, which the model exposes as the `data` field.
- `__neq__` is misnamed, so Python 2 never uses it for `!=`. It is not modelled.
- `string.letters` depends on the locale. The table is fixed to the one the C locale gives.
- Bytes.Chunked: requires n >= 1, because the module only ever chunks by 2, 6 and 8. What `more_itertools.chunked` does for n <= 0 is not modelled.
- Bytes.ToInteger: requires at least one digit, all '0' or '1'. `int('', 2)` raises, but `chunked` never yields an empty piece; a non-digit is handled as an error by `Bytes.BinaryToBytes`.
- The digit parsers accept only plain digits. Python's `int(_, 2)` and `int(_, 16)` also accept surrounding whitespace, a sign and a "0b"/"0x" prefix followed by digits. So the model fails on pieces that Python reads: the eight-character binary piece "0b101010" (42), or the hex pieces " f" and "+f" (15). A two-character hex piece cannot hold a prefix and a digit, so the prefix matters only for binary.
- Exceptions become one `Err` value per decoder. Python's exception types and messages are not modelled.
- Hex decoding reads a trailing single digit on its own, as `int(_, 16)` does. The class comment's "2 chars per byte" is not a constraint the code enforces.
- A Python 2 `str` only holds codes below 256. The model's strings can hold larger codes, so the round-trip lemmas require every code to be below 256.
