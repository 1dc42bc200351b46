/** Hexadecimal text of a 64-bit block: the digits `printHex` emits and the
    16-character parse loop that `main` runs on the key and on a
    ciphertext.  Characters are bytes (`bv8`); nibble positions are `bv8`
    values. */
module Hex {
  const CHAR_0: bv8 := 0x30   // '0'
  const CHAR_9: bv8 := 0x39   // '9'
  const CHAR_UPPER_A: bv8 := 0x41   // 'A'
  const CHAR_UPPER_F: bv8 := 0x46   // 'F'
  const CHAR_LOWER_A: bv8 := 0x61   // 'a'
  const CHAR_LOWER_F: bv8 := 0x66   // 'f'

  /** The number of hex digits of a block. */
  const HEX_DIGITS: int := 16

  /** A character `printHex` may emit: `0-9` or `A-F`. */
  predicate IsUpperHexDigit(c: bv8) {
    CHAR_0 <= c <= CHAR_9 || CHAR_UPPER_A <= c <= CHAR_UPPER_F
  }

  // ---------------- printHex ----------------

  /** Nibble `i` of `v`, counted from the least significant:
      `(value >> (i * 4)) & 0xF`. */
  function Nibble(v: bv64, i: bv8): (n: bv8)
    requires i < 16
    ensures n < 16
  {
    ((v >> (i * 4)) & 0xF) as bv8
  }

  /** The character for a nibble: `'0' + nibble` below 10, else
      `'A' + (nibble - 10)`. */
  function HexDigit(n: bv8): (c: bv8)
    requires n < 16
    ensures IsUpperHexDigit(c)
  {
    if n < 10 then CHAR_0 + n else CHAR_UPPER_A + (n - 10)
  }

  /** The first `m` characters `printHex(v)` emits: nibbles 15 down to
      `16 - m`. */
  function HexPrefix(v: bv64, m: bv8): (text: seq<bv8>)
    requires m <= 16
    ensures |text| == m as int
  {
    if m == 0 then [] else HexPrefix(v, m - 1) + [HexDigit(Nibble(v, 16 - m))]
  }

  /** The sixteen characters of `printHex(v)`. */
  function HexText(v: bv64): (text: seq<bv8>)
    ensures |text| == HEX_DIGITS
  {
    HexPrefix(v, 16)
  }

  /** Every character of `printHex`'s output is one of `0-9A-F`. */
  lemma {:induction false} HexPrefixDigits(v: bv64, m: bv8)
    requires m <= 16
    ensures forall j :: 0 <= j < m as int ==> IsUpperHexDigit(HexPrefix(v, m)[j])
  {
    if m > 0 {
      HexPrefixDigits(v, m - 1);
      assert forall j :: 0 <= j < (m - 1) as int ==> HexPrefix(v, m)[j] == HexPrefix(v, m - 1)[j];
    }
  }

  /** Character `j` of the first `m` is the digit of nibble `15 - j`. */
  lemma {:induction false} HexPrefixAt(v: bv64, m: bv8, j: bv8)
    requires j < m <= 16
    ensures HexPrefix(v, m)[j as int] == HexDigit(Nibble(v, 15 - j))
  {
    if j < m - 1 {
      HexPrefixAt(v, m - 1, j);
    }
  }

  /** `printHex` writes the most significant nibble first: character `j`
      of its text is the digit of nibble `15 - j`. */
  lemma HexTextAt(v: bv64, j: bv8)
    requires j < 16
    ensures HexText(v)[j as int] == HexDigit(Nibble(v, 15 - j))
  {
    HexPrefixAt(v, 16, j);
  }

  /** `printHex(value)` as the text it writes: for `i` from 15 down to 0
      the digit of nibble `i`. */
  method PrintHex(value: bv64) returns (text: seq<bv8>)
    ensures text == HexText(value)
    ensures |text| == HEX_DIGITS && forall j :: 0 <= j < |text| ==> IsUpperHexDigit(text[j])
  {
    text := [];
    var i: bv8 := 16;
    while i > 0
      invariant i <= 16
      invariant text == HexPrefix(value, 16 - i)
    {
      i := i - 1;
      var nibble := Nibble(value, i);
      text := text + [HexDigit(nibble)];
    }
    HexPrefixDigits(value, 16);
  }

  // ---------------- The parse loop of main ----------------

  /** What the parse loop ORs in for the character `c`: its digit value for
      `0-9`, `A-F` and `a-f`, and 0 for any other character, which is not
      rejected. */
  function DigitValue(c: bv8): (d: bv8)
    ensures d < 16
    ensures !(CHAR_0 <= c <= CHAR_9 || CHAR_UPPER_A <= c <= CHAR_UPPER_F || CHAR_LOWER_A <= c <= CHAR_LOWER_F) ==> d == 0
  {
    if CHAR_0 <= c <= CHAR_9 then c - CHAR_0
    else if CHAR_UPPER_A <= c <= CHAR_UPPER_F then c - CHAR_UPPER_A + 10
    else if CHAR_LOWER_A <= c <= CHAR_LOWER_F then c - CHAR_LOWER_A + 10
    else 0
  }

  /** Upper and lower case letters are read alike. */
  lemma DigitValueIgnoresCase(c: bv8)
    requires CHAR_UPPER_A <= c <= CHAR_UPPER_F
    ensures DigitValue(c + (CHAR_LOWER_A - CHAR_UPPER_A)) == DigitValue(c)
  {
  }

  /** The digit `printHex` emits for a nibble is read back as that nibble. */
  lemma DigitValueOfHexDigit(n: bv8)
    requires n < 16
    ensures DigitValue(HexDigit(n)) == n
  {
  }

  /** One iteration of the parse loop: `data <<= 4; data |= digit;`. */
  function ShiftIn(data: bv64, d: bv8): bv64 {
    (data << 4) | (d as bv64)
  }

  /** The value the parse loop builds from the characters `s`. */
  function ParseDigits(s: seq<bv8>): bv64 {
    if |s| == 0 then 0 else ShiftIn(ParseDigits(s[..|s| - 1]), DigitValue(s[|s| - 1]))
  }

  /** The parse loop of `main` on the first sixteen characters of `input`. */
  method ParseHex(input: seq<bv8>) returns (data: bv64)
    requires |input| >= HEX_DIGITS
    ensures data == ParseDigits(input[..HEX_DIGITS])
  {
    data := 0;
    for i := 0 to HEX_DIGITS
      invariant data == ParseDigits(input[..i])
    {
      var c := input[i];
      assert input[..i + 1][..i] == input[..i];
      data := ShiftIn(data, DigitValue(c));
    }
  }

  /** The top `16 - n` nibbles of `v`, as a number. */
  function HighNibbles(v: bv64, n: bv8): bv64
    requires n <= 16
  {
    v >> (n * 4)
  }

  /** Shifting in nibble `i` below the nibbles above it. */
  lemma ShiftInNibble(v: bv64, i: bv8)
    requires i < 16
    ensures ShiftIn(HighNibbles(v, i + 1), Nibble(v, i)) == HighNibbles(v, i)
  {
  }

  /** Parsing the first `m` characters of `printHex(v)` gives the top `m`
      nibbles of `v`. */
  lemma {:induction false} ParseHexPrefix(v: bv64, m: bv8)
    requires m <= 16
    ensures ParseDigits(HexPrefix(v, m)) == HighNibbles(v, 16 - m)
  {
    if m > 0 {
      var text := HexPrefix(v, m);
      assert text[..|text| - 1] == HexPrefix(v, m - 1);
      ParseHexPrefix(v, m - 1);
      DigitValueOfHexDigit(Nibble(v, 16 - m));
      ShiftInNibble(v, 16 - m);
    }
  }

  /** Parsing the sixteen characters `printHex(v)` writes gives `v` back. */
  lemma ParseHexText(v: bv64)
    ensures ParseDigits(HexText(v)) == v
  {
    ParseHexPrefix(v, 16);
  }
}
