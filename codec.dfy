/** Conversions between NUL-terminated 8-character strings and 64-bit blocks:
    `stringLength`, `stringTo64Bit` and `longLongToString`, and the
    space-padding and trailing-space trimming that the menu applies around
    them.  A C `char` is a byte (`bv8`); byte positions inside a block are
    `bv8` values, so that the shifts stay in bit-vector arithmetic. */
module Codec {
  const NUL: bv8 := 0
  const SPACE: bv8 := 0x20

  /** The number of bytes in a block. */
  const BLOCK_BYTES: int := 8

  // ---------------- C strings ----------------

  /** The buffer holds a terminating NUL somewhere. */
  predicate HasNul(s: seq<bv8>) {
    exists k :: 0 <= k < |s| && s[k] == NUL
  }

  /** The position of the first NUL at or after `i`. */
  function NulFrom(s: seq<bv8>, i: nat): (n: nat)
    requires i <= |s| && exists k :: i <= k < |s| && s[k] == NUL
    ensures i <= n < |s| && s[n] == NUL
    ensures forall j :: i <= j < n ==> s[j] != NUL
    decreases |s| - i
  {
    if s[i] == NUL then i else NulFrom(s, i + 1)
  }

  /** The length of the C string in `s`: the position of its first NUL. */
  function CStringLength(s: seq<bv8>): (n: nat)
    requires HasNul(s)
    ensures n < |s| && s[n] == NUL
    ensures forall j :: 0 <= j < n ==> s[j] != NUL
  {
    NulFrom(s, 0)
  }

  /** A NUL with no NUL before it is the end of the string. */
  lemma CStringLengthUnique(s: seq<bv8>, n: int)
    requires 0 <= n < |s| && s[n] == NUL
    requires forall j :: 0 <= j < n ==> s[j] != NUL
    ensures HasNul(s) && CStringLength(s) == n
  {
    assert HasNul(s);
  }

  /** The bytes of the C string in `s`, without the NUL. */
  function Content(s: seq<bv8>): (c: seq<bv8>)
    requires HasNul(s)
    ensures forall j :: 0 <= j < |c| ==> c[j] != NUL
  {
    s[..CStringLength(s)]
  }

  /** `stringLength(str)`: count bytes up to the first NUL. */
  method StringLength(str: seq<bv8>) returns (len: int)
    requires HasNul(str)
    ensures len == CStringLength(str)
  {
    len := 0;
    while str[len] != NUL
      invariant 0 <= len <= CStringLength(str)
      decreases CStringLength(str) - len
    {
      len := len + 1;
    }
  }

  // ---------------- Bytes of a block ----------------

  /** Byte `b` moved to position `k` counted from the most significant
      byte: `(unsigned long long)b << (56 - k * 8)`. */
  function Place(b: bv8, k: bv8): bv64
    requires k < 8
  {
    (b as bv64) << (56 - 8 * k)
  }

  /** Byte `k` of `d` counted from the most significant byte:
      `(d >> (56 - k * 8)) & 0xFF`. */
  function ByteAt(d: bv64, k: bv8): bv8
    requires k < 8
  {
    ((d >> (56 - 8 * k)) & 0xFF) as bv8
  }

  /** Byte `k` after OR-ing in a byte placed at `k`. */
  lemma ByteAtOrPlaceSame(p: bv64, b: bv8, k: bv8)
    requires k < 8
    ensures ByteAt(p | Place(b, k), k) == ByteAt(p, k) | b
  {
  }

  /** Byte `k` after OR-ing in a byte placed elsewhere. */
  lemma ByteAtOrPlaceOther(p: bv64, b: bv8, j: bv8, k: bv8)
    requires j < 8 && k < 8 && j != k
    ensures ByteAt(p | Place(b, j), k) == ByteAt(p, k)
  {
  }

  /** The zero block has zero bytes. */
  lemma ByteAtZero(k: bv8)
    requires k < 8
    ensures ByteAt(0, k) == 0
  {
  }

  // ---------------- stringTo64Bit ----------------

  /** The byte `stringTo64Bit` takes for position `k` of the string `s`:
      `s[k]` within the string, 0 past its end. */
  function Field(s: seq<bv8>, k: bv8): bv8 {
    if (k as int) < |s| then s[k as int] else NUL
  }

  /** The block after the first `n` iterations of `stringTo64Bit` on the
      string `s`. */
  function PackPrefix(s: seq<bv8>, n: bv8): bv64
    requires n <= 8
  {
    if n == 0 then 0 else PackPrefix(s, n - 1) | Place(Field(s, n - 1), n - 1)
  }

  /** The block `stringTo64Bit` makes of the string `s`: its first eight
      bytes, most significant first, zero-filled. */
  function Pack(s: seq<bv8>): bv64 {
    PackPrefix(s, 8)
  }

  /** `stringTo64Bit(input)`: the bytes of the C string in `input`, at most
      eight, packed most significant first and zero-filled.  Only the
      bytes before the NUL are read. */
  method StringTo64Bit(input: seq<bv8>) returns (data: bv64)
    requires HasNul(input)
    ensures data == Pack(Content(input))
  {
    data := 0;
    var len := StringLength(input);
    var i: bv8 := 0;
    while i < 8
      invariant i <= 8
      invariant data == PackPrefix(Content(input), i)
    {
      var b := if (i as int) < len then input[i as int] else NUL;
      assert b == Field(Content(input), i);
      data := data | Place(b, i);
      i := i + 1;
    }
  }

  /** Byte `k` of the block packed so far is the field of `s` at `k` when
      `k` has been visited and zero otherwise. */
  lemma {:induction false} ByteAtPackPrefix(s: seq<bv8>, n: bv8, k: bv8)
    requires n <= 8 && k < 8
    ensures ByteAt(PackPrefix(s, n), k) == if k < n then Field(s, k) else NUL
  {
    if n == 0 {
      ByteAtZero(k);
    } else {
      var j := n - 1;
      ByteAtPackPrefix(s, j, k);
      if k == j {
        ByteAtOrPlaceSame(PackPrefix(s, j), Field(s, j), k);
        OrNul(Field(s, k));
      } else {
        ByteAtOrPlaceOther(PackPrefix(s, j), Field(s, j), j, k);
      }
    }
  }

  /** OR with the zero byte. */
  lemma OrNul(x: bv8)
    ensures NUL | x == x && x | NUL == x
  {
  }

  // ---------------- longLongToString ----------------

  /** Bytes `0 .. m-1` of `d`, most significant first. */
  function UnpackPrefix(d: bv64, m: bv8): (r: seq<bv8>)
    requires m <= 8
    ensures |r| == m as int
  {
    if m == 0 then [] else UnpackPrefix(d, m - 1) + [ByteAt(d, m - 1)]
  }

  /** The eight bytes `longLongToString` writes before its NUL. */
  function Unpack(d: bv64): (r: seq<bv8>)
    ensures |r| == BLOCK_BYTES
  {
    UnpackPrefix(d, 8)
  }

  /** `longLongToString(data, output)`: writes the eight bytes of `data`,
      most significant first, then a NUL, into `output[0..8]`; the rest
      of the buffer is not touched. */
  method LongLongToString(data: bv64, output: array<bv8>)
    requires output.Length >= 9
    modifies output
    ensures output[..8] == Unpack(data) && output[8] == NUL
    ensures forall k :: 9 <= k < output.Length ==> output[k] == old(output[k])
  {
    var i: bv8 := 0;
    while i < 8
      invariant i <= 8
      invariant output[..i as int] == UnpackPrefix(data, i)
      invariant forall k :: i as int <= k < output.Length ==> output[k] == old(output[k])
    {
      output[i as int] := ByteAt(data, i);
      assert output[..i as int + 1] == output[..i as int] + [output[i as int]];
      i := i + 1;
    }
    output[8] := NUL;
  }

  // ---------------- The round trip string -> block -> string ----------------

  /** The first `m` bytes of `s` zero-filled up to length `m`. */
  function ZeroFill(s: seq<bv8>, m: nat): (r: seq<bv8>)
    ensures |r| == m
    ensures forall j :: 0 <= j < m ==> r[j] == if j < |s| then s[j] else NUL
  {
    if m == 0 then [] else ZeroFill(s, m - 1) + [if m - 1 < |s| then s[m - 1] else NUL]
  }

  /** Unpacking the first `m` bytes of a packed string gives the string's
      first `m` bytes, zero-filled. */
  lemma {:induction false} UnpackPrefixOfPack(s: seq<bv8>, m: bv8)
    requires m <= 8
    ensures UnpackPrefix(Pack(s), m) == ZeroFill(s, m as int)
  {
    if m > 0 {
      UnpackPrefixOfPack(s, m - 1);
      ByteAtPackPrefix(s, 8, m - 1);
    }
  }

  /** `longLongToString(stringTo64Bit(s))` gives the first `min(|s|, 8)`
      bytes of `s` followed by NULs. */
  lemma UnpackPack(s: seq<bv8>)
    ensures Unpack(Pack(s)) == ZeroFill(s, BLOCK_BYTES)
  {
    UnpackPrefixOfPack(s, 8);
  }

  /** An eight-byte string comes back unchanged. */
  lemma UnpackPackEight(s: seq<bv8>)
    requires |s| == BLOCK_BYTES
    ensures Unpack(Pack(s)) == s
  {
    UnpackPack(s);
  }

  // ---------------- Padding and trimming in the menu ----------------

  /** `n` spaces. */
  function Spaces(n: nat): (r: seq<bv8>)
    ensures |r| == n && forall j :: 0 <= j < n ==> r[j] == SPACE
  {
    if n == 0 then [] else Spaces(n - 1) + [SPACE]
  }

  /** A string of at most eight bytes padded with spaces to eight. */
  function Padded(s: seq<bv8>): (r: seq<bv8>)
    requires |s| <= BLOCK_BYTES
    ensures |r| == BLOCK_BYTES
  {
    s + Spaces(BLOCK_BYTES - |s|)
  }

  /** A string that does not end in a space ends where its trailing spaces
      begin. */
  predicate NoTrailingSpace(s: seq<bv8>) {
    |s| == 0 || s[|s| - 1] != SPACE
  }

  /** `s` without its trailing spaces. */
  function TrimSpaces(s: seq<bv8>): (r: seq<bv8>)
    ensures |r| <= |s| && r == s[..|r|]
    ensures NoTrailingSpace(r)
    ensures forall j :: |r| <= j < |s| ==> s[j] == SPACE
  {
    if |s| > 0 && s[|s| - 1] == SPACE then TrimSpaces(s[..|s| - 1]) else s
  }

  /** Appending spaces does not change what trimming leaves. */
  lemma {:induction false} TrimSpacesAfterSpaces(s: seq<bv8>, n: nat)
    ensures TrimSpaces(s + Spaces(n)) == TrimSpaces(s)
  {
    if n == 0 {
      assert s + Spaces(0) == s;
    } else {
      assert (s + Spaces(n))[..|s| + n - 1] == s + Spaces(n - 1);
      TrimSpacesAfterSpaces(s, n - 1);
    }
  }

  /** Padding with spaces to eight does not change what trimming leaves,
      so trimming after padding recovers a string with no trailing space. */
  lemma TrimPadded(s: seq<bv8>)
    requires |s| <= BLOCK_BYTES
    ensures TrimSpaces(Padded(s)) == TrimSpaces(s)
    ensures NoTrailingSpace(s) ==> TrimSpaces(Padded(s)) == s
  {
    var n := BLOCK_BYTES - |s|;
    assert Padded(s) == s + Spaces(n);
    TrimSpacesAfterSpaces(s, n);
  }

  /** The encrypt option's padding (cipher.cpp:326-329): every byte from
      the end of the line `getline` read into `input` up to position 7
      becomes a space, and byte 8 becomes the terminating NUL. */
  method PadWithSpaces(input: array<bv8>)
    requires input.Length >= 9 && HasNul(input[..9])
    modifies input
    ensures |Content(old(input[..9]))| <= BLOCK_BYTES
    ensures input[..9] == Padded(Content(old(input[..9]))) + [NUL]
    ensures forall k :: 9 <= k < input.Length ==> input[k] == old(input[k])
  {
    ghost var line := Content(input[..9]);
    var n := CStringLength(input[..9]);
    CStringLengthUnique(input[..], n);
    var len := StringLength(input[..]);
    for i := len to 8
      invariant input[..len] == line
      invariant forall j :: len <= j < i ==> input[j] == SPACE
      invariant forall k :: 8 <= k < input.Length ==> input[k] == old(input[k])
    {
      input[i] := SPACE;
    }
    input[8] := NUL;
    assert input[..8] == line + Spaces(BLOCK_BYTES - len);
    assert input[..9] == input[..8] + [NUL];
  }

  /** The decrypt option's trimming (cipher.cpp:358-361): starting from
      length 8, the length steps back over trailing spaces, and a NUL is
      written where it stops.  The string left in `out` is the first eight
      bytes without their trailing spaces. */
  method TrimTrailingSpaces(out: array<bv8>) returns (dlen: int)
    requires out.Length >= 9
    modifies out
    ensures 0 <= dlen <= BLOCK_BYTES
    ensures out[..dlen] == TrimSpaces(old(out[..8])) && out[dlen] == NUL
    ensures forall k :: 0 <= k < out.Length && k != dlen ==> out[k] == old(out[k])
  {
    dlen := 8;
    while dlen > 0 && out[dlen - 1] == SPACE
      invariant 0 <= dlen <= 8
      invariant TrimSpaces(out[..8]) == TrimSpaces(out[..dlen])
    {
      assert out[..dlen - 1] == out[..dlen][..dlen - 1];
      dlen := dlen - 1;
    }
    ghost var before := out[..];
    out[dlen] := NUL;
    assert out[..dlen] == before[..dlen];
  }
}
