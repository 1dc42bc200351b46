/** The counting loops of the three cryptanalysis tests on one 64-bit
    block: the avalanche bit-difference count, the differential set-bit
    positions, and the linear-test parities.  Their console output is not
    part of the model; each test returns what it prints. */
module Cryptanalysis {
  import opened Bits
  import opened SBox
  import opened BlockCipher
  import opened Codec

  /** The bit the avalanche and differential tests flip: `1ULL << 0`. */
  const FLIP: bv64 := 1

  /** The block with its lowest bit flipped: `original ^ (1ULL << 0)`. */
  function Flipped(x: bv64): (y: bv64)
    ensures y != x
  {
    x ^ FLIP
  }

  /** `enc1 ^ enc2`: the bits where two ciphertexts differ. */
  function Difference(a: bv64, b: bv64): bv64 {
    a ^ b
  }

  /** The bits of `a ^ b` are the positions where `a` and `b` differ. */
  lemma BitOfXor(a: bv64, b: bv64, i: bv8)
    requires i < 64
    ensures Bit(Difference(a, b), i) == 1 <==> Bit(a, i) != Bit(b, i)
  {
    BitOfXorWord(a, b, i);
  }

  /** Two words are equal exactly when their XOR is zero. */
  lemma XorZero(a: bv64, b: bv64)
    ensures Difference(a, b) == 0 <==> a == b
  {
    XorWordZero(a, b);
  }

  // ---------------- avalancheTest ----------------

  /** The loop of `avalancheTest`: counts the positions `i` in 0..63 where
      bit `i` of `enc1` and of `enc2` differ, which is the number of set
      bits of `enc1 ^ enc2`. */
  method BitDifferences(enc1: bv64, enc2: bv64) returns (diff: int)
    ensures diff == PopCount(Difference(enc1, enc2))
  {
    diff := 0;
    var i: bv8 := 0;
    while i < 64
      invariant i <= 64
      invariant diff == PopCountBelow(Difference(enc1, enc2), i)
    {
      BitOfXor(enc1, enc2, i);
      if Bit(enc1, i) != Bit(enc2, i) {
        diff := diff + 1;
      }
      i := i + 1;
    }
  }

  /** The ciphertexts of a block and of the block with its lowest bit
      flipped differ in at least one and at most 64 bits. */
  lemma AvalancheBounds(t: seq<CInt>, original: bv64)
    requires IsTable(t)
    ensures 1 <= PopCount(Difference(Encrypt(t, original), Encrypt(t, Flipped(original)))) <= 64
  {
    var enc1, enc2 := Encrypt(t, original), Encrypt(t, Flipped(original));
    EncryptInjective(TableRoundFunction(t), original, Flipped(original));
    XorZero(enc1, enc2);
    PopCountZero(Difference(enc1, enc2));
  }

  /** The percentage `avalancheTest` reports for `diff` changed bits:
      `diff * 100 / 64`, rounded down. */
  function Percent(diff: int): (p: int)
    requires 0 <= diff
    ensures 1 <= diff <= 64 ==> 1 <= p <= 100
    ensures p * 64 <= diff * 100 < (p + 1) * 64
  {
    diff * 100 / 64
  }

  /** `avalancheTest(input)`: the number of output bits that change when
      the lowest input bit is flipped, and the percentage it reports,
      `diff * 100 / 64` with C's integer division. */
  method AvalancheTest(sboxes: array<CInt>, input: seq<bv8>) returns (diff: int, percent: int)
    requires sboxes.Length == TABLE_CELLS && HasNul(input)
    ensures var original := Pack(Content(input));
            diff == PopCount(Difference(Encrypt(sboxes[..], original), Encrypt(sboxes[..], Flipped(original))))
    ensures 1 <= diff <= 64
    ensures percent == Percent(diff) && 1 <= percent <= 100
  {
    var original := StringTo64Bit(input);
    var flipped := Flipped(original);
    var enc1 := FeistelEncrypt(sboxes, original);
    var enc2 := FeistelEncrypt(sboxes, flipped);
    diff := BitDifferences(enc1, enc2);
    AvalancheBounds(sboxes[..], original);
    percent := Percent(diff);
  }

  // ---------------- differentialTest ----------------

  /** `positions` holds exactly the set bits of `diff` below `n`. */
  ghost predicate HoldsSetBitsBelow(diff: bv64, n: bv8, positions: seq<bv8>)
    requires n <= 64
  {
    forall k: bv8 :: k in positions <==> k < n && Bit(diff, k) == 1
  }

  /** `positions` is strictly ascending. */
  predicate Ascending(positions: seq<bv8>) {
    forall a, b :: 0 <= a < b < |positions| ==> positions[a] < positions[b]
  }

  /** Below `i + 1` means below `i` or at `i`. */
  lemma BelowNext(k: bv8, i: bv8)
    requires i < 64
    ensures k < i + 1 <==> k < i || k == i
  {
  }

  /** One iteration of the differential loop keeps `HoldsSetBitsBelow`. */
  lemma HoldsSetBitsStep(diff: bv64, i: bv8, positions: seq<bv8>)
    requires i < 64 && HoldsSetBitsBelow(diff, i, positions)
    ensures HoldsSetBitsBelow(diff, i + 1, if Bit(diff, i) == 1 then positions + [i] else positions)
  {
    var next := if Bit(diff, i) == 1 then positions + [i] else positions;
    forall k: bv8
      ensures k in next <==> k < i + 1 && Bit(diff, k) == 1
    {
      BelowNext(k, i);
    }
  }

  /** One iteration of the differential loop keeps the list ascending. */
  lemma AscendingStep(diff: bv64, i: bv8, positions: seq<bv8>)
    requires i < 64 && HoldsSetBitsBelow(diff, i, positions) && Ascending(positions)
    ensures Ascending(if Bit(diff, i) == 1 then positions + [i] else positions)
  {
    if Bit(diff, i) == 1 {
      var next := positions + [i];
      forall a | 0 <= a < |positions|
        ensures positions[a] < i
      {
        assert positions[a] in positions;
      }
      forall a, b | 0 <= a < b < |next|
        ensures next[a] < next[b]
      {
        if b < |positions| {
          assert next[a] == positions[a] && next[b] == positions[b];
        } else {
          assert next[a] == positions[a] && next[b] == i;
        }
      }
    }
  }

  /** The loop of `differentialTest`: the positions `i` in 0..63, in
      ascending order, where bit `i` of `diff` is set. */
  method SetBitPositions(diff: bv64) returns (positions: seq<bv8>)
    ensures forall k: bv8 :: k in positions <==> k < 64 && Bit(diff, k) == 1
    ensures forall a, b :: 0 <= a < b < |positions| ==> positions[a] < positions[b]
    ensures |positions| == PopCount(diff)
  {
    positions := [];
    var i: bv8 := 0;
    while i < 64
      invariant i <= 64
      invariant HoldsSetBitsBelow(diff, i, positions) && Ascending(positions)
      invariant |positions| == PopCountBelow(diff, i)
    {
      HoldsSetBitsStep(diff, i, positions);
      AscendingStep(diff, i, positions);
      if Bit(diff, i) == 1 {
        positions := positions + [i];
      }
      i := i + 1;
    }
  }

  /** `differentialTest(input)`: the XOR difference of the ciphertexts of
      the block and of the block with its lowest bit flipped, never zero,
      and the positions of its set bits. */
  method DifferentialTest(sboxes: array<CInt>, input: seq<bv8>) returns (diff: bv64, positions: seq<bv8>)
    requires sboxes.Length == TABLE_CELLS && HasNul(input)
    ensures var original := Pack(Content(input));
            diff == Difference(Encrypt(sboxes[..], original), Encrypt(sboxes[..], Flipped(original)))
    ensures diff != 0 && 1 <= |positions| <= 64
    ensures forall k: bv8 :: k in positions <==> k < 64 && Bit(diff, k) == 1
    ensures forall a, b :: 0 <= a < b < |positions| ==> positions[a] < positions[b]
  {
    var original := StringTo64Bit(input);
    var input2 := Flipped(original);
    var enc1 := FeistelEncrypt(sboxes, original);
    var enc2 := FeistelEncrypt(sboxes, input2);
    diff := Difference(enc1, enc2);
    positions := SetBitPositions(diff);
    AvalancheBounds(sboxes[..], original);
    PopCountZero(diff);
  }

  // ---------------- linearTest ----------------

  /** The parity bit of a count: 0 for even, 1 for odd. */
  function ParityBit(n: nat): (p: bv64)
    ensures p <= 1
  {
    if n % 2 == 0 then 0 else 1
  }

  /** XOR-ing in one more bit steps the parity of the count. */
  lemma ParityStep(n: nat, b: bv64)
    requires b <= 1
    ensures ParityBit(n) ^ b == ParityBit(n + if b == 1 then 1 else 0)
  {
  }

  /** The loop of `linearTest`: `inputXOR ^= (original >> i) & 1` and
      `outputXOR ^= (enc >> i) & 1` for `i` in 0..63, which leaves the
      parities of the numbers of set bits. */
  method BitParities(original: bv64, enc: bv64) returns (inputXor: bv64, outputXor: bv64)
    ensures inputXor == ParityBit(PopCount(original))
    ensures outputXor == ParityBit(PopCount(enc))
  {
    inputXor, outputXor := 0, 0;
    var i: bv8 := 0;
    while i < 64
      invariant i <= 64
      invariant inputXor == ParityBit(PopCountBelow(original, i))
      invariant outputXor == ParityBit(PopCountBelow(enc, i))
    {
      ParityStep(PopCountBelow(original, i), Bit(original, i));
      ParityStep(PopCountBelow(enc, i), Bit(enc, i));
      inputXor := inputXor ^ Bit(original, i);
      outputXor := outputXor ^ Bit(enc, i);
      i := i + 1;
    }
  }

  /** `linearTest(input)`: the parities of the input block and of its
      ciphertext, and whether they agree ("High Correlation"). */
  method LinearTest(sboxes: array<CInt>, input: seq<bv8>) returns (inputXor: bv64, outputXor: bv64, high: bool)
    requires sboxes.Length == TABLE_CELLS && HasNul(input)
    ensures var original := Pack(Content(input));
            inputXor == ParityBit(PopCount(original)) &&
            outputXor == ParityBit(PopCount(Encrypt(sboxes[..], original)))
    ensures high <==> PopCount(Pack(Content(input))) % 2 == PopCount(Encrypt(sboxes[..], Pack(Content(input)))) % 2
  {
    var original := StringTo64Bit(input);
    var enc := FeistelEncrypt(sboxes, original);
    inputXor, outputXor := BitParities(original, enc);
    high := inputXor == outputXor;
  }
}
