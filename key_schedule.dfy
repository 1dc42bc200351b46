/** The round-key schedule: `simpleHash` and `generateRoundKeys`, which fill
    the global `roundKeys` from the user key. */
module KeySchedule {
  import opened SBox

  const TWO_64: int := 0x1_0000_0000_0000_0000

  /** The constant `simpleHash` starts from. */
  const HASH_SEED: bv64 := 0xA5A5_A5A5_A5A5_A5A5

  /** The number of iterations of `simpleHash`. */
  const HASH_ITERATIONS: nat := 8

  /** The C `int` expression `round * 157 + i * 73` stays in range for every
      `i` in 0..7, so `simpleHash` has no signed overflow. */
  predicate NoTweakOverflow(round: int) {
    -0x8000_0000 <= round * 157 && round * 157 + 7 * 73 < 0x8000_0000
  }

  /** `round * 157 + i * 73` as the `unsigned long long` it is converted to
      for the XOR: its value modulo 2^64. */
  function Tweak(round: int, i: int): bv64 {
    ((round * 157 + i * 73) % TWO_64) as bv64
  }

  /** `(hash << 7) | (hash >> (64 - 7))`: rotation left by 7. */
  function RotateLeft7(h: bv64): (r: bv64)
    ensures r == h.RotateLeft(7)
  {
    (h << 7) | (h >> 57)
  }

  /** XOR of the rotated hash with the tweak. */
  function XorTweak(h: bv64, k: bv64): bv64 {
    h ^ k
  }

  /** `hash ^= (hash << 11) ^ (hash >> 3)`. */
  function Scramble(h: bv64): bv64 {
    h ^ ((h << 11) ^ (h >> 3))
  }

  /** One iteration of the loop of `simpleHash`. */
  function HashStep(h: bv64, round: int, i: int): bv64 {
    Scramble(XorTweak(RotateLeft7(h), Tweak(round, i)))
  }

  /** The hash after the first `n` iterations of `simpleHash(base, round)`. */
  function HashAfter(base: bv64, round: int, n: nat): bv64 {
    if n == 0 then base ^ HASH_SEED else HashStep(HashAfter(base, round, n - 1), round, n - 1)
  }

  /** The value `simpleHash(base, round)` returns. */
  function SimpleHashOf(base: bv64, round: int): bv64 {
    HashAfter(base, round, HASH_ITERATIONS)
  }

  /** `simpleHash(base, round)`: eight iterations from `base ^ 0xA5A5...`. */
  method SimpleHash(base: bv64, round: int) returns (hash: bv64)
    requires NoTweakOverflow(round)
    ensures hash == SimpleHashOf(base, round)
  {
    hash := base ^ HASH_SEED;
    for i := 0 to HASH_ITERATIONS
      invariant hash == HashAfter(base, round, i)
    {
      hash := XorTweak(RotateLeft7(hash), Tweak(round, i));
      hash := Scramble(hash);
    }
  }

  /** Byte `k` of `x`, counting from the least significant:
      `(x >> (k * 8)) & 0xFF`. */
  function ByteOf(x: bv64, k: bv8): bv8
    requires k < 8
  {
    ((x >> (k * 8)) & 0xFF) as bv8
  }

  /** The byte position `i % 8` that round `i` takes its key from. */
  function KeyByteIndex(i: int): (k: bv8)
    requires 0 <= i
    ensures k < 8 && k as int == i % 8
  {
    (i % 8) as bv8
  }

  /** The key `generateRoundKeys` stores for round `i`: byte `i % 8` of
      `simpleHash(key, i)`. */
  function RoundKey(key: bv64, i: int): bv8
    requires 0 <= i < ROUNDS
  {
    ByteOf(SimpleHashOf(key, i), KeyByteIndex(i))
  }

  /** All 32 round keys of `key`. */
  function RoundKeySchedule(key: bv64): (keys: seq<bv8>)
    ensures |keys| == ROUNDS
    ensures forall i :: 0 <= i < ROUNDS ==> keys[i] == RoundKey(key, i)
  {
    seq(ROUNDS, i requires 0 <= i < ROUNDS => RoundKey(key, i))
  }

  /** Every round of the schedule is a round `simpleHash` accepts. */
  lemma ScheduleRoundsInRange(i: int)
    requires 0 <= i < ROUNDS
    ensures NoTweakOverflow(i)
  {
  }

  /** `generateRoundKeys(key)`: writes every one of the 32 cells of
      `roundKeys`, cell `i` with byte `i % 8` of `simpleHash(key, i)`;
      nothing else is written. */
  method GenerateRoundKeys(key: bv64, roundKeys: array<bv8>)
    requires roundKeys.Length == ROUNDS
    modifies roundKeys
    ensures roundKeys[..] == RoundKeySchedule(key)
  {
    for i := 0 to ROUNDS
      invariant forall j :: 0 <= j < i ==> roundKeys[j] == RoundKey(key, j)
    {
      ScheduleRoundsInRange(i);
      var hashed := SimpleHash(key, i);
      roundKeys[i] := ByteOf(hashed, KeyByteIndex(i));
    }
  }
}
