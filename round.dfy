/** One Feistel round: the S-box based round function `feistelFunction`
    and the fixed, key-independent permutation layer with its inverse. */
module FeistelRound {
  import opened Bits
  import opened SBox

  /** The (left, right) pair of 32-bit halves threaded through the rounds. */
  datatype RoundState = RoundState(left: bv32, right: bv32)

  // ---------------- Permutation layer ----------------
  // Each of the four statements of `permutationStep` is one named step;
  // `inversePermutationStep` uses the same steps in reverse order.

  /** `left ^= (right >> 3)`: right mixed into left. */
  function MixIntoLeft(left: bv32, right: bv32): (l: bv32)
    ensures l ^ (right >> 3) == left
  {
    left ^ (right >> 3)
  }

  /** `right ^= (left << 5)`: left mixed into right. */
  function MixIntoRight(left: bv32, right: bv32): (r: bv32)
    ensures r ^ (left << 5) == right
  {
    right ^ (left << 5)
  }

  /** `(x >> 16) | (x << 16)`, and equally `(x << 16) | (x >> 16)`: the two
      16-bit halves exchanged. */
  function SwapHalves(x: bv32): (y: bv32)
    ensures y == (x << 16) | (x >> 16)
  {
    (x >> 16) | (x << 16)
  }

  /** `(x >> 8) | (x << 24)`: rotation right by 8. */
  function RotateRight8(x: bv32): (y: bv32)
    ensures y == x.RotateRight(8)
  {
    (x >> 8) | (x << 24)
  }

  /** `(x >> 24) | (x << 8)`: rotation left by 8. */
  function RotateLeft8(x: bv32): (y: bv32)
    ensures y == x.RotateLeft(8)
  {
    (x >> 24) | (x << 8)
  }

  /** `permutationStep` on a state. */
  function Permute(s: RoundState): RoundState {
    var left := MixIntoLeft(s.left, s.right);
    var right := MixIntoRight(left, s.right);
    RoundState(SwapHalves(left), RotateRight8(right))
  }

  /** `inversePermutationStep` on a state. */
  function InversePermute(s: RoundState): RoundState {
    var right := RotateLeft8(s.right);
    var left := SwapHalves(s.left);
    var right' := MixIntoRight(left, right);
    RoundState(MixIntoLeft(left, right'), right')
  }

  /** Each XOR step is an involution for a fixed other half. */
  lemma MixTwice(a: bv32, b: bv32)
    ensures MixIntoLeft(MixIntoLeft(a, b), b) == a
    ensures MixIntoRight(a, MixIntoRight(a, b)) == b
  {
  }

  /** Swapping halves twice, and rotating right then left by 8 (or left
      then right), give back the word. */
  lemma RotationsCancel(x: bv32)
    ensures SwapHalves(SwapHalves(x)) == x
    ensures RotateRight8(RotateLeft8(x)) == x
    ensures RotateLeft8(RotateRight8(x)) == x
  {
  }

  /** `inversePermutationStep` exactly undoes `permutationStep`. */
  lemma InversePermuteUndoesPermute(s: RoundState)
    ensures InversePermute(Permute(s)) == s
  {
    var left := MixIntoLeft(s.left, s.right);
    var right := MixIntoRight(left, s.right);
    RotationsCancel(left);
    RotationsCancel(right);
    MixTwice(left, s.right);
    MixTwice(s.left, s.right);
  }

  /** ... and `permutationStep` undoes `inversePermutationStep`: the layer
      is a bijection on pairs of words. */
  lemma PermuteUndoesInversePermute(s: RoundState)
    ensures Permute(InversePermute(s)) == s
  {
    var right := RotateLeft8(s.right);
    var left := SwapHalves(s.left);
    var right' := MixIntoRight(left, right);
    MixTwice(left, right');
    MixTwice(left, right);
    RotationsCancel(s.left);
    RotationsCancel(s.right);
  }

  /** The layer is injective: different states stay different. */
  lemma PermuteInjective(s1: RoundState, s2: RoundState)
    ensures Permute(s1) == Permute(s2) ==> s1 == s2
  {
    InversePermuteUndoesPermute(s1);
    InversePermuteUndoesPermute(s2);
  }

  /** `permutationStep` on its two reference parameters, statement by
      statement. */
  method PermutationStep(left: bv32, right: bv32) returns (left': bv32, right': bv32)
    ensures RoundState(left', right') == Permute(RoundState(left, right))
  {
    left', right' := left, right;
    left' := MixIntoLeft(left', right');
    right' := MixIntoRight(left', right');
    left' := SwapHalves(left');
    right' := RotateRight8(right');
  }

  /** `inversePermutationStep` on its two reference parameters. */
  method InversePermutationStep(left: bv32, right: bv32) returns (left': bv32, right': bv32)
    ensures RoundState(left', right') == InversePermute(RoundState(left, right))
  {
    left', right' := left, right;
    right' := RotateLeft8(right');
    left' := SwapHalves(left');
    right' := MixIntoRight(left', right');
    left' := MixIntoLeft(left', right');
  }

  // ---------------- Round function ----------------

  /** Byte `k` (0 = most significant) of a half, as `feistelFunction`
      extracts its `a`, `b`, `c`, `d`. */
  function ByteOfHalf(half: bv32, k: bv8): bv8
    requires k < 4
  {
    ((half >> (24 - 8 * k)) & 0xFF) as bv8
  }

  /** `sboxes[round][x]` for the byte `x`, converted to `unsigned int`. */
  function Lookup(row: seq<CInt>, x: bv8): bv32
    requires |row| == ROW
  {
    ToU32(row[x as int])
  }

  /** The first four lines of `feistelFunction`: XOR of the lookups of the
      four bytes of `half` in one row.  An all-zero row gives 0. */
  function Lookups(row: seq<CInt>, half: bv32): (r: bv32)
    requires |row| == ROW
    ensures ZeroRow(row) ==> r == 0
  {
    var x0, x1, x2, x3 := ByteOfHalf(half, 0), ByteOfHalf(half, 1), ByteOfHalf(half, 2), ByteOfHalf(half, 3);
    ZeroRowLookup(row, x0);
    ZeroRowLookup(row, x1);
    ZeroRowLookup(row, x2);
    ZeroRowLookup(row, x3);
    Lookup(row, x0) ^ Lookup(row, x1) ^ Lookup(row, x2) ^ Lookup(row, x3)
  }

  /** A lookup in an all-zero row gives 0. */
  lemma ZeroRowLookup(row: seq<CInt>, x: bv8)
    requires |row| == ROW
    ensures ZeroRow(row) ==> Lookup(row, x) == 0
  {
    if ZeroRow(row) {
      assert row[x as int] == 0;
    }
  }

  /** `(res << 7) | (res >> (32 - 7))`: rotation left by 7. */
  function RotateLeft7(x: bv32): (y: bv32)
    ensures y == x.RotateLeft(7)
  {
    (x << 7) | (x >> 25)
  }

  /** `res ^= (res >> 16)`: the high half folded into the low half.  The
      high half is unchanged. */
  function FoldHighHalf(x: bv32): (y: bv32)
    ensures y >> 16 == x >> 16
  {
    x ^ (x >> 16)
  }

  /** `(res << 3) | (res >> (32 - 3))`: rotation left by 3. */
  function RotateLeft3(x: bv32): (y: bv32)
    ensures y == x.RotateLeft(3)
  {
    (x << 3) | (x >> 29)
  }

  /** The last three lines of `feistelFunction`.  Zero stays zero. */
  function Diffuse(res: bv32): (r: bv32)
    ensures res == 0 ==> r == 0
  {
    RotateLeft3(FoldHighHalf(RotateLeft7(res)))
  }

  /** `feistelFunction(halfBlock, round)` reading the table `t`: the lookups
      of the four bytes of `half` in row `round`, then the mixing.  Its
      output determines the XOR of the four lookups. */
  function FeistelFunction(t: seq<CInt>, half: bv32, round: int): (r: bv32)
    requires IsTable(t) && 0 <= round < ROUNDS
    ensures UndoDiffuse(r) == Lookups(Row(t, round), half)
  {
    var res := Lookups(Row(t, round), half);
    DiffuseInvertible(res);
    Diffuse(res)
  }

  // ---------------- The mixing step run backwards ----------------

  /** Rotation right by 3, undoing `RotateLeft3`. */
  function RotateRight3(x: bv32): (y: bv32)
    ensures y == x.RotateRight(3)
  {
    (x >> 3) | (x << 29)
  }

  /** Rotation right by 7, undoing `RotateLeft7`. */
  function RotateRight7(x: bv32): (y: bv32)
    ensures y == x.RotateRight(7)
  {
    (x >> 7) | (x << 25)
  }

  /** The last three lines of `feistelFunction` run backwards: rotate
      right by 3, fold the high half in again, rotate right by 7. */
  function UndoDiffuse(y: bv32): bv32 {
    RotateRight7(FoldHighHalf(RotateRight3(y)))
  }

  /** Two words with the same high and the same low 16 bits are equal. */
  lemma HalvesEqual(a: bv32, b: bv32)
    requires a & 0xFFFF == b & 0xFFFF && a >> 16 == b >> 16
    ensures a == b
  {
  }

  /** Folding twice gives the low half back ... */
  lemma FoldTwiceLow(x: bv32)
    ensures FoldHighHalf(FoldHighHalf(x)) & 0xFFFF == x & 0xFFFF
  {
  }

  /** ... and the high half. */
  lemma FoldTwiceHigh(x: bv32)
    ensures FoldHighHalf(FoldHighHalf(x)) >> 16 == x >> 16
  {
  }

  /** The fold is its own inverse. */
  lemma FoldTwice(x: bv32)
    ensures FoldHighHalf(FoldHighHalf(x)) == x
  {
    FoldTwiceLow(x);
    FoldTwiceHigh(x);
    HalvesEqual(FoldHighHalf(FoldHighHalf(x)), x);
  }

  /** The two rotations by 3 cancel. */
  lemma RotateLeft3Back(x: bv32)
    ensures RotateRight3(RotateLeft3(x)) == x
  {
  }

  /** The two rotations by 7 cancel. */
  lemma RotateLeft7Back(x: bv32)
    ensures RotateRight7(RotateLeft7(x)) == x
  {
  }

  /** The mixing step loses nothing: `UndoDiffuse` recovers its input. */
  lemma DiffuseInvertible(res: bv32)
    ensures UndoDiffuse(Diffuse(res)) == res
  {
    var a := RotateLeft7(res);
    RotateLeft3Back(FoldHighHalf(a));
    FoldTwice(a);
    RotateLeft7Back(res);
  }

  /** Different XORs of lookups give different round-function outputs. */
  lemma DiffuseInjective(res1: bv32, res2: bv32)
    ensures Diffuse(res1) == Diffuse(res2) ==> res1 == res2
  {
    DiffuseInvertible(res1);
    DiffuseInvertible(res2);
  }

  /** All entries of a row lie in 0..255. */
  predicate RowOfBytes(row: seq<CInt>) {
    forall i :: 0 <= i < |row| ==> 0 <= row[i] < 256
  }

  /** All entries of a row are zero. */
  predicate ZeroRow(row: seq<CInt>) {
    forall i :: 0 <= i < |row| ==> row[i] == 0
  }

  /** The round function reads only `halfBlock` and row `round` of the table. */
  lemma FeistelFunctionReadsOneRow(t1: seq<CInt>, t2: seq<CInt>, half: bv32, round: int)
    requires IsTable(t1) && IsTable(t2) && 0 <= round < ROUNDS
    requires forall i :: 0 <= i < ROW ==> CellAt(t1, round, i) == CellAt(t2, round, i)
    ensures FeistelFunction(t1, half, round) == FeistelFunction(t2, half, round)
  {
    assert Row(t1, round) == Row(t2, round);
  }

  /** A byte-sized `int` converts to a byte-sized `unsigned int`. */
  lemma SmallToU32(x: int)
    requires 0 <= x < 256
    ensures ToU32(x) < 256
  {
    assert x % TWO_32 == x;
    assert ToU32(x) == x as bv32;
    SmallToBv32(x);
  }

  /** A byte-sized `int` is a byte-sized 32-bit word. */
  lemma SmallToBv32(x: int)
    requires 0 <= x < 256
    ensures (x as bv32) < 256
  {
  }

  /** The XOR of byte-sized words is byte-sized. */
  lemma XorOfBytes(a: bv32, b: bv32, c: bv32, d: bv32)
    requires a < 256 && b < 256 && c < 256 && d < 256
    ensures a ^ b ^ c ^ d < 256
  {
  }

  /** A row of generated inverses has byte-sized entries. */
  lemma GeneratedRowOfBytes(t: seq<CInt>, round: int)
    requires IsTable(t) && 0 <= round < ROUNDS && GeneratedRow(t, round)
    ensures RowOfBytes(Row(t, round))
  {
  }

  /** A lookup in a row of byte-sized entries is byte-sized. */
  lemma LookupBelow256(row: seq<CInt>, x: bv8)
    requires |row| == ROW && RowOfBytes(row)
    ensures Lookup(row, x) < 256
  {
    SmallToU32(row[x as int]);
  }

  /** With byte-sized entries the XOR of the four lookups is below 256
      before the rotations. */
  lemma LookupsBelow256(row: seq<CInt>, half: bv32)
    requires |row| == ROW && RowOfBytes(row)
    ensures Lookups(row, half) < 256
  {
    var x0, x1, x2, x3 := ByteOfHalf(half, 0), ByteOfHalf(half, 1), ByteOfHalf(half, 2), ByteOfHalf(half, 3);
    LookupBelow256(row, x0);
    LookupBelow256(row, x1);
    LookupBelow256(row, x2);
    LookupBelow256(row, x3);
    XorOfBytes(Lookup(row, x0), Lookup(row, x1), Lookup(row, x2), Lookup(row, x3));
  }

  /** With an all-zero row the round function is constantly 0. */
  lemma ZeroRowGivesZero(t: seq<CInt>, half: bv32, round: int)
    requires IsTable(t) && 0 <= round < ROUNDS && ZeroRow(Row(t, round))
    ensures FeistelFunction(t, half, round) == 0
  {
  }
}
