/** The 32-round Feistel engine: `feistelEncrypt` and `feistelDecrypt` on a
    64-bit block, for any contents of the S-box table. */
module BlockCipher {
  import opened Bits
  import opened SBox
  import opened FeistelRound

  // ---------------- Blocks and halves ----------------

  /** The two halves of a block: `left` is bits 63..32, `right` bits 31..0. */
  function Split(data: bv64): RoundState {
    RoundState(((data >> 32) & 0xFFFF_FFFF) as bv32, (data & 0xFFFF_FFFF) as bv32)
  }

  /** `((unsigned long long)left << HALF_BLOCK_SIZE) | right`. */
  function Join(s: RoundState): bv64 {
    ((s.left as bv64) << 32) | (s.right as bv64)
  }

  /** Joining the halves of a block gives the block back. */
  lemma JoinSplit(data: bv64)
    ensures Join(Split(data)) == data
  {
  }

  /** Splitting a joined pair gives the pair back. */
  lemma SplitJoin(s: RoundState)
    ensures Split(Join(s)) == s
  {
  }

  // ---------------- One round ----------------

  /** A round function: the 32-bit output for round `round` and input half
      `half`.  The round structure below works for any of them; the
      cipher uses `TableRoundFunction` of the S-box table. */
  type RoundFunction = (int, bv32) -> bv32

  /** `feistelFunction` over the table `t`, as a round function.  Rounds
      outside 0..31 are never asked for. */
  function TableRoundFunction(t: seq<CInt>): RoundFunction
    requires IsTable(t)
  {
    (round: int, half: bv32) => if 0 <= round < ROUNDS then FeistelFunction(t, half, round) else 0
  }

  /** The Feistel XOR of a half with a round-function output. */
  function XorWord(a: bv32, b: bv32): bv32 {
    a ^ b
  }

  /** XOR-ing the same word twice cancels. */
  lemma XorCancel(a: bv32, b: bv32)
    ensures XorWord(XorWord(a, b), b) == a
  {
  }

  /** Encryption round `round` (cipher.cpp:144-147): the new left half is
      the old right half, the new right half is the old left half XOR-ed
      with `F` of the old right half, and then `permutationStep` runs. */
  function EncryptRound(f: RoundFunction, round: int, s: RoundState): RoundState {
    Permute(RoundState(s.right, XorWord(s.left, f(round, s.right))))
  }

  /** Decryption round `round` (cipher.cpp:174-177): `inversePermutationStep`
      runs first; then the new right half is the left half, and the new left
      half is the right half XOR-ed with `F` of the left half. */
  function DecryptRound(f: RoundFunction, round: int, s: RoundState): RoundState {
    var p := InversePermute(s);
    RoundState(XorWord(p.right, f(round, p.left)), p.left)
  }

  /** Decryption round `round` undoes encryption round `round`. */
  lemma DecryptRoundUndoesEncryptRound(f: RoundFunction, round: int, s: RoundState)
    ensures DecryptRound(f, round, EncryptRound(f, round, s)) == s
  {
    var x := f(round, s.right);
    InversePermuteUndoesPermute(RoundState(s.right, XorWord(s.left, x)));
    XorCancel(s.left, x);
  }

  /** Encryption round `round` undoes decryption round `round`. */
  lemma EncryptRoundUndoesDecryptRound(f: RoundFunction, round: int, s: RoundState)
    ensures EncryptRound(f, round, DecryptRound(f, round, s)) == s
  {
    var p := InversePermute(s);
    var x := f(round, p.left);
    XorCancel(p.right, x);
    PermuteUndoesInversePermute(s);
  }

  // ---------------- All rounds ----------------

  /** The state after encryption rounds `0 .. n-1`. */
  function EncryptRounds(f: RoundFunction, s: RoundState, n: nat): RoundState {
    if n == 0 then s else EncryptRound(f, n - 1, EncryptRounds(f, s, n - 1))
  }

  /** The state after decryption rounds `n-1` down to `0`. */
  function DecryptRounds(f: RoundFunction, s: RoundState, n: nat): RoundState
    decreases n
  {
    if n == 0 then s else DecryptRounds(f, DecryptRound(f, n - 1, s), n - 1)
  }

  /** Rounds `n-1 .. 0` of decryption undo rounds `0 .. n-1` of encryption. */
  lemma {:induction false} DecryptRoundsUndoEncryptRounds(f: RoundFunction, s: RoundState, n: nat)
    ensures DecryptRounds(f, EncryptRounds(f, s, n), n) == s
  {
    if n > 0 {
      DecryptRoundUndoesEncryptRound(f, n - 1, EncryptRounds(f, s, n - 1));
      DecryptRoundsUndoEncryptRounds(f, s, n - 1);
    }
  }

  /** Rounds `0 .. n-1` of encryption undo rounds `n-1 .. 0` of decryption. */
  lemma {:induction false} EncryptRoundsUndoDecryptRounds(f: RoundFunction, s: RoundState, n: nat)
    ensures EncryptRounds(f, DecryptRounds(f, s, n), n) == s
    decreases n
  {
    if n > 0 {
      var m: nat := n - 1;
      EncryptRoundsUndoDecryptRounds(f, DecryptRound(f, m, s), m);
      EncryptRoundsUndoDecryptRoundsStep(f, s, m);
      assert m + 1 == n;
    }
  }

  /** The inductive step of `EncryptRoundsUndoDecryptRounds`: if encryption
      rounds `0 .. n-1` undo decryption rounds `n-1 .. 0` from the state that
      decryption round `n` leaves, then adding round `n` on both sides
      gives `s` back. */
  lemma EncryptRoundsUndoDecryptRoundsStep(f: RoundFunction, s: RoundState, n: nat)
    requires EncryptRounds(f, DecryptRounds(f, DecryptRound(f, n, s), n), n) == DecryptRound(f, n, s)
    ensures EncryptRounds(f, DecryptRounds(f, s, n + 1), n + 1) == s
  {
    var d := DecryptRound(f, n, s);
    DecryptRoundsStep(f, s, n);
    EncryptRoundsStep(f, DecryptRounds(f, d, n), n);
    EncryptRoundUndoesDecryptRound(f, n, s);
  }

  /** The last encryption round to run is the highest. */
  lemma EncryptRoundsStep(f: RoundFunction, s: RoundState, n: nat)
    ensures EncryptRounds(f, s, n + 1) == EncryptRound(f, n, EncryptRounds(f, s, n))
  {
  }

  /** The first decryption round to run is the highest. */
  lemma DecryptRoundsStep(f: RoundFunction, s: RoundState, n: nat)
    ensures DecryptRounds(f, s, n + 1) == DecryptRounds(f, DecryptRound(f, n, s), n)
  {
  }

  // ---------------- The cipher ----------------

  /** `feistelEncrypt(data)` with round function `f`. */
  function EncryptWith(f: RoundFunction, data: bv64): bv64 {
    Join(EncryptRounds(f, Split(data), ROUNDS))
  }

  /** `feistelDecrypt(data)` with round function `f`. */
  function DecryptWith(f: RoundFunction, data: bv64): bv64 {
    Join(DecryptRounds(f, Split(data), ROUNDS))
  }

  /** Decryption undoes encryption, for every block and every round function. */
  lemma DecryptUndoesEncrypt(f: RoundFunction, data: bv64)
    ensures DecryptWith(f, EncryptWith(f, data)) == data
  {
    SplitJoin(EncryptRounds(f, Split(data), ROUNDS));
    DecryptRoundsUndoEncryptRounds(f, Split(data), ROUNDS);
    JoinSplit(data);
  }

  /** Encryption undoes decryption, for every block and every round function. */
  lemma EncryptUndoesDecrypt(f: RoundFunction, data: bv64)
    ensures EncryptWith(f, DecryptWith(f, data)) == data
  {
    SplitJoin(DecryptRounds(f, Split(data), ROUNDS));
    EncryptRoundsUndoDecryptRounds(f, Split(data), ROUNDS);
    JoinSplit(data);
  }

  /** Encryption is injective: distinct blocks have distinct ciphertexts. */
  lemma EncryptInjective(f: RoundFunction, d1: bv64, d2: bv64)
    ensures EncryptWith(f, d1) == EncryptWith(f, d2) <==> d1 == d2
  {
    DecryptUndoesEncrypt(f, d1);
    DecryptUndoesEncrypt(f, d2);
  }

  /** `feistelEncrypt` with the S-box table `t`. */
  function Encrypt(t: seq<CInt>, data: bv64): bv64
    requires IsTable(t)
  {
    EncryptWith(TableRoundFunction(t), data)
  }

  /** `feistelDecrypt` with the S-box table `t`. */
  function Decrypt(t: seq<CInt>, data: bv64): bv64
    requires IsTable(t)
  {
    DecryptWith(TableRoundFunction(t), data)
  }

  /** The headline property: for any table contents, decryption undoes
      encryption and encryption undoes decryption. */
  lemma CipherRoundTrip(t: seq<CInt>, data: bv64)
    requires IsTable(t)
    ensures Decrypt(t, Encrypt(t, data)) == data
    ensures Encrypt(t, Decrypt(t, data)) == data
  {
    DecryptUndoesEncrypt(TableRoundFunction(t), data);
    EncryptUndoesDecrypt(TableRoundFunction(t), data);
  }

  // ---------------- The zero table `main` runs with ----------------

  /** A table whose every entry is zero, as the global `sboxes` stays. */
  predicate ZeroTable(t: seq<CInt>) {
    IsTable(t) && forall k :: 0 <= k < |t| ==> t[k] == 0
  }

  /** One round with a zero round function: swap, then permute. */
  function SwapThenPermute(s: RoundState): RoundState {
    Permute(RoundState(s.right, s.left))
  }

  /** `n` rounds with a zero round function. */
  function SwapThenPermuteRounds(s: RoundState, n: nat): RoundState {
    if n == 0 then s else SwapThenPermute(SwapThenPermuteRounds(s, n - 1))
  }

  /** With a round function that is zero on rounds 0..31 every round keeps
      only the swap and the permutation. */
  lemma {:induction false} ZeroRoundFunctionRounds(f: RoundFunction, s: RoundState, n: nat)
    requires n <= ROUNDS
    requires forall round, half :: 0 <= round < ROUNDS ==> f(round, half) == 0
    ensures EncryptRounds(f, s, n) == SwapThenPermuteRounds(s, n)
  {
    if n > 0 {
      ZeroRoundFunctionRounds(f, s, n - 1);
      var p := EncryptRounds(f, s, n - 1);
      assert XorWord(p.left, f(n - 1, p.right)) == p.left;
      assert EncryptRound(f, n - 1, p) == SwapThenPermute(p);
    }
  }

  /** The zero table gives the zero round function. */
  lemma ZeroTableRoundFunction(t: seq<CInt>)
    requires ZeroTable(t)
    ensures forall round, half :: 0 <= round < ROUNDS ==> TableRoundFunction(t)(round, half) == 0
  {
    forall round, half | 0 <= round < ROUNDS
      ensures TableRoundFunction(t)(round, half) == 0
    {
      ZeroRowGivesZero(t, half, round);
    }
  }

  /** With the zero table encryption is one fixed map of the block, the
      same whatever the key. */
  lemma ZeroTableEncrypt(t: seq<CInt>, data: bv64)
    requires ZeroTable(t)
    ensures Encrypt(t, data) == Join(SwapThenPermuteRounds(Split(data), ROUNDS))
  {
    ZeroTableRoundFunction(t);
    ZeroRoundFunctionRounds(TableRoundFunction(t), Split(data), ROUNDS);
  }

  // ---------------- The engine as the source runs it ----------------

  /** The loop of `feistelEncrypt` with the round function `f`: rounds
      0..31 on the two halves, then the halves joined back into `data`. */
  method FeistelEncryptWith(f: RoundFunction, data: bv64) returns (out: bv64)
    ensures out == EncryptWith(f, data)
  {
    var halves := Split(data);
    var left, right := halves.left, halves.right;
    for round := 0 to ROUNDS
      invariant RoundState(left, right) == EncryptRounds(f, Split(data), round)
    {
      var temp := right;
      right := XorWord(left, f(round, right));
      left := temp;
      left, right := PermutationStep(left, right);
    }
    out := Join(RoundState(left, right));
  }

  /** The loop of `feistelDecrypt` with the round function `f`: rounds
      31..0, each starting with `inversePermutationStep`. */
  method FeistelDecryptWith(f: RoundFunction, data: bv64) returns (out: bv64)
    ensures out == DecryptWith(f, data)
  {
    var halves := Split(data);
    var left, right := halves.left, halves.right;
    var round := ROUNDS - 1;
    while round >= 0
      invariant -1 <= round < ROUNDS
      invariant DecryptRounds(f, RoundState(left, right), round + 1) == DecryptRounds(f, Split(data), ROUNDS)
    {
      ghost var before := RoundState(left, right);
      left, right := InversePermutationStep(left, right);
      var temp := right;
      right := left;
      left := XorWord(temp, f(round, left));
      DecryptRoundsStep(f, before, round);
      round := round - 1;
    }
    out := Join(RoundState(left, right));
  }

  /** `feistelEncrypt(data)`: the rounds read the global table, which
      nothing writes meanwhile. */
  method FeistelEncrypt(sboxes: array<CInt>, data: bv64) returns (out: bv64)
    requires sboxes.Length == TABLE_CELLS
    ensures out == Encrypt(sboxes[..], data)
  {
    out := FeistelEncryptWith(TableRoundFunction(sboxes[..]), data);
  }

  /** `feistelDecrypt(data)`. */
  method FeistelDecrypt(sboxes: array<CInt>, data: bv64) returns (out: bv64)
    requires sboxes.Length == TABLE_CELLS
    ensures out == Decrypt(sboxes[..], data)
  {
    out := FeistelDecryptWith(TableRoundFunction(sboxes[..]), data);
  }
}
