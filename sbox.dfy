/** The S-box tables: 32 rows of 256 C `int`s, stored row-major in one flat
    array exactly as C lays out `int sboxes[32][256]`, and the generator
    that fills a row with modular inverses modulo 257. */
module SBox {
  import opened Bits

  const ROUNDS: int := 32
  const ROW: int := 256
  const TABLE_CELLS: int := ROUNDS * ROW
  const MODULUS: int := 257

  /** The largest `|a|` for which the products `a * i` (`i < 256`) of
      `modInverse` fit in a C `int`. */
  const MOD_INVERSE_BOUND: int := 8421504

  /** A table of the right shape. */
  predicate IsTable(t: seq<CInt>) {
    |t| == TABLE_CELLS
  }

  /** `sboxes[round][i]`. */
  function CellAt(t: seq<CInt>, round: int, i: int): CInt
    requires IsTable(t) && 0 <= round < ROUNDS && 0 <= i < ROW
  {
    t[round * ROW + i]
  }

  /** `sboxes[round]`, the row of 256 entries one round reads. */
  function Row(t: seq<CInt>, round: int): (row: seq<CInt>)
    requires IsTable(t) && 0 <= round < ROUNDS
    ensures |row| == ROW
    ensures forall i :: 0 <= i < ROW ==> row[i] == CellAt(t, round, i)
  {
    t[round * ROW .. round * ROW + ROW]
  }

  /** `x` passes the test of `modInverse`: `(a * x) % 257 == 1` in C. */
  predicate IsInverse(a: int, x: int) {
    CRem(a * x, MODULUS) == 1
  }

  // ---------------- Number theory: inverses modulo 257 exist ----------------

  /** Result of the extended Euclidean algorithm: the gcd `g`, Bezout
      coefficients `s`, `t`, and cofactors `ka`, `kb` of the two inputs. */
  datatype Bezout = Bezout(g: int, s: int, t: int, ka: int, kb: int)

  /** The algebra of one step of the extended Euclidean algorithm. */
  lemma BezoutStep(a: int, b: int, q: int, m: int, g: int, s: int, t: int, ka: int, kb: int)
    requires a == q * b + m
    requires b * s + m * t == g
    requires b == ka * g && m == kb * g
    ensures a * t + b * (s - q * t) == g
    ensures a == (q * ka + kb) * g
  {
    calc {
      a * t + b * (s - q * t);
      (q * b + m) * t + b * s - b * (q * t);
      { assert (q * b + m) * t == q * b * t + m * t; }
      q * b * t + m * t + b * s - b * (q * t);
      m * t + b * s;
    }
    calc {
      (q * ka + kb) * g;
      q * (ka * g) + kb * g;
      q * b + m;
    }
  }

  /** Extended Euclid: a positive common divisor of `a` and `b` that is an
      integer combination of them. */
  function ExtendedGcd(a: nat, b: nat): (r: Bezout)
    requires a > 0 || b > 0
    decreases b
    ensures r.g > 0
    ensures a * r.s + b * r.t == r.g
    ensures a == r.ka * r.g && b == r.kb * r.g
  {
    if b == 0 then Bezout(a, 1, 0, 1, 0)
    else
      var q, m := a / b, a % b;
      assert a == q * b + m;
      var rec := ExtendedGcd(b, m);
      BezoutStep(a, b, q, m, rec.g, rec.s, rec.t, rec.ka, rec.kb);
      Bezout(rec.g, rec.t, rec.s - q * rec.t, q * rec.ka + rec.kb, rec.ka)
  }

  /** 257 is prime: its only factor in 1..256 is 1. */
  lemma Prime257(d: int, q: int)
    requires 1 <= d <= 256 && d * q == MODULUS
    ensures d == 1
  {
  }

  /** Adding a multiple of 257 does not change a remainder modulo 257. */
  lemma ModShift(n: int, m: int, x: int)
    requires n == MODULUS * m + x
    ensures n % MODULUS == x % MODULUS
  {
  }

  /** Reducing a factor modulo 257 does not change a product modulo 257. */
  lemma ReduceFactor(a: int, s: int)
    ensures (a * (s % MODULUS)) % MODULUS == (a * s) % MODULUS
  {
    var k, r := s / MODULUS, s % MODULUS;
    assert s == MODULUS * k + r;
    calc {
      a * s;
      a * (MODULUS * k + r);
      a * (MODULUS * k) + a * r;
      { assert a * (MODULUS * k) == MODULUS * (a * k); }
      MODULUS * (a * k) + a * r;
    }
    ModShift(a * s, a * k, a * r);
  }

  /** A positive divisor of a positive number is at most that number. */
  lemma DivisorBound(a: int, k: int, g: int)
    requires a > 0 && g > 0 && a == k * g
    ensures g <= a
  {
    assert k >= 1;
    assert k * g >= g;
  }

  /** One more than a multiple of 257 leaves remainder 1. */
  lemma RemainderOne(n: int, k: int)
    requires n == 1 + MODULUS * k
    ensures n % MODULUS == 1
  {
  }

  /** For `a` in 1..255, Euclid's algorithm on `(a, 257)` ends with gcd 1. */
  lemma GcdWith257(a: int) returns (s: int)
    requires 1 <= a <= 255
    ensures (a * s) % MODULUS == 1
  {
    var r := ExtendedGcd(a, MODULUS);
    DivisorBound(a, r.ka, r.g);
    assert r.g * r.kb == MODULUS;
    Prime257(r.g, r.kb);
    s := r.s;
    RemainderOne(a * s, -r.t);
  }

  /** 256 is the inverse of 256 only: no `a` in 1..255 has it as inverse. */
  lemma NotInverse256(a: int)
    requires 1 <= a <= 255
    ensures (a * 256) % MODULUS != 1
  {
    assert a * 256 == MODULUS * (a - 1) + (MODULUS - a);
  }

  /** Every `a` in 1..255 has an inverse modulo 257 in 1..255. */
  lemma InverseExists(a: int)
    requires 1 <= a <= 255
    ensures exists x :: 1 <= x <= 255 && IsInverse(a, x)
  {
    var s := GcdWith257(a);
    var x := s % MODULUS;
    ReduceFactor(a, s);
    assert (a * x) % MODULUS == 1;
    NotInverse256(a);
    assert x != 0 && x != 256;
    assert IsInverse(a, x);
  }

  /** Inverses modulo 257 in 1..255 are unique, so `modInverse`'s linear
      search returns the only inverse there is. */
  lemma InverseUnique(a: int, x: int, y: int)
    requires 1 <= a <= 255 && 1 <= x <= 255 && 1 <= y <= 255
    requires IsInverse(a, x) && IsInverse(a, y)
    ensures x == y
  {
    var i, j := (a * x) / MODULUS, (a * y) / MODULUS;
    assert a * x == MODULUS * i + 1;
    assert a * y == MODULUS * j + 1;
    calc {
      x;
      x * (a * y) - MODULUS * (x * j);
      { assert x * (a * y) == (a * x) * y; }
      (a * x) * y - MODULUS * (x * j);
      (MODULUS * i + 1) * y - MODULUS * (x * j);
      MODULUS * (i * y - x * j) + y;
    }
    var d := i * y - x * j;
    assert x == MODULUS * d + y;
  }

  // ---------------- modInverse and generateSBox ----------------

  /** `modInverse`: the least `i` in 1..255 with `(a * i) % 257 == 1` in C
      arithmetic, or 0 when there is none; for `a` in 1..255 there always is
      one, and it is the unique inverse of `a` modulo 257 in 1..255. */
  method ModInverse(a: int) returns (x: int)
    requires -MOD_INVERSE_BOUND <= a <= MOD_INVERSE_BOUND
    ensures 0 <= x < 256
    ensures x != 0 ==> IsInverse(a, x) && forall j :: 1 <= j < x ==> !IsInverse(a, j)
    ensures x == 0 ==> forall j :: 1 <= j < 256 ==> !IsInverse(a, j)
    ensures 1 <= a <= 255 ==> 1 <= x <= 255 && IsInverse(a, x)
  {
    for i := 1 to 256
      invariant forall j :: 1 <= j < i ==> !IsInverse(a, j)
    {
      if CRem(a * i, MODULUS) == 1 {
        return i;
      }
    }
    if 1 <= a <= 255 {
      InverseExists(a);
    }
    return 0;
  }

  /** The argument `generateSBox` passes to `modInverse` for byte `i` of
      row `round`: `((i + round * 17) % 256) ^ 0x5F`, with 0 forced to 1.
      It always lies in 1..255. */
  function ModInput(round: int, i: int): (m: int)
    requires 0 <= round < ROUNDS && 0 <= i < ROW
    ensures 1 <= m <= 255
  {
    var v := (i + round * 17) % 256;
    var x := ((v as bv8) ^ 0x5F) as int;
    if x == 0 then 1 else x
  }

  /** What a generated entry is: the inverse of its `ModInput` modulo 257,
      nonzero and below 256. */
  predicate IsSBoxEntry(round: int, i: int, e: int)
    requires 0 <= round < ROUNDS && 0 <= i < ROW
  {
    1 <= e <= 255 && IsInverse(ModInput(round, i), e)
  }

  /** Row `round` of `t` is what `generateSBox(round)` writes. */
  predicate GeneratedRow(t: seq<CInt>, round: int)
    requires IsTable(t) && 0 <= round < ROUNDS
  {
    forall i :: 0 <= i < ROW ==> IsSBoxEntry(round, i, CellAt(t, round, i))
  }

  /** `generateSBox(round)` without its console dump: fills row `round`
      with the inverses of its `ModInput`s and leaves every other cell. */
  method GenerateSBox(sboxes: array<CInt>, round: int)
    requires sboxes.Length == TABLE_CELLS && 0 <= round < ROUNDS
    modifies sboxes
    ensures GeneratedRow(sboxes[..], round)
    ensures forall k :: 0 <= k < TABLE_CELLS && !(round * 256 <= k < round * 256 + 256) ==>
              sboxes[k] == old(sboxes[k])
  {
    for i := 0 to 256
      invariant forall j :: 0 <= j < i ==> IsSBoxEntry(round, j, CellAt(sboxes[..], round, j))
      invariant forall k :: 0 <= k < TABLE_CELLS && !(round * 256 <= k < round * 256 + i) ==>
                  sboxes[k] == old(sboxes[k])
    {
      var modInput := ModInput(round, i);
      var inv := ModInverse(modInput);
      ghost var before := sboxes[..];
      sboxes[round * 256 + i] := inv;
      assert forall j :: 0 <= j < i ==> CellAt(sboxes[..], round, j) == CellAt(before, round, j);
      assert IsSBoxEntry(round, i, CellAt(sboxes[..], round, i));
    }
  }
}
