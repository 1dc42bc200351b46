/** The computing fragments of `main`: reading and checking the key, the
    encrypt option (pad, pack, encrypt, print as hex) and the decrypt
    option (parse hex, decrypt, unpack, trim), with the globals passed in
    as arrays.  The console reads and the menu loop are not modelled. */
module Menu {
  import opened Bits
  import opened SBox
  import opened BlockCipher
  import opened KeySchedule
  import opened Codec
  import opened Hex

  datatype Option<T> = None | Some(value: T)

  /** The global `sboxes` as the program starts: static storage, all zero,
      and never written since `generateSBox` is never called. */
  method InitialSBoxes() returns (sboxes: array<CInt>)
    ensures fresh(sboxes) && sboxes.Length == TABLE_CELLS
    ensures ZeroTable(sboxes[..])
  {
    sboxes := new CInt[TABLE_CELLS](_ => 0);
  }

  /** The key check and parse at the start of `main`: a key line whose
      length is not 16 is refused; otherwise its 16 characters are parsed
      as hex, any character outside `0-9A-Fa-f` counting as 0. */
  method ReadKey(keyInput: seq<bv8>) returns (key: Option<bv64>)
    requires HasNul(keyInput)
    ensures key.None? <==> CStringLength(keyInput) != HEX_DIGITS
    ensures key.Some? ==> key.value == ParseDigits(keyInput[..HEX_DIGITS])
  {
    var len := StringLength(keyInput);
    if len != HEX_DIGITS {
      return None;
    }
    var userKey := ParseHex(keyInput);
    return Some(userKey);
  }

  /** A key typed as the sixteen digits `printHex` writes is accepted and
      read back as that key. */
  lemma ReadKeyOfHexText(k: bv64)
    ensures var line := HexText(k) + [NUL];
            HasNul(line) && CStringLength(line) == HEX_DIGITS && ParseDigits(line[..HEX_DIGITS]) == k
  {
    var line := HexText(k) + [NUL];
    HexPrefixDigits(k, 16);
    assert forall j :: 0 <= j < HEX_DIGITS ==> line[j] == HexText(k)[j];
    CStringLengthUnique(line, HEX_DIGITS);
    assert line[..HEX_DIGITS] == HexText(k);
    ParseHexText(k);
  }

  /** The start of `main`: check and parse the key, then
      `generateRoundKeys(userKey)`.  A refused key leaves `roundKeys` as it
      was. */
  method Start(keyInput: seq<bv8>, roundKeys: array<bv8>) returns (accepted: bool)
    requires HasNul(keyInput) && roundKeys.Length == ROUNDS
    modifies roundKeys
    ensures accepted <==> CStringLength(keyInput) == HEX_DIGITS
    ensures accepted ==> roundKeys[..] == RoundKeySchedule(ParseDigits(keyInput[..HEX_DIGITS]))
    ensures !accepted ==> roundKeys[..] == old(roundKeys[..])
  {
    var key := ReadKey(keyInput);
    if key.None? {
      return false;
    }
    GenerateRoundKeys(key.value, roundKeys);
    return true;
  }

  /** Option 1: pad the line read into `input` with spaces to eight bytes,
      pack it and encrypt it; `hex` is what "Encrypted Data" shows. */
  method EncryptOption(sboxes: array<CInt>, input: array<bv8>) returns (data: bv64, hex: seq<bv8>)
    requires sboxes.Length == TABLE_CELLS && input.Length >= 9 && HasNul(input[..9])
    modifies input
    ensures |Content(old(input[..9]))| <= BLOCK_BYTES
    ensures data == Encrypt(sboxes[..], Pack(Padded(Content(old(input[..9])))))
    ensures hex == HexText(data)
    ensures input[..9] == Padded(Content(old(input[..9]))) + [NUL]
    ensures forall k :: 9 <= k < input.Length ==> input[k] == old(input[k])
  {
    ghost var line := Content(input[..9]);
    PadWithSpaces(input);
    assert forall j :: 0 <= j < 8 ==> input[j] == Padded(line)[j];
    CStringLengthUnique(input[..], 8);
    assert Content(input[..]) == Padded(line);
    var block := StringTo64Bit(input[..]);
    data := FeistelEncrypt(sboxes, block);
    hex := PrintHex(data);
  }

  /** Option 2: parse sixteen hex characters, decrypt, unpack into `out`
      and trim trailing spaces; `text` is the bytes of `out` up to `dlen`,
      which is what `std::cout << out` prints unless a NUL comes earlier. */
  method DecryptOption(sboxes: array<CInt>, input: seq<bv8>, out: array<bv8>) returns (text: seq<bv8>)
    requires sboxes.Length == TABLE_CELLS && |input| >= HEX_DIGITS && out.Length == 9
    modifies out
    ensures text == TrimSpaces(Unpack(Decrypt(sboxes[..], ParseDigits(input[..HEX_DIGITS]))))
    ensures out[..|text|] == text && out[|text|] == NUL
  {
    var data := ParseHex(input);
    data := FeistelDecrypt(sboxes, data);
    LongLongToString(data, out);
    var dlen := TrimTrailingSpaces(out);
    text := out[..dlen];
  }

  /** Option 2 given the hex that option 1 prints for `s` rebuilds the
      padded block `s` was packed from. */
  lemma MenuRecoversPadded(t: seq<CInt>, s: seq<bv8>)
    requires IsTable(t) && |s| <= BLOCK_BYTES
    ensures var hex := HexText(Encrypt(t, Pack(Padded(s))));
            Unpack(Decrypt(t, ParseDigits(hex[..HEX_DIGITS]))) == Padded(s)
  {
    var block := Pack(Padded(s));
    var hex := HexText(Encrypt(t, block));
    assert hex[..HEX_DIGITS] == hex;
    ParseHexText(Encrypt(t, block));
    CipherRoundTrip(t, block);
    UnpackPackEight(Padded(s));
  }

  /** A plaintext of at most eight bytes, entered in option 1 and whose
      printed ciphertext is entered in option 2, comes back without its
      trailing spaces, whatever the table; one with no trailing space
      comes back unchanged. */
  lemma MenuRoundTrip(t: seq<CInt>, s: seq<bv8>)
    requires IsTable(t) && |s| <= BLOCK_BYTES
    ensures var hex := HexText(Encrypt(t, Pack(Padded(s))));
            TrimSpaces(Unpack(Decrypt(t, ParseDigits(hex[..HEX_DIGITS])))) == TrimSpaces(s)
    ensures var hex := HexText(Encrypt(t, Pack(Padded(s))));
            NoTrailingSpace(s) ==> TrimSpaces(Unpack(Decrypt(t, ParseDigits(hex[..HEX_DIGITS])))) == s
  {
    MenuRecoversPadded(t, s);
    TrimPadded(s);
  }

  /** Neither encryption nor decryption reads `roundKeys`: running them
      after scheduling one key and after scheduling another gives the
      same ciphertext and the same plaintext. */
  method KeyIndependence(sboxes: array<CInt>, roundKeys: array<bv8>, key1: bv64, key2: bv64, data: bv64)
    returns (c1: bv64, c2: bv64, d1: bv64, d2: bv64)
    requires sboxes.Length == TABLE_CELLS && roundKeys.Length == ROUNDS
    modifies roundKeys
    ensures c1 == c2 == Encrypt(sboxes[..], data)
    ensures d1 == d2 == Decrypt(sboxes[..], data)
    ensures roundKeys[..] == RoundKeySchedule(key2)
  {
    GenerateRoundKeys(key1, roundKeys);
    c1 := FeistelEncrypt(sboxes, data);
    d1 := FeistelDecrypt(sboxes, data);
    GenerateRoundKeys(key2, roundKeys);
    c2 := FeistelEncrypt(sboxes, data);
    d2 := FeistelDecrypt(sboxes, data);
  }
}
