/**
 * The single-block AES-like cipher of facekid: SubBytes, ShiftRows and
 * AddRoundKey over a 16-byte state, ten rounds, no MixColumns and no key
 * schedule.  Only the first 16 bytes of the 176-byte round-key material are
 * the key; the other 160 bytes are whatever the stack held, and are an
 * explicit parameter here.
 */
module Cipher {

  /** A 16-byte cipher state, column-major: byte r + 4*c is row r, column c. */
  type Block = s: seq<bv8> | |s| == 16 witness seq(16, _ => 0)

  /** A byte-to-byte lookup table, indexed by the byte's value. */
  type Table = t: seq<bv8> | |t| == 256 witness seq(256, _ => 0)

  /** The 176 bytes of round-key material: eleven 16-byte round keys. */
  type KeyMaterial = k: seq<bv8> | |k| == 176 witness seq(176, _ => 0)

  /** Number of rounds. */
  const Nr: nat := 10

  /** The forward table as written: 32 initialisers, the rest zero-filled. */
  const SBOX: Table :=
    [0x63, 0x7c, 0x77, 0x7b, 0xf2, 0x6b, 0x6f, 0xc5, 0x30, 0x01, 0x67, 0x2b, 0xfe, 0xd7, 0xab, 0x76,
     0xca, 0x82, 0xc9, 0x7d, 0xfa, 0x59, 0x47, 0xf0, 0xad, 0xd4, 0xa2, 0xaf, 0x9c, 0xa4, 0x72, 0xc0]
    + seq(224, _ => 0)

  /** The inverse table as written: 32 initialisers, the rest zero-filled. */
  const INV_SBOX: Table :=
    [0x52, 0x09, 0x6a, 0xd5, 0x30, 0x36, 0xa5, 0x38, 0xbf, 0x40, 0xa3, 0x9e, 0x81, 0xf3, 0xd7, 0xfb,
     0x7c, 0xe3, 0x39, 0x82, 0x9b, 0x2f, 0xff, 0x87, 0x34, 0x8e, 0x43, 0x44, 0xc4, 0xde, 0xe9, 0xcb]
    + seq(224, _ => 0)

  // ---------------------------------------------------------------------
  // Specification functions, one per step
  // ---------------------------------------------------------------------

  /** The round key of round r: bytes r*16 .. r*16+15 of the material. */
  function RoundKey(ek: KeyMaterial, r: nat): Block
    requires r <= Nr
  {
    ek[r * 16 .. r * 16 + 16]
  }

  function AddRoundKeyFn(s: Block, k: Block): Block
  {
    seq(16, i requires 0 <= i < 16 => s[i] ^ k[i])
  }

  function SubBytesFn(s: Block, t: Table): Block
  {
    seq(16, i requires 0 <= i < 16 => Lookup(t, s[i]))
  }

  /**
   * Row r rotated left by r positions: the byte at row r, column c comes from
   * row r, column (c + r) mod 4.
   */
  function ShiftRowsFn(s: Block): Block
  {
    seq(16, i requires 0 <= i < 16 => s[i % 4 + 4 * ((i / 4 + i % 4) % 4)])
  }

  /**
   * Row r rotated right by r positions: the byte at row r, column c comes from
   * row r, column (c - r) mod 4.
   */
  function InvShiftRowsFn(s: Block): Block
  {
    seq(16, i requires 0 <= i < 16 => s[i % 4 + 4 * ((i / 4 + 4 - i % 4) % 4)])
  }

  /** One encryption round: substitute, shift rows, add round key r. */
  function Round(s: Block, ek: KeyMaterial, t: Table, r: nat): Block
    requires r <= Nr
  {
    AddRoundKeyFn(ShiftRowsFn(SubBytesFn(s, t)), RoundKey(ek, r))
  }

  /** One decryption round: inverse shift, inverse substitute, add round key r. */
  function InvRound(s: Block, ek: KeyMaterial, u: Table, r: nat): Block
    requires r <= Nr
  {
    AddRoundKeyFn(SubBytesFn(InvShiftRowsFn(s), u), RoundKey(ek, r))
  }

  /** Rounds r, r+1, ..., Nr applied in that order. */
  function EncryptFrom(s: Block, ek: KeyMaterial, t: Table, r: nat): Block
    requires 1 <= r <= Nr + 1
    // Nr + 1 - r round keys left, measured on ek so that a call with a literal
    // round number is not unfolded to the end by the verifier
    decreases |ek[16 * r ..]|
  {
    if r == Nr + 1 then s else EncryptFrom(Round(s, ek, t, r), ek, t, r + 1)
  }

  /** Inverse rounds r, r-1, ..., 0 applied in that order. */
  function DecryptFrom(s: Block, ek: KeyMaterial, u: Table, r: nat): Block
    requires r <= Nr
    // r round keys left, measured on ek for the same reason as in EncryptFrom
    decreases |ek[.. 16 * r]|
  {
    if r == 0 then InvRound(s, ek, u, 0) else DecryptFrom(InvRound(s, ek, u, r), ek, u, r - 1)
  }

  /** The cipher with forward table t: whitening with round key 0, then rounds 1..Nr. */
  function Encrypt(p: Block, ek: KeyMaterial, t: Table): Block
  {
    EncryptFrom(AddRoundKeyFn(p, RoundKey(ek, 0)), ek, t, 1)
  }

  /** The decoder with inverse table u: whitening with round key Nr, then inverse rounds Nr-1..0. */
  function Decrypt(c: Block, ek: KeyMaterial, u: Table): Block
  {
    DecryptFrom(AddRoundKeyFn(c, RoundKey(ek, Nr)), ek, u, Nr - 1)
  }

  /** The entry of table t for byte x. */
  function Lookup(t: Table, x: bv8): bv8
  {
    t[x as int]
  }

  /** u undoes t on every byte. */
  ghost predicate Inverts(t: Table, u: Table)
  {
    forall x: bv8 :: Lookup(u, Lookup(t, x)) == x
  }

  /** The round-key material a call builds: the key, then 160 bytes never written. */
  function Material(key: seq<bv8>, uninit: seq<bv8>): (ek: KeyMaterial)
    requires |key| >= 16 && |uninit| == 160
  {
    key[..16] + uninit
  }

  /**
   * Round key 0 is the key; round keys 1..Nr come only from the 160 bytes
   * the call never writes.
   */
  lemma MaterialRoundKeys(key: seq<bv8>, uninit: seq<bv8>, r: nat)
    requires |key| >= 16 && |uninit| == 160 && r <= Nr
    ensures r == 0 ==> RoundKey(Material(key, uninit), r) == key[..16]
    ensures 1 <= r ==> RoundKey(Material(key, uninit), r) == uninit[16 * (r - 1) .. 16 * r]
  {
    var ek := Material(key, uninit);
    if 1 <= r {
      assert ek[16 * r .. 16 * r + 16] == ek[16..][16 * (r - 1) .. 16 * r];
    }
  }

  // ---------------------------------------------------------------------
  // Properties of the steps
  // ---------------------------------------------------------------------

  lemma AddRoundKeyInvolution(s: Block, k: Block)
    ensures forall i :: 0 <= i < 16 ==> AddRoundKeyFn(s, k)[i] == s[i] ^ k[i]
    ensures AddRoundKeyFn(AddRoundKeyFn(s, k), k) == s
  {
  }

  /** Entries 32..255 of both source tables are zero. */
  lemma TablesZeroFilled(x: bv8)
    requires x >= 0x20
    ensures SBOX[x as int] == 0 && INV_SBOX[x as int] == 0
  {
  }

  /** Every byte is replaced independently; a byte of 0x20 or more becomes 0 under either source table. */
  lemma SubBytesZeroFill(s: Block, i: nat)
    requires i < 16
    ensures SubBytesFn(s, SBOX)[i] == SBOX[s[i] as int]
    ensures SubBytesFn(s, INV_SBOX)[i] == INV_SBOX[s[i] as int]
    ensures s[i] >= 0x20 ==> SubBytesFn(s, SBOX)[i] == 0 && SubBytesFn(s, INV_SBOX)[i] == 0
  {
    if s[i] >= 0x20 {
      TablesZeroFilled(s[i]);
    }
  }

  /** The source tables are not inverse to each other: sbox[1] = 0x7c but inv_sbox[0x7c] = 0. */
  lemma TablesDoNotInvert()
    ensures SBOX[1] == 0x7c && INV_SBOX[0x7c] == 0
    ensures !Inverts(SBOX, INV_SBOX)
  {
    assert Lookup(INV_SBOX, Lookup(SBOX, 1)) != 1;
  }

  /** In row/column terms: ShiftRows rotates row r left by r and InvShiftRows right by r; row 0 stays put. */
  lemma ShiftRowsRotates(s: Block, r: nat, c: nat)
    requires r < 4 && c < 4
    ensures ShiftRowsFn(s)[r + 4 * c] == s[r + 4 * ((c + r) % 4)]
    ensures InvShiftRowsFn(s)[r + 4 * c] == s[r + 4 * ((c + 4 - r) % 4)]
    ensures r == 0 ==> ShiftRowsFn(s)[4 * c] == s[4 * c] && InvShiftRowsFn(s)[4 * c] == s[4 * c]
  {
    assert (r + 4 * c) % 4 == r && (r + 4 * c) / 4 == c;
  }

  /** InvShiftRows and ShiftRows undo each other. */
  lemma ShiftRowsInverse(s: Block)
    ensures InvShiftRowsFn(ShiftRowsFn(s)) == s
    ensures ShiftRowsFn(InvShiftRowsFn(s)) == s
  {
    InvShiftRowsAfterShiftRows(s);
    ShiftRowsAfterInvShiftRows(s);
  }

  lemma InvShiftRowsAfterShiftRows(s: Block)
    ensures InvShiftRowsFn(ShiftRowsFn(s)) == s
  {
    var a := ShiftRowsFn(s);
    forall i | 0 <= i < 16
      ensures InvShiftRowsFn(a)[i] == s[i]
    {
      var r, c := i % 4, i / 4;
      var back := (c + 4 - r) % 4;
      ShiftRowsRotates(a, r, c);
      ShiftRowsRotates(s, r, back);
      ColumnsCancel(r, c);
    }
  }

  lemma ShiftRowsAfterInvShiftRows(s: Block)
    ensures ShiftRowsFn(InvShiftRowsFn(s)) == s
  {
    var a := InvShiftRowsFn(s);
    forall i | 0 <= i < 16
      ensures ShiftRowsFn(a)[i] == s[i]
    {
      var r, c := i % 4, i / 4;
      var ahead := (c + r) % 4;
      ShiftRowsRotates(a, r, c);
      ShiftRowsRotates(s, r, ahead);
      ColumnsCancel(r, c);
    }
  }

  /** Shifting a column index right by r and then left by r (mod 4) gives it back, and vice versa. */
  lemma ColumnsCancel(r: nat, c: nat)
    requires r < 4 && c < 4
    ensures ((c + 4 - r) % 4 + r) % 4 == c
    ensures ((c + r) % 4 + 4 - r) % 4 == c
  {
  }

  /** With a table pair that inverts, an inverse round's first two steps undo a round's first two. */
  lemma InvStepsCancel(s: Block, t: Table, u: Table)
    requires Inverts(t, u)
    ensures SubBytesFn(InvShiftRowsFn(ShiftRowsFn(SubBytesFn(s, t))), u) == s
  {
    ShiftRowsInverse(SubBytesFn(s, t));
    assert forall i :: 0 <= i < 16 ==> Lookup(u, Lookup(t, s[i])) == s[i];
  }

  /** Inductive step of the round trip: peeling rounds r..Nr leaves inverse rounds r-1..0 to go. */
  lemma {:induction false} PeelRounds(s: Block, ek: KeyMaterial, t: Table, u: Table, r: nat)
    requires Inverts(t, u)
    requires 1 <= r <= Nr
    ensures DecryptFrom(AddRoundKeyFn(EncryptFrom(s, ek, t, r), RoundKey(ek, Nr)), ek, u, Nr - 1)
         == DecryptFrom(ShiftRowsFn(SubBytesFn(s, t)), ek, u, r - 1)
    decreases Nr - r
  {
    var y := ShiftRowsFn(SubBytesFn(s, t));
    if r == Nr {
      AddRoundKeyInvolution(y, RoundKey(ek, Nr));
    } else {
      var s' := Round(s, ek, t, r);
      PeelRounds(s', ek, t, u, r + 1);
      InvStepsCancel(s', t, u);
      AddRoundKeyInvolution(y, RoundKey(ek, r));
      assert InvRound(ShiftRowsFn(SubBytesFn(s', t)), ek, u, r) == y;
    }
  }

  /**
   * Round trip, conditional: for the same round-key material and a table pair
   * that inverts, decoding undoes the cipher.
   */
  lemma RoundTrip(p: Block, ek: KeyMaterial, t: Table, u: Table)
    requires Inverts(t, u)
    ensures Decrypt(Encrypt(p, ek, t), ek, u) == p
  {
    var w := AddRoundKeyFn(p, RoundKey(ek, 0));
    PeelRounds(w, ek, t, u, 1);
    InvStepsCancel(w, t, u);
    AddRoundKeyInvolution(p, RoundKey(ek, 0));
  }

  /**
   * With the source tables the round trip fails for every round-key material:
   * two plaintexts that whiten to 0x20 and 0x21 in byte 0 encrypt alike.
   */
  lemma RoundTripFails(ek: KeyMaterial) returns (p: Block)
    ensures Decrypt(Encrypt(p, ek, SBOX), ek, INV_SBOX) != p
  {
    var k0 := RoundKey(ek, 0);
    var w1: Block := [0x20] + seq(15, _ => 0);
    var w2: Block := [0x21] + seq(15, _ => 0);
    var p1 := AddRoundKeyFn(w1, k0);
    var p2 := AddRoundKeyFn(w2, k0);
    AddRoundKeyInvolution(w1, k0);
    AddRoundKeyInvolution(w2, k0);
    assert p1 != p2 by {
      assert p1[0] != p2[0];
    }
    TablesZeroFilled(0x20);
    TablesZeroFilled(0x21);
    assert SubBytesFn(w1, SBOX) == SubBytesFn(w2, SBOX);
    assert Encrypt(p1, ek, SBOX) == Encrypt(p2, ek, SBOX);
    if Decrypt(Encrypt(p1, ek, SBOX), ek, INV_SBOX) != p1 {
      p := p1;
    } else {
      p := p2;
    }
  }

  /** Sixteen bytes that agree position by position are the same block. */
  lemma SameBlock(a: Block, b: Block)
    requires a[0] == b[0] && a[1] == b[1] && a[2] == b[2] && a[3] == b[3]
    requires a[4] == b[4] && a[5] == b[5] && a[6] == b[6] && a[7] == b[7]
    requires a[8] == b[8] && a[9] == b[9] && a[10] == b[10] && a[11] == b[11]
    requires a[12] == b[12] && a[13] == b[13] && a[14] == b[14] && a[15] == b[15]
    ensures a == b
  {
    assert forall i | 0 <= i < 16 :: a[i] == b[i];
  }

  /**
   * A block holding the bytes that the temp swaps of shift_rows move into each
   * position is ShiftRowsFn of the original.
   */
  lemma ShiftRowsBySwaps(s: Block, t: Block)
    requires t[0] == s[0] && t[1] == s[5] && t[2] == s[10] && t[3] == s[15]
    requires t[4] == s[4] && t[5] == s[9] && t[6] == s[14] && t[7] == s[3]
    requires t[8] == s[8] && t[9] == s[13] && t[10] == s[2] && t[11] == s[7]
    requires t[12] == s[12] && t[13] == s[1] && t[14] == s[6] && t[15] == s[11]
    ensures t == ShiftRowsFn(s)
  {
    SameBlock(t, ShiftRowsFn(s));
  }

  /**
   * A block holding the bytes that the temp swaps of inv_shift_rows move into each
   * position is InvShiftRowsFn of the original.
   */
  lemma InvShiftRowsBySwaps(s: Block, t: Block)
    requires t[0] == s[0] && t[1] == s[13] && t[2] == s[10] && t[3] == s[7]
    requires t[4] == s[4] && t[5] == s[1] && t[6] == s[14] && t[7] == s[11]
    requires t[8] == s[8] && t[9] == s[5] && t[10] == s[2] && t[11] == s[15]
    requires t[12] == s[12] && t[13] == s[9] && t[14] == s[6] && t[15] == s[3]
    ensures t == InvShiftRowsFn(s)
  {
    SameBlock(t, InvShiftRowsFn(s));
  }

  /** The temp swaps of shift_rows, written as updates of the block, compute ShiftRowsFn. */
  lemma ShiftRowsSwapChain(s: Block)
    ensures s[1 := s[5]][5 := s[9]][9 := s[13]][13 := s[1]]
             [2 := s[10]][10 := s[2]][6 := s[14]][14 := s[6]]
             [15 := s[11]][11 := s[7]][7 := s[3]][3 := s[15]]
         == ShiftRowsFn(s)
  {
    var t := s[1 := s[5]][5 := s[9]][9 := s[13]][13 := s[1]]
              [2 := s[10]][10 := s[2]][6 := s[14]][14 := s[6]]
              [15 := s[11]][11 := s[7]][7 := s[3]][3 := s[15]];
    assert t[0] == s[0] && t[1] == s[5] && t[2] == s[10] && t[3] == s[15];
    assert t[4] == s[4] && t[5] == s[9] && t[6] == s[14] && t[7] == s[3];
    assert t[8] == s[8] && t[9] == s[13] && t[10] == s[2] && t[11] == s[7];
    assert t[12] == s[12] && t[13] == s[1] && t[14] == s[6] && t[15] == s[11];
    ShiftRowsBySwaps(s, t);
  }

  /** The temp swaps of inv_shift_rows, written as updates of the block, compute InvShiftRowsFn. */
  lemma InvShiftRowsSwapChain(s: Block)
    ensures s[13 := s[9]][9 := s[5]][5 := s[1]][1 := s[13]]
             [2 := s[10]][10 := s[2]][6 := s[14]][14 := s[6]]
             [3 := s[7]][7 := s[11]][11 := s[15]][15 := s[3]]
         == InvShiftRowsFn(s)
  {
    var t := s[13 := s[9]][9 := s[5]][5 := s[1]][1 := s[13]]
              [2 := s[10]][10 := s[2]][6 := s[14]][14 := s[6]]
              [3 := s[7]][7 := s[11]][11 := s[15]][15 := s[3]];
    assert t[0] == s[0] && t[1] == s[13] && t[2] == s[10] && t[3] == s[7];
    assert t[4] == s[4] && t[5] == s[1] && t[6] == s[14] && t[7] == s[11];
    assert t[8] == s[8] && t[9] == s[5] && t[10] == s[2] && t[11] == s[15];
    assert t[12] == s[12] && t[13] == s[9] && t[14] == s[6] && t[15] == s[3];
    InvShiftRowsBySwaps(s, t);
  }

  // ---------------------------------------------------------------------
  // The in-place operations
  // ---------------------------------------------------------------------

  /** XORs state[0..15] with roundKey[offset..offset+15]. */
  method AddRoundKey(state: array<bv8>, roundKey: array<bv8>, offset: nat)
    requires state.Length == 16 && offset + 16 <= roundKey.Length
    requires state != roundKey
    modifies state
    ensures state[..] == AddRoundKeyFn(old(state[..]), roundKey[offset .. offset + 16])
  {
    for i := 0 to 16
      invariant forall j :: 0 <= j < i ==> state[j] == old(state[j]) ^ roundKey[offset + j]
      invariant forall j :: i <= j < 16 ==> state[j] == old(state[j])
    {
      state[i] := state[i] ^ roundKey[offset + i];
    }
  }

  method SubBytes(state: array<bv8>)
    requires state.Length == 16
    modifies state
    ensures state[..] == SubBytesFn(old(state[..]), SBOX)
  {
    for i := 0 to 16
      invariant forall j :: 0 <= j < i ==> state[j] == SBOX[old(state[j]) as int]
      invariant forall j :: i <= j < 16 ==> state[j] == old(state[j])
    {
      state[i] := SBOX[state[i] as int];
    }
  }

  method InvSubBytes(state: array<bv8>)
    requires state.Length == 16
    modifies state
    ensures state[..] == SubBytesFn(old(state[..]), INV_SBOX)
  {
    for i := 0 to 16
      invariant forall j :: 0 <= j < i ==> state[j] == INV_SBOX[old(state[j]) as int]
      invariant forall j :: i <= j < 16 ==> state[j] == old(state[j])
    {
      state[i] := INV_SBOX[state[i] as int];
    }
  }

  method ShiftRows(state: array<bv8>)
    requires state.Length == 16
    modifies state
    ensures state[..] == ShiftRowsFn(old(state[..]))
  {
    var temp: bv8;
    // row 1: left by 1
    temp := state[1];
    state[1] := state[5];
    state[5] := state[9];
    state[9] := state[13];
    state[13] := temp;
    // row 2: left by 2
    temp := state[2];
    state[2] := state[10];
    state[10] := temp;
    temp := state[6];
    state[6] := state[14];
    state[14] := temp;
    // row 3: left by 3
    temp := state[15];
    state[15] := state[11];
    state[11] := state[7];
    state[7] := state[3];
    state[3] := temp;
    assert state[..] == old(state[..])[1 := old(state[5])][5 := old(state[9])][9 := old(state[13])][13 := old(state[1])]
                                       [2 := old(state[10])][10 := old(state[2])][6 := old(state[14])][14 := old(state[6])]
                                       [15 := old(state[11])][11 := old(state[7])][7 := old(state[3])][3 := old(state[15])];
    ShiftRowsSwapChain(old(state[..]));
  }

  method InvShiftRows(state: array<bv8>)
    requires state.Length == 16
    modifies state
    ensures state[..] == InvShiftRowsFn(old(state[..]))
  {
    var temp: bv8;
    // row 1: right by 1
    temp := state[13];
    state[13] := state[9];
    state[9] := state[5];
    state[5] := state[1];
    state[1] := temp;
    // row 2: right by 2
    temp := state[2];
    state[2] := state[10];
    state[10] := temp;
    temp := state[6];
    state[6] := state[14];
    state[14] := temp;
    // row 3: right by 3
    temp := state[3];
    state[3] := state[7];
    state[7] := state[11];
    state[11] := state[15];
    state[15] := temp;
    assert state[..] == old(state[..])[13 := old(state[9])][9 := old(state[5])][5 := old(state[1])][1 := old(state[13])]
                                       [2 := old(state[10])][10 := old(state[2])][6 := old(state[14])][14 := old(state[6])]
                                       [3 := old(state[7])][7 := old(state[11])][11 := old(state[15])][15 := old(state[3])];
    InvShiftRowsSwapChain(old(state[..]));
  }

  /**
   * Encrypts text[0..15] in place with the key in key[0..15].  The round keys
   * of rounds 1..10 come from `uninit`, the 160 bytes of the round-key buffer
   * that the call never writes.
   */
  method AesCipher(text: array<bv8>, key: array<bv8>, uninit: seq<bv8>)
    requires text.Length >= 16 && key.Length >= 16 && |uninit| == 160
    modifies text
    ensures text[..16] == Encrypt(old(text[..16]), Material(old(key[..]), uninit), SBOX)
    ensures text[16..] == old(text[16..])
    ensures text != key ==> key[..] == old(key[..])
  {
    var state := LoadBlock(text);
    ghost var input := state[..];
    var expandedKey := BuildKeyMaterial(key, uninit);
    ghost var ek: KeyMaterial := expandedKey[..];

    AddRoundKey(state, expandedKey, 0);
    assert state[..] == AddRoundKeyFn(input, RoundKey(ek, 0));
    ghost var target := Encrypt(input, ek, SBOX);
    var round := 1;
    while round < Nr
      invariant 1 <= round <= Nr
      invariant expandedKey[..] == ek && text[..] == old(text[..])
      invariant EncryptFrom(state[..], ek, SBOX, round) == target
    {
      ghost var before := state[..];
      SubBytes(state);
      ShiftRows(state);
      // mix_columns is not performed
      AddRoundKey(state, expandedKey, round * 16);
      assert state[..] == Round(before, ek, SBOX, round);
      round := round + 1;
    }
    ghost var last := state[..];
    SubBytes(state);
    ShiftRows(state);
    AddRoundKey(state, expandedKey, Nr * 16);
    assert state[..] == EncryptFrom(last, ek, SBOX, Nr);

    StoreBlock(text, state);
  }

  /**
   * Decodes cipherText[0..15] in place with the key in key[0..15]; the
   * round-key material is built as in AesCipher.
   */
  method AesDecode(cipherText: array<bv8>, key: array<bv8>, uninit: seq<bv8>)
    requires cipherText.Length >= 16 && key.Length >= 16 && |uninit| == 160
    modifies cipherText
    ensures cipherText[..16]
         == Decrypt(old(cipherText[..16]), Material(old(key[..]), uninit), INV_SBOX)
    ensures cipherText[16..] == old(cipherText[16..])
    ensures cipherText != key ==> key[..] == old(key[..])
  {
    var state := LoadBlock(cipherText);
    ghost var input := state[..];
    var expandedKey := BuildKeyMaterial(key, uninit);
    ghost var ek: KeyMaterial := expandedKey[..];

    AddRoundKey(state, expandedKey, Nr * 16);
    assert state[..] == AddRoundKeyFn(input, RoundKey(ek, Nr));
    ghost var target := Decrypt(input, ek, INV_SBOX);
    var round := Nr - 1;
    while round > 0
      invariant 0 <= round <= Nr - 1
      invariant expandedKey[..] == ek && cipherText[..] == old(cipherText[..])
      invariant DecryptFrom(state[..], ek, INV_SBOX, round) == target
    {
      ghost var before := state[..];
      InvShiftRows(state);
      InvSubBytes(state);
      AddRoundKey(state, expandedKey, round * 16);
      // inv_mix_columns is not performed
      assert state[..] == InvRound(before, ek, INV_SBOX, round);
      round := round - 1;
    }
    ghost var last := state[..];
    InvShiftRows(state);
    InvSubBytes(state);
    AddRoundKey(state, expandedKey, 0);
    assert state[..] == DecryptFrom(last, ek, INV_SBOX, 0);

    StoreBlock(cipherText, state);
  }

  /** The memcpy of a caller's first 16 bytes into a fresh local state. */
  method LoadBlock(src: array<bv8>) returns (state: array<bv8>)
    requires src.Length >= 16
    ensures fresh(state) && state[..] == src[..16]
  {
    var input := src[..16];
    state := new bv8[16](i requires 0 <= i < 16 => input[i]);
    assert state[..] == input;
  }

  /** The memcpy of the local state back over the caller's first 16 bytes. */
  method StoreBlock(dst: array<bv8>, state: array<bv8>)
    requires dst.Length >= 16 && state.Length == 16 && dst != state
    modifies dst
    ensures dst[..16] == state[..] && dst[16..] == old(dst[16..])
  {
    forall i | 0 <= i < 16 {
      dst[i] := state[i];
    }
    assert dst[..16] == state[..];
  }

  /**
   * The local round-key buffer of both entry points: the key copied into
   * bytes 0..15, bytes 16..175 left as they were (`uninit`).
   */
  method BuildKeyMaterial(key: array<bv8>, uninit: seq<bv8>) returns (expandedKey: array<bv8>)
    requires key.Length >= 16 && |uninit| == 160
    ensures fresh(expandedKey) && expandedKey.Length == 176
    ensures expandedKey[..] == Material(key[..], uninit)
  {
    expandedKey := new bv8[176](i requires 0 <= i < 176 => if i < 16 then 0 else uninit[i - 16]);
    forall i | 0 <= i < 16 {
      expandedKey[i] := key[i];
    }
    assert expandedKey[..] == Material(key[..], uninit);
  }
}
