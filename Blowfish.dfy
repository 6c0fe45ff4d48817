// Blowfish as implemented by Botan: 8-byte blocks, 16 Feistel rounds over the
// round keys P[0..18] and the S-boxes S1..S4 of 256 words each.  The halves
// are loaded and stored big-endian.
//
// Decryption undoes encryption for every choice of table contents: the
// round-trip lemmas below need nothing about the constant tables PBOX and
// SBOX1..SBOX4, which the model takes as given values of the stated lengths.

module Blowfish {
  import opened Words

  const BLOCK_SIZE: nat := 8
  const P_WORDS: nat := 18
  const SBOX_WORDS: nat := 256
  const ROUNDS: nat := 16

  /** The five tables by number: 0 is P, 1 to 4 are S1 to S4. */
  type Box = b: nat | b < 5

  const PBox: Box := 0
  const SBox1: Box := 1
  const SBox2: Box := 2
  const SBox3: Box := 3
  const SBox4: Box := 4

  function BoxSize(b: Box): nat
  {
    if b == PBox then P_WORDS else SBOX_WORDS
  }

  /** The five tables as values, indexed by Box. */
  type Tables = seq<seq<word>>

  predicate ValidTables(t: Tables)
  {
    |t| == 5 && forall b: Box :: |t[b]| == BoxSize(b)
  }

  /** Five tables of the lengths of P and S1..S4 are valid. */
  lemma TablesOfLengths(t: Tables)
    requires |t| == 5 && |t[PBox]| == P_WORDS
    requires |t[SBox1]| == SBOX_WORDS && |t[SBox2]| == SBOX_WORDS && |t[SBox3]| == SBOX_WORDS && |t[SBox4]| == SBOX_WORDS
    ensures ValidTables(t)
  {
    forall b: Box ensures |t[b]| == BoxSize(b) {
      if b == 0 {} else if b == 1 {} else if b == 2 {} else if b == 3 {} else {}
    }
  }

  /** The Blowfish round function: ((S1[a] + S2[b]) ^ S3[c]) + S4[d] for the bytes a, b, c, d of x, most significant first. */
  function F(t: Tables, x: word): word
    requires ValidTables(t)
  {
    Add(Xor(Add(t[SBox1][GetByte(0, x)], t[SBox2][GetByte(1, x)]), t[SBox3][GetByte(2, x)]), t[SBox4][GetByte(3, x)])
  }

  datatype Halves = Halves(L: word, R: word)

  /**
   * One Feistel round with round key k, the halves swapped afterwards:
   * L ^= k; R ^= F(L); then (L, R) := (R, L).  Botan's loop runs two rounds
   * per iteration and does the swap by alternating the roles of L and R.
   */
  function Round(t: Tables, k: word, h: Halves): Halves
    requires ValidTables(t)
  {
    Halves(Xor(h.R, F(t, Xor(h.L, k))), Xor(h.L, k))
  }

  /** The halves after the first n rounds of encryption, round i using P[i]. */
  function EncRounds(t: Tables, h: Halves, n: nat): Halves
    requires ValidTables(t) && n <= ROUNDS
  {
    if n == 0 then h else Round(t, t[PBox][n - 1], EncRounds(t, h, n - 1))
  }

  /** The halves after the first n rounds of decryption, round i using P[17 - i]. */
  function DecRounds(t: Tables, h: Halves, n: nat): Halves
    requires ValidTables(t) && n <= ROUNDS
  {
    if n == 0 then h else Round(t, t[PBox][18 - n], DecRounds(t, h, n - 1))
  }

  /** enc() on the halves: 16 rounds, then R ^ P[17] becomes the first output word and L ^ P[16] the second. */
  function EncryptHalves(t: Tables, h: Halves): Halves
    requires ValidTables(t)
  {
    var s := EncRounds(t, h, ROUNDS);
    Halves(Xor(s.R, t[PBox][17]), Xor(s.L, t[PBox][16]))
  }

  /** dec() on the halves: 16 rounds with P[17] down to P[2], then R ^ P[0] and L ^ P[1]. */
  function DecryptHalves(t: Tables, h: Halves): Halves
    requires ValidTables(t)
  {
    var s := DecRounds(t, h, ROUNDS);
    Halves(Xor(s.R, t[PBox][0]), Xor(s.L, t[PBox][1]))
  }

  lemma XorCancelMiddle(a: word, b: word, c: word)
    ensures Xor(Xor(Xor(a, b), c), b) == Xor(a, c)
  {
    assert ((a ^ b) ^ c) ^ b == a ^ c;
  }

  /**
   * m decryption rounds applied to the encryption result reach the state
   * after 16 - m encryption rounds, up to the two round keys that the next
   * steps remove.
   */
  lemma {:induction false} DecRoundsEncRounds(t: Tables, h: Halves, m: nat)
    requires ValidTables(t) && m <= ROUNDS
    ensures DecRounds(t, EncryptHalves(t, h), m)
         == Halves(Xor(EncRounds(t, h, 16 - m).R, t[PBox][17 - m]), Xor(EncRounds(t, h, 16 - m).L, t[PBox][16 - m]))
  {
    if m > 0 {
      DecRoundsEncRounds(t, h, m - 1);
      var s := EncRounds(t, h, 17 - m);
      var s0 := EncRounds(t, h, 16 - m);
      var k := t[PBox][18 - m];
      var d := DecRounds(t, EncryptHalves(t, h), m - 1);
      assert d == Halves(Xor(s.R, k), Xor(s.L, t[PBox][17 - m]));
      assert s == Round(t, t[PBox][16 - m], s0);
      XorXor(s.R, k);
      XorCancelMiddle(s0.R, F(t, s.R), t[PBox][17 - m]);
      XorXor(s0.L, t[PBox][16 - m]);
    }
  }

  /** Decryption inverts encryption on the halves, for all tables. */
  lemma DecryptHalvesEncryptHalves(t: Tables, h: Halves)
    requires ValidTables(t)
    ensures DecryptHalves(t, EncryptHalves(t, h)) == h
  {
    DecRoundsEncRounds(t, h, ROUNDS);
    XorXor(h.L, t[PBox][0]);
    XorXor(h.R, t[PBox][1]);
  }

  /** The round keys in reverse order. */
  function ReverseKeys(P: seq<word>): (Q: seq<word>)
    requires |P| == P_WORDS
    ensures |Q| == P_WORDS && forall i :: 0 <= i < P_WORDS ==> Q[i] == P[17 - i]
  {
    seq(P_WORDS, i requires 0 <= i < P_WORDS => P[17 - i])
  }

  /** Rounds of decryption are rounds of encryption with the round keys reversed. */
  lemma {:induction false} DecRoundsReversed(t: Tables, h: Halves, n: nat)
    requires ValidTables(t) && n <= ROUNDS
    ensures DecRounds(t, h, n) == EncRounds(t[PBox := ReverseKeys(t[PBox])], h, n)
  {
    if n > 0 {
      DecRoundsReversed(t, h, n - 1);
    }
  }

  /** dec() is enc() under the reversed round keys, the S-boxes unchanged. */
  lemma DecryptIsReversedEncrypt(t: Tables, h: Halves)
    requires ValidTables(t)
    ensures DecryptHalves(t, h) == EncryptHalves(t[PBox := ReverseKeys(t[PBox])], h)
  {
    DecRoundsReversed(t, h, ROUNDS);
  }

  /** Encryption inverts decryption on the halves, for all tables. */
  lemma EncryptHalvesDecryptHalves(t: Tables, h: Halves)
    requires ValidTables(t)
    ensures EncryptHalves(t, DecryptHalves(t, h)) == h
  {
    var t' := t[PBox := ReverseKeys(t[PBox])];
    assert ReverseKeys(t'[PBox]) == t[PBox];
    assert t'[PBox := ReverseKeys(t'[PBox])] == t;
    DecryptIsReversedEncrypt(t, h);
    DecryptIsReversedEncrypt(t', EncryptHalves(t', h));
    DecryptHalvesEncryptHalves(t', h);
  }

  /** L is in[0..4] and R is in[4..8], both big-endian. */
  function LoadHalves(block: seq<byte>): Halves
    requires |block| == BLOCK_SIZE
  {
    Halves(LoadBE(block, 0), LoadBE(block, 4))
  }

  function StoreHalves(h: Halves): (block: seq<byte>)
    ensures |block| == BLOCK_SIZE
  {
    StoreBE(h.L) + StoreBE(h.R)
  }

  lemma LoadHalvesStoreHalves(h: Halves)
    ensures LoadHalves(StoreHalves(h)) == h
  {
    var block := StoreHalves(h);
    LoadStoreBE(h.L);
    LoadStoreBE(h.R);
    assert block[0..4] == StoreBE(h.L) && block[4..8] == StoreBE(h.R);
  }

  lemma StoreHalvesLoadHalves(block: seq<byte>)
    requires |block| == BLOCK_SIZE
    ensures StoreHalves(LoadHalves(block)) == block
  {
    StoreLoadBE(block, 0);
    StoreLoadBE(block, 4);
    assert block == block[0..4] + block[4..8];
  }

  function EncryptBlock(t: Tables, block: seq<byte>): (out: seq<byte>)
    requires ValidTables(t) && |block| == BLOCK_SIZE
    ensures |out| == BLOCK_SIZE
  {
    StoreHalves(EncryptHalves(t, LoadHalves(block)))
  }

  function DecryptBlock(t: Tables, block: seq<byte>): (out: seq<byte>)
    requires ValidTables(t) && |block| == BLOCK_SIZE
    ensures |out| == BLOCK_SIZE
  {
    StoreHalves(DecryptHalves(t, LoadHalves(block)))
  }

  /** dec(enc(b)) == b for every block and every table contents. */
  lemma DecryptEncrypt(t: Tables, block: seq<byte>)
    requires ValidTables(t) && |block| == BLOCK_SIZE
    ensures DecryptBlock(t, EncryptBlock(t, block)) == block
  {
    LoadHalvesStoreHalves(EncryptHalves(t, LoadHalves(block)));
    DecryptHalvesEncryptHalves(t, LoadHalves(block));
    StoreHalvesLoadHalves(block);
  }

  /** enc(dec(b)) == b for every block and every table contents. */
  lemma EncryptDecrypt(t: Tables, block: seq<byte>)
    requires ValidTables(t) && |block| == BLOCK_SIZE
    ensures EncryptBlock(t, DecryptBlock(t, block)) == block
  {
    LoadHalvesStoreHalves(DecryptHalves(t, LoadHalves(block)));
    EncryptHalvesDecryptHalves(t, LoadHalves(block));
    StoreHalvesLoadHalves(block);
  }

  // The key schedule.

  /** The key word XORed into P[j]: bytes 4j..4j+3 of the key, taken cyclically, big-endian. */
  function KeyWord(key: seq<byte>, j: nat): word
    requires |key| > 0
  {
    var n := |key|;
    MakeWord(key[(4 * j) % n], key[(4 * j + 1) % n], key[(4 * j + 2) % n], key[(4 * j + 3) % n])
  }

  /** P after the first loop of key(). */
  function XorKey(P: seq<word>, key: seq<byte>): (Q: seq<word>)
    requires |P| == P_WORDS && |key| > 0
    ensures |Q| == P_WORDS && forall j :: 0 <= j < P_WORDS ==> Q[j] == Xor(P[j], KeyWord(key, j))
  {
    seq(P_WORDS, j requires 0 <= j < P_WORDS => Xor(P[j], KeyWord(key, j)))
  }

  // Arithmetic facts behind the cyclic key index (k + i) % length.

  /** i mod 2n is i mod n, or n more than it. */
  lemma {:induction false} ModDouble(i: nat, n: nat)
    requires n > 0
    ensures i % (2 * n) < n ==> i % (2 * n) == i % n
    ensures i % (2 * n) >= n ==> i % (2 * n) - n == i % n
    decreases i
  {
    if i < n {
      ModSmall(i, 2 * n);
      ModSmall(i, n);
    } else if i < 2 * n {
      ModSmall(i, 2 * n);
      ModAddN(i - n, n);
      ModSmall(i - n, n);
    } else {
      ModAddN(i - 2 * n, 2 * n);
      ModAddN(i - 2 * n, n);
      ModAddN(i - n, n);
      ModDouble(i - 2 * n, n);
    }
  }

  /** An index into key + key, reduced mod 2n, lands on the byte the index reduced mod n selects in key. */
  lemma DoubledIndex(key: seq<byte>, i: nat)
    requires |key| > 0
    ensures (key + key)[i % (2 * |key|)] == key[i % |key|]
  {
    ModDouble(i, |key|);
  }

  /** A key and the same key written twice give the same key words. */
  lemma KeyWordRepeated(key: seq<byte>, j: nat)
    requires |key| > 0
    ensures KeyWord(key + key, j) == KeyWord(key, j)
  {
    DoubledIndex(key, 4 * j);
    DoubledIndex(key, 4 * j + 1);
    DoubledIndex(key, 4 * j + 2);
    DoubledIndex(key, 4 * j + 3);
  }

  /** The tables with entry i of box b set to v. */
  function Set(t: Tables, b: Box, i: nat, v: word): (t': Tables)
    requires ValidTables(t) && i < BoxSize(b)
    ensures ValidTables(t')
  {
    t[b := t[b][i := v]]
  }

  /** An even number below an even bound is at least two below it. */
  lemma EvenBelow(j: nat, size: nat)
    requires j % 2 == 0 && size % 2 == 0 && j < size
    ensures j + 2 <= size
  {
  }

  /** The tables and the running (L, R) of a generate_sbox run. */
  datatype Gen = Gen(t: Tables, h: Halves)

  /** Encryption of the halves under tables of any shape (the shape is always valid where it is used). */
  function Encipher(t: Tables, h: Halves): Halves
  {
    if ValidTables(t) then EncryptHalves(t, h) else h
  }

  /**
   * One iteration of generate_sbox, for any cipher enc: the running (L, R)
   * is encrypted under the tables as they stand, and the result is written
   * to entries j and j + 1 of box b.
   */
  function GenStep(enc: (Tables, Halves) -> Halves, g: Gen, b: Box, j: nat): (g': Gen)
    requires ValidTables(g.t) && j + 1 < BoxSize(b)
    ensures ValidTables(g'.t)
  {
    var e := enc(g.t, g.h);
    Gen(Set(Set(g.t, b, j, e.L), b, j + 1, e.R), e)
  }

  /** generate_sbox after n of its iterations. */
  function GenSteps(enc: (Tables, Halves) -> Halves, t: Tables, b: Box, h: Halves, n: nat): (g: Gen)
    requires ValidTables(t) && 2 * n <= BoxSize(b)
    ensures ValidTables(g.t)
  {
    if n == 0 then Gen(t, h) else GenStep(enc, GenSteps(enc, t, b, h, n - 1), b, 2 * n - 2)
  }

  /** enc is Blowfish encryption on valid tables. */
  ghost predicate IsBlowfish(enc: (Tables, Halves) -> Halves)
  {
    forall t, h {:trigger Encipher(t, h)} :: enc(t, h) == Encipher(t, h)
  }

  /** generate_sbox(box, size, L, R) as a function: all size / 2 iterations under Blowfish itself. */
  function GenerateBox(t: Tables, b: Box, h: Halves): (g: Gen)
    requires ValidTables(t)
    ensures ValidTables(g.t)
  {
    GenSteps(Encipher, t, b, h, BoxSize(b) / 2)
  }

  /** One iteration writes entries j and j + 1 of box b and nothing else. */
  lemma GenStepEntries(enc: (Tables, Halves) -> Halves, g: Gen, b: Box, j: nat, c: Box, i: nat)
    requires ValidTables(g.t) && j + 1 < BoxSize(b) && i < BoxSize(c)
    ensures GenStep(enc, g, b, j).t[c][i]
         == if c == b && i == j then enc(g.t, g.h).L
            else if c == b && i == j + 1 then enc(g.t, g.h).R
            else g.t[c][i]
  {
  }

  /** The first n iterations change only box b, and in it only the entries below 2n. */
  lemma {:induction false} GenStepsFrame(enc: (Tables, Halves) -> Halves, t: Tables, b: Box, h: Halves, n: nat, c: Box, i: nat)
    requires ValidTables(t) && 2 * n <= BoxSize(b) && i < BoxSize(c) && (c != b || 2 * n <= i)
    ensures GenSteps(enc, t, b, h, n).t[c][i] == t[c][i]
  {
    if n > 0 {
      GenStepsFrame(enc, t, b, h, n - 1, c, i);
      GenStepEntries(enc, GenSteps(enc, t, b, h, n - 1), b, 2 * n - 2, c, i);
    }
  }

  /**
   * Entries 2k and 2k + 1 of box b end up holding the running (L, R) after
   * k + 1 iterations: the encryption of the running pair under the tables
   * as they stood after k iterations.
   */
  lemma {:induction false} GenStepsPair(enc: (Tables, Halves) -> Halves, t: Tables, b: Box, h: Halves, n: nat, k: nat)
    requires ValidTables(t) && 2 * n <= BoxSize(b) && k < n
    ensures GenSteps(enc, t, b, h, n).t[b][2 * k] == GenSteps(enc, t, b, h, k + 1).h.L
    ensures GenSteps(enc, t, b, h, n).t[b][2 * k + 1] == GenSteps(enc, t, b, h, k + 1).h.R
  {
    var g := GenSteps(enc, t, b, h, n - 1);
    GenStepEntries(enc, g, b, 2 * n - 2, b, 2 * k);
    GenStepEntries(enc, g, b, 2 * n - 2, b, 2 * k + 1);
    if k < n - 1 {
      GenStepsPair(enc, t, b, h, n - 1, k);
    }
  }

  /** The running (L, R) after k + 1 iterations is the encryption of the one after k under the tables after k. */
  lemma GenStepsChain(t: Tables, b: Box, h: Halves, k: nat)
    requires ValidTables(t) && 2 * (k + 1) <= BoxSize(b)
    ensures var g := GenSteps(Encipher, t, b, h, k);
            GenSteps(Encipher, t, b, h, k + 1).h == EncryptHalves(g.t, g.h)
  {
  }

  /** generate_sbox writes every entry of box b, in pairs, and leaves the other boxes as they were. */
  lemma GenerateBoxEntries(t: Tables, b: Box, h: Halves)
    requires ValidTables(t)
    ensures forall c: Box, i: nat | c != b && i < BoxSize(c) :: GenerateBox(t, b, h).t[c][i] == t[c][i]
    ensures forall k | 0 <= k < BoxSize(b) / 2 ::
              GenerateBox(t, b, h).t[b][2 * k] == GenSteps(Encipher, t, b, h, k + 1).h.L
              && GenerateBox(t, b, h).t[b][2 * k + 1] == GenSteps(Encipher, t, b, h, k + 1).h.R
  {
    var n := BoxSize(b) / 2;
    forall c: Box, i: nat | c != b && i < BoxSize(c) ensures GenerateBox(t, b, h).t[c][i] == t[c][i] {
      GenStepsFrame(Encipher, t, b, h, n, c, i);
    }
    forall k | 0 <= k < n
      ensures GenerateBox(t, b, h).t[b][2 * k] == GenSteps(Encipher, t, b, h, k + 1).h.L
      ensures GenerateBox(t, b, h).t[b][2 * k + 1] == GenSteps(Encipher, t, b, h, k + 1).h.R
    {
      GenStepsPair(Encipher, t, b, h, n, k);
    }
  }

  /** key() as a function of the tables it starts from and the key bytes. */
  function KeySchedule(init: Tables, key: seq<byte>): (t: Tables)
    requires ValidTables(init) && |key| > 0
    ensures ValidTables(t)
  {
    var t0 := init[PBox := XorKey(init[PBox], key)];
    var g1 := GenerateBox(t0, PBox, Halves(0, 0));
    var g2 := GenerateBox(g1.t, SBox1, g1.h);
    var g3 := GenerateBox(g2.t, SBox2, g2.h);
    var g4 := GenerateBox(g3.t, SBox3, g3.h);
    var g5 := GenerateBox(g4.t, SBox4, g4.h);
    g5.t
  }

  /** Repeating the key does not change the schedule. */
  lemma KeyScheduleRepeated(init: Tables, key: seq<byte>)
    requires ValidTables(init) && |key| > 0
    ensures KeySchedule(init, key + key) == KeySchedule(init, key)
  {
    forall j | 0 <= j < P_WORDS
      ensures XorKey(init[PBox], key + key)[j] == XorKey(init[PBox], key)[j]
    {
      KeyWordRepeated(key, j);
    }
    assert XorKey(init[PBox], key + key) == XorKey(init[PBox], key);
  }

  class Blowfish {
    /** The constant tables PBOX and SBOX1..SBOX4. */
    const PBOX: seq<word>
    const SBOX1: seq<word>
    const SBOX2: seq<word>
    const SBOX3: seq<word>
    const SBOX4: seq<word>

    const P: array<word>
    const S1: array<word>
    const S2: array<word>
    const S3: array<word>
    const S4: array<word>

    ghost predicate Valid()
      reads this
    {
      |PBOX| == P_WORDS && |SBOX1| == SBOX_WORDS && |SBOX2| == SBOX_WORDS && |SBOX3| == SBOX_WORDS && |SBOX4| == SBOX_WORDS
      && P.Length == P_WORDS && S1.Length == SBOX_WORDS && S2.Length == SBOX_WORDS
      && S3.Length == SBOX_WORDS && S4.Length == SBOX_WORDS
      && P != S1 && P != S2 && P != S3 && P != S4
      && S1 != S2 && S1 != S3 && S1 != S4 && S2 != S3 && S2 != S4 && S3 != S4
    }

    /** The tables clear() restores. */
    function InitialTables(): (t: Tables)
      requires Valid()
      reads this
      ensures ValidTables(t)
    {
      var t := [PBOX, SBOX1, SBOX2, SBOX3, SBOX4];
      TablesOfLengths(t);
      t
    }

    /** The current contents of P and S1..S4. */
    function Current(): (t: Tables)
      requires Valid()
      reads this, P, S1, S2, S3, S4
      ensures ValidTables(t)
    {
      var t := [P[..], S1[..], S2[..], S3[..], S4[..]];
      TablesOfLengths(t);
      t
    }

    function BoxArray(b: Box): array<word>
      reads this
    {
      if b == PBox then P else if b == SBox1 then S1 else if b == SBox2 then S2 else if b == SBox3 then S3 else S4
    }

    /** A new cipher over the given constant tables; its own tables start zeroed. */
    constructor (pbox: seq<word>, sbox1: seq<word>, sbox2: seq<word>, sbox3: seq<word>, sbox4: seq<word>)
      requires |pbox| == P_WORDS && |sbox1| == SBOX_WORDS && |sbox2| == SBOX_WORDS && |sbox3| == SBOX_WORDS && |sbox4| == SBOX_WORDS
      ensures Valid() && InitialTables() == [pbox, sbox1, sbox2, sbox3, sbox4]
      ensures fresh(P) && fresh(S1) && fresh(S2) && fresh(S3) && fresh(S4)
      ensures Current() == [seq(P_WORDS, _ => 0), seq(SBOX_WORDS, _ => 0), seq(SBOX_WORDS, _ => 0), seq(SBOX_WORDS, _ => 0), seq(SBOX_WORDS, _ => 0)]
    {
      PBOX, SBOX1, SBOX2, SBOX3, SBOX4 := pbox, sbox1, sbox2, sbox3, sbox4;
      P := new word[P_WORDS](_ => 0);
      S1 := new word[SBOX_WORDS](_ => 0);
      S2 := new word[SBOX_WORDS](_ => 0);
      S3 := new word[SBOX_WORDS](_ => 0);
      S4 := new word[SBOX_WORDS](_ => 0);
      new;
      assert P[..] == seq(P_WORDS, _ => 0);
      assert S1[..] == seq(SBOX_WORDS, _ => 0) && S2[..] == seq(SBOX_WORDS, _ => 0);
      assert S3[..] == seq(SBOX_WORDS, _ => 0) && S4[..] == seq(SBOX_WORDS, _ => 0);
    }

    /** The round function on the current tables: ((S1[a] + S2[b]) ^ S3[c]) + S4[d]. */
    method RoundFunction(x: word) returns (y: word)
      requires Valid()
      ensures y == F(Current(), x)
    {
      y := Add(Xor(Add(S1[GetByte(0, x)], S2[GetByte(1, x)]), S3[GetByte(2, x)]), S4[GetByte(3, x)]);
    }

    /** The loop shared by enc() and generate_sbox(): 16 rounds, two per iteration. */
    method Rounds(L0: word, R0: word) returns (L: word, R: word)
      requires Valid()
      ensures Halves(L, R) == EncRounds(Current(), Halves(L0, R0), ROUNDS)
    {
      ghost var t := Current();
      assert t[PBox] == P[..];
      L, R := L0, R0;
      var j := 0;
      while j != ROUNDS
        invariant j % 2 == 0 && j <= ROUNDS
        invariant Halves(L, R) == EncRounds(t, Halves(L0, R0), j)
      {
        L := Xor(L, P[j]);
        var f := RoundFunction(L);
        R := Xor(R, f);
        assert Halves(R, L) == EncRounds(t, Halves(L0, R0), j + 1);

        R := Xor(R, P[j + 1]);
        f := RoundFunction(R);
        L := Xor(L, f);
        j := j + 2;
      }
    }

    /** enc(): reads the tables and changes nothing. */
    method Encrypt(input: seq<byte>) returns (output: seq<byte>)
      requires Valid() && |input| == BLOCK_SIZE
      ensures output == EncryptBlock(Current(), input)
    {
      var L, R := LoadBE(input, 0), LoadBE(input, 4);
      L, R := Rounds(L, R);
      L := Xor(L, P[16]);
      R := Xor(R, P[17]);
      output := StoreBE(R) + StoreBE(L);
    }

    /** dec()'s loop: the 16 rounds with P[17] down to P[2], two per iteration. */
    method DecryptRounds(L0: word, R0: word) returns (L: word, R: word)
      requires Valid()
      ensures Halves(L, R) == DecRounds(Current(), Halves(L0, R0), ROUNDS)
    {
      ghost var t := Current();
      assert t[PBox] == P[..];
      L, R := L0, R0;
      ghost var h := Halves(L0, R0);
      var j := 17;
      ghost var n := 0;
      while j != 1
        invariant j == 17 - 2 * n && n <= 8
        invariant Halves(L, R) == DecRounds(t, h, 2 * n)
      {
        L := Xor(L, P[j]);
        var f := RoundFunction(L);
        R := Xor(R, f);
        assert Halves(R, L) == DecRounds(t, h, 2 * n + 1);

        R := Xor(R, P[j - 1]);
        f := RoundFunction(R);
        L := Xor(L, f);
        j := j - 2;
        n := n + 1;
      }
    }

    /** dec(): reads the tables and changes nothing. */
    method Decrypt(input: seq<byte>) returns (output: seq<byte>)
      requires Valid() && |input| == BLOCK_SIZE
      ensures output == DecryptBlock(Current(), input)
    {
      var L, R := LoadBE(input, 0), LoadBE(input, 4);
      L, R := DecryptRounds(L, R);
      L := Xor(L, P[1]);
      R := Xor(R, P[0]);
      output := StoreBE(R) + StoreBE(L);
    }

    /** clear(): the tables become the constant tables again. */
    method Clear()
      requires Valid()
      modifies P, S1, S2, S3, S4
      ensures Current() == InitialTables()
    {
      forall i | 0 <= i < P_WORDS {
        P[i] := PBOX[i];
      }
      forall i | 0 <= i < SBOX_WORDS {
        S1[i] := SBOX1[i];
      }
      forall i | 0 <= i < SBOX_WORDS {
        S2[i] := SBOX2[i];
      }
      forall i | 0 <= i < SBOX_WORDS {
        S3[i] := SBOX3[i];
      }
      forall i | 0 <= i < SBOX_WORDS {
        S4[i] := SBOX4[i];
      }
      assert P[..] == PBOX && S1[..] == SBOX1 && S2[..] == SBOX2 && S3[..] == SBOX3 && S4[..] == SBOX4;
    }

    /** Box[j] = L; Box[j+1] = R, for the array of box b. */
    method StorePair(b: Box, j: nat, L: word, R: word)
      requires Valid() && j + 1 < BoxSize(b)
      modifies BoxArray(b)
      ensures Current() == Set(Set(old(Current()), b, j, L), b, j + 1, R)
    {
      var box := BoxArray(b);
      box[j] := L;
      box[j + 1] := R;
    }

    /** The body of generate_sbox's outer loop before the stores: 16 rounds and the final swap and whitening. */
    method EncryptPair(L0: word, R0: word) returns (L: word, R: word)
      requires Valid()
      ensures Halves(L, R) == Encipher(Current(), Halves(L0, R0))
    {
      L, R := Rounds(L0, R0);
      var T := R;
      R := Xor(L, P[16]);
      L := Xor(T, P[17]);
    }

    /** One iteration of generate_sbox's outer loop. */
    method GenerateStep(ghost enc: (Tables, Halves) -> Halves, b: Box, j: nat, L0: word, R0: word) returns (L: word, R: word)
      requires Valid() && IsBlowfish(enc) && j + 1 < BoxSize(b)
      modifies BoxArray(b)
      ensures Gen(Current(), Halves(L, R)) == GenStep(enc, Gen(old(Current()), Halves(L0, R0)), b, j)
    {
      L, R := EncryptPair(L0, R0);
      StorePair(b, j, L, R);
    }

    /**
     * generate_sbox(): box b is rewritten pair by pair with the running
     * (L, R) encrypted under the tables as they stand, box b included.
     */
    method GenerateSbox(ghost enc: (Tables, Halves) -> Halves, b: Box, L0: word, R0: word) returns (L: word, R: word)
      requires Valid() && IsBlowfish(enc)
      modifies BoxArray(b)
      ensures GenSteps(enc, old(Current()), b, Halves(L0, R0), BoxSize(b) / 2) == Gen(Current(), Halves(L, R))
    {
      var size := BoxArray(b).Length;
      ghost var t0 := Current();
      ghost var h0 := Halves(L0, R0);
      L, R := L0, R0;
      var j := 0;
      ghost var n := 0;
      while j != size
        invariant Valid() && j == 2 * n && j <= size && size == BoxSize(b)
        invariant GenSteps(enc, t0, b, h0, n) == Gen(Current(), Halves(L, R))
      {
        EvenBelow(j, size);
        L, R := GenerateStep(enc, b, j, L, R);
        j := j + 2;
        n := n + 1;
      }
      assert n == BoxSize(b) / 2;
    }

    /** The first loop of key(): P[j] ^= the j-th cyclic big-endian key word. */
    method MixKeyIntoP(key: seq<byte>)
      requires Valid() && |key| > 0
      modifies P
      ensures P[..] == XorKey(old(P[..]), key)
    {
      ghost var P0 := P[..];
      var j, k := 0, 0;
      var length := |key|;
      while j != P_WORDS
        invariant j <= P_WORDS && k == 4 * j
        invariant forall i :: 0 <= i < j ==> P[i] == Xor(P0[i], KeyWord(key, i))
        invariant forall i :: j <= i < P_WORDS ==> P[i] == P0[i]
      {
        var w := MakeWord(key[k % length], key[(k + 1) % length], key[(k + 2) % length], key[(k + 3) % length]);
        assert w == KeyWord(key, j);
        P[j] := Xor(P[j], w);
        j, k := j + 1, k + 4;
      }
      assert P[..] == XorKey(P0, key);
    }

    /** key(): the tables become the schedule of the key, whatever they held before. */
    method Key(key: seq<byte>)
      requires Valid() && |key| > 0
      modifies P, S1, S2, S3, S4
      ensures Current() == KeySchedule(InitialTables(), key)
    {
      Clear();
      MixKeyIntoP(key);
      assert Current() == InitialTables()[PBox := XorKey(PBOX, key)];
      var L, R := 0, 0;
      L, R := GenerateSbox(Encipher, PBox, L, R);
      L, R := GenerateSbox(Encipher, SBox1, L, R);
      L, R := GenerateSbox(Encipher, SBox2, L, R);
      L, R := GenerateSbox(Encipher, SBox3, L, R);
      L, R := GenerateSbox(Encipher, SBox4, L, R);
    }
  }
}
