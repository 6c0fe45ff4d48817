// RC6 as implemented by Botan: 16-byte blocks, keys of 1 to 32 bytes, 20
// rounds, a 44-word key schedule S.  Block words are loaded and stored
// little-endian.
//
// The round structure is first stated for an arbitrary round function `f`
// and an arbitrary register update `mix` with its inverse `unmix`: the
// decryption loop undoes the encryption loop for every such pair, which is
// the reason RC6 decrypts at all.  Botan's cipher is that structure with the
// round function F and the updates Mix/Unmix below.

module RC6 {
  import opened Words

  const BLOCK_SIZE: nat := 16
  const MIN_KEY_LENGTH: nat := 1
  const MAX_KEY_LENGTH: nat := 32
  const SCHEDULE_WORDS: nat := 44
  const ROUNDS: nat := 20
  const NAME: string := "RC6"

  const P32: word := 0xB7E15163
  const Q32: word := 0x9E3779B9

  /** A register update: the register, the two round-function values, the round key. */
  type Update<!W> = (W, W, W, W) -> W

  ghost predicate Undoes<W(!new)>(unmix: Update<W>, mix: Update<W>)
  {
    forall x, t1, t2, k :: unmix(mix(x, t1, t2, k), t1, t2, k) == x
  }

  lemma UndoesAt<W(!new)>(unmix: Update<W>, mix: Update<W>, x: W, t1: W, t2: W, k: W)
    requires Undoes(unmix, mix)
    ensures unmix(mix(x, t1, t2, k), t1, t2, k) == x
  {
  }

  datatype Regs<W> = Regs(a: W, b: W, c: W, d: W)

  /**
   * Round i of RC6 (1 <= i <= 20) with round keys k0 = S[2i] and k1 = S[2i+1]:
   * a and c are updated from f(b) and f(d), then the registers rotate,
   * (a, b, c, d) := (b, c, d, a).  Botan's loop runs four rounds per
   * iteration and does the rotation by renaming the registers.
   */
  function Round<W>(f: W -> W, mix: Update<W>, r: Regs<W>, k0: W, k1: W): Regs<W>
  {
    Regs(r.b, mix(r.c, f(r.d), f(r.b), k1), r.d, mix(r.a, f(r.b), f(r.d), k0))
  }

  /** The inverse of a round: the unrotated b and d are read off, and a and c are recovered from them. */
  function InvRound<W>(f: W -> W, unmix: Update<W>, r: Regs<W>, k0: W, k1: W): Regs<W>
  {
    Regs(unmix(r.d, f(r.a), f(r.c), k0), r.a, unmix(r.b, f(r.c), f(r.a), k1), r.c)
  }

  lemma InvRoundRound<W(!new)>(f: W -> W, mix: Update<W>, unmix: Update<W>, r: Regs<W>, k0: W, k1: W)
    requires Undoes(unmix, mix)
    ensures InvRound(f, unmix, Round(f, mix, r, k0, k1), k0, k1) == r
  {
    UndoesAt(unmix, mix, r.a, f(r.b), f(r.d), k0);
    UndoesAt(unmix, mix, r.c, f(r.d), f(r.b), k1);
  }

  lemma RoundInvRound<W(!new)>(f: W -> W, mix: Update<W>, unmix: Update<W>, r: Regs<W>, k0: W, k1: W)
    requires Undoes(mix, unmix)
    ensures Round(f, mix, InvRound(f, unmix, r, k0, k1), k0, k1) == r
  {
    UndoesAt(mix, unmix, r.d, f(r.a), f(r.c), k0);
    UndoesAt(mix, unmix, r.b, f(r.c), f(r.a), k1);
  }

  /** The registers after the first t rounds of encryption. */
  function EncRounds<W>(f: W -> W, mix: Update<W>, S: seq<W>, r: Regs<W>, t: nat): Regs<W>
    requires |S| == SCHEDULE_WORDS && t <= ROUNDS
  {
    if t == 0 then r else Round(f, mix, EncRounds(f, mix, S, r, t - 1), S[2 * t], S[2 * t + 1])
  }

  /** The registers after m rounds of decryption: the m-th undoes round 21 - m, with keys S[42-2m] and S[43-2m]. */
  function DecRounds<W>(f: W -> W, unmix: Update<W>, S: seq<W>, r: Regs<W>, m: nat): Regs<W>
    requires |S| == SCHEDULE_WORDS && m <= ROUNDS
  {
    if m == 0 then r
    else InvRound(f, unmix, DecRounds(f, unmix, S, r, m - 1), S[42 - 2 * m], S[43 - 2 * m])
  }

  /** m rounds of decryption undo the last m rounds of encryption. */
  lemma {:induction false} DecRoundsEncRounds<W(!new)>(f: W -> W, mix: Update<W>, unmix: Update<W>, S: seq<W>, r: Regs<W>, m: nat)
    requires |S| == SCHEDULE_WORDS && m <= ROUNDS && Undoes(unmix, mix)
    ensures DecRounds(f, unmix, S, EncRounds(f, mix, S, r, ROUNDS), m) == EncRounds(f, mix, S, r, ROUNDS - m)
  {
    if m > 0 {
      var top := EncRounds(f, mix, S, r, ROUNDS);
      DecRoundsEncRounds(f, mix, unmix, S, r, m - 1);
      var prev := EncRounds(f, mix, S, r, 20 - m);
      var k0, k1 := S[42 - 2 * m], S[43 - 2 * m];
      var next := EncRounds(f, mix, S, r, 21 - m);
      assert next == Round(f, mix, prev, k0, k1);
      assert DecRounds(f, unmix, S, top, m - 1) == next;
      assert DecRounds(f, unmix, S, top, m) == InvRound(f, unmix, next, k0, k1);
      InvRoundRound(f, mix, unmix, prev, k0, k1);
    }
  }

  /** m rounds of encryption undo the last m rounds of decryption. */
  lemma {:induction false} EncRoundsDecRounds<W(!new)>(f: W -> W, mix: Update<W>, unmix: Update<W>, S: seq<W>, r: Regs<W>, m: nat)
    requires |S| == SCHEDULE_WORDS && m <= ROUNDS && Undoes(mix, unmix)
    ensures EncRounds(f, mix, S, DecRounds(f, unmix, S, r, ROUNDS), m) == DecRounds(f, unmix, S, r, ROUNDS - m)
  {
    if m > 0 {
      var top := DecRounds(f, unmix, S, r, ROUNDS);
      EncRoundsDecRounds(f, mix, unmix, S, r, m - 1);
      var prev := DecRounds(f, unmix, S, r, 20 - m);
      var k0, k1 := S[2 * m], S[2 * m + 1];
      var next := DecRounds(f, unmix, S, r, 21 - m);
      assert next == InvRound(f, unmix, prev, k0, k1);
      assert EncRounds(f, mix, S, top, m - 1) == next;
      assert EncRounds(f, mix, S, top, m) == Round(f, mix, next, k0, k1);
      RoundInvRound(f, mix, unmix, prev, k0, k1);
    }
  }

  /** Rounds t+1 .. t+4 of encryption: one iteration of enc()'s loop. */
  function EncQuad<W>(f: W -> W, mix: Update<W>, S: seq<W>, r: Regs<W>, t: nat): Regs<W>
    requires |S| == SCHEDULE_WORDS && t + 4 <= ROUNDS
  {
    Round(f, mix, Round(f, mix, Round(f, mix, Round(f, mix, r,
      S[2 * t + 2], S[2 * t + 3]), S[2 * t + 4], S[2 * t + 5]), S[2 * t + 6], S[2 * t + 7]), S[2 * t + 8], S[2 * t + 9])
  }

  /** Rounds 20-t .. 17-t undone, the last first: one iteration of dec()'s loop. */
  function DecQuad<W>(f: W -> W, unmix: Update<W>, S: seq<W>, r: Regs<W>, t: nat): Regs<W>
    requires |S| == SCHEDULE_WORDS && t + 4 <= ROUNDS
  {
    InvRound(f, unmix, InvRound(f, unmix, InvRound(f, unmix, InvRound(f, unmix, r,
      S[40 - 2 * t], S[41 - 2 * t]), S[38 - 2 * t], S[39 - 2 * t]), S[36 - 2 * t], S[37 - 2 * t]), S[34 - 2 * t], S[35 - 2 * t])
  }

  /** Four encryption rounds from round t + 1 on are one loop iteration. */
  lemma EncRoundsFour<W>(f: W -> W, mix: Update<W>, S: seq<W>, r: Regs<W>, t: nat)
    requires |S| == SCHEDULE_WORDS && t + 4 <= ROUNDS
    ensures EncRounds(f, mix, S, r, t + 4) == EncQuad(f, mix, S, EncRounds(f, mix, S, r, t), t)
  {
    var r1 := EncRounds(f, mix, S, r, t + 1);
    var r2 := EncRounds(f, mix, S, r, t + 2);
    var r3 := EncRounds(f, mix, S, r, t + 3);
    assert r1 == Round(f, mix, EncRounds(f, mix, S, r, t), S[2 * t + 2], S[2 * t + 3]);
    assert r2 == Round(f, mix, r1, S[2 * t + 4], S[2 * t + 5]);
    assert r3 == Round(f, mix, r2, S[2 * t + 6], S[2 * t + 7]);
  }

  /** Four decryption steps from step t + 1 on are one loop iteration. */
  lemma DecRoundsFour<W>(f: W -> W, unmix: Update<W>, S: seq<W>, r: Regs<W>, t: nat)
    requires |S| == SCHEDULE_WORDS && t + 4 <= ROUNDS
    ensures DecRounds(f, unmix, S, r, t + 4) == DecQuad(f, unmix, S, DecRounds(f, unmix, S, r, t), t)
  {
    var r1 := DecRounds(f, unmix, S, r, t + 1);
    var r2 := DecRounds(f, unmix, S, r, t + 2);
    var r3 := DecRounds(f, unmix, S, r, t + 3);
    assert r1 == InvRound(f, unmix, DecRounds(f, unmix, S, r, t), S[40 - 2 * t], S[41 - 2 * t]);
    assert r2 == InvRound(f, unmix, r1, S[38 - 2 * t], S[39 - 2 * t]);
    assert r3 == InvRound(f, unmix, r2, S[36 - 2 * t], S[37 - 2 * t]);
  }

  /**
   * The body of enc()'s loop: four rounds, the registers renamed in turn
   * instead of rotated.
   */
  method EncryptIteration<W>(f: W -> W, mix: Update<W>, S: seq<W>, ghost w0: Regs<W>, w: Regs<W>, j: nat) returns (r: Regs<W>)
    requires |S| == SCHEDULE_WORDS && j + 4 <= ROUNDS && w == EncRounds(f, mix, S, w0, j)
    ensures r == EncRounds(f, mix, S, w0, j + 4)
  {
    EncRoundsFour(f, mix, S, w0, j);
    var A, B, C, D := w.a, w.b, w.c, w.d;
    var T1, T2;
    T1 := f(B);
    T2 := f(D);
    A := mix(A, T1, T2, S[2 * j + 2]);
    C := mix(C, T2, T1, S[2 * j + 3]);

    T1 := f(C);
    T2 := f(A);
    B := mix(B, T1, T2, S[2 * j + 4]);
    D := mix(D, T2, T1, S[2 * j + 5]);

    T1 := f(D);
    T2 := f(B);
    C := mix(C, T1, T2, S[2 * j + 6]);
    A := mix(A, T2, T1, S[2 * j + 7]);

    T1 := f(A);
    T2 := f(C);
    D := mix(D, T1, T2, S[2 * j + 8]);
    B := mix(B, T2, T1, S[2 * j + 9]);
    r := Regs(A, B, C, D);
  }

  /** The body of dec()'s loop. */
  method DecryptIteration<W>(f: W -> W, unmix: Update<W>, S: seq<W>, ghost w0: Regs<W>, w: Regs<W>, j: nat) returns (r: Regs<W>)
    requires |S| == SCHEDULE_WORDS && j + 4 <= ROUNDS && w == DecRounds(f, unmix, S, w0, j)
    ensures r == DecRounds(f, unmix, S, w0, j + 4)
  {
    DecRoundsFour(f, unmix, S, w0, j);
    var A, B, C, D := w.a, w.b, w.c, w.d;
    var T1, T2;
    T1 := f(A);
    T2 := f(C);
    B := unmix(B, T2, T1, S[41 - 2 * j]);
    D := unmix(D, T1, T2, S[40 - 2 * j]);

    T1 := f(D);
    T2 := f(B);
    A := unmix(A, T2, T1, S[39 - 2 * j]);
    C := unmix(C, T1, T2, S[38 - 2 * j]);

    T1 := f(C);
    T2 := f(A);
    D := unmix(D, T2, T1, S[37 - 2 * j]);
    B := unmix(B, T1, T2, S[36 - 2 * j]);

    T1 := f(B);
    T2 := f(D);
    C := unmix(C, T2, T1, S[35 - 2 * j]);
    A := unmix(A, T1, T2, S[34 - 2 * j]);
    r := Regs(A, B, C, D);
  }

  /** The encryption loop of enc(): after it, the registers are the result of all 20 rounds. */
  method EncryptLoop<W>(f: W -> W, mix: Update<W>, S: seq<W>, w: Regs<W>) returns (r: Regs<W>)
    requires |S| == SCHEDULE_WORDS
    ensures r == EncRounds(f, mix, S, w, ROUNDS)
  {
    r := w;
    var j := 0;
    ghost var n := 0;
    while j != ROUNDS
      invariant j == 4 * n && n <= 5
      invariant r == EncRounds(f, mix, S, w, j)
    {
      r := EncryptIteration(f, mix, S, w, r, j);
      j := j + 4;
      n := n + 1;
    }
  }

  /** The decryption loop of dec(): after it, the registers are the result of undoing all 20 rounds. */
  method DecryptLoop<W>(f: W -> W, unmix: Update<W>, S: seq<W>, w: Regs<W>) returns (r: Regs<W>)
    requires |S| == SCHEDULE_WORDS
    ensures r == DecRounds(f, unmix, S, w, ROUNDS)
  {
    r := w;
    var j := 0;
    ghost var n := 0;
    while j != ROUNDS
      invariant j == 4 * n && n <= 5
      invariant r == DecRounds(f, unmix, S, w, j)
    {
      r := DecryptIteration(f, unmix, S, w, r, j);
      j := j + 4;
      n := n + 1;
    }
  }

  // Botan's instance of the structure.

  /** The round function rotate_left(x * (2x + 1), 5). */
  function F(x: word): word
  {
    Rotl(x * (2 * x + 1), 5)
  }

  /** The encryption register update: rotate_left(x ^ t1, t2 % 32) + k. */
  function Mix(x: word, t1: word, t2: word, k: word): word
  {
    Add(RotlBy(Xor(x, t1), t2), k)
  }

  /** The decryption register update: rotate_right(y - k, t2 % 32) ^ t1. */
  function Unmix(y: word, t1: word, t2: word, k: word): word
  {
    Xor(RotrBy(Sub(y, k), t2), t1)
  }

  lemma UnmixMix(x: word, t1: word, t2: word, k: word)
    ensures Unmix(Mix(x, t1, t2, k), t1, t2, k) == x
  {
    SubAdd(RotlBy(Xor(x, t1), t2), k);
    RotrByRotlBy(Xor(x, t1), t2);
    XorXor(x, t1);
  }

  lemma MixUnmix(y: word, t1: word, t2: word, k: word)
    ensures Mix(Unmix(y, t1, t2, k), t1, t2, k) == y
  {
    XorXor(RotrBy(Sub(y, k), t2), t1);
    RotlByRotrBy(Sub(y, k), t2);
    AddSub(y, k);
  }

  lemma MixInverses()
    ensures Undoes(Unmix, Mix) && Undoes(Mix, Unmix)
  {
    forall x, t1, t2, k ensures Unmix(Mix(x, t1, t2, k), t1, t2, k) == x {
      UnmixMix(x, t1, t2, k);
    }
    forall y, t1, t2, k ensures Mix(Unmix(y, t1, t2, k), t1, t2, k) == y {
      MixUnmix(y, t1, t2, k);
    }
  }

  /** Whitening with S[0], S[1], the five iterations, and whitening with S[42], S[43]. */
  function EncryptRegs(S: seq<word>, r: Regs<word>): Regs<word>
    requires |S| == SCHEDULE_WORDS
  {
    var e := EncRounds(F, Mix, S, Regs(r.a, Add(r.b, S[0]), r.c, Add(r.d, S[1])), ROUNDS);
    Regs(Add(e.a, S[42]), e.b, Add(e.c, S[43]), e.d)
  }

  /** Unwhitening with S[43], S[42], the five iterations undone, and unwhitening with S[1], S[0]. */
  function DecryptRegs(S: seq<word>, r: Regs<word>): Regs<word>
    requires |S| == SCHEDULE_WORDS
  {
    var e := DecRounds(F, Unmix, S, Regs(Sub(r.a, S[42]), r.b, Sub(r.c, S[43]), r.d), ROUNDS);
    Regs(e.a, Sub(e.b, S[0]), e.c, Sub(e.d, S[1]))
  }

  lemma DecryptRegsEncryptRegs(S: seq<word>, r: Regs<word>)
    requires |S| == SCHEDULE_WORDS
    ensures DecryptRegs(S, EncryptRegs(S, r)) == r
  {
    var w := Regs(r.a, Add(r.b, S[0]), r.c, Add(r.d, S[1]));
    var e := EncRounds(F, Mix, S, w, ROUNDS);
    SubAdd(e.a, S[42]);
    SubAdd(e.c, S[43]);
    MixInverses();
    DecRoundsEncRounds(F, Mix, Unmix, S, w, ROUNDS);
    SubAdd(r.b, S[0]);
    SubAdd(r.d, S[1]);
  }

  lemma EncryptRegsDecryptRegs(S: seq<word>, r: Regs<word>)
    requires |S| == SCHEDULE_WORDS
    ensures EncryptRegs(S, DecryptRegs(S, r)) == r
  {
    var w := Regs(Sub(r.a, S[42]), r.b, Sub(r.c, S[43]), r.d);
    var e := DecRounds(F, Unmix, S, w, ROUNDS);
    AddSub(e.b, S[0]);
    AddSub(e.d, S[1]);
    MixInverses();
    EncRoundsDecRounds(F, Mix, Unmix, S, w, ROUNDS);
    AddSub(r.a, S[42]);
    AddSub(r.c, S[43]);
  }

  /** The four block words, each loaded little-endian: in[3] is the most significant byte of A. */
  function LoadRegs(block: seq<byte>): Regs<word>
    requires |block| == BLOCK_SIZE
  {
    Regs(LoadLE(block, 0), LoadLE(block, 4), LoadLE(block, 8), LoadLE(block, 12))
  }

  /** The four registers, each stored little-endian. */
  function StoreRegs(r: Regs<word>): (block: seq<byte>)
    ensures |block| == BLOCK_SIZE
  {
    StoreLE(r.a) + StoreLE(r.b) + StoreLE(r.c) + StoreLE(r.d)
  }

  lemma LoadRegsStoreRegs(r: Regs<word>)
    ensures LoadRegs(StoreRegs(r)) == r
  {
    var block := StoreRegs(r);
    assert block[0..4] == StoreLE(r.a) && block[4..8] == StoreLE(r.b);
    assert block[8..12] == StoreLE(r.c) && block[12..16] == StoreLE(r.d);
    LoadLEAt(block, 0, r.a);
    LoadLEAt(block, 4, r.b);
    LoadLEAt(block, 8, r.c);
    LoadLEAt(block, 12, r.d);
  }

  lemma StoreRegsLoadRegs(block: seq<byte>)
    requires |block| == BLOCK_SIZE
    ensures StoreRegs(LoadRegs(block)) == block
  {
    StoreLoadLE(block, 0);
    StoreLoadLE(block, 4);
    StoreLoadLE(block, 8);
    StoreLoadLE(block, 12);
    assert block == block[0..4] + block[4..8] + block[8..12] + block[12..16];
  }

  function EncryptBlock(S: seq<word>, block: seq<byte>): (out: seq<byte>)
    requires |S| == SCHEDULE_WORDS && |block| == BLOCK_SIZE
    ensures |out| == BLOCK_SIZE
  {
    StoreRegs(EncryptRegs(S, LoadRegs(block)))
  }

  function DecryptBlock(S: seq<word>, block: seq<byte>): (out: seq<byte>)
    requires |S| == SCHEDULE_WORDS && |block| == BLOCK_SIZE
    ensures |out| == BLOCK_SIZE
  {
    StoreRegs(DecryptRegs(S, LoadRegs(block)))
  }

  /** Decryption inverts encryption under every 44-word schedule. */
  lemma DecryptEncrypt(S: seq<word>, block: seq<byte>)
    requires |S| == SCHEDULE_WORDS && |block| == BLOCK_SIZE
    ensures DecryptBlock(S, EncryptBlock(S, block)) == block
  {
    LoadRegsStoreRegs(EncryptRegs(S, LoadRegs(block)));
    DecryptRegsEncryptRegs(S, LoadRegs(block));
    StoreRegsLoadRegs(block);
  }

  /** Encryption inverts decryption under every 44-word schedule. */
  lemma EncryptDecrypt(S: seq<word>, block: seq<byte>)
    requires |S| == SCHEDULE_WORDS && |block| == BLOCK_SIZE
    ensures EncryptBlock(S, DecryptBlock(S, block)) == block
  {
    LoadRegsStoreRegs(DecryptRegs(S, LoadRegs(block)));
    EncryptRegsDecryptRegs(S, LoadRegs(block));
    StoreRegsLoadRegs(block);
  }

  // The key schedule.

  /** WORD_KEYLENGTH: the number of words the key occupies, ceil(length / 4). */
  function WordKeyLength(length: nat): (c: nat)
    requires MIN_KEY_LENGTH <= length <= MAX_KEY_LENGTH
    ensures 1 <= c <= 8 && 4 * (c - 1) < length <= 4 * c
  {
    (length - 1) / 4 + 1
  }

  /** MIX_ROUNDS, 3 * max(WORD_KEYLENGTH, 44), is 132 for every accepted key length. */
  lemma MixRoundsFixed(length: nat)
    requires MIN_KEY_LENGTH <= length <= MAX_KEY_LENGTH
    ensures 3 * (if WordKeyLength(length) < SCHEDULE_WORDS then SCHEDULE_WORDS else WordKeyLength(length)) == 132
  {
  }

  /** Key byte i, or zero past the end of the key. */
  function KeyByte(key: seq<byte>, i: nat): byte
  {
    if i < |key| then key[i] else 0
  }

  /**
   * The packing loop takes the key bytes from the last down to the first,
   * shifting each into its word from below; Packed(key, j) is K once bytes
   * j..|key|-1 are in.
   */
  function Packed(key: seq<byte>, j: nat): (K: seq<word>)
    requires |key| <= MAX_KEY_LENGTH && j <= |key|
    ensures |K| == 8
    decreases |key| - j
  {
    if j == |key| then [0, 0, 0, 0, 0, 0, 0, 0]
    else
      var K := Packed(key, j + 1);
      K[j / 4 := ShiftIn(K[j / 4], key[j])]
  }

  /** The 8-word K the packing loop leaves. */
  function PackKey(key: seq<byte>): (K: seq<word>)
    requires |key| <= MAX_KEY_LENGTH
    ensures |K| == 8
  {
    Packed(key, 0)
  }

  /** Bytes lo..top-1 shifted in from the last down to the first. */
  function Horner(key: seq<byte>, lo: nat, top: nat): word
    decreases top - lo
  {
    if top <= lo then 0 else ShiftIn(Horner(key, lo + 1, top), KeyByte(key, lo))
  }

  lemma {:induction false} HornerPastKey(key: seq<byte>, lo: nat, top: nat)
    requires |key| <= lo
    ensures Horner(key, lo, top) == 0
    decreases top - lo
  {
    if lo < top {
      HornerPastKey(key, lo + 1, top);
    }
  }

  /** Byte j goes into word j / 4 and leaves the other words alone. */
  lemma PackedStep(key: seq<byte>, j: nat, w: nat)
    requires |key| <= MAX_KEY_LENGTH && j < |key| && w < 8
    ensures Packed(key, j)[w] == if 4 * w <= j < 4 * w + 4 then ShiftIn(Packed(key, j + 1)[w], key[j]) else Packed(key, j + 1)[w]
  {
    var q := j / 4;
    assert 4 * q <= j < 4 * q + 4;
    assert q == w <==> 4 * w <= j < 4 * w + 4;
  }

  lemma {:induction false} PackedAbove(key: seq<byte>, j: nat, w: nat)
    requires |key| <= MAX_KEY_LENGTH && j <= |key| && w < 8 && 4 * w + 4 <= j
    ensures Packed(key, j)[w] == 0
    decreases |key| - j
  {
    if j < |key| {
      PackedAbove(key, j + 1, w);
      PackedStep(key, j, w);
    }
  }

  lemma {:induction false} PackedWithin(key: seq<byte>, j: nat, w: nat)
    requires |key| <= MAX_KEY_LENGTH && j <= |key| && w < 8 && 4 * w <= j <= 4 * w + 4
    ensures Packed(key, j)[w] == Horner(key, j, 4 * w + 4)
    decreases |key| - j
  {
    var top := 4 * w + 4;
    if j == top {
      PackedAbove(key, j, w);
    } else if j == |key| {
      HornerPastKey(key, j, top);
    } else {
      PackedWithin(key, j + 1, w);
      PackedStep(key, j, w);
      assert KeyByte(key, j) == key[j];
    }
  }

  lemma {:induction false} PackedBelow(key: seq<byte>, j: nat, w: nat)
    requires |key| <= MAX_KEY_LENGTH && j <= |key| && w < 8 && j <= 4 * w
    ensures Packed(key, j)[w] == Horner(key, 4 * w, 4 * w + 4)
    decreases |key| - j
  {
    if j == |key| {
      HornerPastKey(key, 4 * w, 4 * w + 4);
    } else if j == 4 * w {
      PackedWithin(key, j, w);
    } else {
      PackedBelow(key, j + 1, w);
      PackedStep(key, j, w);
    }
  }

  lemma LaneIsWord(key: seq<byte>, w: nat)
    ensures Horner(key, 4 * w, 4 * w + 4)
         == MakeWord(KeyByte(key, 4 * w + 3), KeyByte(key, 4 * w + 2), KeyByte(key, 4 * w + 1), KeyByte(key, 4 * w))
  {
    var lo := 4 * w;
    var top := lo + 4;
    var h3 := Horner(key, lo + 3, top);
    var h2 := Horner(key, lo + 2, top);
    var h1 := Horner(key, lo + 1, top);
    assert Horner(key, top, top) == 0;
    assert h3 == ShiftIn(0, KeyByte(key, lo + 3));
    assert h2 == ShiftIn(h3, KeyByte(key, lo + 2));
    assert h1 == ShiftIn(h2, KeyByte(key, lo + 1));
    assert Horner(key, lo, top) == ShiftIn(h1, KeyByte(key, lo));
    ShiftInWord(KeyByte(key, lo + 3), KeyByte(key, lo + 2), KeyByte(key, lo + 1), KeyByte(key, lo));
  }

  /** Word w of K is key bytes 4w..4w+3 read little-endian, the bytes past the key being zero. */
  lemma PackKeyWord(key: seq<byte>, w: nat)
    requires |key| <= MAX_KEY_LENGTH && w < 8
    ensures PackKey(key)[w] == MakeWord(KeyByte(key, 4 * w + 3), KeyByte(key, 4 * w + 2), KeyByte(key, 4 * w + 1), KeyByte(key, 4 * w))
  {
    PackedBelow(key, 0, w);
    LaneIsWord(key, w);
  }

  /** Key byte 4w+t is byte t of word w, counting from the least significant. */
  lemma PackKeyByte(key: seq<byte>, w: nat, t: nat)
    requires |key| <= MAX_KEY_LENGTH && w < 8 && t < 4 && 4 * w + t < |key|
    ensures GetByte(3 - t, PackKey(key)[w]) == key[4 * w + t]
  {
    PackKeyWord(key, w);
    GetByteMakeWord(KeyByte(key, 4 * w + 3), KeyByte(key, 4 * w + 2), KeyByte(key, 4 * w + 1), KeyByte(key, 4 * w));
  }

  /** The words past the key stay zero. */
  lemma PackKeyZero(key: seq<byte>, w: nat)
    requires |key| <= MAX_KEY_LENGTH && w < 8 && |key| <= 4 * w
    ensures PackKey(key)[w] == 0
  {
    PackKeyWord(key, w);
  }

  /** The schedule before mixing: S[0] = P32 and S[j] = S[j-1] + Q32. */
  function InitialS(): (S: seq<word>)
    ensures |S| == SCHEDULE_WORDS && S[0] == P32
    ensures forall j :: 1 <= j < SCHEDULE_WORDS ==> S[j] == Add(S[j - 1], Q32)
  {
    InitialPrefix(SCHEDULE_WORDS)
  }

  function InitialPrefix(n: nat): (S: seq<word>)
    requires 1 <= n
    ensures |S| == n && S[0] == P32
    ensures forall j :: 1 <= j < n ==> S[j] == Add(S[j - 1], Q32)
  {
    if n == 1 then [P32] else var s := InitialPrefix(n - 1); s + [Add(s[n - 2], Q32)]
  }

  /** The state of the mixing loop: the schedule, K, and the running A and B. */
  datatype Mixing = Mixing(S: seq<word>, K: seq<word>, A: word, B: word)

  /** Mixing step j: A and B are recomputed and written back to S[j % 44] and K[j % c]. */
  function MixStep(m: Mixing, c: nat, j: nat): (m': Mixing)
    requires |m.S| == SCHEDULE_WORDS && 1 <= c <= |m.K|
    ensures |m'.S| == SCHEDULE_WORDS && |m'.K| == |m.K|
  {
    var A := Rotl(Add(Add(m.S[j % SCHEDULE_WORDS], m.A), m.B), 3);
    var B := RotlBy(Add(Add(m.K[j % c], A), m.B), Add(A, m.B));
    Mixing(m.S[j % SCHEDULE_WORDS := A], m.K[j % c := B], A, B)
  }

  /** The mixing state after n steps. */
  function MixSteps(m: Mixing, c: nat, n: nat): (m': Mixing)
    requires |m.S| == SCHEDULE_WORDS && 1 <= c <= |m.K|
    ensures |m'.S| == SCHEDULE_WORDS && |m'.K| == |m.K|
  {
    if n == 0 then m else MixStep(MixSteps(m, c, n - 1), c, n - 1)
  }

  /** The schedule key(key) leaves in S: a function of the key bytes alone. */
  function Schedule(key: seq<byte>): (S: seq<word>)
    requires MIN_KEY_LENGTH <= |key| <= MAX_KEY_LENGTH
    ensures |S| == SCHEDULE_WORDS
  {
    MixSteps(Mixing(InitialS(), PackKey(key), 0, 0), WordKeyLength(|key|), 132).S
  }

  /**
   * The schedule depends on the key only through its word count and its
   * bytes padded with zeros: two keys that differ only by trailing zero bytes
   * inside the same last word get the same schedule.
   */
  lemma ScheduleTrailingZeros(key: seq<byte>, n: nat)
    requires MIN_KEY_LENGTH <= |key| && |key| + n <= MAX_KEY_LENGTH
    requires WordKeyLength(|key|) == WordKeyLength(|key| + n)
    ensures Schedule(key + Zeros(n)) == Schedule(key)
  {
    var padded := key + Zeros(n);
    forall w | 0 <= w < 8
      ensures PackKey(padded)[w] == PackKey(key)[w]
    {
      PackKeyWord(key, w);
      PackKeyWord(padded, w);
      assert forall i :: KeyByte(padded, i) == KeyByte(key, i);
    }
    assert PackKey(padded) == PackKey(key);
  }

  class RC6 {
    const S: array<word>

    ghost predicate Valid()
      reads this
    {
      S.Length == SCHEDULE_WORDS
    }

    /** A new, unkeyed cipher: the schedule buffer starts zeroed. */
    constructor ()
      ensures Valid() && fresh(S) && S[..] == seq(SCHEDULE_WORDS, _ => 0)
    {
      S := new word[SCHEDULE_WORDS](_ => 0);
    }

    /** clear(): zeroes all of S. */
    method Clear()
      requires Valid()
      modifies S
      ensures S[..] == seq(SCHEDULE_WORDS, _ => 0)
    {
      forall i | 0 <= i < S.Length {
        S[i] := 0;
      }
    }

    /** clone(): a fresh, unkeyed instance. */
    method Clone() returns (c: RC6)
      ensures fresh(c) && fresh(c.S) && c.Valid() && c.S[..] == seq(SCHEDULE_WORDS, _ => 0)
    {
      c := new RC6();
    }

    /** enc(): reads S and changes nothing. */
    method Encrypt(input: seq<byte>) returns (output: seq<byte>)
      requires Valid() && |input| == BLOCK_SIZE
      ensures output == EncryptBlock(S[..], input)
    {
      var A, B, C, D := LoadLE(input, 0), LoadLE(input, 4), LoadLE(input, 8), LoadLE(input, 12);
      assert Regs(A, B, C, D) == LoadRegs(input);
      B := Add(B, S[0]);
      D := Add(D, S[1]);
      var r := EncryptLoop(F, Mix, S[..], Regs(A, B, C, D));
      A, B, C, D := r.a, r.b, r.c, r.d;
      A := Add(A, S[42]);
      C := Add(C, S[43]);
      output := StoreLE(A) + StoreLE(B) + StoreLE(C) + StoreLE(D);
    }

    /** dec(): reads S and changes nothing. */
    method Decrypt(input: seq<byte>) returns (output: seq<byte>)
      requires Valid() && |input| == BLOCK_SIZE
      ensures output == DecryptBlock(S[..], input)
    {
      var A, B, C, D := LoadLE(input, 0), LoadLE(input, 4), LoadLE(input, 8), LoadLE(input, 12);
      assert Regs(A, B, C, D) == LoadRegs(input);
      C := Sub(C, S[43]);
      A := Sub(A, S[42]);
      var r := DecryptLoop(F, Unmix, S[..], Regs(A, B, C, D));
      A, B, C, D := r.a, r.b, r.c, r.d;
      D := Sub(D, S[1]);
      B := Sub(B, S[0]);
      output := StoreLE(A) + StoreLE(B) + StoreLE(C) + StoreLE(D);
    }

    /** key(): S becomes the schedule of the key, whatever it held before. */
    method Key(key: seq<byte>)
      requires Valid() && MIN_KEY_LENGTH <= |key| <= MAX_KEY_LENGTH
      modifies S
      ensures S[..] == Schedule(key)
    {
      var c := (|key| - 1) / 4 + 1;
      var rounds := 3 * (if c < S.Length then S.Length else c);
      assert c == WordKeyLength(|key|) && rounds == 132;
      InitSchedule();
      var K := PackKeyWords(key);
      MixSchedule(K, c, rounds);
    }

    /** The first loop of key(): S[0] = P32, then S[j] = S[j-1] + Q32. */
    method InitSchedule()
      requires Valid()
      modifies S
      ensures S[..] == InitialS()
    {
      S[0] := P32;
      var j := 1;
      while j != S.Length
        invariant 1 <= j <= S.Length
        invariant S[..j] == InitialPrefix(j)
      {
        S[j] := Add(S[j - 1], Q32);
        j := j + 1;
      }
      assert S[..] == S[..S.Length];
    }

    /** The second loop of key(): the key bytes, last to first, shifted into an 8-word K. */
    static method PackKeyWords(key: seq<byte>) returns (K: array<word>)
      requires |key| <= MAX_KEY_LENGTH
      ensures fresh(K) && K[..] == PackKey(key)
    {
      K := new word[8](_ => 0);
      assert K[..] == Packed(key, |key|);
      var i: int := |key| - 1;
      while i >= 0
        invariant -1 <= i < |key|
        invariant K[..] == Packed(key, i + 1)
      {
        K[i / 4] := ShiftIn(K[i / 4], key[i]);
        assert K[..] == Packed(key, i);
        i := i - 1;
      }
    }

    /** The third loop of key(): `rounds` mixing steps over S and K. */
    method MixSchedule(K: array<word>, c: nat, rounds: nat)
      requires Valid() && K.Length == 8 && 1 <= c <= 8 && K != S
      modifies S, K
      ensures S[..] == MixSteps(Mixing(old(S[..]), old(K[..]), 0, 0), c, rounds).S
    {
      ghost var m0 := Mixing(S[..], K[..], 0, 0);
      var A: word, B: word := 0, 0;
      var j := 0;
      while j != rounds
        invariant 0 <= j <= rounds
        invariant Mixing(S[..], K[..], A, B) == MixSteps(m0, c, j)
      {
        A, B := MixOne(K, c, j, A, B);
        j := j + 1;
      }
    }

    /** One pass of the mixing loop's body: step j, writing S[j % 44] and K[j % c]. */
    method MixOne(K: array<word>, c: nat, j: nat, A0: word, B0: word) returns (A: word, B: word)
      requires Valid() && K.Length == 8 && 1 <= c <= 8 && K != S
      modifies S, K
      ensures Mixing(S[..], K[..], A, B) == MixStep(Mixing(old(S[..]), old(K[..]), A0, B0), c, j)
    {
      ghost var m := Mixing(S[..], K[..], A0, B0);
      var s, k := j % S.Length, j % c;
      A := Rotl(Add(Add(S[s], A0), B0), 3);
      B := RotlBy(Add(Add(K[k], A), B0), Add(A, B0));
      S[s] := A;
      K[k] := B;
      assert S[..] == m.S[s := A] && K[..] == m.K[k := B];
    }
  }
}
