// The Turing cipher object: the register R, the key words K, the keyed
// S-boxes S0..S3 and the keystream buffer with its cursor, updated in place
// by key, resync, cipher, generate and clear.  Each method is proved against
// the functions of module Turing.

module TuringCipher {
  import opened Words
  import opened TuringMul
  import opened Spec = Turing

  /** Packs bytes into words with `W[j/4] = (W[j/4] << 8) + b[j]`, as key and resync do. */
  method PackWords(bytes: seq<byte>) returns (W: array<word>)
    requires |bytes| % 4 == 0
    ensures fresh(W) && W[..] == WordsBE(bytes)
  {
    W := new word[|bytes| / 4](_ => 0);
    var j := 0;
    while j < |bytes|
      invariant j <= |bytes| && W.Length == |bytes| / 4
      invariant forall i :: 0 <= i < j / 4 ==> W[i] == LoadBE(bytes, 4 * i)
      invariant j / 4 < W.Length ==> W[j / 4] == Partial(bytes, 4 * (j / 4), j % 4)
      invariant forall i :: j / 4 < i < W.Length ==> W[i] == 0
    {
      W[j / 4] := ShiftIn(W[j / 4], bytes[j]);
      if j % 4 == 3 {
        PartialWord(bytes, 4 * (j / 4));
      }
      j := j + 1;
    }
  }

  /** The byte loop at the end of a round: A, B, C, D, E go to buf[base ..], each most significant byte first. */
  method StoreRound(buf: array<byte>, base: nat, v: Five)
    requires base + ROUND_BYTES <= buf.Length
    modifies buf
    ensures buf[..] == Splice(old(buf[..]), base, RoundBytes(v))
  {
    var A, B, C, D, E := v.A, v.B, v.C, v.D, v.E;
    ghost var bytes := RoundBytes(Five(A, B, C, D, E));
    for k := 0 to 4
      invariant buf[..] == Stored(old(buf[..]), base, bytes, k)
    {
      RoundBytesAt(A, B, C, D, E, k);
      buf[base + k] := GetByte(k, A);
      buf[base + k + 4] := GetByte(k, B);
      buf[base + k + 8] := GetByte(k, C);
      buf[base + k + 12] := GetByte(k, D);
      buf[base + k + 16] := GetByte(k, E);
      StoredStep(old(buf[..]), base, bytes, k);
    }
    StoredAll(old(buf[..]), base, bytes);
  }

  class Turing {
    /** SBOX, Q_BOX, OFFSETS and MULT_TAB. */
    const tables: Tables

    const R: array<word>
    var K: array<word>
    const S0: array<word>
    const S1: array<word>
    const S2: array<word>
    const S3: array<word>
    const buffer: array<byte>
    var position: nat

    ghost predicate Valid()
      reads this
    {
      && R.Length == REGISTER_WORDS && K.Length <= MAX_KEY_LENGTH / 4
      && S0.Length == SBOX_WORDS && S1.Length == SBOX_WORDS && S2.Length == SBOX_WORDS && S3.Length == SBOX_WORDS
      && buffer.Length == BUFFER_SIZE && position < BUFFER_SIZE
      && R != K && R != S0 && R != S1 && R != S2 && R != S3
      && K != S0 && K != S1 && K != S2 && K != S3
      && S0 != S1 && S0 != S2 && S0 != S3 && S1 != S2 && S1 != S3 && S2 != S3
    }

    /** The contents of S0..S3. */
    function Boxes(): SBoxes
      requires Valid()
      reads this, S0, S1, S2, S3
    {
      SBoxes(S0[..], S1[..], S2[..], S3[..])
    }

    /** The register, the buffer and the cursor. */
    function State(): (st: Stream)
      requires Valid()
      reads this, R, buffer
      ensures st.position < BUFFER_SIZE
    {
      Stream(R[..], buffer[..], position)
    }

    /** S-box `which` as an array. */
    function Box(which: nat): array<word>
      reads this
    {
      if which == 0 then S0 else if which == 1 then S1 else if which == 2 then S2 else S3
    }

    /** A new cipher over the given SBOX, Q_BOX and OFFSETS; all of its state starts zeroed and K empty. */
    constructor (sbox: ByteTable, qbox: Table, offsets: OffsetTable)
      ensures Valid() && tables == Tables(sbox, qbox, offsets, MULT_TAB)
      ensures K.Length == 0 && position == 0
      ensures R[..] == seq(REGISTER_WORDS, _ => 0) && buffer[..] == Zeros(BUFFER_SIZE)
      ensures Boxes() == SBoxes(seq(SBOX_WORDS, _ => 0), seq(SBOX_WORDS, _ => 0), seq(SBOX_WORDS, _ => 0), seq(SBOX_WORDS, _ => 0))
    {
      MultTabLength();
      tables := Tables(sbox, qbox, offsets, MULT_TAB);
      R := new word[REGISTER_WORDS](_ => 0);
      K := new word[0];
      S0 := new word[SBOX_WORDS](_ => 0);
      S1 := new word[SBOX_WORDS](_ => 0);
      S2 := new word[SBOX_WORDS](_ => 0);
      S3 := new word[SBOX_WORDS](_ => 0);
      buffer := new byte[BUFFER_SIZE](_ => 0);
      position := 0;
    }

    /** The S-box layer of generate and resync: S0..S3 on the bytes r, r+1, r+2, r+3 (mod 4) of x. */
    method SLayerAt(x: word, r: nat) returns (y: word)
      requires Valid() && r < 4
      ensures y == SLayer(Boxes(), x, r)
    {
      y := Xor(Xor(Xor(S0[GetByte(r, x)], S1[GetByte((r + 1) % 4, x)]), S2[GetByte((r + 2) % 4, x)]), S3[GetByte((r + 3) % 4, x)]);
    }

    /**
     * fixedS(w).  The mask-and-or that places B into byte j is written with
     * Place, which PlaceAt0..PlaceAt3 show to be that mask-and-or.
     */
    method FixedS(w: word, ghost fixed: word -> word) returns (v: word)
      requires IsFixed(fixed, tables)
      ensures v == fixed(w)
    {
      v := w;
      for j := 0 to 4
        invariant v == FixedSteps(tables, w, j)
      {
        var b := tables.sbox[GetByte(j, v)];
        v := Xor(v, RotlSteps(tables.qbox[b], 8 * j));
        v := Place(v, j, b);
      }
      assert v == Fixed(tables, w);
    }

    /** Entry j of S-box `which`: the chain over the key words, then the placement of C. */
    method BoxEntryAt(which: nat, j: nat) returns (e: word)
      requires Valid() && which < 4 && j < SBOX_WORDS
      ensures e == GenBox(tables, K[..], which)[j]
    {
      ghost var keys := K[..];
      var W: word := 0;
      var C: byte := j as byte;
      for k := 0 to K.Length
        invariant C == ChainC(tables, keys, which, j as byte, k)
        invariant W == ChainW(tables, keys, which, j as byte, k)
      {
        assert K[k] == keys[k];
        C := tables.sbox[GetByte(which, K[k]) ^ C];
        assert C == ChainC(tables, keys, which, j as byte, k + 1);
        W := Xor(W, RotlSteps(tables.qbox[C], k + 8 * which));
        assert W == ChainW(tables, keys, which, j as byte, k + 1);
      }
      e := Place(W, which, C);
    }

    /** gen_sbox(S, which, K). */
    method GenSbox(which: nat)
      requires Valid() && which < 4
      modifies Box(which)
      ensures Box(which)[..] == GenBox(tables, K[..], which)
    {
      var S := Box(which);
      ghost var box := GenBox(tables, K[..], which);
      for j := 0 to SBOX_WORDS
        invariant K[..] == old(K[..])
        invariant forall i :: 0 <= i < j ==> S[i] == box[i]
      {
        var e := BoxEntryAt(which, j);
        S[j] := e;
      }
    }

    /** R[a] = mul(R[a]) ^ R[b] ^ R[c]. */
    method FeedbackStep(a: nat, b: nat, c: nat)
      requires Valid() && a < REGISTER_WORDS && b < REGISTER_WORDS && c < REGISTER_WORDS
      modifies R
      ensures R[..] == Feedback(tables.mult, old(R[..]), a, b, c)
    {
      R[a] := Xor(Xor(Mul(tables.mult, R[a]), R[b]), R[c]);
    }

    /** The start of round j: R[offset_0] is updated and A, B, C, D, E are read from R. */
    method RoundFrontStep(j: nat) returns (v: Five)
      requires Valid() && j < REGISTER_WORDS
      modifies R
      ensures RoundCore(R[..], v) == RoundFront(tables, j, old(R[..]))
    {
      var o0, o1, o2, o4 := Offset(tables, j, 0), Offset(tables, j, 1), Offset(tables, j, 2), Offset(tables, j, 4);
      var o7, o14, o15 := Offset(tables, j, 7), Offset(tables, j, 10), Offset(tables, j, 11);
      FeedbackStep(o0, o15, o4);
      v := Five(R[o0], R[o14], R[o7], R[o2], R[o1]);
    }

    /** The middle of a round: the additions, the S-box layer and the additions again. */
    method MixWords(v: Five) returns (w: Five)
      requires Valid()
      ensures w == Diffuse(Layers(Boxes(), Diffuse(v)))
    {
      var A, B, C, D, E := v.A, v.B, v.C, v.D, v.E;

      E := Add(E, Add(Add(Add(A, B), C), D));
      A, B, C, D := Add(A, E), Add(B, E), Add(C, E), Add(D, E);
      ghost var d := Five(A, B, C, D, E);
      assert d == Diffuse(v);

      A := SLayerAt(A, 0);
      B := SLayerAt(B, 1);
      C := SLayerAt(C, 2);
      D := SLayerAt(D, 3);
      E := SLayerAt(E, 0);
      ghost var u := Five(A, B, C, D, E);
      assert u == Layers(Boxes(), d);

      E := Add(E, Add(Add(Add(A, B), C), D));
      A, B, C, D := Add(A, E), Add(B, E), Add(C, E), Add(D, E);
      w := Five(A, B, C, D, E);
    }

    /** The end of round j: three register steps, E += R[offset_4], a fourth step and the last additions. */
    method RoundBackStep(j: nat, w: Five) returns (x: Five)
      requires Valid() && j < REGISTER_WORDS
      modifies R
      ensures RoundCore(R[..], x) == RoundBack(tables, j, old(R[..]), w)
    {
      var o0, o1, o2, o3, o4 := Offset(tables, j, 0), Offset(tables, j, 1), Offset(tables, j, 2), Offset(tables, j, 3), Offset(tables, j, 4);
      var o5, o6, o7, o8 := Offset(tables, j, 5), Offset(tables, j, 6), Offset(tables, j, 7), Offset(tables, j, 8);
      var o12, o16 := Offset(tables, j, 9), Offset(tables, j, 12);
      var A, B, C, D, E := w.A, w.B, w.C, w.D, w.E;

      FeedbackStep(o1, o16, o5);
      FeedbackStep(o2, o0, o6);
      FeedbackStep(o3, o1, o7);
      ghost var R4 := R[..];
      E := Add(E, R[o4]);
      assert E == Add(w.E, R4[o4]);

      FeedbackStep(o4, o2, o8);

      A := Add(A, R[o1]);
      B := Add(B, R[o16]);
      C := Add(C, R[o12]);
      D := Add(D, R[o5]);
      x := Five(A, B, C, D, E);
    }

    /** Round j of generate on R: the new register and the five words whose bytes the round writes. */
    method RoundStep(j: nat, ghost T: SBoxes, ghost rounds: (nat, seq<word>) -> RoundOut) returns (x: Five)
      requires Valid() && j < REGISTER_WORDS && Boxes() == T && IsRound(rounds, T, tables)
      modifies R
      ensures RoundOut(R[..], RoundBytes(x)) == rounds(j, old(R[..]))
    {
      ghost var R0 := R[..];
      var v := RoundFrontStep(j);
      var w := MixWords(v);
      x := RoundBackStep(j, w);
      assert RoundCore(R[..], x) == Round(T, tables, j, R0);
      assert rounds(j, R0) == RoundOf(T, tables, j, R0);
    }

    /** One pass of generate's loop: round j updates R and writes its 20 bytes after those of the rounds before it. */
    method GenerateRound(j: nat, ghost T: SBoxes, ghost rounds: (nat, seq<word>) -> RoundOut, ghost R0: seq<word>)
      requires Valid() && j < REGISTER_WORDS && Boxes() == T && IsRound(rounds, T, tables)
      requires R[..] == RunRounds(rounds, R0, j).R
      requires buffer[..ROUND_BYTES * j] == RunRounds(rounds, R0, j).bytes
      modifies R, buffer
      ensures R[..] == RunRounds(rounds, R0, j + 1).R
      ensures buffer[..ROUND_BYTES * (j + 1)] == RunRounds(rounds, R0, j + 1).bytes
    {
      ghost var before := buffer[..];
      var x := RoundStep(j, T, rounds);
      StoreRound(buffer, ROUND_BYTES * j, x);
      SplicePrefix(before, ROUND_BYTES * j, RoundBytes(x));
    }

    /** generate(): 17 rounds refill R and the whole buffer, and the cursor goes back to 0. */
    method Generate(ghost gen: seq<word> -> Refill)
      requires Valid() && IsGenerator(gen, Boxes(), tables)
      modifies this, R, buffer
      ensures Valid() && position == 0 && K == old(K) && Boxes() == old(Boxes())
      ensures Refill(R[..], buffer[..]) == gen(old(R[..]))
    {
      ghost var T, R0 := Boxes(), R[..];
      RoundsIsRound(T, tables);
      ghost var rounds :| IsRound(rounds, T, tables);
      for j := 0 to REGISTER_WORDS
        modifies R, buffer
        invariant Boxes() == T
        invariant R[..] == RunRounds(rounds, R0, j).R
        invariant buffer[..ROUND_BYTES * j] == RunRounds(rounds, R0, j).bytes
      {
        GenerateRound(j, T, rounds, R0);
      }
      assert buffer[..] == buffer[..ROUND_BYTES * REGISTER_WORDS];
      GeneratorRuns(gen, rounds, T, tables, R0);
      position := 0;
    }

    /** One pass of cipher's loop: the rest of the buffer is used up on the input's first bytes, and generate refills it. */
    method CipherBlock(input: seq<byte>, ghost T: SBoxes, ghost gen: seq<word> -> Refill) returns (chunk: seq<byte>)
      requires Valid() && Boxes() == T && IsGenerator(gen, T, tables) && |input| >= BUFFER_SIZE - position
      modifies this, R, buffer
      ensures Valid() && K == old(K) && Boxes() == T
      ensures var room := BUFFER_SIZE - old(position);
        var c := Crypt(gen, State(), input[room..]);
        Crypted(chunk + c.output, c.state) == Crypt(gen, old(State()), input)
    {
      ghost var st := State();
      var room := BUFFER_SIZE - position;
      chunk := XorBytes(input[..room], buffer[position..]);
      Generate(gen);
      ghost var next := gen(st.R);
      assert next == Refill(R[..], buffer[..]);
      assert State() == Stream(next.R, next.block, 0);
      CryptRefill(gen, st, input, next);
    }

    /**
     * cipher(in, out, length): the input is xored with the keystream from the
     * cursor on, generate refilling the buffer each time the input reaches its end.
     */
    method Cipher(input: seq<byte>) returns (output: seq<byte>)
      requires Valid()
      modifies this, R, buffer
      ensures Valid() && K == old(K) && Boxes() == old(Boxes())
      ensures Crypted(output, State()) == Crypt(Generator(Boxes(), tables), old(State()), input)
    {
      ghost var T, st0 := Boxes(), State();
      GeneratorIsGenerator(T, tables);
      ghost var gen :| IsGenerator(gen, T, tables);
      var rest := input;
      output := [];
      while |rest| >= BUFFER_SIZE - position
        invariant Valid() && K == old(K) && Boxes() == T
        invariant var c := Crypt(gen, State(), rest); Crypted(output + c.output, c.state) == Crypt(gen, st0, input)
        decreases |rest|
      {
        var room := BUFFER_SIZE - position;
        var chunk := CipherBlock(rest, T, gen);
        ghost var tail := Crypt(gen, State(), rest[room..]).output;
        AppendAssoc(output, chunk, tail);
        output := output + chunk;
        rest := rest[room..];
      }
      ghost var st := State();
      CryptShort(gen, st, rest);
      var last := XorBytes(rest, buffer[position .. position + |rest|]);
      output := output + last;
      position := position + |rest|;
      assert State() == st.(position := st.position + |rest|);
      CryptAgree(gen, Generator(T, tables), T, tables, st0, input);
    }

    /** resync's IV words: R[j] = IV[j] = fixedS(IV[j]) for each big-endian word of the IV. */
    method LoadIV(iv: seq<byte>, ghost fixed: word -> word) returns (n: nat)
      requires Valid() && |iv| % 4 == 0 && |iv| <= MAX_IV_LENGTH && IsFixed(fixed, tables)
      modifies R
      ensures n == |iv| / 4 && forall i :: 0 <= i < n ==> R[i] == fixed(WordsBE(iv)[i])
    {
      var IV := PackWords(iv);
      ghost var W := IV[..];
      n := IV.Length;
      for j := 0 to n
        modifies IV, R
        invariant forall i :: j <= i < n ==> IV[i] == W[i]
        invariant forall i :: 0 <= i < j ==> R[i] == fixed(W[i])
      {
        var f := FixedS(IV[j], fixed);
        IV[j] := f;
        R[j] := f;
      }
    }

    /** resync's key words and framing word, after the n IV words. */
    method LoadKey(n: nat)
      requires Valid() && n <= MAX_IV_LENGTH / 4
      modifies R
      ensures forall i :: 0 <= i < n ==> R[i] == old(R[i])
      ensures forall i :: 0 <= i < K.Length ==> R[n + i] == K[i]
      ensures R[n + K.Length] == Framing(K.Length, n)
    {
      for j := 0 to K.Length
        invariant forall i :: 0 <= i < n ==> R[i] == old(R[i])
        invariant forall i :: 0 <= i < j ==> R[n + i] == K[i]
      {
        R[j + n] := K[j];
      }
      R[K.Length + n] := Framing(K.Length, n);
    }

    /** The first part of resync: R starts with fixedS of the IV words, then K, then the framing word. */
    method LoadPrefix(iv: seq<byte>, ghost fixed: word -> word)
      requires Valid() && |iv| % 4 == 0 && |iv| <= MAX_IV_LENGTH && IsFixed(fixed, tables)
      modifies R
      ensures R[..|iv| / 4 + K.Length + 1] == Prefix(fixed, K[..], WordsBE(iv))
    {
      ghost var W := WordsBE(iv);
      var n := LoadIV(iv, fixed);
      LoadKey(n);
      PrefixFrom(fixed, K[..], W, R[..]);
    }

    /** The rest of resync's register load: each new word is the S-box layer of R[j - |IV| - |K| - 1] + R[j - 1]. */
    method FillRegister(d: nat, ghost T: SBoxes)
      requires Valid() && 1 <= d <= REGISTER_WORDS && Boxes() == T
      modifies R
      ensures R[..d] == old(R[..d])
      ensures forall i :: d <= i < REGISTER_WORDS ==> FillRule(Layer0(T), R[..], d, i)
    {
      for j := d to REGISTER_WORDS
        invariant R[..d] == old(R[..d])
        invariant forall i :: d <= i < j ==> FillRule(Layer0(T), R[..], d, i)
      {
        ghost var before := R[..];
        var w := Add(R[j - d], R[j - 1]);
        var y := SLayerAt(w, 0);
        R[j] := y;
        assert R[..] == before[j := y];
        forall i | d <= i < j
          ensures FillRule(Layer0(T), R[..], d, i)
        {
          FillRuleKeep(Layer0(T), before, d, i, j, y);
        }
        assert R[..d] == old(R[..d]);
        assert FillRule(Layer0(T), R[..], d, j);
      }
    }

    /** R as resync lays it out before PHT. */
    method LoadRegister(iv: seq<byte>)
      requires Valid() && |iv| % 4 == 0 && |iv| <= MAX_IV_LENGTH
      modifies R
      ensures R[..] == Layout(FixedOf(tables), Layer0(Boxes()), K[..], WordsBE(iv))
    {
      ghost var T, W := Boxes(), WordsBE(iv);
      FixedOfIsFixed(tables);
      ghost var fixed :| IsFixed(fixed, tables);
      var d := |iv| / 4 + K.Length + 1;
      LoadPrefix(iv, fixed);
      ghost var r0 := R[..];
      assert r0[..d] == Prefix(fixed, K[..], W);
      FillRegister(d, T);
      assert R[..d] == r0[..d];
      LayoutFrom(fixed, Layer0(T), K[..], W, R[..], d);
      LayoutAgree(fixed, FixedOf(tables), tables, Layer0(T), K[..], W);
    }

    /**
     * resync(iv): an IV whose length is not a multiple of 4 or is over 16 is
     * refused (the source throws) and nothing changes; otherwise R is loaded,
     * PHT is applied to it and generate fills the buffer.
     */
    method Resync(iv: seq<byte>) returns (ok: bool)
      requires Valid()
      modifies this, R, buffer
      ensures ok <==> |iv| % 4 == 0 && |iv| <= MAX_IV_LENGTH
      ensures Valid() && K == old(K) && Boxes() == old(Boxes())
      ensures !ok ==> R[..] == old(R[..]) && buffer[..] == old(buffer[..]) && position == old(position)
      ensures ok ==> position == 0 && Refill(R[..], buffer[..]) == Resynced(Boxes(), tables, K[..], iv)
    {
      if |iv| % 4 != 0 || |iv| > MAX_IV_LENGTH {
        return false;
      }
      LoadRegister(iv);
      PHT(R);
      ghost var R1 := R[..];
      GeneratorIsGenerator(Boxes(), tables);
      ghost var gen :| IsGenerator(gen, Boxes(), tables);
      Generate(gen);
      assert gen(R1) == Keystream(Boxes(), tables, R1);
      ok := true;
    }

    /** key()'s second loop: K[j] = fixedS(K[j]) for every key word. */
    method FixKeyWords(ghost fixed: word -> word)
      requires Valid() && IsFixed(fixed, tables)
      modifies K
      ensures forall i :: 0 <= i < K.Length ==> K[i] == fixed(old(K[i]))
    {
      for j := 0 to K.Length
        invariant forall i :: j <= i < K.Length ==> K[i] == old(K[i])
        invariant forall i :: 0 <= i < j ==> K[i] == fixed(old(K[i]))
      {
        K[j] := FixedS(K[j], fixed);
      }
    }

    /** The first part of key(): K gets fixedS of each big-endian word of the key, then PHT. */
    method LoadKeyWords(key: seq<byte>)
      requires Valid() && 4 <= |key| <= MAX_KEY_LENGTH && |key| % 4 == 0
      modifies this
      ensures Valid() && fresh(K) && K[..] == KeyWords(tables, key)
      ensures position == old(position)
    {
      FixedOfIsFixed(tables);
      ghost var fixed :| IsFixed(fixed, tables);
      ghost var words := WordsBE(key);
      K := PackWords(key);
      FixKeyWords(fixed);
      ghost var fixedWords := seq(|words|, i requires 0 <= i < |words| => Fixed(tables, words[i]));
      forall i | 0 <= i < |words|
        ensures K[i] == fixedWords[i]
      {
        assert K[i] == fixed(words[i]);
      }
      assert K[..] == fixedWords;
      PHT(K);
    }

    /**
     * key(key): the key words, the four keyed S-boxes built from them, then
     * resync with an empty IV.  The key length (4 to 32 bytes, a multiple of
     * 4) is checked by the caller, as the source's keyed-object base does.
     */
    method Key(key: seq<byte>)
      requires Valid() && 4 <= |key| <= MAX_KEY_LENGTH && |key| % 4 == 0
      modifies this, R, buffer, S0, S1, S2, S3
      ensures Valid() && fresh(K) && K[..] == KeyWords(tables, key)
      ensures Boxes() == SBoxes(GenBox(tables, K[..], 0), GenBox(tables, K[..], 1), GenBox(tables, K[..], 2), GenBox(tables, K[..], 3))
      ensures position == 0 && Refill(R[..], buffer[..]) == Resynced(Boxes(), tables, K[..], [])
    {
      LoadKeyWords(key);
      GenSbox(0);
      GenSbox(1);
      GenSbox(2);
      GenSbox(3);
      ghost var T := Boxes();
      assert T == SBoxes(GenBox(tables, K[..], 0), GenBox(tables, K[..], 1), GenBox(tables, K[..], 2), GenBox(tables, K[..], 3));
      var ok := Resync([]);
    }

    /** clear(): zeroes S0..S3 and the buffer and resets the cursor; R and K are kept. */
    method Clear()
      requires Valid()
      modifies this, S0, S1, S2, S3, buffer
      ensures Valid() && position == 0 && buffer[..] == Zeros(BUFFER_SIZE)
      ensures Boxes() == SBoxes(seq(SBOX_WORDS, _ => 0), seq(SBOX_WORDS, _ => 0), seq(SBOX_WORDS, _ => 0), seq(SBOX_WORDS, _ => 0))
      ensures K == old(K) && unchanged(R) && unchanged(K)
    {
      for i := 0 to SBOX_WORDS
        modifies S0, S1, S2, S3
        invariant forall m :: 0 <= m < i ==> S0[m] == 0 && S1[m] == 0 && S2[m] == 0 && S3[m] == 0
      {
        S0[i], S1[i], S2[i], S3[i] := 0, 0, 0, 0;
      }
      for i := 0 to BUFFER_SIZE
        modifies buffer
        invariant forall m :: 0 <= m < i ==> buffer[m] == 0
        invariant forall m :: 0 <= m < SBOX_WORDS ==> S0[m] == 0 && S1[m] == 0 && S2[m] == 0 && S3[m] == 0
      {
        buffer[i] := 0;
      }
      position := 0;
    }
  }
}
