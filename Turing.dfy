// The Turing stream cipher as implemented by Botan: a 17-word register R,
// four key-dependent 256-word S-boxes S0..S3, and a 340-byte keystream
// buffer consumed from a cursor `position`.
//
// The constant tables SBOX (256 bytes), Q_BOX (256 words) and OFFSETS (17
// rows of 16 register positions) are not part of this model: a cipher object
// is built over any tables of those shapes, and every theorem below holds for
// all of them.  MULT_TAB is the table of the multiplication in turing.cpp.

module Turing {
  import opened Words
  import opened TuringMul

  const MIN_KEY_LENGTH: nat := 4
  const MAX_KEY_LENGTH: nat := 32
  const MAX_IV_LENGTH: nat := 16
  const REGISTER_WORDS: nat := 17
  const SBOX_WORDS: nat := 256
  const ROUND_BYTES: nat := 20
  const BUFFER_SIZE: nat := 340
  const OFFSET_ROW: nat := 16

  // The pseudo-Hadamard transform PHT.

  /** The wrapping sum s[0] + s[1] + ... of the words of s, added in order. */
  function Sum(s: seq<word>): word
  {
    if |s| == 0 then 0 else Add(Sum(s[..|s| - 1]), s[|s| - 1])
  }

  /** PHT as a function: the last word becomes the sum of all the words, and that sum is added to every other word. */
  function Pht(s: seq<word>): (r: seq<word>)
    requires |s| > 0
    ensures |r| == |s|
  {
    var last := |s| - 1;
    var total := Add(s[last], Sum(s[..last]));
    seq(|s|, j requires 0 <= j < |s| => if j == last then total else Add(s[j], total))
  }

  /** Undoes PHT: the total is read off the last word and subtracted from the others. */
  function InvPht(r: seq<word>): (s: seq<word>)
    requires |r| > 0
    ensures |s| == |r|
  {
    var last := |r| - 1;
    var total := r[last];
    var front := seq(last, j requires 0 <= j < last => Sub(r[j], total));
    front + [Sub(total, Sum(front))]
  }

  lemma AddComm(a: word, b: word)
    ensures Add(a, b) == Add(b, a)
  {
  }

  /** The new last word is the wrapping sum of all the old words, and every other word grows by it. */
  lemma PhtSums(s: seq<word>)
    requires |s| > 0
    ensures Pht(s)[|s| - 1] == Sum(s)
    ensures forall j :: 0 <= j < |s| - 1 ==> Pht(s)[j] == Add(s[j], Sum(s))
  {
    var last := |s| - 1;
    assert s[..|s|][..last] == s[..last];
    AddComm(s[last], Sum(s[..last]));
  }

  lemma InvPhtPht(s: seq<word>)
    requires |s| > 0
    ensures InvPht(Pht(s)) == s
  {
    var last := |s| - 1;
    var r := Pht(s);
    var total := Add(s[last], Sum(s[..last]));
    var front := seq(last, j requires 0 <= j < last => Sub(r[j], total));
    forall j | 0 <= j < last ensures front[j] == s[j] {
      SubAdd(s[j], total);
    }
    assert front == s[..last];
    SubAdd(s[last], Sum(s[..last]));
    assert s == s[..last] + [s[last]];
  }

  /** The word PHT computes as its total, on the output of InvPht, is the last word InvPht was given. */
  lemma InvPhtTotal(r: seq<word>)
    requires |r| > 0
    ensures var s := InvPht(r); Add(s[|r| - 1], Sum(s[..|r| - 1])) == r[|r| - 1]
  {
    var last := |r| - 1;
    var front := seq(last, j requires 0 <= j < last => Sub(r[j], r[last]));
    AppendTotal(front, r[last]);
  }

  lemma AppendTotal(front: seq<word>, total: word)
    ensures var s := front + [Sub(total, Sum(front))];
            Add(s[|front|], Sum(s[..|front|])) == total
  {
    var s := front + [Sub(total, Sum(front))];
    assert s[..|front|] == front;
    AddSub(total, Sum(front));
  }

  lemma PhtInvPht(r: seq<word>)
    requires |r| > 0
    ensures Pht(InvPht(r)) == r
  {
    var last := |r| - 1;
    var s := InvPht(r);
    InvPhtTotal(r);
    var p := Pht(s);
    forall j | 0 <= j < last ensures p[j] == r[j] {
      assert s[j] == Sub(r[j], r[last]);
      AddSub(r[j], r[last]);
    }
    assert p[last] == r[last];
  }

  /** PHT(buf) in place: the first loop sums the words before the last, the second adds the new last word to them. */
  method PHT(buf: array<word>)
    requires buf.Length > 0
    modifies buf
    ensures buf[..] == Pht(old(buf[..]))
  {
    ghost var s := buf[..];
    var last := buf.Length - 1;
    var sum: word := 0;
    var j := 0;
    while j < last
      invariant j <= last && buf[..] == s
      invariant sum == Sum(s[..j])
    {
      assert s[..j + 1][..j] == s[..j];
      sum := Add(sum, buf[j]);
      j := j + 1;
    }
    buf[last] := Add(buf[last], sum);
    sum := buf[last];
    ghost var r := Pht(s);
    assert sum == r[last];
    j := 0;
    while j < last
      invariant j <= last && buf[last] == r[last] && sum == r[last]
      invariant forall i :: 0 <= i < j ==> buf[i] == r[i]
      invariant forall i :: j <= i < last ==> buf[i] == s[i]
    {
      buf[j] := Add(buf[j], sum);
      j := j + 1;
    }
  }

  // The constant tables.

  /** A table of 256 bytes, indexed by a byte. */
  type ByteTable = s: seq<byte> | |s| == SBOX_WORDS witness seq(256, _ => 0)

  /** The 17 rows of 16 register positions of OFFSETS. */
  type OffsetTable = s: seq<nat> | |s| == REGISTER_WORDS * OFFSET_ROW && forall i :: 0 <= i < |s| ==> s[i] < REGISTER_WORDS
    witness seq(272, _ => 0)

  /** SBOX, Q_BOX, OFFSETS and MULT_TAB, the static tables of the cipher. */
  datatype Tables = Tables(sbox: ByteTable, qbox: Table, offsets: OffsetTable, mult: Table)

  /** Offset number i of row j, OFFSETS[16*j + i]. */
  function Offset(tb: Tables, j: nat, i: nat): (o: nat)
    requires j < REGISTER_WORDS && i < OFFSET_ROW
    ensures o < REGISTER_WORDS
  {
    tb.offsets[OFFSET_ROW * j + i]
  }

  // Placing a byte into a word, as the last two statements of both fixedS and
  // gen_sbox do: byte j of w is cleared by the mask rotate_right(0x00FFFFFF,
  // 8*j) and b is or-ed in at that position (PlaceIsMaskOr).

  /** w with its byte j (counting from the most significant) replaced by b. */
  function Place(w: word, j: nat, b: byte): word
    requires j < 4
  {
    MakeWord(if j == 0 then b else GetByte(0, w), if j == 1 then b else GetByte(1, w),
             if j == 2 then b else GetByte(2, w), if j == 3 then b else GetByte(3, w))
  }

  /** Place sets byte j of the word to b and keeps the other three bytes. */
  lemma PlaceBytes(w: word, j: nat, b: byte)
    requires j < 4
    ensures GetByte(j, Place(w, j, b)) == b
    ensures forall i :: 0 <= i < 4 && i != j ==> GetByte(i, Place(w, j, b)) == GetByte(i, w)
  {
    GetByteMakeWord(if j == 0 then b else GetByte(0, w), if j == 1 then b else GetByte(1, w),
                    if j == 2 then b else GetByte(2, w), if j == 3 then b else GetByte(3, w));
  }

  lemma MaskOr0(w: word, b: byte)
    ensures MakeWord(b, GetByte(1, w), GetByte(2, w), GetByte(3, w)) == (w & 0x00FF_FFFF) | ((b as word) << 24)
  {
  }

  lemma MaskOr1(w: word, b: byte)
    ensures MakeWord(GetByte(0, w), b, GetByte(2, w), GetByte(3, w)) == (w & 0xFF00_FFFF) | ((b as word) << 16)
  {
  }

  lemma MaskOr2(w: word, b: byte)
    ensures MakeWord(GetByte(0, w), GetByte(1, w), b, GetByte(3, w)) == (w & 0xFFFF_00FF) | ((b as word) << 8)
  {
  }

  lemma MaskOr3(w: word, b: byte)
    ensures MakeWord(GetByte(0, w), GetByte(1, w), GetByte(2, w), b) == (w & 0xFFFF_FF00) | ((b as word) << 0)
  {
  }

  /** The masks rotate_right(0x00FFFFFF, 8*j). */
  lemma PlaceMasks()
    ensures Rotr(0x00FF_FFFF, 0) == 0x00FF_FFFF && Rotr(0x00FF_FFFF, 8) == 0xFF00_FFFF
    ensures Rotr(0x00FF_FFFF, 16) == 0xFFFF_00FF && Rotr(0x00FF_FFFF, 24) == 0xFFFF_FF00
  {
  }

  // Place is the mask-and-or of the source, (w & rotate_right(0x00FFFFFF, 8*j)) | (b << (24 - 8*j)),
  // at each of the four byte positions.

  lemma PlaceAt0(w: word, b: byte)
    ensures Place(w, 0, b) == (w & Rotr(0x00FF_FFFF, 0)) | ((b as word) << 24)
  {
    PlaceMasks();
    MaskOr0(w, b);
  }

  lemma PlaceAt1(w: word, b: byte)
    ensures Place(w, 1, b) == (w & Rotr(0x00FF_FFFF, 8)) | ((b as word) << 16)
  {
    PlaceMasks();
    MaskOr1(w, b);
  }

  lemma PlaceAt2(w: word, b: byte)
    ensures Place(w, 2, b) == (w & Rotr(0x00FF_FFFF, 16)) | ((b as word) << 8)
  {
    PlaceMasks();
    MaskOr2(w, b);
  }

  lemma PlaceAt3(w: word, b: byte)
    ensures Place(w, 3, b) == (w & Rotr(0x00FF_FFFF, 24)) | ((b as word) << 0)
  {
    PlaceMasks();
    MaskOr3(w, b);
  }

  // fixedS: four steps, step j replacing byte j of W by its image under SBOX
  // and xoring a rotated Q_BOX word into the other three bytes.

  /** Rotation left by n bits, as n one-bit rotations. */
  function RotlSteps(x: word, n: nat): word
    requires n < 32
  {
    if n == 0 then x else RotlSteps(x, n - 1).RotateLeft(1)
  }

  function FixedStep(tb: Tables, w: word, j: nat): word
    requires j < 4
  {
    var b := tb.sbox[GetByte(j, w)];
    Place(Xor(w, RotlSteps(tb.qbox[b], 8 * j)), j, b)
  }

  /** The first n steps of fixedS. */
  function FixedSteps(tb: Tables, w: word, n: nat): word
    requires n <= 4
  {
    if n == 0 then w else FixedStep(tb, FixedSteps(tb, w, n - 1), n - 1)
  }

  function Fixed(tb: Tables, w: word): word
  {
    FixedSteps(tb, w, 4)
  }

  /** An S-box no two of whose entries are equal. */
  ghost predicate Injective(sbox: ByteTable)
  {
    forall x: byte, y: byte :: sbox[x] == sbox[y] ==> x == y
  }

  /** Placing b into byte j of w ^ q sets byte j to b and leaves byte i of w ^ q at the others. */
  lemma PlaceXorBytes(w: word, q: word, j: nat, b: byte)
    requires j < 4
    ensures GetByte(j, Place(Xor(w, q), j, b)) == b
    ensures forall i :: 0 <= i < 4 && i != j ==> GetByte(i, Place(Xor(w, q), j, b)) == GetByte(i, w) ^ GetByte(i, q)
  {
    PlaceBytes(Xor(w, q), j, b);
    forall i | 0 <= i < 4 && i != j
      ensures GetByte(i, Place(Xor(w, q), j, b)) == GetByte(i, w) ^ GetByte(i, q)
    {
      GetByteXor(i, w, q);
    }
  }

  /** Step j of fixedS puts SBOX[byte j] at byte j and xors the rotated Q_BOX word into the other bytes. */
  lemma FixedStepBytes(tb: Tables, w: word, j: nat)
    requires j < 4
    ensures GetByte(j, FixedStep(tb, w, j)) == tb.sbox[GetByte(j, w)]
    ensures forall i :: 0 <= i < 4 && i != j ==>
      GetByte(i, FixedStep(tb, w, j)) == GetByte(i, w) ^ GetByte(i, RotlSteps(tb.qbox[tb.sbox[GetByte(j, w)]], 8 * j))
  {
    var b := tb.sbox[GetByte(j, w)];
    var q := RotlSteps(tb.qbox[b], 8 * j);
    PlaceXorBytes(w, q, j, b);
  }

  /** A word is determined by its four bytes. */
  lemma SameBytes(x: word, y: word)
    requires forall i :: 0 <= i < 4 ==> GetByte(i, x) == GetByte(i, y)
    ensures x == y
  {
    MakeWordGetByte(x);
    MakeWordGetByte(y);
    assert GetByte(0, x) == GetByte(0, y) && GetByte(1, x) == GetByte(1, y);
    assert GetByte(2, x) == GetByte(2, y) && GetByte(3, x) == GetByte(3, y);
  }

  lemma ByteXorCancel(a: byte, b: byte, q: byte)
    requires a ^ q == b ^ q
    ensures a == b
  {
  }

  /** Each step of fixedS is one-to-one when SBOX is. */
  lemma FixedStepInjective(tb: Tables, x: word, y: word, j: nat)
    requires Injective(tb.sbox) && j < 4
    requires FixedStep(tb, x, j) == FixedStep(tb, y, j)
    ensures x == y
  {
    FixedStepBytes(tb, x, j);
    FixedStepBytes(tb, y, j);
    assert GetByte(j, x) == GetByte(j, y);
    var q := RotlSteps(tb.qbox[tb.sbox[GetByte(j, x)]], 8 * j);
    forall i | 0 <= i < 4
      ensures GetByte(i, x) == GetByte(i, y)
    {
      if i != j {
        ByteXorCancel(GetByte(i, x), GetByte(i, y), GetByte(i, q));
      }
    }
    SameBytes(x, y);
  }

  /** fixedS is one-to-one when SBOX is: distinct key or IV words stay distinct. */
  lemma FixedInjective(tb: Tables, x: word, y: word)
    requires Injective(tb.sbox)
    requires Fixed(tb, x) == Fixed(tb, y)
    ensures x == y
  {
    FixedStepInjective(tb, FixedSteps(tb, x, 3), FixedSteps(tb, y, 3), 3);
    FixedStepInjective(tb, FixedSteps(tb, x, 2), FixedSteps(tb, y, 2), 2);
    FixedStepInjective(tb, FixedSteps(tb, x, 1), FixedSteps(tb, y, 1), 1);
    assert FixedSteps(tb, x, 1) == FixedStep(tb, x, 0) && FixedSteps(tb, y, 1) == FixedStep(tb, y, 0);
    FixedStepInjective(tb, x, y, 0);
  }

  // gen_sbox: entry j of S-box number `which` runs a chain C = j,
  // C = SBOX[byte `which` of K[k] ^ C] over the key words, xoring the rotated
  // Q_BOX[C] into W at each step, and places the final C at byte `which` of W.

  /** The chain's C after its first n steps. */
  function ChainC(tb: Tables, K: seq<word>, which: nat, j: byte, n: nat): byte
    requires which < 4 && n <= |K|
  {
    if n == 0 then j else tb.sbox[GetByte(which, K[n - 1]) ^ ChainC(tb, K, which, j, n - 1)]
  }

  /** The chain's W after its first n steps. */
  function ChainW(tb: Tables, K: seq<word>, which: nat, j: byte, n: nat): word
    requires which < 4 && n <= |K| <= 8
  {
    if n == 0 then 0 else Xor(ChainW(tb, K, which, j, n - 1), RotlSteps(tb.qbox[ChainC(tb, K, which, j, n)], n - 1 + 8 * which))
  }

  function BoxEntry(tb: Tables, K: seq<word>, which: nat, j: byte): word
    requires which < 4 && |K| <= 8
  {
    Place(ChainW(tb, K, which, j, |K|), which, ChainC(tb, K, which, j, |K|))
  }

  /** The S-box gen_sbox(S, which, K) builds. */
  function GenBox(tb: Tables, K: seq<word>, which: nat): (box: seq<word>)
    requires which < 4 && |K| <= 8
    ensures |box| == SBOX_WORDS
  {
    seq(SBOX_WORDS, j requires 0 <= j < SBOX_WORDS => BoxEntry(tb, K, which, j as byte))
  }

  /** Byte `which` of every entry of S-box `which` is the end of its chain, and the other bytes come from W. */
  lemma GenBoxBytes(tb: Tables, K: seq<word>, which: nat, j: nat)
    requires which < 4 && |K| <= 8 && j < SBOX_WORDS
    ensures GetByte(which, GenBox(tb, K, which)[j]) == ChainC(tb, K, which, j as byte, |K|)
    ensures forall i :: 0 <= i < 4 && i != which ==>
      GetByte(i, GenBox(tb, K, which)[j]) == GetByte(i, ChainW(tb, K, which, j as byte, |K|))
  {
    PlaceBytes(ChainW(tb, K, which, j as byte, |K|), which, ChainC(tb, K, which, j as byte, |K|));
  }

  // The keyed S-boxes and the keystream generator.

  /** The contents of S0..S3. */
  datatype SBoxes = SBoxes(s0: Table, s1: Table, s2: Table, s3: Table)

  /**
   * The keyed S-box layer of a word, as generate and resync compute it:
   * S0, S1, S2, S3 applied to the bytes r, r+1, r+2, r+3 (mod 4) of x, xored.
   */
  function SLayer(T: SBoxes, x: word, r: nat): word
    requires r < 4
  {
    Xor(Xor(Xor(T.s0[GetByte(r, x)], T.s1[GetByte((r + 1) % 4, x)]),
            T.s2[GetByte((r + 2) % 4, x)]), T.s3[GetByte((r + 3) % 4, x)])
  }

  /** One step of the linear feedback register: R[a] = mul(R[a]) ^ R[b] ^ R[c]. */
  function Feedback(tab: Table, R: seq<word>, a: nat, b: nat, c: nat): (r: seq<word>)
    requires a < |R| && b < |R| && c < |R|
    ensures |r| == |R|
  {
    R[a := Xor(Xor(Mul(tab, R[a]), R[b]), R[c])]
  }

  /** The five words A, B, C, D, E of a round. */
  datatype Five = Five(A: word, B: word, C: word, D: word, E: word)

  /** The register after a round and the five words it writes out. */
  datatype RoundCore = RoundCore(R: seq<word>, words: Five)

  /** The 20 bytes one round writes. */
  type Chunk = s: seq<byte> | |s| == ROUND_BYTES witness Zeros(ROUND_BYTES)

  /** The register after a round and the bytes the round writes. */
  datatype RoundOut = RoundOut(R: seq<word>, bytes: Chunk)

  /** The words A, B, C, D, E of a round in the order they are written, each most significant byte first. */
  function RoundBytes(v: Five): (bytes: seq<byte>)
    ensures |bytes| == ROUND_BYTES
  {
    StoreBE(v.A) + StoreBE(v.B) + StoreBE(v.C) + StoreBE(v.D) + StoreBE(v.E)
  }

  /** The positions below 20 that are k mod 4 are k, k+4, k+8, k+12 and k+16. */
  lemma SameColumn(m: nat, k: nat)
    requires m < ROUND_BYTES && m % 4 == k
    ensures m == k || m == k + 4 || m == k + 8 || m == k + 12 || m == k + 16
  {
    assert m == 4 * (m / 4) + k;
  }

  /** buf with the bytes of `bytes` whose position is below k mod 4 stored at `base`. */
  function Stored(buf: seq<byte>, base: nat, bytes: seq<byte>, k: nat): (r: seq<byte>)
    requires base + ROUND_BYTES <= |buf| && |bytes| == ROUND_BYTES
    ensures |r| == |buf|
  {
    seq(|buf|, m requires 0 <= m < |buf| =>
      if base <= m < base + ROUND_BYTES && (m - base) % 4 < k then bytes[m - base] else buf[m])
  }

  /** One pass of the byte loop stores the five bytes at positions k, k+4, ..., k+16. */
  lemma StoredStep(buf: seq<byte>, base: nat, bytes: seq<byte>, k: nat)
    requires base + ROUND_BYTES <= |buf| && |bytes| == ROUND_BYTES && k < 4
    ensures Stored(buf, base, bytes, k + 1)
         == Stored(buf, base, bytes, k)[base + k := bytes[k]][base + k + 4 := bytes[k + 4]][base + k + 8 := bytes[k + 8]]
              [base + k + 12 := bytes[k + 12]][base + k + 16 := bytes[k + 16]]
  {
    var s := Stored(buf, base, bytes, k)[base + k := bytes[k]][base + k + 4 := bytes[k + 4]][base + k + 8 := bytes[k + 8]]
              [base + k + 12 := bytes[k + 12]][base + k + 16 := bytes[k + 16]];
    forall m | 0 <= m < |buf|
      ensures Stored(buf, base, bytes, k + 1)[m] == s[m]
    {
      if base <= m < base + ROUND_BYTES && (m - base) % 4 == k {
        SameColumn(m - base, k);
      }
    }
  }

  /** buf with `bytes` written over it from position base on. */
  function Splice(buf: seq<byte>, base: nat, bytes: seq<byte>): (r: seq<byte>)
    requires base + |bytes| <= |buf|
    ensures |r| == |buf|
  {
    buf[..base] + bytes + buf[base + |bytes|..]
  }

  /** What precedes the spliced bytes is unchanged, and they follow it. */
  lemma SplicePrefix(buf: seq<byte>, base: nat, bytes: seq<byte>)
    requires base + |bytes| <= |buf|
    ensures Splice(buf, base, bytes)[..base + |bytes|] == buf[..base] + bytes
  {
    var r := Splice(buf, base, bytes);
    assert r == (buf[..base] + bytes) + buf[base + |bytes|..];
  }

  /** After all four passes the 20 bytes are in place and nothing else has changed. */
  lemma StoredAll(buf: seq<byte>, base: nat, bytes: seq<byte>)
    requires base + ROUND_BYTES <= |buf| && |bytes| == ROUND_BYTES
    ensures Stored(buf, base, bytes, 4) == Splice(buf, base, bytes)
  {
    var s := buf[..base] + bytes + buf[base + ROUND_BYTES..];
    forall m | 0 <= m < |buf|
      ensures Stored(buf, base, bytes, 4)[m] == s[m]
    {
      if m < base {
        assert s[m] == buf[m];
      } else if m < base + ROUND_BYTES {
        assert s[m] == bytes[m - base];
      } else {
        assert s[m] == buf[m];
      }
    }
  }

  /** Byte k of each of the five words, at its place among the round's bytes. */
  lemma RoundBytesAt(A: word, B: word, C: word, D: word, E: word, k: nat)
    requires k < 4
    ensures var bytes := RoundBytes(Five(A, B, C, D, E));
      && bytes[k] == GetByte(k, A) && bytes[k + 4] == GetByte(k, B) && bytes[k + 8] == GetByte(k, C)
      && bytes[k + 12] == GetByte(k, D) && bytes[k + 16] == GetByte(k, E)
  {
    var bytes := RoundBytes(Five(A, B, C, D, E));
    assert bytes == StoreBE(A) + StoreBE(B) + StoreBE(C) + StoreBE(D) + StoreBE(E);
    assert bytes[k] == StoreBE(A)[k] && bytes[k + 4] == StoreBE(B)[k] && bytes[k + 8] == StoreBE(C)[k];
    assert bytes[k + 12] == StoreBE(D)[k] && bytes[k + 16] == StoreBE(E)[k];
  }

  /** E += A + B + C + D, then A, B, C and D each += E. */
  function Diffuse(v: Five): Five
  {
    var E := Add(v.E, Add(Add(Add(v.A, v.B), v.C), v.D));
    Five(Add(v.A, E), Add(v.B, E), Add(v.C, E), Add(v.D, E), E)
  }

  /** The S-box layer on the five words: A, B, C, D at byte offsets 0, 1, 2, 3, and E at 0. */
  function Layers(T: SBoxes, v: Five): Five
  {
    Five(SLayer(T, v.A, 0), SLayer(T, v.B, 1), SLayer(T, v.C, 2), SLayer(T, v.D, 3), SLayer(T, v.E, 0))
  }

  /**
   * Round j of generate on register R: offsets o_i are OFFSETS[16*j + i],
   * where positions 9, 10, 11 and 12 of the row hold offset_12, offset_14,
   * offset_15 and offset_16.
   */
  function Round(T: SBoxes, tb: Tables, j: nat, R0: seq<word>): (out: RoundCore)
    requires j < REGISTER_WORDS && |R0| == REGISTER_WORDS
    ensures |out.R| == REGISTER_WORDS
  {
    var front := RoundFront(tb, j, R0);
    RoundBack(tb, j, front.R, Diffuse(Layers(T, Diffuse(front.words))))
  }

  /** The first register step of round j and the five words then read from the register. */
  function RoundFront(tb: Tables, j: nat, R0: seq<word>): (out: RoundCore)
    requires j < REGISTER_WORDS && |R0| == REGISTER_WORDS
    ensures |out.R| == REGISTER_WORDS
  {
    var R1 := Feedback(tb.mult, R0, Offset(tb, j, 0), Offset(tb, j, 11), Offset(tb, j, 4));
    RoundCore(R1, Five(R1[Offset(tb, j, 0)], R1[Offset(tb, j, 10)], R1[Offset(tb, j, 7)], R1[Offset(tb, j, 2)], R1[Offset(tb, j, 1)]))
  }

  /** The last four register steps of round j, interleaved with the final additions into the words w. */
  function RoundBack(tb: Tables, j: nat, R1: seq<word>, w: Five): (out: RoundCore)
    requires j < REGISTER_WORDS && |R1| == REGISTER_WORDS
    ensures |out.R| == REGISTER_WORDS
  {
    var R2 := Feedback(tb.mult, R1, Offset(tb, j, 1), Offset(tb, j, 12), Offset(tb, j, 5));
    var R3 := Feedback(tb.mult, R2, Offset(tb, j, 2), Offset(tb, j, 0), Offset(tb, j, 6));
    var R4 := Feedback(tb.mult, R3, Offset(tb, j, 3), Offset(tb, j, 1), Offset(tb, j, 7));
    var E := Add(w.E, R4[Offset(tb, j, 4)]);
    var R5 := Feedback(tb.mult, R4, Offset(tb, j, 4), Offset(tb, j, 2), Offset(tb, j, 8));
    RoundCore(R5, Five(Add(w.A, R5[Offset(tb, j, 1)]), Add(w.B, R5[Offset(tb, j, 12)]),
                       Add(w.C, R5[Offset(tb, j, 9)]), Add(w.D, R5[Offset(tb, j, 5)]), E))
  }

  /** Round, made total so that it can be passed around as a function value. */
  function RoundOf(T: SBoxes, tb: Tables, j: nat, R: seq<word>): RoundOut
  {
    if j < REGISTER_WORDS && |R| == REGISTER_WORDS then
      var c := Round(T, tb, j, R);
      RoundOut(c.R, RoundBytes(c.words))
    else RoundOut(R, Zeros(ROUND_BYTES))
  }

  /** `round` is Turing's round under S-boxes T and tables tb. */
  ghost predicate IsRound(round: (nat, seq<word>) -> RoundOut, T: SBoxes, tb: Tables)
  {
    forall j, r {:trigger RoundOf(T, tb, j, r)} :: round(j, r) == RoundOf(T, tb, j, r)
  }

  lemma SameRound(r1: (nat, seq<word>) -> RoundOut, r2: (nat, seq<word>) -> RoundOut,
                  T: SBoxes, tb: Tables, j: nat, r: seq<word>)
    requires IsRound(r1, T, tb) && IsRound(r2, T, tb)
    ensures r1(j, r) == r2(j, r)
  {
    assert r1(j, r) == RoundOf(T, tb, j, r);
  }

  /** The register after some rounds and the bytes they wrote. */
  datatype Run = Run(R: seq<word>, bytes: seq<byte>)

  /** The first n rounds: the register after them and the bytes they write, in order. */
  function RunRounds(round: (nat, seq<word>) -> RoundOut, R: seq<word>, n: nat): (out: Run)
    ensures |out.bytes| == ROUND_BYTES * n
  {
    if n == 0 then Run(R, [])
    else
      var before := RunRounds(round, R, n - 1);
      var last := round(n - 1, before.R);
      Run(last.R, before.bytes + last.bytes)
  }

  /** Round m writes its bytes at 20*m, after those of the rounds before it. */
  lemma {:induction false} RunRoundsPrefix(round: (nat, seq<word>) -> RoundOut, R: seq<word>, m: nat, n: nat)
    requires m < n
    ensures RunRounds(round, R, n).bytes[ROUND_BYTES * m .. ROUND_BYTES * (m + 1)]
         == round(m, RunRounds(round, R, m).R).bytes
  {
    var before := RunRounds(round, R, n - 1);
    var chunk := round(n - 1, before.R).bytes;
    var all := RunRounds(round, R, n).bytes;
    assert all == before.bytes + chunk;
    if m < n - 1 {
      RunRoundsPrefix(round, R, m, n - 1);
      assert all[ROUND_BYTES * m .. ROUND_BYTES * (m + 1)] == before.bytes[ROUND_BYTES * m .. ROUND_BYTES * (m + 1)];
    } else {
      assert all[ROUND_BYTES * m .. ROUND_BYTES * (m + 1)] == chunk;
    }
  }

  /** A full keystream buffer. */
  type Block = s: seq<byte> | |s| == BUFFER_SIZE witness Zeros(BUFFER_SIZE)

  /** What generate leaves behind: the new register and a full buffer. */
  datatype Refill = Refill(R: seq<word>, block: Block)

  /** The rounds under S-boxes T and tables tb, as a function value. */
  function Rounds(T: SBoxes, tb: Tables): (nat, seq<word>) -> RoundOut
  {
    (i: nat, r: seq<word>) => RoundOf(T, tb, i, r)
  }

  lemma RoundsIsRound(T: SBoxes, tb: Tables)
    ensures IsRound(Rounds(T, tb), T, tb)
  {
  }

  /** Any two functions that are both the round give the same run. */
  lemma {:induction false} RunRoundsAgree(r1: (nat, seq<word>) -> RoundOut, r2: (nat, seq<word>) -> RoundOut,
                                          T: SBoxes, tb: Tables, R: seq<word>, n: nat)
    requires IsRound(r1, T, tb) && IsRound(r2, T, tb)
    ensures RunRounds(r1, R, n) == RunRounds(r2, R, n)
  {
    if n > 0 {
      RunRoundsAgree(r1, r2, T, tb, R, n - 1);
      var before := RunRounds(r1, R, n - 1);
      SameRound(r1, r2, T, tb, n - 1, before.R);
    }
  }

  /** generate: 17 rounds, their 17 * 20 bytes filling the buffer exactly. */
  function Keystream(T: SBoxes, tb: Tables, R: seq<word>): Refill
  {
    var out := RunRounds(Rounds(T, tb), R, REGISTER_WORDS);
    Refill(out.R, out.bytes)
  }

  /** Round j of generate writes bytes 20*j to 20*j+19 of the buffer, from the register the rounds before it left. */
  lemma KeystreamBytes(T: SBoxes, tb: Tables, R: seq<word>, j: nat)
    requires |R| == REGISTER_WORDS && j < REGISTER_WORDS
    ensures Keystream(T, tb, R).block[ROUND_BYTES * j .. ROUND_BYTES * (j + 1)]
         == RoundOf(T, tb, j, RunRounds(Rounds(T, tb), R, j).R).bytes
  {
    RunRoundsPrefix(Rounds(T, tb), R, j, REGISTER_WORDS);
  }

  /** generate as the refill function of the keystream. */
  function Generator(T: SBoxes, tb: Tables): seq<word> -> Refill
  {
    R => Keystream(T, tb, R)
  }

  /** `gen` is generate under S-boxes T and tables tb. */
  ghost predicate IsGenerator(gen: seq<word> -> Refill, T: SBoxes, tb: Tables)
  {
    forall R {:trigger Keystream(T, tb, R)} :: gen(R) == Keystream(T, tb, R)
  }

  lemma SameGenerator(g1: seq<word> -> Refill, g2: seq<word> -> Refill, T: SBoxes, tb: Tables, R: seq<word>)
    requires IsGenerator(g1, T, tb) && IsGenerator(g2, T, tb)
    ensures g1(R) == g2(R)
  {
    assert g1(R) == Keystream(T, tb, R);
  }

  /** Whatever stands for generate yields what 17 rounds leave, whatever stands for the round. */
  lemma GeneratorRuns(gen: seq<word> -> Refill, rounds: (nat, seq<word>) -> RoundOut, T: SBoxes, tb: Tables, R: seq<word>)
    requires IsGenerator(gen, T, tb) && IsRound(rounds, T, tb)
    ensures var out := RunRounds(rounds, R, REGISTER_WORDS);
            gen(R) == Refill(out.R, out.bytes)
  {
    assert gen(R) == Keystream(T, tb, R);
    RoundsIsRound(T, tb);
    RunRoundsAgree(rounds, Rounds(T, tb), T, tb, R, REGISTER_WORDS);
  }

  lemma GeneratorIsGenerator(T: SBoxes, tb: Tables)
    ensures IsGenerator(Generator(T, tb), T, tb)
  {
  }

  // cipher: the keystream buffer is consumed from `position`; when the input
  // reaches the end of the buffer, generate refills it.  The generator is a
  // parameter here, so that these theorems hold whatever generate computes.

  /** The register, the keystream buffer and the cursor into it. */
  datatype Stream = Stream(R: seq<word>, buffer: Block, position: nat)

  /** The next keystream bytes and the state that drawing them leaves. */
  datatype Drawn = Drawn(bytes: seq<byte>, state: Stream)

  /** The state after one keystream byte: the cursor moves on, and when it reaches the end of the buffer generate (`gen`) refills it. */
  function Step(gen: seq<word> -> Refill, st: Stream): (s: Stream)
    requires st.position < BUFFER_SIZE
    ensures s.position < BUFFER_SIZE
  {
    if st.position + 1 < BUFFER_SIZE then st.(position := st.position + 1)
    else
      var next := gen(st.R);
      Stream(next.R, next.block, 0)
  }

  /** The next n keystream bytes from state st, one byte at a time. */
  function Draw(gen: seq<word> -> Refill, st: Stream, n: nat): (d: Drawn)
    requires st.position < BUFFER_SIZE
    ensures |d.bytes| == n && d.state.position < BUFFER_SIZE
    decreases n
  {
    if n == 0 then Drawn([], st)
    else
      var rest := Draw(gen, Step(gen, st), n - 1);
      Drawn([st.buffer[st.position]] + rest.bytes, rest.state)
  }

  datatype Crypted = Crypted(output: seq<byte>, state: Stream)

  /** cipher(input) from state st, with `gen` standing for generate: the input xored with the next |input| keystream bytes. */
  function Crypt(gen: seq<word> -> Refill, st: Stream, input: seq<byte>): (c: Crypted)
    requires st.position < BUFFER_SIZE
    ensures |c.output| == |input| && c.state.position < BUFFER_SIZE
  {
    var d := Draw(gen, st, |input|);
    Crypted(XorBytes(input, d.bytes), d.state)
  }

  /** Any two functions that are both generate draw alike. */
  lemma {:induction false} DrawAgree(g1: seq<word> -> Refill, g2: seq<word> -> Refill, T: SBoxes, tb: Tables,
                                     st: Stream, n: nat)
    requires IsGenerator(g1, T, tb) && IsGenerator(g2, T, tb) && st.position < BUFFER_SIZE
    ensures Draw(g1, st, n) == Draw(g2, st, n)
    decreases n
  {
    if n > 0 {
      SameGenerator(g1, g2, T, tb, st.R);
      assert Step(g1, st) == Step(g2, st);
      DrawAgree(g1, g2, T, tb, Step(g1, st), n - 1);
    }
  }

  /** Any two functions that are both generate cipher alike. */
  lemma CryptAgree(g1: seq<word> -> Refill, g2: seq<word> -> Refill, T: SBoxes, tb: Tables,
                   st: Stream, input: seq<byte>)
    requires IsGenerator(g1, T, tb) && IsGenerator(g2, T, tb) && st.position < BUFFER_SIZE
    ensures Crypt(g1, st, input) == Crypt(g2, st, input)
  {
    DrawAgree(g1, g2, T, tb, st, |input|);
  }

  /** Drawing m + n bytes is drawing m and then n from the state the first m left. */
  lemma {:induction false} DrawChunks(gen: seq<word> -> Refill, st: Stream, m: nat, n: nat)
    requires st.position < BUFFER_SIZE
    ensures var first := Draw(gen, st, m);
            var second := Draw(gen, first.state, n);
            Draw(gen, st, m + n) == Drawn(first.bytes + second.bytes, second.state)
    decreases m
  {
    if m == 0 {
      assert [] + Draw(gen, st, n).bytes == Draw(gen, st, n).bytes;
    } else {
      var s := Step(gen, st);
      DrawChunks(gen, s, m - 1, n);
      var first := Draw(gen, s, m - 1);
      AppendAssoc([st.buffer[st.position]], first.bytes, Draw(gen, first.state, n).bytes);
    }
  }

  /** Bytes drawn without reaching the end of the buffer are the buffer from the cursor on; only the cursor moves. */
  lemma {:induction false} DrawWithin(gen: seq<word> -> Refill, st: Stream, n: nat)
    requires st.position + n < BUFFER_SIZE
    ensures Draw(gen, st, n) == Drawn(st.buffer[st.position .. st.position + n], st.(position := st.position + n))
    decreases n
  {
    if n > 0 {
      var s := st.(position := st.position + 1);
      DrawWithin(gen, s, n - 1);
      assert st.buffer[st.position .. st.position + n] == [st.buffer[st.position]] + s.buffer[s.position .. s.position + (n - 1)];
    }
  }

  /** Drawing the rest of the buffer yields it and leaves the buffer generate refills, with the cursor at 0. */
  lemma {:induction false} DrawRest(gen: seq<word> -> Refill, st: Stream)
    requires st.position < BUFFER_SIZE
    ensures var next := gen(st.R);
            Draw(gen, st, BUFFER_SIZE - st.position) == Drawn(st.buffer[st.position..], Stream(next.R, next.block, 0))
    decreases BUFFER_SIZE - st.position
  {
    var next := gen(st.R);
    var s := Step(gen, st);
    if st.position + 1 < BUFFER_SIZE {
      DrawRest(gen, s);
      assert st.buffer[st.position..] == [st.buffer[st.position]] + s.buffer[s.position..];
    } else {
      assert Draw(gen, s, 0) == Drawn([], s);
      assert st.buffer[st.position..] == [st.buffer[st.position]];
    }
  }

  /** Ciphering a ++ b is ciphering a and then b from the state a left. */
  lemma CryptChunks(gen: seq<word> -> Refill, st: Stream, a: seq<byte>, b: seq<byte>)
    requires st.position < BUFFER_SIZE
    ensures var first := Crypt(gen, st, a);
            var second := Crypt(gen, first.state, b);
            Crypt(gen, st, a + b) == Crypted(first.output + second.output, second.state)
  {
    var first := Draw(gen, st, |a|);
    DrawChunks(gen, st, |a|, |b|);
    XorBytesAppend(a, b, first.bytes, Draw(gen, first.state, |b|).bytes);
  }

  /** The output is the input xored with the keystream, which is what ciphering zeros yields; the new state depends only on the length. */
  lemma CryptIsXor(gen: seq<word> -> Refill, st: Stream, input: seq<byte>)
    requires st.position < BUFFER_SIZE
    ensures Crypt(gen, st, input).output == XorBytes(input, Crypt(gen, st, Zeros(|input|)).output)
    ensures Crypt(gen, st, input).state == Crypt(gen, st, Zeros(|input|)).state
  {
    ZerosXor(Draw(gen, st, |input|).bytes);
  }

  lemma ZerosXor(s: seq<byte>)
    ensures XorBytes(Zeros(|s|), s) == s
  {
  }

  lemma XorBytesAppend(a1: seq<byte>, a2: seq<byte>, b1: seq<byte>, b2: seq<byte>)
    requires |a1| == |b1| && |a2| == |b2|
    ensures XorBytes(a1 + a2, b1 + b2) == XorBytes(a1, b1) + XorBytes(a2, b2)
  {
  }

  /** cipher is its own inverse: ciphering the output again from the same state gives the input back. */
  lemma CryptTwice(gen: seq<word> -> Refill, st: Stream, input: seq<byte>)
    requires st.position < BUFFER_SIZE
    ensures Crypt(gen, st, Crypt(gen, st, input).output).output == input
  {
    XorBytesCancel(input, Draw(gen, st, |input|).bytes);
  }

  /** Input that uses up exactly the rest of the buffer leaves a freshly generated buffer with the cursor at 0. */
  lemma CryptExhausts(gen: seq<word> -> Refill, st: Stream, input: seq<byte>)
    requires st.position < BUFFER_SIZE && |input| == BUFFER_SIZE - st.position
    ensures Crypt(gen, st, input).state == Stream(gen(st.R).R, gen(st.R).block, 0)
    ensures Crypt(gen, st, input).output == XorBytes(input, st.buffer[st.position..])
  {
    DrawRest(gen, st);
  }

  /** Input that reaches the end of the buffer: the rest of the buffer is used up on its first bytes, then the rest is ciphered from the refill. */
  lemma CryptRefill(gen: seq<word> -> Refill, st: Stream, input: seq<byte>, next: Refill)
    requires st.position < BUFFER_SIZE && |input| >= BUFFER_SIZE - st.position && next == gen(st.R)
    ensures var room := BUFFER_SIZE - st.position;
      var c := Crypt(gen, Stream(next.R, next.block, 0), input[room..]);
      Crypt(gen, st, input) == Crypted(XorBytes(input[..room], st.buffer[st.position..]) + c.output, c.state)
  {
    var room := BUFFER_SIZE - st.position;
    var refilled := Stream(next.R, next.block, 0);
    DrawRest(gen, st);
    DrawChunks(gen, st, room, |input| - room);
    var rest := Draw(gen, refilled, |input| - room);
    assert Draw(gen, st, |input|) == Drawn(st.buffer[st.position..] + rest.bytes, rest.state);
    assert input == input[..room] + input[room..];
    XorBytesAppend(input[..room], input[room..], st.buffer[st.position..], rest.bytes);
  }

  /** Input that stays within the buffer is xored with the buffer from the cursor on. */
  lemma CryptShort(gen: seq<word> -> Refill, st: Stream, input: seq<byte>)
    requires st.position + |input| < BUFFER_SIZE
    ensures Crypt(gen, st, input)
         == Crypted(XorBytes(input, st.buffer[st.position .. st.position + |input|]), st.(position := st.position + |input|))
  {
    DrawWithin(gen, st, |input|);
  }

  /** Input that stays within the buffer only moves the cursor. */
  lemma CryptWithin(gen: seq<word> -> Refill, st: Stream, input: seq<byte>)
    requires st.position + |input| < BUFFER_SIZE
    ensures Crypt(gen, st, input).state == st.(position := st.position + |input|)
    ensures forall i :: 0 <= i < |input| ==> Crypt(gen, st, input).output[i] == input[i] ^ st.buffer[st.position + i]
  {
    DrawWithin(gen, st, |input|);
  }

  // Packing bytes into words: `W[j/4] = (W[j/4] << 8) + b[j]`, as key and
  // resync both do.

  /** The big-endian words of a string whose length is a multiple of 4. */
  function WordsBE(bytes: seq<byte>): (w: seq<word>)
    requires |bytes| % 4 == 0
    ensures |w| == |bytes| / 4
  {
    seq(|bytes| / 4, i requires 0 <= i < |bytes| / 4 => LoadBE(bytes, 4 * i))
  }

  /** The first m of the four bytes at `lo`, shifted into a zero word. */
  function Partial(bytes: seq<byte>, lo: nat, m: nat): word
    requires lo + m <= |bytes|
  {
    if m == 0 then 0 else ShiftIn(Partial(bytes, lo, m - 1), bytes[lo + m - 1])
  }

  lemma PartialWord(bytes: seq<byte>, lo: nat)
    requires lo + 4 <= |bytes|
    ensures Partial(bytes, lo, 4) == LoadBE(bytes, lo)
  {
    assert Partial(bytes, lo, 1) == ShiftIn(0, bytes[lo]);
    assert Partial(bytes, lo, 2) == ShiftIn(Partial(bytes, lo, 1), bytes[lo + 1]);
    assert Partial(bytes, lo, 3) == ShiftIn(Partial(bytes, lo, 2), bytes[lo + 2]);
    ShiftInWord(bytes[lo], bytes[lo + 1], bytes[lo + 2], bytes[lo + 3]);
  }

  // The register as resync lays it out before PHT.

  /** The framing word (0x010203 << 8) | |K| << 4 | |IV|. */
  function Framing(k: nat, n: nat): word
    requires k <= 8 && n <= 4
  {
    0x0102_0300 | ((k as word) << 4) | (n as word)
  }

  /**
   * The register filled from `prefix` on: each new word is `layer` (the S-box
   * layer, in resync) of the sum of the word d places back and the word just
   * before it.
   */
  function Fill(layer: word -> word, prefix: seq<word>, d: nat): (r: seq<word>)
    requires 1 <= d <= |prefix| <= REGISTER_WORDS
    ensures |r| == REGISTER_WORDS && r[..|prefix|] == prefix
    decreases REGISTER_WORDS - |prefix|
  {
    if |prefix| == REGISTER_WORDS then prefix
    else
      var n := |prefix|;
      var r := Fill(layer, prefix + [layer(Add(prefix[n - d], prefix[n - 1]))], d);
      assert r[..n] == r[..n + 1][..n];
      r
  }

  /** Word i of r is the layer of the sum of the word d places back and the word before it. */
  predicate FillRule(layer: word -> word, r: seq<word>, d: nat, i: nat)
  {
    1 <= d <= i < |r| && r[i] == layer(Add(r[i - d], r[i - 1]))
  }

  /** Writing a word at or after j keeps the fill rule at i < j. */
  lemma FillRuleKeep(layer: word -> word, r: seq<word>, d: nat, i: nat, j: nat, y: word)
    requires FillRule(layer, r, d, i) && i < j < |r|
    ensures FillRule(layer, r[j := y], d, i)
  {
    var r' := r[j := y];
    assert r'[i] == r[i] && r'[i - d] == r[i - d] && r'[i - 1] == r[i - 1];
  }

  /** Every word past the prefix follows the fill rule. */
  lemma {:induction false} FillAt(layer: word -> word, prefix: seq<word>, d: nat, j: nat)
    requires 1 <= d <= |prefix| <= j < REGISTER_WORDS
    ensures FillRule(layer, Fill(layer, prefix, d), d, j)
    decreases REGISTER_WORDS - |prefix|
  {
    var n := |prefix|;
    var next := prefix + [layer(Add(prefix[n - d], prefix[n - 1]))];
    var r := Fill(layer, prefix, d);
    assert r == Fill(layer, next, d);
    assert r[..n + 1] == next;
    if j == n {
      assert r[n] == next[n] && r[n - d] == next[n - d] && r[n - 1] == next[n - 1];
    } else {
      FillAt(layer, next, d, j);
    }
  }

  /** Fill is the only register that starts with the prefix and obeys the fill rule. */
  lemma {:induction false} FillUnique(layer: word -> word, prefix: seq<word>, d: nat, r: seq<word>, j: nat)
    requires 1 <= d <= |prefix| <= REGISTER_WORDS && |r| == REGISTER_WORDS && j < REGISTER_WORDS
    requires forall i :: 0 <= i < |prefix| ==> r[i] == prefix[i]
    requires forall i :: |prefix| <= i < REGISTER_WORDS ==> FillRule(layer, r, d, i)
    ensures r[j] == Fill(layer, prefix, d)[j]
  {
    var f := Fill(layer, prefix, d);
    if j < |prefix| {
      assert f[j] == f[..|prefix|][j];
    } else {
      FillAt(layer, prefix, d, j);
      assert FillRule(layer, r, d, j);
      FillUnique(layer, prefix, d, r, j - d);
      FillUnique(layer, prefix, d, r, j - 1);
    }
  }

  /** The words resync writes before the fill: the IV words through `fixed` (fixedS), then K, then the framing word. */
  function Prefix(fixed: word -> word, K: seq<word>, iv: seq<word>): (p: seq<word>)
    requires |K| <= 8 && |iv| <= 4
    ensures |p| == |iv| + |K| + 1
    ensures forall i :: 0 <= i < |iv| ==> p[i] == fixed(iv[i])
    ensures forall i :: 0 <= i < |K| ==> p[|iv| + i] == K[i]
    ensures p[|iv| + |K|] == Framing(|K|, |iv|)
  {
    var head := FixedWords(fixed, iv) + K;
    assert forall i :: 0 <= i < |K| ==> head[|iv| + i] == K[i];
    head + [Framing(|K|, |iv|)]
  }

  /** The IV words, each passed through `fixed`. */
  function FixedWords(fixed: word -> word, iv: seq<word>): (r: seq<word>)
    ensures |r| == |iv| && forall i :: 0 <= i < |iv| ==> r[i] == fixed(iv[i])
  {
    seq(|iv|, i requires 0 <= i < |iv| => fixed(iv[i]))
  }

  /** A register holding the IV words through `fixed`, then K, then the framing word, starts with the prefix. */
  lemma PrefixFrom(fixed: word -> word, K: seq<word>, iv: seq<word>, r: seq<word>)
    requires |K| <= 8 && |iv| <= 4 && |iv| + |K| + 1 <= |r|
    requires forall i :: 0 <= i < |iv| ==> r[i] == fixed(iv[i])
    requires forall i :: 0 <= i < |K| ==> r[|iv| + i] == K[i]
    requires r[|iv| + |K|] == Framing(|K|, |iv|)
    ensures r[..|iv| + |K| + 1] == Prefix(fixed, K, iv)
  {
    var p := Prefix(fixed, K, iv);
    forall i | 0 <= i < |p|
      ensures r[i] == p[i]
    {
      if |iv| <= i < |iv| + |K| {
        assert r[|iv| + (i - |iv|)] == K[i - |iv|];
      }
    }
  }

  /** A register that starts with the prefix and follows the fill rule after it is the layout. */
  lemma LayoutFrom(fixed: word -> word, layer: word -> word, K: seq<word>, iv: seq<word>, r: seq<word>, d: nat)
    requires |K| <= 8 && |iv| <= 4 && |r| == REGISTER_WORDS && d == |iv| + |K| + 1
    requires r[..d] == Prefix(fixed, K, iv)
    requires forall i :: d <= i < REGISTER_WORDS ==> FillRule(layer, r, d, i)
    ensures r == Layout(fixed, layer, K, iv)
  {
    var p := Prefix(fixed, K, iv);
    forall i | 0 <= i < d
      ensures r[i] == p[i]
    {
      assert r[i] == r[..d][i];
    }
    forall j | 0 <= j < REGISTER_WORDS
      ensures r[j] == Layout(fixed, layer, K, iv)[j]
    {
      FillUnique(layer, p, d, r, j);
    }
  }

  /** R before PHT: the prefix, then the fill by `layer` with d = |IV| + |K| + 1. */
  function Layout(fixed: word -> word, layer: word -> word, K: seq<word>, iv: seq<word>): (r: seq<word>)
    requires |K| <= 8 && |iv| <= 4
    ensures |r| == REGISTER_WORDS
  {
    Fill(layer, Prefix(fixed, K, iv), |iv| + |K| + 1)
  }

  /** The first entries of the layout: the fixed IV words, the key words, the framing word. */
  lemma LayoutPrefix(fixed: word -> word, layer: word -> word, K: seq<word>, iv: seq<word>)
    requires |K| <= 8 && |iv| <= 4
    ensures var r, n, k := Layout(fixed, layer, K, iv), |iv|, |K|;
      && (forall i :: 0 <= i < n ==> r[i] == fixed(iv[i]))
      && (forall i :: 0 <= i < k ==> r[n + i] == K[i])
      && r[n + k] == Framing(k, n)
  {
    var p := Prefix(fixed, K, iv);
    var r := Layout(fixed, layer, K, iv);
    assert r[..|p|] == p;
    forall i | 0 <= i < |p|
      ensures r[i] == p[i]
    {
      assert r[i] == r[..|p|][i];
    }
  }

  /** The rest of the layout follows the fill rule with d = |IV| + |K| + 1. */
  lemma LayoutFill(fixed: word -> word, layer: word -> word, K: seq<word>, iv: seq<word>, j: nat)
    requires |K| <= 8 && |iv| <= 4 && |iv| + |K| + 1 <= j < REGISTER_WORDS
    ensures FillRule(layer, Layout(fixed, layer, K, iv), |iv| + |K| + 1, j)
  {
    FillAt(layer, Prefix(fixed, K, iv), |iv| + |K| + 1, j);
  }

  /** fixedS under tables tb, as a function value. */
  function FixedOf(tb: Tables): word -> word
  {
    w => Fixed(tb, w)
  }

  /** `fixed` is fixedS under tables tb. */
  ghost predicate IsFixed(fixed: word -> word, tb: Tables)
  {
    forall w {:trigger Fixed(tb, w)} :: fixed(w) == Fixed(tb, w)
  }

  lemma SameFixed(f1: word -> word, f2: word -> word, tb: Tables, w: word)
    requires IsFixed(f1, tb) && IsFixed(f2, tb)
    ensures f1(w) == f2(w)
  {
    assert f1(w) == Fixed(tb, w);
  }

  lemma FixedOfIsFixed(tb: Tables)
    ensures IsFixed(FixedOf(tb), tb)
  {
  }

  /** Any two functions that are both fixedS lay out the same register. */
  lemma LayoutAgree(f1: word -> word, f2: word -> word, tb: Tables, layer: word -> word, K: seq<word>, iv: seq<word>)
    requires IsFixed(f1, tb) && IsFixed(f2, tb) && |K| <= 8 && |iv| <= 4
    ensures Layout(f1, layer, K, iv) == Layout(f2, layer, K, iv)
  {
    var p1, p2 := Prefix(f1, K, iv), Prefix(f2, K, iv);
    forall i | 0 <= i < |p1|
      ensures p1[i] == p2[i]
    {
      if i < |iv| {
        SameFixed(f1, f2, tb, iv[i]);
      }
    }
    assert p1 == p2;
  }

  /** The S-box layer resync uses, on the bytes 0, 1, 2, 3 in order. */
  function Layer0(T: SBoxes): word -> word
  {
    x => SLayer(T, x, 0)
  }

  /** The register and buffer after resync with key words K and IV bytes iv. */
  function Resynced(T: SBoxes, tb: Tables, K: seq<word>, iv: seq<byte>): Refill
    requires |K| <= 8 && |iv| % 4 == 0 && |iv| <= MAX_IV_LENGTH
  {
    Keystream(T, tb, Pht(Layout(FixedOf(tb), Layer0(T), K, WordsBE(iv))))
  }

  /** The key words: fixedS of each big-endian word of the key, then PHT. */
  function KeyWords(tb: Tables, key: seq<byte>): (K: seq<word>)
    requires |key| % 4 == 0 && 4 <= |key|
    ensures |K| == |key| / 4
  {
    var words := WordsBE(key);
    Pht(seq(|words|, i requires 0 <= i < |words| => Fixed(tb, words[i])))
  }
}
