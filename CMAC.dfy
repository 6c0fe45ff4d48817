// CMAC (the OMAC1 construction of NIST SP 800-38B) over an abstract block
// cipher of 8 or 16 bytes, as Botan implements it: subkeys
// B = dbl(E_K(0^n)) and P = dbl(B), lazy CBC chaining that always keeps the
// last 1..n bytes of the message buffered, and a final block masked with B
// when it is complete and padded with 0x80 0x00.. and masked with P otherwise.

module CMAC {
  import opened Words

  // The block cipher.  Its key state is either cleared or set to a key; the
  // cipher itself is a length-preserving function of that state and a block.

  datatype CipherKey = Unkeyed | Keyed(key: seq<byte>)

  type BlockCipher = e: (CipherKey, seq<byte>) -> seq<byte> | forall k, b :: |e(k, b)| == |b|
    witness (k: CipherKey, b: seq<byte>) => b

  lemma CipherLength(e: BlockCipher, k: CipherKey, b: seq<byte>)
    ensures |e(k, b)| == |b|
  {
  }

  /** The reduction polynomial chosen by the constructor: 0x87 for 16-byte blocks, 0x1B for 8-byte blocks. */
  function Polynomial(blockSize: nat): (p: Option<byte>)
    ensures p.Some? <==> blockSize == 8 || blockSize == 16
    ensures blockSize == 16 ==> p == Some(0x87)
    ensures blockSize == 8 ==> p == Some(0x1B)
  {
    if blockSize == 16 then Some(0x87)
    else if blockSize == 8 then Some(0x1B)
    else None
  }

  // poly_double: doubling in GF(2^8n).  The byte operations have names of
  // their own, so that the proofs below reason about them by their lemmas.

  /** A byte shifted left by one, its low bit filled from `carry`. */
  function Shl1(b: byte, carry: byte): byte
  {
    (b << 1) | carry
  }

  /** The top bit of a byte, as the carry into the byte before it. */
  function TopBit(b: byte): byte
  {
    b >> 7
  }

  /** `in[0] & 0x80`: whether doubling overflows. */
  predicate TopSet(b: byte)
  {
    b & 0x80 != 0
  }

  /** Byte i of the shifted block: in[i] moved up one bit, its low bit the top bit of in[i + 1] (zero for the last byte). */
  function ShiftedByte(s: seq<byte>, i: nat): byte
    requires i < |s|
  {
    Shl1(s[i], if i + 1 < |s| then TopBit(s[i + 1]) else 0)
  }

  /** The block after the carry loop of poly_double. */
  function Shifted(s: seq<byte>): (r: seq<byte>)
    ensures |r| == |s|
  {
    seq(|s|, i requires 0 <= i < |s| => ShiftedByte(s, i))
  }

  /** poly_double(in, polynomial): the shifted block, with the polynomial folded into the last byte if a bit fell off the top. */
  function PolyDouble(input: seq<byte>, polynomial: byte): (out: seq<byte>)
    requires |input| > 0
    ensures |out| == |input|
  {
    var shifted := Shifted(input);
    if TopSet(input[0]) then shifted[|input| - 1 := shifted[|input| - 1] ^ polynomial]
    else shifted
  }

  /**
   * poly_double's carry loop as a method: from the last byte to the first,
   * each byte is shifted left by one and takes the carry left by the byte
   * after it; then the polynomial is folded in.
   */
  method DoubleBlock(input: seq<byte>, polynomial: byte) returns (out: seq<byte>)
    requires |input| > 0
    ensures out == PolyDouble(input, polynomial)
  {
    var doXor := TopSet(input[0]);
    out := input;
    var carry: byte := 0;
    var j := |out|;
    while j != 0
      invariant 0 <= j <= |out| == |input|
      invariant out[..j] == input[..j]
      invariant forall i :: j <= i < |out| ==> out[i] == ShiftedByte(input, i)
      invariant carry == if j < |input| then TopBit(input[j]) else 0
    {
      var temp := out[j - 1];
      out := out[j - 1 := Shl1(temp, carry)];
      carry := TopBit(temp);
      j := j - 1;
    }
    assert out == Shifted(input);
    if doXor {
      out := out[|out| - 1 := out[|out| - 1] ^ polynomial];
    }
  }

  /**
   * The big-endian left shift by one bit, written independently of the
   * loop: the shift of the first |s| - 1 bytes, with the top bit of the last
   * byte as its carry, followed by the last byte shifted with `carry`.
   */
  function ShiftCarry(s: seq<byte>, carry: byte): (r: seq<byte>)
    ensures |r| == |s|
    decreases |s|
  {
    if |s| == 0 then []
    else
      var k := |s| - 1;
      ShiftCarry(s[..k], TopBit(s[k])) + [Shl1(s[k], carry)]
  }

  /** The big-endian value of a byte string. */
  function ToNat(s: seq<byte>): nat
  {
    if |s| == 0 then 0 else 256 * ToNat(s[..|s| - 1]) + s[|s| - 1] as nat
  }

  function Pow256(k: nat): (p: nat)
    ensures p >= 1
  {
    if k == 0 then 1 else 256 * Pow256(k - 1)
  }

  /** The bit that a left shift of s pushes out: the top bit of s[0], or the incoming carry when s is empty. */
  function CarryOut(s: seq<byte>, carry: byte): nat
  {
    if |s| == 0 then carry as nat else TopBit(s[0]) as nat
  }

  lemma ByteShift(b: byte, c: byte)
    requires c <= 1
    ensures 2 * (b as nat) + c as nat == 256 * (TopBit(b) as nat) + Shl1(b, c) as nat
  {
    assert 2 * (b as nat) + c as nat == 256 * ((b >> 7) as nat) + ((b << 1) | c) as nat;
  }

  lemma TopBitRange(b: byte)
    ensures TopBit(b) <= 1
  {
    assert b >> 7 <= 1;
  }

  lemma ToNatSnoc(r: seq<byte>, y: byte)
    ensures ToNat(r + [y]) == 256 * ToNat(r) + y as nat
  {
    assert (r + [y])[..|r|] == r;
  }

  /**
   * Shifting with an incoming carry bit doubles the big-endian value: the
   * result plus the carried-out bit at weight 256^|s| is 2 * s + carry.
   */
  lemma {:induction false} ShiftCarryValue(s: seq<byte>, c: byte)
    requires c <= 1
    ensures ToNat(ShiftCarry(s, c)) + Pow256(|s|) * CarryOut(s, c) == 2 * ToNat(s) + c as nat
    decreases |s|
  {
    if |s| > 0 {
      var k := |s| - 1;
      var h, b := s[..k], s[k];
      var t := TopBit(b);
      var y := Shl1(b, c);
      var r := ShiftCarry(h, t);
      TopBitRange(b);
      ByteShift(b, c);
      ShiftCarryValue(h, t);
      assert ShiftCarry(s, c) == r + [y];
      ToNatSnoc(r, y);
      assert ToNat(s) == 256 * ToNat(h) + b as nat;
      if k == 0 {
        assert CarryOut(s, c) == t as nat;
      } else {
        assert CarryOut(s, c) == CarryOut(h, t);
        assert Pow256(|s|) * CarryOut(s, c) == 256 * (Pow256(k) * CarryOut(h, t));
      }
    }
  }

  /** Byte i of the shift: the byte moved up one bit, its low bit taken from the next byte's top bit (or the carry for the last byte). */
  lemma {:induction false} ShiftCarryAt(s: seq<byte>, c: byte, i: nat)
    requires i < |s|
    ensures ShiftCarry(s, c)[i] == Shl1(s[i], if i + 1 < |s| then TopBit(s[i + 1]) else c)
    decreases |s|
  {
    var k := |s| - 1;
    if i < k {
      ShiftCarryAt(s[..k], TopBit(s[k]), i);
    }
  }

  /** The carry loop computes the big-endian shift. */
  lemma ShiftedIsShiftCarry(s: seq<byte>)
    ensures Shifted(s) == ShiftCarry(s, 0)
  {
    forall i | 0 <= i < |s|
      ensures Shifted(s)[i] == ShiftCarry(s, 0)[i]
    {
      ShiftCarryAt(s, 0, i);
    }
  }

  /**
   * poly_double is the left shift of the block as a big-endian 8n-bit
   * integer, mod 2^(8n): with the polynomial taken back out of the last byte,
   * out + 2^(8n) * (top bit of in[0]) == 2 * in.  The polynomial is folded
   * into the last byte exactly when that top bit is set, and the other bytes
   * are the shifted ones.
   */
  lemma PolyDoubleShifts(input: seq<byte>, polynomial: byte)
    requires |input| > 0
    ensures var out := PolyDouble(input, polynomial);
      var shifted := ShiftCarry(input, 0);
      ToNat(shifted) + Pow256(|input|) * (TopBit(input[0]) as nat) == 2 * ToNat(input)
      && out[..|input| - 1] == shifted[..|input| - 1]
      && out[|input| - 1] == (if TopSet(input[0]) then shifted[|input| - 1] ^ polynomial else shifted[|input| - 1])
  {
    ShiftCarryValue(input, 0);
    ShiftedIsShiftCarry(input);
  }

  // Linearity of poly_double.  XOR of two bytes is named, so that the
  // byte-level facts below combine by congruence.

  function XorByte(a: byte, b: byte): byte
  {
    a ^ b
  }

  lemma XorShiftByte(a: byte, b: byte, a2: byte, b2: byte)
    ensures Shl1(XorByte(a, b), TopBit(XorByte(a2, b2))) == XorByte(Shl1(a, TopBit(a2)), Shl1(b, TopBit(b2)))
  {
    assert ((a ^ b) << 1) | ((a2 ^ b2) >> 7) == ((a << 1) | (a2 >> 7)) ^ ((b << 1) | (b2 >> 7));
  }

  /** The last byte of poly_double from the first and last input bytes. */
  function LastByte(first: byte, last: byte, polynomial: byte): byte
  {
    if TopSet(first) then Shl1(last, 0) ^ polynomial else Shl1(last, 0)
  }

  lemma LastByteXor(a0: byte, b0: byte, ak: byte, bk: byte, polynomial: byte)
    ensures LastByte(XorByte(a0, b0), XorByte(ak, bk), polynomial) == XorByte(LastByte(a0, ak, polynomial), LastByte(b0, bk, polynomial))
  {
    assert ((ak ^ bk) << 1) | 0 == ((ak << 1) | 0) ^ ((bk << 1) | 0);
    assert ((a0 ^ b0) & 0x80 != 0) <==> ((a0 & 0x80 != 0) != (b0 & 0x80 != 0));
    var x, y, p := Shl1(ak, 0), Shl1(bk, 0), polynomial;
    if TopSet(a0) && TopSet(b0) {
      assert (x ^ p) ^ (y ^ p) == x ^ y;
    } else if TopSet(a0) {
      assert (x ^ p) ^ y == (x ^ y) ^ p;
    } else if TopSet(b0) {
      assert x ^ (y ^ p) == (x ^ y) ^ p;
    }
  }

  /** Doubling is linear over XOR: dbl(a ^ b) == dbl(a) ^ dbl(b), as multiplication by x in GF(2^8n) must be. */
  lemma PolyDoubleXor(a: seq<byte>, b: seq<byte>, polynomial: byte)
    requires |a| == |b| > 0
    ensures PolyDouble(XorBytes(a, b), polynomial) == XorBytes(PolyDouble(a, polynomial), PolyDouble(b, polynomial))
  {
    var l := PolyDouble(XorBytes(a, b), polynomial);
    var r := XorBytes(PolyDouble(a, polynomial), PolyDouble(b, polynomial));
    forall i | 0 <= i < |a|
      ensures l[i] == r[i]
    {
      PolyDoubleXorAt(a, b, polynomial, i);
      assert r[i] == XorByte(PolyDouble(a, polynomial)[i], PolyDouble(b, polynomial)[i]);
    }
  }

  lemma PolyDoubleXorAt(a: seq<byte>, b: seq<byte>, polynomial: byte, i: nat)
    requires |a| == |b| && i < |a|
    ensures PolyDouble(XorBytes(a, b), polynomial)[i] == XorByte(PolyDouble(a, polynomial)[i], PolyDouble(b, polynomial)[i])
  {
    if i + 1 < |a| {
      PolyDoubleXorInner(a, b, polynomial, i);
    } else {
      PolyDoubleXorLast(a, b, polynomial);
    }
  }

  lemma PolyDoubleXorInner(a: seq<byte>, b: seq<byte>, polynomial: byte, i: nat)
    requires |a| == |b| && i + 1 < |a|
    ensures PolyDouble(XorBytes(a, b), polynomial)[i] == XorByte(PolyDouble(a, polynomial)[i], PolyDouble(b, polynomial)[i])
  {
    var x := XorBytes(a, b);
    assert x[i] == XorByte(a[i], b[i]) && x[i + 1] == XorByte(a[i + 1], b[i + 1]);
    PolyDoubleInner(x, polynomial, i);
    PolyDoubleInner(a, polynomial, i);
    PolyDoubleInner(b, polynomial, i);
    XorShiftByte(a[i], b[i], a[i + 1], b[i + 1]);
  }

  lemma PolyDoubleXorLast(a: seq<byte>, b: seq<byte>, polynomial: byte)
    requires |a| == |b| > 0
    ensures var k := |a| - 1;
      PolyDouble(XorBytes(a, b), polynomial)[k] == XorByte(PolyDouble(a, polynomial)[k], PolyDouble(b, polynomial)[k])
  {
    var x := XorBytes(a, b);
    var k := |a| - 1;
    assert |x| == |a| && x[0] == XorByte(a[0], b[0]) && x[k] == XorByte(a[k], b[k]);
    PolyDoubleLast(x, polynomial);
    PolyDoubleLast(a, polynomial);
    PolyDoubleLast(b, polynomial);
    LastByteXor(a[0], b[0], a[k], b[k], polynomial);
  }

  /** Byte i of poly_double before the last: the shifted byte with the next byte's top bit. */
  lemma PolyDoubleInner(s: seq<byte>, polynomial: byte, i: nat)
    requires i + 1 < |s|
    ensures PolyDouble(s, polynomial)[i] == Shl1(s[i], TopBit(s[i + 1]))
  {
  }

  /** The last byte of poly_double: shifted with a zero carry, the polynomial folded in when the top bit of in[0] is set. */
  lemma PolyDoubleLast(s: seq<byte>, polynomial: byte)
    requires |s| > 0
    ensures PolyDouble(s, polynomial)[|s| - 1] == LastByte(s[0], s[|s| - 1], polynomial)
  {
  }

  // The message chaining of add_data and final_result, on values.

  /** The chaining value and the buffered tail of the message that is not yet encrypted. */
  datatype Absorbed = Absorbed(state: seq<byte>, pending: seq<byte>)

  predicate WellFormed(n: nat, a: Absorbed)
  {
    |a.state| == n && |a.pending| <= n
  }

  /** The state after key() or final_result(): a zero chaining value and nothing buffered. */
  function Initial(n: nat): (a: Absorbed)
    ensures WellFormed(n, a)
  {
    Absorbed(Zeros(n), [])
  }

  /**
   * add_data: the input is appended to the buffered tail as long as the two
   * fit in one block; otherwise the first block of the two is chained in
   * (XORed into the state, which is then encrypted) and the rest continues
   * from an empty buffer.  A block is only chained once more input follows
   * it, so a nonempty message always leaves 1..n bytes buffered.
   */
  function Feed(enc: BlockCipher, key: CipherKey, n: nat, a: Absorbed, input: seq<byte>): (r: Absorbed)
    requires n > 0 && WellFormed(n, a)
    ensures WellFormed(n, r)
    decreases |input|, |a.pending|
  {
    if |a.pending| + |input| <= n then Absorbed(a.state, a.pending + input)
    else
      var take := n - |a.pending|;
      Feed(enc, key, n, Absorbed(enc(key, XorBytes(a.state, a.pending + input[..take])), []), input[take..])
  }

  /** The number of blocks add_data encrypts, from the buffered length and the input length. */
  function FeedBlocks(n: nat, pendingLength: nat, inputLength: nat): nat
    requires n > 0 && pendingLength <= n
    decreases inputLength, pendingLength
  {
    if pendingLength + inputLength <= n then 0
    else 1 + FeedBlocks(n, 0, inputLength - (n - pendingLength))
  }

  /** The final block padded as final_result pads it: 0x80, then zeros to the block size. */
  function Pad(n: nat, tail: seq<byte>): (r: seq<byte>)
    requires |tail| < n
    ensures |r| == n && r[..|tail|] == tail && r[|tail|] == 0x80
    ensures forall j :: |tail| < j < n ==> r[j] == 0
  {
    tail + [0x80] + Zeros(n - |tail| - 1)
  }

  /** final_result: the last block, masked with B when complete and padded and masked with P otherwise, chained and encrypted. */
  function Finish(enc: BlockCipher, key: CipherKey, n: nat, a: Absorbed, B: seq<byte>, P: seq<byte>): (mac: seq<byte>)
    requires WellFormed(n, a) && |B| == n && |P| == n
    ensures |mac| == n
  {
    var last := if |a.pending| == n then XorBytes(a.pending, B) else XorBytes(Pad(n, a.pending), P);
    enc(key, XorBytes(a.state, last))
  }

  /** The subkeys computed by key(): B = dbl(E_K(0^n)), P = dbl(B). */
  function SubkeyB(enc: BlockCipher, key: seq<byte>, n: nat, polynomial: byte): (B: seq<byte>)
    requires n > 0
    ensures |B| == n
  {
    PolyDouble(enc(Keyed(key), Zeros(n)), polynomial)
  }

  function SubkeyP(enc: BlockCipher, key: seq<byte>, n: nat, polynomial: byte): (P: seq<byte>)
    requires n > 0
    ensures |P| == n
  {
    PolyDouble(SubkeyB(enc, key, n, polynomial), polynomial)
  }

  /** The MAC of a whole message on a freshly keyed object. */
  function MessageMac(enc: BlockCipher, key: seq<byte>, n: nat, polynomial: byte, message: seq<byte>): (mac: seq<byte>)
    requires n > 0
    ensures |mac| == n
  {
    var a := Feed(enc, Keyed(key), n, Initial(n), message);
    Finish(enc, Keyed(key), n, a, SubkeyB(enc, key, n, polynomial), SubkeyP(enc, key, n, polynomial))
  }

  // The reference: MAC generation as section 6.2 of NIST SP 800-38B states
  // it, on the whole message at once.

  /** The concatenation of a sequence of blocks. */
  function Concat(bs: seq<seq<byte>>): seq<byte>
  {
    if |bs| == 0 then [] else bs[0] + Concat(bs[1..])
  }

  /**
   * The message cut into blocks: full n-byte blocks and a last block of 1..n
   * bytes; the empty message is one empty block.
   */
  function Blocks(n: nat, m: seq<byte>): (bs: seq<seq<byte>>)
    requires n > 0
    ensures |bs| > 0 && Concat(bs) == m
    ensures forall i :: 0 <= i < |bs| - 1 ==> |bs[i]| == n
    ensures 0 < |bs[|bs| - 1]| <= n || m == []
    decreases |m|
  {
    if |m| <= n then [m]
    else
      var rest := Blocks(n, m[n..]);
      assert ([m[..n]] + rest)[1..] == rest;
      assert m[..n] + m[n..] == m;
      [m[..n]] + rest
  }

  /** CBC chaining of full blocks from a chaining value. */
  function Chain(enc: BlockCipher, key: CipherKey, state: seq<byte>, bs: seq<seq<byte>>): (r: seq<byte>)
    requires forall i :: 0 <= i < |bs| ==> |bs[i]| == |state|
    ensures |r| == |state|
    decreases |bs|
  {
    if |bs| == 0 then state else Chain(enc, key, enc(key, XorBytes(state, bs[0])), bs[1..])
  }

  /**
   * CMAC of section 6.2: K1 = dbl(E_K(0^n)), K2 = dbl(K1); all blocks but the
   * last are CBC-chained; the last is XORed with K1 if complete, and padded
   * with 10..0 and XORed with K2 if not; the tag is E_K of that XORed into the
   * chaining value.
   */
  function StandardMac(enc: BlockCipher, key: seq<byte>, n: nat, polynomial: byte, m: seq<byte>): (tag: seq<byte>)
    requires n > 0
    ensures |tag| == n
  {
    var K1 := PolyDouble(enc(Keyed(key), Zeros(n)), polynomial);
    var K2 := PolyDouble(K1, polynomial);
    var bs := Blocks(n, m);
    var last := bs[|bs| - 1];
    var c := Chain(enc, Keyed(key), Zeros(n), bs[..|bs| - 1]);
    var padded := if |last| == n then XorBytes(last, K1) else XorBytes(last + [0x80] + Zeros(n - |last| - 1), K2);
    enc(Keyed(key), XorBytes(c, padded))
  }

  // Properties of the chaining.

  /**
   * add_data chains every block of the buffered tail plus the input except
   * the last, and keeps the last one buffered.
   */
  lemma {:induction false} FeedChains(enc: BlockCipher, key: CipherKey, n: nat, a: Absorbed, input: seq<byte>)
    requires n > 0 && WellFormed(n, a)
    ensures var bs := Blocks(n, a.pending + input);
      Feed(enc, key, n, a, input) == Absorbed(Chain(enc, key, a.state, bs[..|bs| - 1]), bs[|bs| - 1])
    decreases |input|, |a.pending|
  {
    var m := a.pending + input;
    if |m| > n {
      var take := n - |a.pending|;
      assert a.pending + input[..take] == m[..n];
      assert input[take..] == m[n..];
      var next := Absorbed(enc(key, XorBytes(a.state, m[..n])), []);
      assert next.pending + input[take..] == m[n..];
      FeedChains(enc, key, n, next, input[take..]);
      BlocksCons(enc, key, n, a.state, m);
    }
  }

  /** Past the first block, the blocks of m are the first n bytes followed by the blocks of the rest. */
  lemma BlocksCons(enc: BlockCipher, key: CipherKey, n: nat, state: seq<byte>, m: seq<byte>)
    requires 0 < n < |m| && |state| == n
    ensures var bs, rest := Blocks(n, m), Blocks(n, m[n..]);
      bs[|bs| - 1] == rest[|rest| - 1]
      && Chain(enc, key, state, bs[..|bs| - 1]) == Chain(enc, key, enc(key, XorBytes(state, m[..n])), rest[..|rest| - 1])
  {
    var bs, rest := Blocks(n, m), Blocks(n, m[n..]);
    assert bs == [m[..n]] + rest;
    var front := bs[..|bs| - 1];
    assert front == [m[..n]] + rest[..|rest| - 1];
    assert front[1..] == rest[..|rest| - 1];
  }

  /** Feeding a message in two pieces is feeding it at once. */
  lemma {:induction false} FeedAppend(enc: BlockCipher, key: CipherKey, n: nat, a: Absorbed, x: seq<byte>, y: seq<byte>)
    requires n > 0 && WellFormed(n, a)
    ensures Feed(enc, key, n, Feed(enc, key, n, a, x), y) == Feed(enc, key, n, a, x + y)
    decreases |x|, |a.pending|
  {
    if |a.pending| + |x| <= n {
      var b := Absorbed(a.state, a.pending + x);
      if |a.pending| + |x| + |y| > n {
        var take := n - |a.pending|;
        var take2 := n - |b.pending|;
        assert b.pending + y[..take2] == a.pending + (x + y)[..take];
        assert y[take2..] == (x + y)[take..];
      } else {
        assert b.pending + y == a.pending + (x + y);
      }
    } else {
      var take := n - |a.pending|;
      assert (x + y)[..take] == x[..take];
      assert (x + y)[take..] == x[take..] + y;
      var next := Absorbed(enc(key, XorBytes(a.state, a.pending + x[..take])), []);
      FeedAppend(enc, key, n, next, x[take..], y);
    }
  }

  /** Botan's CMAC computes the MAC of section 6.2 of NIST SP 800-38B, for every message and key. */
  lemma MessageMacIsStandard(enc: BlockCipher, key: seq<byte>, n: nat, polynomial: byte, message: seq<byte>)
    requires n > 0
    ensures MessageMac(enc, key, n, polynomial, message) == StandardMac(enc, key, n, polynomial, message)
  {
    var a := Feed(enc, Keyed(key), n, Initial(n), message);
    var bs := Blocks(n, message);
    assert Initial(n).pending + message == message;
    assert a == Absorbed(Chain(enc, Keyed(key), Zeros(n), bs[..|bs| - 1]), bs[|bs| - 1]) by {
      FeedChains(enc, Keyed(key), n, Initial(n), message);
    }
  }

  /** After any nonempty input, the last 1..n bytes stay buffered and unencrypted. */
  lemma FeedKeepsLastBlock(enc: BlockCipher, key: CipherKey, n: nat, a: Absorbed, input: seq<byte>)
    requires n > 0 && WellFormed(n, a)
    ensures var r := Feed(enc, key, n, a, input);
      (|a.pending| + |input| > 0 <==> 0 < |r.pending|) && |r.pending| <= n
  {
    FeedChains(enc, key, n, a, input);
  }

  /**
   * The encryptions add_data performs: with p bytes buffered and L more
   * arriving, one for every block but the last of the p + L bytes, so that
   * with final_result's one a message of L > 0 bytes costs ceil(L / n)
   * encryptions and the empty message one.
   */
  lemma {:induction false} FeedBlocksCount(n: nat, p: nat, L: nat)
    requires 0 < n && p <= n
    ensures FeedBlocks(n, p, L) + 1 == if p + L == 0 then 1 else (p + L + n - 1) / n
    decreases L, p
  {
    var total := p + L;
    if total <= n {
      if total > 0 {
        DivSmallPlusN(total - 1, n);
      }
    } else {
      var rest := L - (n - p);
      FeedBlocksCount(n, 0, rest);
      var y: nat := rest + n - 1;
      DivAddN(y, n);
      assert total + n - 1 == y + n;
    }
  }

  lemma DivSmallPlusN(x: nat, n: nat)
    requires x < n
    ensures (x + n) / n == 1
  {
    DivAddN(x, n);
  }

  /** A step of add_data's inner loop: with nothing buffered and more than a block to come, the next block is chained. */
  lemma FeedBlock(enc: BlockCipher, key: CipherKey, n: nat, state: seq<byte>, rest: seq<byte>)
    requires 0 < n < |rest| && |state| == n
    ensures Feed(enc, key, n, Absorbed(state, []), rest)
      == Feed(enc, key, n, Absorbed(enc(key, XorBytes(state, rest[..n])), []), rest[n..])
  {
    assert [] + rest[..n] == rest[..n];
  }

  /** add_data's first block: the buffered bytes completed from the input, chained once more input follows. */
  lemma FeedFirst(enc: BlockCipher, key: CipherKey, n: nat, a: Absorbed, input: seq<byte>)
    requires 0 < n && WellFormed(n, a) && |a.pending| + |input| > n
    ensures var take := n - |a.pending|;
      Feed(enc, key, n, a, input)
        == Feed(enc, key, n, Absorbed(enc(key, XorBytes(a.state, a.pending + input[..take])), []), input[take..])
      && FeedBlocks(n, |a.pending|, |input|) == 1 + FeedBlocks(n, 0, |input| - take)
  {
  }

  /** With nothing buffered and at most a block to come, add_data only buffers. */
  lemma FeedShort(enc: BlockCipher, key: CipherKey, n: nat, state: seq<byte>, rest: seq<byte>)
    requires 0 < n && |rest| <= n && |state| == n
    ensures Feed(enc, key, n, Absorbed(state, []), rest) == Absorbed(state, rest)
  {
    assert [] + rest == rest;
  }

  // Buffer operations the CMAC object uses.

  /** xor_buf(dst, src, n): dst ^= src. */
  method XorInto(dst: array<byte>, src: seq<byte>)
    requires dst.Length == |src|
    modifies dst
    ensures dst[..] == XorBytes(old(dst[..]), src)
  {
    forall i | 0 <= i < dst.Length {
      dst[i] := dst[i] ^ src[i];
    }
  }

  /** Assignment of a block value to a buffer of its size. */
  method Assign(dst: array<byte>, src: seq<byte>)
    requires dst.Length == |src|
    modifies dst
    ensures dst[..] == src
  {
    forall i | 0 <= i < dst.Length {
      dst[i] := src[i];
    }
  }

  /** MemoryRegion::clear: every byte set to zero. */
  method ZeroArray(dst: array<byte>)
    modifies dst
    ensures dst[..] == Zeros(dst.Length)
  {
    forall i | 0 <= i < dst.Length {
      dst[i] := 0;
    }
  }

  /**
   * The CMAC object: the block cipher and its key state, the chaining value
   * `state`, the block `buffer` of which the first `position` bytes are in
   * use, and the subkeys B and P, all of the cipher's block size n.
   * `encryptions` counts the encryptions of the chaining value.
   */
  class CMAC {
    const enc: BlockCipher
    const n: nat
    const polynomial: byte
    var cipher: CipherKey
    const state: array<byte>
    const buffer: array<byte>
    const B: array<byte>
    const P: array<byte>
    var position: nat
    ghost var encryptions: nat

    ghost predicate Valid()
      reads this
    {
      Polynomial(n) == Some(polynomial)
      && state.Length == n && buffer.Length == n && B.Length == n && P.Length == n
      && state != buffer && state != B && state != P && buffer != B && buffer != P && B != P
      && position <= n
    }

    /** The chaining value and the buffered bytes. */
    ghost function Progress(): (a: Absorbed)
      requires Valid()
      reads this, state, buffer
      ensures WellFormed(n, a)
    {
      Absorbed(state[..], buffer[..position])
    }

    /** The constructor for a cipher whose block size has a polynomial. */
    constructor (enc: BlockCipher, n: nat, polynomial: byte)
      requires Polynomial(n) == Some(polynomial)
      ensures Valid() && fresh(state) && fresh(buffer) && fresh(B) && fresh(P)
      ensures this.enc == enc && this.n == n && this.polynomial == polynomial && cipher == Unkeyed
      ensures Progress() == Initial(n) && buffer[..] == Zeros(n) && B[..] == Zeros(n) && P[..] == Zeros(n)
      ensures encryptions == 0
    {
      this.enc := enc;
      this.n := n;
      this.polynomial := polynomial;
      cipher := Unkeyed;
      state := new byte[n](_ => 0);
      buffer := new byte[n](_ => 0);
      B := new byte[n](_ => 0);
      P := new byte[n](_ => 0);
      position := 0;
      encryptions := 0;
    }

    /** CMAC(cipher): 0x87 for a 16-byte block, 0x1B for an 8-byte block, and an error for any other block size. */
    static method Create(enc: BlockCipher, blockSize: nat) returns (r: Option<CMAC>)
      ensures r.Some? <==> blockSize == 8 || blockSize == 16
      ensures r.Some? ==> var m := r.value;
        fresh(m) && fresh(m.state) && fresh(m.buffer) && fresh(m.B) && fresh(m.P) && m.Valid()
        && m.enc == enc && m.n == blockSize && Polynomial(blockSize) == Some(m.polynomial)
        && m.cipher == Unkeyed && m.Progress() == Initial(blockSize)
    {
      var p := Polynomial(blockSize);
      if p.None? {
        return None;
      }
      var m := new CMAC(enc, blockSize, p.value);
      r := Some(m);
    }

    /** e->encrypt(block) on one of the object's buffers. */
    method EncryptInPlace(a: array<byte>)
      requires Valid() && a.Length == n
      modifies a
      ensures a[..] == enc(cipher, old(a[..]))
    {
      var out := enc(cipher, a[..]);
      Assign(a, out);
    }

    /** e->encrypt(state), counted. */
    method EncryptState()
      requires Valid()
      modifies state, this`encryptions
      ensures state[..] == enc(cipher, old(state[..])) && encryptions == old(encryptions) + 1
    {
      EncryptInPlace(state);
      encryptions := encryptions + 1;
    }

    /**
     * add_data: buffer what fits; once the buffer and the input together
     * exceed a block, chain the buffered block, then every further block of
     * the input that is followed by more input, and buffer the rest.
     */
    method AddData(input: seq<byte>)
      requires Valid()
      modifies state, buffer, this`position, this`encryptions
      ensures Valid()
      ensures Progress() == Feed(enc, cipher, n, old(Progress()), input)
      ensures encryptions == old(encryptions) + FeedBlocks(n, old(position), |input|)
    {
      ghost var a0 := Progress();
      var length := |input|;
      var copied := CopyClamped(buffer, position, input, length);
      if position + length > n {
        Overflow(input, a0);
      } else {
        assert buffer[..position + length] == a0.pending + input;
        position := position + length;
      }
    }

    /**
     * The rest of add_data once the buffered bytes and the input exceed a
     * block, with the buffer already filled from the input.
     */
    method Overflow(input: seq<byte>, ghost a0: Absorbed)
      requires Valid() && a0.state == state[..] && |a0.pending| == position && position + |input| > n
      requires buffer[..] == a0.pending + input[..n - position]
      modifies state, buffer, this`position, this`encryptions
      ensures Valid() && Progress() == Feed(enc, cipher, n, a0, input)
      ensures encryptions == old(encryptions) + FeedBlocks(n, old(position), |input|)
    {
      var offset := n - position;
      ghost var blocks := FeedBlocks(n, 0, |input| - offset);
      ghost var next := Absorbed(enc(cipher, XorBytes(a0.state, buffer[..])), []);
      FeedFirst(enc, cipher, n, a0, input);
      assert Feed(enc, cipher, n, a0, input) == Feed(enc, cipher, n, next, input[offset..]);
      assert FeedBlocks(n, |a0.pending|, |input|) == 1 + blocks;
      ChainBuffer();
      assert state[..] == next.state;
      offset := ChainBlocks(input, offset);
      var length := |input| - offset;
      var copied := CopyClamped(buffer, 0, input[offset..], length);
      assert buffer[..length] == input[offset..];
      position := length;
    }

    /** xor_buf(state, buffer) then e->encrypt(state): the buffered block is chained in. */
    method ChainBuffer()
      requires Valid()
      modifies state, this`encryptions
      ensures state[..] == enc(cipher, XorBytes(old(state[..]), buffer[..])) && encryptions == old(encryptions) + 1
    {
      XorInto(state, buffer[..]);
      EncryptState();
    }

    /** add_data's inner loop: chain every block of the input after `start` that is followed by more input. */
    method ChainBlocks(input: seq<byte>, start: nat) returns (offset: nat)
      requires Valid() && start <= |input|
      modifies state, this`encryptions
      ensures start <= offset <= |input| && |input| - offset <= n
      ensures Feed(enc, cipher, n, Absorbed(old(state[..]), []), input[start..]) == Absorbed(state[..], input[offset..])
      ensures encryptions == old(encryptions) + FeedBlocks(n, 0, |input| - start)
    {
      ghost var target := Feed(enc, cipher, n, Absorbed(state[..], []), input[start..]);
      ghost var total := encryptions + FeedBlocks(n, 0, |input| - start);
      offset := start;
      var length := |input| - start;
      while length > n
        invariant Valid() && start <= offset <= |input| && offset + length == |input|
        invariant target == Feed(enc, cipher, n, Absorbed(state[..], []), input[offset..])
        invariant total == encryptions + FeedBlocks(n, 0, length)
        decreases length
      {
        FeedBlock(enc, cipher, n, state[..], input[offset..]);
        assert input[offset..][..n] == input[offset..offset + n];
        assert input[offset..][n..] == input[offset + n..];
        XorInto(state, input[offset..offset + n]);
        EncryptState();
        offset := offset + n;
        length := length - n;
      }
      FeedShort(enc, cipher, n, state[..], input[offset..]);
    }

    /**
     * final_result: mask the last block with B if it is complete, pad it
     * with 0x80 0x00.. and mask it with P if not; chain and encrypt it; the
     * MAC is the chaining value, and the object is left ready for the next
     * message under the same key.
     */
    method FinalResult() returns (mac: seq<byte>)
      requires Valid()
      modifies state, buffer, this`position, this`encryptions
      ensures Valid() && |mac| == n
      ensures mac == Finish(enc, cipher, n, old(Progress()), B[..], P[..])
      ensures Progress() == Initial(n) && buffer[..] == Zeros(n)
      ensures encryptions == old(encryptions) + 1
    {
      ghost var a0 := Progress();
      if position == n {
        assert buffer[..] == a0.pending;
        XorInto(buffer, B[..]);
      } else {
        PadBuffer();
        XorInto(buffer, P[..]);
      }
      assert buffer[..] == if |a0.pending| == n then XorBytes(a0.pending, B[..]) else XorBytes(Pad(n, a0.pending), P[..]);
      XorInto(state, buffer[..]);
      EncryptState();
      mac := state[..];
      ZeroArray(state);
      ZeroArray(buffer);
      position := 0;
    }

    /**
     * One message through add_data and final_result on a keyed object with
     * nothing buffered: its MAC is that of section 6.2 of NIST SP 800-38B,
     * computed with ceil(|message| / n) encryptions (one for the empty
     * message), and the object is left as it was, so every message gets the
     * MAC it would get on a freshly keyed object.
     */
    method Authenticate(message: seq<byte>) returns (mac: seq<byte>)
      requires Valid() && cipher.Keyed? && Progress() == Initial(n)
      requires B[..] == SubkeyB(enc, cipher.key, n, polynomial) && P[..] == SubkeyP(enc, cipher.key, n, polynomial)
      modifies state, buffer, this`position, this`encryptions
      ensures Valid() && Progress() == Initial(n)
      ensures mac == MessageMac(enc, cipher.key, n, polynomial, message)
      ensures mac == StandardMac(enc, cipher.key, n, polynomial, message)
      ensures encryptions == old(encryptions) + if |message| == 0 then 1 else (|message| + n - 1) / n
    {
      AddData(message);
      mac := FinalResult();
      FeedBlocksCount(n, 0, |message|);
      MessageMacIsStandard(enc, cipher.key, n, polynomial, message);
    }

    /** buffer[position] = 0x80 and zeros after it. */
    method PadBuffer()
      requires Valid() && position < n
      modifies buffer
      ensures buffer[..] == Pad(n, old(buffer[..position]))
    {
      ghost var tail := buffer[..position];
      buffer[position] := 0x80;
      var j := position + 1;
      while j != n
        invariant position + 1 <= j <= n
        invariant buffer[..position] == tail && buffer[position] == 0x80
        invariant forall k :: position < k < j ==> buffer[k] == 0
      {
        buffer[j] := 0;
        j := j + 1;
      }
      assert buffer[..] == Pad(n, tail);
    }

    /** key(): clear, set the cipher's key, and derive B = dbl(E_K(0^n)) and P = dbl(B). */
    method Key(key: seq<byte>)
      requires Valid()
      modifies this`cipher, state, buffer, B, P, this`position
      ensures Valid() && cipher == Keyed(key)
      ensures B[..] == SubkeyB(enc, key, n, polynomial) && P[..] == SubkeyP(enc, key, n, polynomial)
      ensures Progress() == Initial(n) && buffer[..] == Zeros(n)
    {
      Clear();
      cipher := Keyed(key);
      EncryptInPlace(B);
      var b := DoubleBlock(B[..], polynomial);
      Assign(B, b);
      var p := DoubleBlock(B[..], polynomial);
      Assign(P, p);
    }

    /** clear(): the cipher's key, the chaining value, the buffer and both subkeys zeroed. */
    method Clear()
      requires Valid()
      modifies this`cipher, state, buffer, B, P, this`position
      ensures Valid() && cipher == Unkeyed
      ensures Progress() == Initial(n) && buffer[..] == Zeros(n) && B[..] == Zeros(n) && P[..] == Zeros(n)
    {
      cipher := Unkeyed;
      ZeroArray(state);
      ZeroArray(buffer);
      ZeroArray(B);
      ZeroArray(P);
      position := 0;
    }
  }
}
