// Machine words and bytes as used by all five primitives: `byte` and `u32bit`,
// Botan's get_byte/make_u32bit, rotations, and the error and option wrappers.

module Words {

  type byte = bv8
  type word = bv32

  datatype Option<T> = None | Some(value: T)


  // Arithmetic mod 2^32 and XOR under names of their own.  The cipher
  // definitions are written with these, so that a cancellation such as
  // `(z + k) - k == z` is proved once, below, and is then reused by
  // congruence inside the larger round-trip proofs.

  function Add(a: word, b: word): word { a + b }

  function Sub(a: word, b: word): word { a - b }

  function Xor(a: word, b: word): word { a ^ b }

  lemma SubAdd(z: word, k: word)
    ensures Sub(Add(z, k), k) == z
  {
    assert Sub(z + k, k) == z;
  }

  lemma AddSub(z: word, k: word)
    ensures Add(Sub(z, k), k) == z
  {
    assert Add(z - k, k) == z;
  }

  lemma XorXor(x: word, t: word)
    ensures Xor(Xor(x, t), t) == x
  {
    assert Xor(x ^ t, t) == x;
  }

  // Rotations.  The helper in bit_ops.h is not part of this model; it is
  // taken to be the true 32-bit rotation, so that a rotation by 0 is the
  // identity.

  /** Rotation left by a fixed amount below 32. */
  function Rotl(x: word, n: nat): word
    requires n < 32
  {
    x.RotateLeft(n)
  }

  /** Rotation right by a fixed amount below 32. */
  function Rotr(x: word, n: nat): word
    requires n < 32
  {
    x.RotateRight(n)
  }

  /** Rotation left by a data-dependent amount, taken mod 32 (`rotate_left(x, n % 32)`). */
  function RotlBy(x: word, n: word): word
  {
    x.RotateLeft((n % 32) as nat)
  }

  /** Rotation right by a data-dependent amount, taken mod 32. */
  function RotrBy(x: word, n: word): word
  {
    x.RotateRight((n % 32) as nat)
  }

  lemma RotrByRotlBy(x: word, n: word)
    ensures RotrBy(RotlBy(x, n), n) == x
  {
    assert RotrBy(x.RotateLeft((n % 32) as nat), n) == x;
  }

  lemma RotlByRotrBy(x: word, n: word)
    ensures RotlBy(RotrBy(x, n), n) == x
  {
    assert RotlBy(x.RotateRight((n % 32) as nat), n) == x;
  }

  // Botan's get_byte(k, x): byte k of x, counting from the most significant.

  function GetByte(k: nat, x: word): byte
    requires k < 4
  {
    if k == 0 then (x >> 24) as byte
    else if k == 1 then ((x >> 16) & 0xFF) as byte
    else if k == 2 then ((x >> 8) & 0xFF) as byte
    else (x & 0xFF) as byte
  }

  // Botan's make_u32bit(b0, b1, b2, b3): b0 becomes the most significant byte.

  function MakeWord(b0: byte, b1: byte, b2: byte, b3: byte): word
  {
    (b0 as word << 24) | (b1 as word << 16) | (b2 as word << 8) | b3 as word
  }

  lemma GetByteMakeWord(b0: byte, b1: byte, b2: byte, b3: byte)
    ensures GetByte(0, MakeWord(b0, b1, b2, b3)) == b0
    ensures GetByte(1, MakeWord(b0, b1, b2, b3)) == b1
    ensures GetByte(2, MakeWord(b0, b1, b2, b3)) == b2
    ensures GetByte(3, MakeWord(b0, b1, b2, b3)) == b3
  {
  }

  lemma MakeWordGetByte(x: word)
    ensures MakeWord(GetByte(0, x), GetByte(1, x), GetByte(2, x), GetByte(3, x)) == x
  {
  }

  // Byte k of x ^ y is byte k of x xor byte k of y; one lemma per byte, which
  // the solver handles far better than one lemma over a symbolic k.

  lemma GetByteXor0(x: word, y: word)
    ensures GetByte(0, Xor(x, y)) == GetByte(0, x) ^ GetByte(0, y)
  {
  }

  lemma GetByteXor1(x: word, y: word)
    ensures GetByte(1, Xor(x, y)) == GetByte(1, x) ^ GetByte(1, y)
  {
  }

  lemma GetByteXor2(x: word, y: word)
    ensures GetByte(2, Xor(x, y)) == GetByte(2, x) ^ GetByte(2, y)
  {
  }

  lemma GetByteXor3(x: word, y: word)
    ensures GetByte(3, Xor(x, y)) == GetByte(3, x) ^ GetByte(3, y)
  {
  }

  lemma GetByteXor(k: nat, x: word, y: word)
    requires k < 4
    ensures GetByte(k, Xor(x, y)) == GetByte(k, x) ^ GetByte(k, y)
  {
    if k == 0 {
      GetByteXor0(x, y);
    } else if k == 1 {
      GetByteXor1(x, y);
    } else if k == 2 {
      GetByteXor2(x, y);
    } else {
      GetByteXor3(x, y);
    }
  }

  /** The big-endian word at s[i..i+4]. */
  function LoadBE(s: seq<byte>, i: nat): word
    requires i + 4 <= |s|
  {
    MakeWord(s[i], s[i + 1], s[i + 2], s[i + 3])
  }

  /** The four bytes of x, most significant first. */
  function StoreBE(x: word): (r: seq<byte>)
    ensures |r| == 4
  {
    [GetByte(0, x), GetByte(1, x), GetByte(2, x), GetByte(3, x)]
  }

  /** The little-endian word at s[i..i+4]: s[i] is the least significant byte. */
  function LoadLE(s: seq<byte>, i: nat): word
    requires i + 4 <= |s|
  {
    MakeWord(s[i + 3], s[i + 2], s[i + 1], s[i])
  }

  /** The four bytes of x, least significant first. */
  function StoreLE(x: word): (r: seq<byte>)
    ensures |r| == 4
  {
    [GetByte(3, x), GetByte(2, x), GetByte(1, x), GetByte(0, x)]
  }

  lemma LoadStoreBE(x: word)
    ensures LoadBE(StoreBE(x), 0) == x
  {
    MakeWordGetByte(x);
  }

  lemma StoreLoadBE(s: seq<byte>, i: nat)
    requires i + 4 <= |s|
    ensures StoreBE(LoadBE(s, i)) == s[i..i + 4]
  {
    GetByteMakeWord(s[i], s[i + 1], s[i + 2], s[i + 3]);
  }

  lemma LoadStoreLE(x: word)
    ensures LoadLE(StoreLE(x), 0) == x
  {
    MakeWordGetByte(x);
  }

  /** A word stored little-endian anywhere in a string loads back from there. */
  lemma LoadLEAt(s: seq<byte>, i: nat, x: word)
    requires i + 4 <= |s| && s[i..i + 4] == StoreLE(x)
    ensures LoadLE(s, i) == x
  {
    LoadStoreLE(x);
    assert LoadLE(s, i) == LoadLE(s[i..i + 4], 0);
  }

  lemma StoreLoadLE(s: seq<byte>, i: nat)
    requires i + 4 <= |s|
    ensures StoreLE(LoadLE(s, i)) == s[i..i + 4]
  {
    GetByteMakeWord(s[i + 3], s[i + 2], s[i + 1], s[i]);
  }

  /** One step of a byte-packing loop, `x = (x << 8) + b`: b enters at the bottom. */
  function ShiftIn(x: word, b: byte): word
  {
    (x << 8) + b as word
  }

  /** Four bytes shifted into a zero word form the word with the first of them most significant. */
  lemma ShiftInWord(b0: byte, b1: byte, b2: byte, b3: byte)
    ensures ShiftIn(ShiftIn(ShiftIn(ShiftIn(0, b0), b1), b2), b3) == MakeWord(b0, b1, b2, b3)
  {
    assert (((((((0 as word << 8) + b0 as word) << 8) + b1 as word) << 8) + b2 as word) << 8) + b3 as word
      == MakeWord(b0, b1, b2, b3);
  }

  // Byte strings.

  lemma AppendAssoc<T>(a: seq<T>, b: seq<T>, c: seq<T>)
    ensures (a + b) + c == a + (b + c)
  {
  }

  lemma SliceSplit<T>(s: seq<T>, i: nat, j: nat, k: nat)
    requires i <= j <= k <= |s|
    ensures s[i..k] == s[i..j] + s[j..k]
  {
  }

  lemma DropSplit<T>(s: seq<T>, i: nat, j: nat)
    requires i <= j <= |s|
    ensures s[i..] == s[i..j] + s[j..]
  {
  }

  function Zeros(n: nat): (r: seq<byte>)
    ensures |r| == n
  {
    seq(n, _ => 0)
  }

  /** Botan's xor_buf over two strings of the same length. */
  function XorBytes(a: seq<byte>, b: seq<byte>): (r: seq<byte>)
    requires |a| == |b|
    ensures |r| == |a|
  {
    seq(|a|, i requires 0 <= i < |a| => a[i] ^ b[i])
  }

  lemma XorBytesCancel(a: seq<byte>, b: seq<byte>)
    requires |a| == |b|
    ensures XorBytes(XorBytes(a, b), b) == a
  {
    var r := XorBytes(XorBytes(a, b), b);
    forall i | 0 <= i < |a| ensures r[i] == a[i] {
      assert r[i] == (a[i] ^ b[i]) ^ b[i];
    }
  }

  /** A nonzero multiple of n is at least n in absolute value. */
  lemma MulBound(c: int, n: int)
    requires n > 0
    ensures c >= 1 ==> c * n >= n
    ensures c <= -1 ==> c * n <= -n
  {
  }

  lemma ModAddN(x: nat, n: nat)
    requires n > 0
    ensures (x + n) % n == x % n
  {
    var q, r := x / n, x % n;
    assert x + n == (q + 1) * n + r;
    var q1, r1 := (x + n) / n, (x + n) % n;
    assert (q1 - (q + 1)) * n == r - r1;
    MulBound(q1 - (q + 1), n);
  }

  lemma DivAddN(x: nat, n: nat)
    requires n > 0
    ensures (x + n) / n == x / n + 1
  {
    var q, r := x / n, x % n;
    assert x + n == (q + 1) * n + r;
    var q1, r1 := (x + n) / n, (x + n) % n;
    assert (q1 - (q + 1)) * n == r - r1;
    MulBound(q1 - (q + 1), n);
  }

  lemma ModSmall(x: nat, n: nat)
    requires x < n
    ensures x % n == x
  {
  }

  /** MemoryRegion::copy(offset, src, count): copies as many of the count bytes as fit after offset. */
  method CopyClamped(dst: array<byte>, offset: nat, src: seq<byte>, count: nat) returns (copied: nat)
    requires offset <= dst.Length && count <= |src|
    modifies dst
    ensures copied == if count < dst.Length - offset then count else dst.Length - offset
    ensures dst[..] == old(dst[..offset]) + src[..copied] + old(dst[offset + copied..])
  {
    copied := if count < dst.Length - offset then count else dst.Length - offset;
    var i := 0;
    while i < copied
      invariant 0 <= i <= copied
      invariant forall k :: 0 <= k < offset ==> dst[k] == old(dst[k])
      invariant forall k :: 0 <= k < i ==> dst[offset + k] == src[k]
      invariant forall k :: offset + i <= k < dst.Length ==> dst[k] == old(dst[k])
    {
      dst[offset + i] := src[i];
      i := i + 1;
    }
    assert dst[..] == old(dst[..offset]) + src[..copied] + old(dst[offset + copied..]);
  }
}
