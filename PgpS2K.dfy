// The OpenPGP iterated and salted string-to-key function (section 3.7.1.3
// of RFC 4880), with the extra hash contexts preloaded with zero bytes of
// section 3.7.1.1, over an abstract hash function.

module PgpS2K {
  import opened Words

  /** A hash function and its output length. */
  datatype HashFunction = HashFunction(hash: seq<byte> -> seq<byte>, outputLength: nat)

  /** A hash function whose digests all have its (nonzero) output length. */
  ghost predicate ValidHash(hf: HashFunction)
  {
    hf.outputLength > 0 && forall m :: |hf.hash(m)| == hf.outputLength
  }

  function Max(a: nat, b: nat): nat
  {
    if a < b then b else a
  }

  function Min(a: nat, b: nat): nat
  {
    if a < b then a else b
  }

  /** The number of bytes hashed after the zero prefix: the iteration count, but at least one salt and passphrase. */
  function ToHash(salt: seq<byte>, passphrase: seq<byte>, iterations: nat): (t: nat)
    ensures t >= iterations && t >= |salt| + |passphrase|
    ensures t == iterations || t == |salt| + |passphrase|
  {
    Max(iterations, |salt| + |passphrase|)
  }

  /** The first `count` bytes of unit repeated without end. */
  function Cycle(unit: seq<byte>, count: nat): (r: seq<byte>)
    requires |unit| > 0
    ensures |r| == count
    decreases count
  {
    if count <= |unit| then unit[..count] else unit + Cycle(unit, count - |unit|)
  }

  /** Byte i of the repetition is byte i mod |unit| of the unit. */
  lemma {:induction false} CycleAt(unit: seq<byte>, count: nat, i: nat)
    requires |unit| > 0 && i < count
    ensures Cycle(unit, count)[i] == unit[i % |unit|]
    decreases count
  {
    var u := |unit|;
    if count <= u {
      ModSmall(i, u);
    } else if i < u {
      ModSmall(i, u);
    } else {
      CycleAt(unit, count - u, i - u);
      ModAddN(i - u, u);
    }
  }

  /** What digest number p hashes: p zero bytes, then the salt and passphrase repeated to ToHash bytes. */
  function HashInput(salt: seq<byte>, passphrase: seq<byte>, iterations: nat, p: nat): (m: seq<byte>)
    requires |salt| + |passphrase| > 0
    ensures |m| == p + ToHash(salt, passphrase, iterations)
  {
    Zeros(p) + Cycle(salt + passphrase, ToHash(salt, passphrase, iterations))
  }

  function Digest(hf: HashFunction, salt: seq<byte>, passphrase: seq<byte>, iterations: nat, p: nat): (d: seq<byte>)
    requires ValidHash(hf) && |salt| + |passphrase| > 0
    ensures |d| == hf.outputLength
  {
    hf.hash(HashInput(salt, passphrase, iterations, p))
  }

  /** The digests number 0 to count - 1, concatenated. */
  function Digests(hf: HashFunction, salt: seq<byte>, passphrase: seq<byte>, iterations: nat, count: nat): (r: seq<byte>)
    requires ValidHash(hf) && (count > 0 ==> |salt| + |passphrase| > 0)
    ensures |r| == count * hf.outputLength
  {
    if count == 0 then []
    else Digests(hf, salt, passphrase, iterations, count - 1) + Digest(hf, salt, passphrase, iterations, count - 1)
  }

  /** The number of digests derive computes for a key of keyLength bytes. */
  function DigestCount(keyLength: nat, outputLength: nat): nat
    requires outputLength > 0
    decreases keyLength
  {
    if keyLength == 0 then 0 else 1 + DigestCount(keyLength - Min(outputLength, keyLength), outputLength)
  }

  /** The digests computed cover the key. */
  lemma {:induction false} DigestCountCovers(keyLength: nat, outputLength: nat)
    requires outputLength > 0
    ensures DigestCount(keyLength, outputLength) * outputLength >= keyLength
    decreases keyLength
  {
    if keyLength > 0 {
      var rest := keyLength - Min(outputLength, keyLength);
      DigestCountCovers(rest, outputLength);
      assert DigestCount(keyLength, outputLength) * outputLength
        == outputLength + DigestCount(rest, outputLength) * outputLength;
    }
  }

  /** ceil(keyLength / outputLength) digests are computed. */
  lemma {:induction false} DigestCountIsCeiling(keyLength: nat, outputLength: nat)
    requires outputLength > 0
    ensures DigestCount(keyLength, outputLength) == (keyLength + outputLength - 1) / outputLength
    decreases keyLength
  {
    if keyLength == 0 {
      assert (outputLength - 1) / outputLength == 0;
    } else if keyLength <= outputLength {
      assert Min(outputLength, keyLength) == keyLength;
      assert DigestCount(keyLength, outputLength) == 1;
      var x: nat := keyLength - 1;
      DivAddN(x, outputLength);
      assert x / outputLength == 0;
      assert keyLength + outputLength - 1 == x + outputLength;
    } else {
      var rest: nat := keyLength - outputLength;
      assert Min(outputLength, keyLength) == outputLength;
      assert DigestCount(keyLength, outputLength) == 1 + DigestCount(rest, outputLength);
      DigestCountIsCeiling(rest, outputLength);
      var y: nat := rest + outputLength - 1;
      DivAddN(y, outputLength);
      assert keyLength + outputLength - 1 == y + outputLength;
    }
  }

  /**
   * derive: the first keyLength bytes of the concatenated digests.  Salt and
   * passphrase may only be both empty for an empty key (derive does not
   * terminate otherwise).
   */
  function S2K(hf: HashFunction, keyLength: nat, passphrase: seq<byte>, salt: seq<byte>, iterations: nat): (key: seq<byte>)
    requires ValidHash(hf) && (keyLength > 0 ==> |salt| + |passphrase| > 0)
    ensures |key| == keyLength
  {
    var count := DigestCount(keyLength, hf.outputLength);
    DigestCountCovers(keyLength, hf.outputLength);
    Digests(hf, salt, passphrase, iterations, count)[..keyLength]
  }

  /** The key buffer: the bytes produced so far, then the zeros it was created with, cut to its length. */
  function Fit(keyLength: nat, d: seq<byte>): (r: seq<byte>)
    ensures |r| == keyLength
  {
    if |d| >= keyLength then d[..keyLength] else d + Zeros(keyLength - |d|)
  }

  // Properties of the specification.

  /** Digests of a smaller count are a prefix of those of a larger one. */
  lemma {:induction false} DigestsPrefix(hf: HashFunction, salt: seq<byte>, passphrase: seq<byte>, iterations: nat, c1: nat, c2: nat)
    requires ValidHash(hf) && c1 <= c2 && (c2 > 0 ==> |salt| + |passphrase| > 0)
    ensures Digests(hf, salt, passphrase, iterations, c2)[..c1 * hf.outputLength] == Digests(hf, salt, passphrase, iterations, c1)
    decreases c2
  {
    if c1 < c2 {
      var shorter := Digests(hf, salt, passphrase, iterations, c2 - 1);
      DigestsPrefix(hf, salt, passphrase, iterations, c1, c2 - 1);
      assert (c2 - 1) * hf.outputLength >= c1 * hf.outputLength by {
        MulMonotone(c1, c2 - 1, hf.outputLength);
      }
      assert Digests(hf, salt, passphrase, iterations, c2)[..c1 * hf.outputLength] == shorter[..c1 * hf.outputLength];
    }
  }

  lemma MulMonotone(a: nat, b: nat, k: nat)
    requires a <= b
    ensures a * k <= b * k
  {
  }

  lemma {:induction false} DigestCountMonotone(k1: nat, k2: nat, outputLength: nat)
    requires outputLength > 0 && k1 <= k2
    ensures DigestCount(k1, outputLength) <= DigestCount(k2, outputLength)
    decreases k2
  {
    if k1 > 0 {
      DigestCountMonotone(k1 - Min(outputLength, k1), k2 - Min(outputLength, k2), outputLength);
    }
  }

  /** A shorter key is a prefix of a longer one derived from the same passphrase, salt and iteration count. */
  lemma S2KPrefix(hf: HashFunction, k1: nat, k2: nat, passphrase: seq<byte>, salt: seq<byte>, iterations: nat)
    requires ValidHash(hf) && k1 <= k2 && (k2 > 0 ==> |salt| + |passphrase| > 0)
    ensures S2K(hf, k1, passphrase, salt, iterations) == S2K(hf, k2, passphrase, salt, iterations)[..k1]
  {
    var o := hf.outputLength;
    var c1, c2 := DigestCount(k1, o), DigestCount(k2, o);
    DigestCountMonotone(k1, k2, o);
    DigestCountCovers(k1, o);
    DigestCountCovers(k2, o);
    var d1, d2 := Digests(hf, salt, passphrase, iterations, c1), Digests(hf, salt, passphrase, iterations, c2);
    var m1 := c1 * o;
    MulMonotone(c1, c2, o);
    assert |d1| == m1 && k1 <= m1 <= |d2|;
    assert d1 == d2[..m1] by {
      DigestsPrefix(hf, salt, passphrase, iterations, c1, c2);
    }
    PrefixOfPrefix(d2, m1, k1);
    assert S2K(hf, k1, passphrase, salt, iterations) == d1[..k1];
    assert S2K(hf, k2, passphrase, salt, iterations) == d2[..k2];
  }

  lemma PrefixOfPrefix(s: seq<byte>, m: nat, k: nat)
    requires k <= m <= |s|
    ensures s[..m][..k] == s[..k]
  {
  }

  /** Byte j of what digest p hashes: zero in the prefix, then the salt and passphrase cyclically. */
  lemma HashInputAt(salt: seq<byte>, passphrase: seq<byte>, iterations: nat, p: nat, j: nat)
    requires |salt| + |passphrase| > 0 && j < p + ToHash(salt, passphrase, iterations)
    ensures j < p ==> HashInput(salt, passphrase, iterations, p)[j] == 0
    ensures p <= j ==> HashInput(salt, passphrase, iterations, p)[j] == (salt + passphrase)[(j - p) % (|salt| + |passphrase|)]
  {
    if p <= j {
      CycleAt(salt + passphrase, ToHash(salt, passphrase, iterations), j - p);
    }
  }

  lemma {:induction false} DivModOf(q: nat, r: nat, n: nat)
    requires r < n
    ensures (q * n + r) / n == q && (q * n + r) % n == r
    decreases q
  {
    if q == 0 {
      ModSmall(r, n);
    } else {
      var x := (q - 1) * n + r;
      DivModOf(q - 1, r, n);
      assert q * n + r == x + n;
      DivAddN(x, n);
      ModAddN(x, n);
    }
  }

  /** Byte i of the concatenated digests is byte i mod n of digest number i / n. */
  lemma {:induction false} DigestsAt(hf: HashFunction, salt: seq<byte>, passphrase: seq<byte>, iterations: nat, count: nat, i: nat)
    requires ValidHash(hf) && |salt| + |passphrase| > 0 && i < count * hf.outputLength
    ensures Digests(hf, salt, passphrase, iterations, count)[i]
         == Digest(hf, salt, passphrase, iterations, i / hf.outputLength)[i % hf.outputLength]
    decreases count
  {
    var o := hf.outputLength;
    assert count != 0;
    var prev := (count - 1) * o;
    assert count * o == prev + o;
    if i < prev {
      DigestsAt(hf, salt, passphrase, iterations, count - 1, i);
    } else {
      DivModOf(count - 1, i - prev, o);
      assert i == prev + (i - prev);
    }
  }

  /** Byte i of the key is byte i mod n of digest number i / n, for digests of length n. */
  lemma S2KAt(hf: HashFunction, keyLength: nat, passphrase: seq<byte>, salt: seq<byte>, iterations: nat, i: nat)
    requires ValidHash(hf) && i < keyLength && |salt| + |passphrase| > 0
    ensures S2K(hf, keyLength, passphrase, salt, iterations)[i]
         == Digest(hf, salt, passphrase, iterations, i / hf.outputLength)[i % hf.outputLength]
  {
    var count := DigestCount(keyLength, hf.outputLength);
    DigestCountCovers(keyLength, hf.outputLength);
    DigestsAt(hf, salt, passphrase, iterations, count, i);
  }

  /** The key buffer after one more digest is copied in at the end of what was produced. */
  lemma FitStep(keyLength: nat, d: seq<byte>, e: seq<byte>, before: seq<byte>, after: seq<byte>, copied: nat)
    requires |d| < keyLength && before == Fit(keyLength, d)
    requires copied == Min(|e|, keyLength - |d|)
    requires after == before[..|d|] + e[..copied] + before[|d| + copied..]
    ensures after == Fit(keyLength, d + e)
  {
    assert before[..|d|] == d;
    assert before[|d| + copied..] == Zeros(keyLength - |d| - copied);
  }

  // The derivation as Botan computes it.

  /**
   * One pass of derive's outer loop: the hash is fed p zero bytes, then
   * whole copies of salt ++ passphrase while at least one fits in what is
   * left to hash, then the rest taken from the salt first and the
   * passphrase after; its final() is the digest.
   */
  method HashPass(hf: HashFunction, salt: seq<byte>, passphrase: seq<byte>, toHash: nat, p: nat) returns (digest: seq<byte>)
    requires ValidHash(hf) && |salt| + |passphrase| > 0
    ensures digest == hf.hash(Zeros(p) + Cycle(salt + passphrase, toHash))
  {
    var totalSize := |salt| + |passphrase|;
    ghost var unit := salt + passphrase;
    var fed: seq<byte> := [];
    var j := 0;
    while j != p
      invariant 0 <= j <= p && fed == Zeros(j)
    {
      fed := fed + [0];
      j := j + 1;
    }
    var left: nat := toHash;
    while left >= totalSize
      invariant fed + Cycle(unit, left) == Zeros(p) + Cycle(unit, toHash)
    {
      CycleUnit(unit, left);
      fed := fed + salt + passphrase;
      left := left - totalSize;
    }
    assert Cycle(unit, left) == unit[..left];
    ghost var whole := fed;
    if left <= |salt| {
      assert unit[..left] == salt[..left];
      fed := fed + salt[..left];
    } else {
      fed := fed + salt;
      left := left - |salt|;
      assert unit[..left + |salt|] == salt + passphrase[..left];
      fed := fed + passphrase[..left];
    }
    assert fed == whole + unit[..|fed| - |whole|];
    digest := hf.hash(fed);
  }

  /** A repetition of at least one unit starts with the unit. */
  lemma CycleUnit(unit: seq<byte>, count: nat)
    requires 0 < |unit| <= count
    ensures Cycle(unit, count) == unit + Cycle(unit, count - |unit|)
  {
    if count == |unit| {
      assert Cycle(unit, 0) == [];
      assert unit[..count] == unit;
    }
  }

  /**
   * OpenPGP_S2K::derive: digests are computed until they cover the key,
   * digest number p hashing p zero bytes and then ToHash bytes of salt and
   * passphrase, and each is copied into the key after the bytes already
   * there, as much of it as fits.
   */
  method Derive(hf: HashFunction, keyLength: nat, passphrase: seq<byte>, salt: seq<byte>, iterations: nat)
    returns (key: seq<byte>, ghost passes: nat)
    requires ValidHash(hf) && (keyLength > 0 ==> |salt| + |passphrase| > 0)
    ensures key == S2K(hf, keyLength, passphrase, salt, iterations)
    ensures passes == DigestCount(keyLength, hf.outputLength)
  {
    var buf := new byte[keyLength](_ => 0);
    var pass := 0;
    var generated := 0;
    var totalSize := |passphrase| + |salt|;
    var toHash := Max(iterations, totalSize);
    var o := hf.outputLength;
    assert buf[..] == Fit(keyLength, []);
    while keyLength > generated
      invariant buf.Length == keyLength && generated == pass * o
      invariant pass > 0 ==> keyLength > 0
      invariant buf[..] == Fit(keyLength, Digests(hf, salt, passphrase, iterations, pass))
      invariant pass + DigestCount(keyLength - Min(generated, keyLength), o) == DigestCount(keyLength, o)
      decreases keyLength - generated
    {
      DerivePass(hf, salt, passphrase, iterations, toHash, buf, generated, pass);
      ghost var rest := keyLength - generated;
      assert DigestCount(rest, o) == 1 + DigestCount(keyLength - Min(generated + o, keyLength), o);
      generated := generated + o;
      pass := pass + 1;
    }
    DigestCountCovers(keyLength, o);
    key := buf[..];
    passes := pass;
  }

  /** The body of derive's outer loop: digest number pass is copied into the key at offset generated. */
  method DerivePass(hf: HashFunction, salt: seq<byte>, passphrase: seq<byte>, iterations: nat, toHash: nat,
                    buf: array<byte>, generated: nat, pass: nat)
    requires ValidHash(hf) && |salt| + |passphrase| > 0 && toHash == ToHash(salt, passphrase, iterations)
    requires generated == pass * hf.outputLength < buf.Length
    requires buf[..] == Fit(buf.Length, Digests(hf, salt, passphrase, iterations, pass))
    modifies buf
    ensures buf[..] == Fit(buf.Length, Digests(hf, salt, passphrase, iterations, pass + 1))
  {
    var digest := HashPass(hf, salt, passphrase, toHash, pass);
    ghost var done := Digests(hf, salt, passphrase, iterations, pass);
    assert digest == Digest(hf, salt, passphrase, iterations, pass);
    ghost var before := buf[..];
    var copied := CopyClamped(buf, generated, digest, hf.outputLength);
    FitStep(buf.Length, done, digest, before, buf[..], copied);
  }
}
