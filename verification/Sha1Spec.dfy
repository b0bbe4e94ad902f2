/** SHA-1 as FIPS 180-4 defines it: padding (section 5.1.1), parsing (5.2.1), and the hash computation
    (6.1.2). Messages are sequences of bytes. */
module Sha1Spec {

  type Byte = bv8
  type Word = bv32

  /** The five working variables, and the five words of a hash value. */
  datatype Words = Words(a: Word, b: Word, c: Word, d: Word, e: Word)

  const INITIAL_HASH := Words(0x67452301, 0xEFCDAB89, 0x98BADCFE, 0x10325476, 0xC3D2E1F0)

  const BLOCK := 64

  function RotL(x: Word, n: bv6): Word
    requires 0 < n < 32
  {
    (x << n) | (x >> (32 - n))
  }

  function Ch(x: Word, y: Word, z: Word): Word { (x & y) ^ (!x & z) }

  function Parity(x: Word, y: Word, z: Word): Word { x ^ y ^ z }

  function Maj(x: Word, y: Word, z: Word): Word { (x & y) ^ (x & z) ^ (y & z) }

  /** Section 4.1.1 */
  function F(t: nat, x: Word, y: Word, z: Word): Word {
    if t < 20 then Ch(x, y, z) else if t < 40 then Parity(x, y, z)
    else if t < 60 then Maj(x, y, z) else Parity(x, y, z)
  }

  /** Section 4.2.1 */
  function K(t: nat): Word {
    if t < 20 then 0x5A827999 else if t < 40 then 0x6ED9EBA1 else if t < 60 then 0x8F1BBCDC else 0xCA62C1D6
  }

  /** Four bytes, the first one most significant. */
  function BigEndian(b0: Byte, b1: Byte, b2: Byte, b3: Byte): Word {
    (b0 as Word << 24) | (b1 as Word << 16) | (b2 as Word << 8) | (b3 as Word)
  }

  /** The message schedule of section 6.1.2, step 1. */
  function Schedule(block: seq<Byte>, t: nat): Word
    requires |block| == BLOCK
  {
    if t < 16 then BigEndian(block[4 * t], block[4 * t + 1], block[4 * t + 2], block[4 * t + 3])
    else RotL(Schedule(block, t - 3) ^ Schedule(block, t - 8) ^ Schedule(block, t - 14) ^ Schedule(block, t - 16), 1)
  }

  /** The sum T of step 3. */
  function Sum(r: Word, f: Word, e: Word, k: Word, w: Word): Word {
    r + f + e + k + w
  }

  /** Step 3, for one t, given the values of f, K and W. */
  function Round(v: Words, f: Word, k: Word, w: Word): Words {
    Words(Sum(RotL(v.a, 5), f, v.e, k, w), v.a, RotL(v.b, 30), v.c, v.d)
  }

  function Rounds(h: Words, block: seq<Byte>, t: nat): Words
    requires |block| == BLOCK
  {
    if t == 0 then h
    else
      var v := Rounds(h, block, t - 1);
      Round(v, F(t - 1, v.b, v.c, v.d), K(t - 1), Schedule(block, t - 1))
  }

  /** Addition modulo 2^32 */
  function Plus(x: Word, y: Word): Word { x + y }

  function AddWords(x: Words, y: Words): Words {
    Words(Plus(x.a, y.a), Plus(x.b, y.b), Plus(x.c, y.c), Plus(x.d, y.d), Plus(x.e, y.e))
  }

  /** Section 6.1.2 for one block. */
  function Compress(h: Words, block: seq<Byte>): Words
    requires |block| == BLOCK
  {
    AddWords(h, Rounds(h, block, 80))
  }

  function HashBlocks(m: seq<Byte>): Words
    requires |m| % BLOCK == 0
  {
    if |m| == 0 then INITIAL_HASH
    else Compress(HashBlocks(m[..|m| - BLOCK]), m[|m| - BLOCK..])
  }

  function Low(n: nat): Byte {
    (n % 256) as Byte
  }

  /** n as `count` bytes, most significant first. */
  function BytesOf(n: nat, count: nat): (s: seq<Byte>)
    ensures |s| == count
  {
    if count == 0 then [] else BytesOf(n / 256, count - 1) + [Low(n)]
  }

  /** Does a message of n bytes leave exactly the 8 length bytes in its last block? */
  predicate LeavesLength(n: nat) {
    n % BLOCK == BLOCK - 8
  }

  /** How many zero bytes follow the byte 0x80: the fewest that leave 8 bytes in the last block. */
  function ZeroBytes(length: nat): (k: nat)
    ensures LeavesLength(length + 1 + k)
  {
    (119 - length % 64) % 64
  }

  lemma ZeroBytesFewest(length: nat, z: nat)
    requires LeavesLength(length + 1 + z)
    ensures ZeroBytes(length) <= z
  {
  }

  function Zeros(k: nat): seq<Byte> {
    seq(k, _ => 0)
  }

  lemma PaddedLength(n: nat)
    requires LeavesLength(n)
    ensures (n + 8) % BLOCK == 0
  {
  }

  function Pad(m: seq<Byte>): (p: seq<Byte>)
    ensures |p| % BLOCK == 0
  {
    var k := ZeroBytes(|m|);
    var padded := m + [0x80] + Zeros(k);
    assert |padded| == |m| + 1 + k;
    PaddedLength(|padded|);
    padded + BytesOf(8 * |m|, 8)
  }

  function WordBytes(w: Word): (s: seq<Byte>)
    ensures |s| == 4
  {
    [((w >> 24) & 0xFF) as Byte, ((w >> 16) & 0xFF) as Byte, ((w >> 8) & 0xFF) as Byte, (w & 0xFF) as Byte]
  }

  /** The bytes of a word are read back, in the same order, as the word that they were written from. */
  lemma WordBytesRoundTrip(w: Word)
    ensures var s := WordBytes(w); BigEndian(s[0], s[1], s[2], s[3]) == w
  {
    assert ((w >> 24) & 0xFF) as Byte as Word == (w >> 24) & 0xFF;
  }

  function Digest(h: Words): (d: seq<Byte>)
    ensures |d| == 20
  {
    WordBytes(h.a) + WordBytes(h.b) + WordBytes(h.c) + WordBytes(h.d) + WordBytes(h.e)
  }

  /** The standard defines the hash of messages of fewer than 2^64 bits. */
  function Sha1(m: seq<Byte>): seq<Byte>
    requires 8 * |m| < 0x1_0000_0000_0000_0000
  {
    Digest(HashBlocks(Pad(m)))
  }
}
