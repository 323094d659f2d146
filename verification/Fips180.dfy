/** SHA-1 as sections 4.1.1, 4.2.1, 5.1.1, 5.3.1 and 6.1.2 of FIPS 180-4 define it, on
    messages that are whole numbers of bytes. */
module Fips180 {

  type Word = bv32
  type Octet = bv8

  const U32: nat := 0x1_0000_0000
  const U64: nat := 0x1_0000_0000_0000_0000

  datatype Hash = Hash(a: Word, b: Word, c: Word, d: Word, e: Word)

  const INITIAL: Hash := Hash(0x67452301, 0xEFCDAB89, 0x98BADCFE, 0x10325476, 0xC3D2E1F0)

  function Rotl1(x: Word): Word { (x << 1) | (x >> 31) }
  function Rotl5(x: Word): Word { (x << 5) | (x >> 27) }
  function Rotl30(x: Word): Word { (x << 30) | (x >> 2) }

  function Ch(x: Word, y: Word, z: Word): Word { (x & y) ^ (!x & z) }
  function Parity(x: Word, y: Word, z: Word): Word { x ^ y ^ z }
  function Maj(x: Word, y: Word, z: Word): Word { (x & y) ^ (x & z) ^ (y & z) }

  function F(t: nat, x: Word, y: Word, z: Word): Word {
    if t < 20 then Ch(x, y, z)
    else if t < 40 then Parity(x, y, z)
    else if t < 60 then Maj(x, y, z)
    else Parity(x, y, z)
  }

  function K(t: nat): Word {
    if t < 20 then 0x5A827999
    else if t < 40 then 0x6ED9EBA1
    else if t < 60 then 0x8F1BBCDC
    else 0xCA62C1D6
  }

  function Expand(w3: Word, w8: Word, w14: Word, w16: Word): Word {
    Rotl1(w3 ^ w8 ^ w14 ^ w16)
  }

  /** The message schedule: 80 words from the 16 of one block. */
  function W(m: seq<Word>, t: nat): Word
    requires |m| == 16
    decreases |m|, t
  {
    if t < 16 then m[t]
    else Expand(W(m, t - 3), W(m, t - 8), W(m, t - 14), W(m, t - 16))
  }

  function Sum(p: Word, q: Word, r: Word, s: Word, t: Word): Word {
    p + q + r + s + t
  }

  function Round(h: Hash, t: nat, w: Word): Hash {
    Hash(Sum(Rotl5(h.a), F(t, h.b, h.c, h.d), h.e, K(t), w), h.a, Rotl30(h.b), h.c, h.d)
  }

  /** The working variables after the first `t` rounds. */
  function Rounds(h: Hash, m: seq<Word>, t: nat): Hash
    requires |m| == 16
    decreases |m|, t
  {
    if t == 0 then h else Round(Rounds(h, m, t - 1), t - 1, W(m, t - 1))
  }

  function Plus(x: Word, y: Word): Word {
    x + y
  }

  function Add(x: Hash, y: Hash): Hash {
    Hash(Plus(x.a, y.a), Plus(x.b, y.b), Plus(x.c, y.c), Plus(x.d, y.d), Plus(x.e, y.e))
  }

  function BigEndian(b0: Octet, b1: Octet, b2: Octet, b3: Octet): Word {
    (b0 as bv32 << 24) | (b1 as bv32 << 16) | (b2 as bv32 << 8) | b3 as bv32
  }

  function BlockWords(b: seq<Octet>): (m: seq<Word>)
    requires |b| == 64
    ensures |m| == 16
  {
    seq(16, i requires 0 <= i < 16 => BigEndian(b[4 * i], b[4 * i + 1], b[4 * i + 2], b[4 * i + 3]))
  }

  function Compress(h: Hash, b: seq<Octet>): Hash
    requires |b| == 64
  {
    Add(h, Rounds(h, BlockWords(b), 80))
  }

  /** The hash value after all whole blocks of `bytes`. */
  function Absorb(h: Hash, bytes: seq<Octet>): Hash
    decreases |bytes|
  {
    if |bytes| < 64 then h else Absorb(Compress(h, bytes[..64]), bytes[64..])
  }

  /** Number of zero bytes of the padding: the least one that leaves 8 bytes in a block. */
  function PadZeros(n: nat): (k: nat)
    ensures (n + 1 + k) % 64 == 56 && k < 64
  {
    (119 - n % 64) % 64
  }

  function Zeros(k: nat): seq<Octet> {
    seq(k, _ => 0)
  }

  function Nat64(n: nat): (b: seq<Octet>)
    requires n < U64
    ensures |b| == 8
  {
    Nat32(n / U32) + Nat32(n % U32)
  }

  /** The byte of value `n`. */
  function ToOctet(n: nat): Octet
    requires n < 256
  {
    if n == 0 then 0 else ToOctet(n - 1) + 1
  }

  function Nat32(n: nat): (b: seq<Octet>)
    requires n < U32
    ensures |b| == 4
  {
    [ToOctet(n / 0x100_0000), ToOctet(n / 0x1_0000 % 256), ToOctet(n / 0x100 % 256), ToOctet(n % 256)]
  }

  function Pad(msg: seq<Octet>): seq<Octet>
    requires 8 * |msg| < U64
  {
    msg + [0x80] + Zeros(PadZeros(|msg|)) + Nat64(8 * |msg|)
  }

  function WordBytes(w: Word): (b: seq<Octet>)
    ensures |b| == 4
  {
    [(w >> 24) as bv8, ((w >> 16) & 0xFF) as bv8, ((w >> 8) & 0xFF) as bv8, (w & 0xFF) as bv8]
  }

  function HashBytes(h: Hash): (b: seq<Octet>)
    ensures |b| == 20
  {
    WordBytes(h.a) + WordBytes(h.b) + WordBytes(h.c) + WordBytes(h.d) + WordBytes(h.e)
  }

  function Digest(msg: seq<Octet>): seq<Octet>
    requires 8 * |msg| < U64
  {
    HashBytes(Absorb(INITIAL, Pad(msg)))
  }

  /** Whole blocks can be absorbed separately. */
  lemma {:induction false} AbsorbConcat(h: Hash, x: seq<Octet>, y: seq<Octet>)
    requires |x| % 64 == 0
    ensures Absorb(h, x + y) == Absorb(Absorb(h, x), y)
    decreases |x|
  {
    if |x| == 0 {
      assert x + y == y;
    } else {
      assert (x + y)[..64] == x[..64];
      assert (x + y)[64..] == x[64..] + y;
      AbsorbConcat(Compress(h, x[..64]), x[64..], y);
    }
  }

  lemma {:induction false} AbsorbOne(h: Hash, b: seq<Octet>)
    requires |b| == 64
    ensures Absorb(h, b) == Compress(h, b)
  {
    assert b[..64] == b;
  }

  /** A tail shorter than a block leaves no trace in the hash value. */
  lemma {:induction false} AbsorbTail(h: Hash, x: seq<Octet>, y: seq<Octet>)
    requires |x| % 64 == 0 && |y| < 64
    ensures Absorb(h, x + y) == Absorb(h, x)
  {
    AbsorbConcat(h, x, y);
  }
}
