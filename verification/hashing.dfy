/** How the filter turns a value into bit positions, as the code computes it.

    Each hasher is a seeded 64-bit xxhash instance into which nothing is ever
    written. Asking it for its sum with the value as argument does not hash
    the value: it appends the hasher's current digest (the digest of the empty
    input, a function of the seed alone) to the value. The first eight bytes of
    that concatenation, read least-significant first, reduced modulo `m`, give
    the position. */
module Hashing {
  import opened Primitives

  /** 256 to the power `len`: one more than the largest number `len` bytes hold. */
  function Pow256(len: nat): (r: nat)
    ensures r >= 1
  {
    if len == 0 then 1 else 256 * Pow256(len - 1)
  }

  /** The number whose little-endian encoding (least significant byte first) is `b`. */
  function LittleEndian(b: seq<byte>): (r: nat)
    ensures r < Pow256(|b|)
  {
    if b == [] then 0 else b[0] + 256 * LittleEndian(b[1..])
  }

  /** The `len`-byte little-endian encoding of `x`. */
  function ToLittleEndian(x: nat, len: nat): (b: seq<byte>)
    requires x < Pow256(len)
    ensures |b| == len
  {
    if len == 0 then [] else [x % 256] + ToLittleEndian(x / 256, len - 1)
  }

  /** Decoding an encoding gives back the number. */
  lemma {:induction false} DecodeEncode(x: nat, len: nat)
    requires x < Pow256(len)
    ensures LittleEndian(ToLittleEndian(x, len)) == x
  {
    if len > 0 {
      var b := ToLittleEndian(x, len);
      var lo, hi := x % 256, x / 256;
      assert b == [lo] + ToLittleEndian(hi, len - 1);
      assert b[1..] == ToLittleEndian(hi, len - 1);
      DecodeEncode(hi, len - 1);
      assert x == lo + 256 * hi;
    }
  }

  /** Splitting `lo + 256 * hi` by 256 recovers `lo` and `hi`. */
  lemma DivModByte(lo: nat, hi: nat)
    requires lo < 256
    ensures (lo + 256 * hi) % 256 == lo && (lo + 256 * hi) / 256 == hi
  {
  }

  /** Encoding a decoded byte sequence at its own length gives back the bytes. */
  lemma {:induction false} EncodeDecode(b: seq<byte>)
    ensures ToLittleEndian(LittleEndian(b), |b|) == b
  {
    if b != [] {
      var x, y := LittleEndian(b), LittleEndian(b[1..]);
      assert x == b[0] + 256 * y;
      DivModByte(b[0], y);
      EncodeDecode(b[1..]);
      assert b == [b[0]] + b[1..];
    }
  }

  lemma Pow256Eight()
    ensures Pow256(8) == 0x1_0000_0000_0000_0000
  {
  }

  /** Reading a `uint64` from the front of `buf` in little-endian order:
      the result is the number whose 8-byte encoding is the first eight bytes. */
  function ReadUint64(buf: seq<byte>): (x: u64)
    requires |buf| >= 8
    ensures ToLittleEndian(x, 8) == buf[..8]
  {
    Pow256Eight();
    EncodeDecode(buf[..8]);
    LittleEndian(buf[..8])
  }

  /** The 8-byte digest of a 64-bit xxhash. */
  type Digest = d: seq<byte> | |d| == 8 witness [0, 0, 0, 0, 0, 0, 0, 0]

  /** A seeded hasher into which nothing has been written: `digest` is the
      digest of the empty input under `seed`. The hash function itself is not
      part of this model, so `digest` is taken as given. */
  datatype Hasher = Hasher(seed: u64, digest: Digest)
  {
    /** The hasher's sum with `b` as argument: `b` with the digest appended. */
    function Sum(b: seq<byte>): (r: seq<byte>)
      ensures |r| == |b| + 8 && r[..|b|] == b && r[|b|..] == digest
    {
      b + digest
    }
  }

  /** The position one hasher gives for `v` in a bit array of `m` bits. */
  function BitIndex(hasher: Hasher, v: seq<byte>, m: u64): (i: u64)
    requires m >= 1
    ensures i < m
  {
    ReadUint64(hasher.Sum(v)) % m
  }

  /** The positions the hashers `h` give for `v`, one per hasher, in order. */
  function Indexes(h: seq<Hasher>, v: seq<byte>, m: u64): (r: seq<u64>)
    requires m >= 1 || |h| == 0
    ensures |r| == |h|
    ensures forall i :: 0 <= i < |r| ==> r[i] < m
  {
    seq(|h|, i requires 0 <= i < |h| => BitIndex(h[i], v, m))
  }

  /** For a value of eight bytes or more the digest never reaches the bytes
      read, so every position is the value's own first eight bytes modulo `m`,
      whatever the seeds. */
  lemma LongValueIgnoresSeeds(h: seq<Hasher>, v: seq<byte>, m: u64, i: nat)
    requires m >= 1 && |v| >= 8 && i < |h|
    ensures Indexes(h, v, m)[i] == ReadUint64(v) % m
  {
    assert h[i].Sum(v)[..8] == v[..8];
  }

  /** Two values of eight bytes or more that share their first eight bytes get
      the same positions. */
  lemma SharedPrefixSameIndexes(h: seq<Hasher>, v: seq<byte>, w: seq<byte>, m: u64)
    requires (m >= 1 || |h| == 0) && |v| >= 8 && |w| >= 8 && v[..8] == w[..8]
    ensures Indexes(h, v, m) == Indexes(h, w, m)
  {
    forall i | 0 <= i < |h|
      ensures Indexes(h, v, m)[i] == Indexes(h, w, m)[i]
    {
      LongValueIgnoresSeeds(h, v, m, i);
      LongValueIgnoresSeeds(h, w, m, i);
    }
  }

  /** For a value shorter than eight bytes, position `i` is read from the value
      followed by the first `8 - |v|` digest bytes of hasher `i`. */
  lemma ShortValueIndex(h: seq<Hasher>, v: seq<byte>, m: u64, i: nat)
    requires m >= 1 && |v| < 8 && i < |h|
    ensures Indexes(h, v, m)[i] == ReadUint64(v + h[i].digest[..8 - |v|]) % m
  {
    assert h[i].Sum(v)[..8] == (v + h[i].digest[..8 - |v|])[..8];
  }

  /** Position `i` depends on the value, `m` and hasher `i` only: two hasher
      sequences that agree at `i` give the same position there. */
  lemma IndexDependsOnOwnHasher(h1: seq<Hasher>, h2: seq<Hasher>, v: seq<byte>, m: u64, i: nat)
    requires m >= 1 && i < |h1| && i < |h2| && h1[i].digest == h2[i].digest
    ensures Indexes(h1, v, m)[i] == Indexes(h2, v, m)[i]
  {
  }
}
