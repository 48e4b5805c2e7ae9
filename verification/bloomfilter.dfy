/** The filter engine: construction with argument validation, insertion and
    membership test over a shared, fixed-size bit array. */
module BloomFilters {
  import opened Primitives
  import opened Errors
  import opened BitArray
  import opened Hashing

  const InvalidNErrorMessage := "Paramater [n] should be greater than zero."
  const InvalidPErrorMessage := "Paramater [p] should be greater than zero."

  /** The bits after turning on every position in `idx`, one after the other. */
  function SetAll(bits: seq<bool>, idx: seq<u64>): (r: seq<bool>)
    requires forall j :: 0 <= j < |idx| ==> idx[j] < |bits|
    ensures |r| == |bits|
    ensures forall b :: 0 <= b < |bits| ==> (r[b] <==> bits[b] || b in idx)
  {
    if idx == [] then bits
    else SetAll(bits, idx[..|idx| - 1])[idx[|idx| - 1] := true]
  }

  /** Every position in `idx` is within `bits` and set there. */
  predicate AllSet(bits: seq<bool>, idx: seq<u64>)
  {
    forall j :: 0 <= j < |idx| ==> idx[j] < |bits| && bits[idx[j]]
  }

  /** A Bloom filter. Its sizes and hashers never change after construction;
      its bits live in an array that every copy of the filter shares, so an
      insertion through one copy is seen by a query through another. */
  class BloomFilter {
    /** Number of hashers. */
    const k: u64
    /** Capacity the filter was sized for (informational, never enforced). */
    const n: u64
    /** Number of bits. */
    const m: u64
    /** The bits. */
    const a: array<bool>
    /** The hashers, in the order their positions are computed. */
    const h: seq<Hasher>

    /** `m` bits and `k` hashers; a filter without bits has no hashers either,
        so no position is ever reduced modulo zero. */
    ghost predicate Valid()
    {
      (m >= 1 || k == 0) && a.Length == m && |h| == k
    }

    constructor (k: u64, n: u64, m: u64, a: array<bool>, h: seq<Hasher>)
      requires (m >= 1 || k == 0) && a.Length == m && |h| == k
      ensures Valid()
      ensures this.k == k && this.n == n && this.m == m && this.a == a && this.h == h
    {
      this.k, this.n, this.m, this.a, this.h := k, n, m, a, h;
    }

    /** The positions for `v`: exactly `k` of them, each below `m`. */
    method BitIndexesToCheck(v: seq<byte>) returns (indexes: seq<u64>)
      requires Valid()
      ensures |indexes| == k
      ensures forall i :: 0 <= i < |indexes| ==> indexes[i] < m
      ensures indexes == Indexes(h, v, m)
    {
      var out := new u64[k];
      for i := 0 to |h|
        invariant forall j :: 0 <= j < i ==> out[j] == BitIndex(h[j], v, m)
      {
        var hashBinary := h[i].Sum(v);
        var hashValue := ReadUint64(hashBinary);
        out[i] := hashValue % m;
      }
      indexes := out[..];
    }

    /** Turns on every position of `v`. It never fails, every position of `v`
        is set afterwards, and no other bit changes. */
    method Add(v: seq<byte>) returns (err: Option<WrappedError>)
      requires Valid()
      modifies a
      ensures err == None
      ensures a[..] == SetAll(old(a[..]), Indexes(h, v, m))
    {
      var indexes := BitIndexesToCheck(v);
      for j := 0 to |indexes|
        invariant a[..] == SetAll(old(a[..]), indexes[..j])
      {
        var e := TurnOn(a, indexes[j]);
        match e {
          case Some(cause) => return Some(WrapError(cause));
          case None =>
        }
        assert indexes[..j + 1][..j] == indexes[..j];
      }
      assert indexes[..|indexes|] == indexes;
      return None;
    }

    /** Whether every position of `v` is set, checked in order and stopping at
        the first unset one. It never fails and changes no bit. */
    method Contains(v: seq<byte>) returns (isSet: bool, err: Option<WrappedError>)
      requires Valid()
      ensures err == None
      ensures isSet == AllSet(a[..], Indexes(h, v, m))
    {
      var indexes := BitIndexesToCheck(v);
      for j := 0 to |indexes|
        invariant AllSet(a[..], indexes[..j])
      {
        var bit, e := IndexValue(a, indexes[j]);
        match e {
          case Some(cause) => return false, Some(WrapError(cause));
          case None =>
        }
        if !bit {
          return false, None;
        }
      }
      assert indexes[..|indexes|] == indexes;
      return true, None;
    }
  }

  /** Validates the capacity `n` and then the false-positive probability `p`,
      sizes the filter with `optimalM` and `optimalK`, and seeds `k` hashers
      with successive draws `randUint64(0)`, `randUint64(1)`, ... . The digest
      each seeded hasher holds is `emptyDigest(seed)`. */
  method CreateBloomFilter(n: u64, p: real,
                           optimalM: (u64, real) -> u64, optimalK: (u64, u64) -> u64,
                           randUint64: nat -> u64, emptyDigest: u64 -> Digest)
    returns (r: Result<BloomFilter, InvalidArgumentError>)
    requires n != 0 && p > 0.0 && optimalM(n, p) == 0 ==> optimalK(n, 0) == 0
    ensures n == 0 ==>
      r == Failure(NewInvalidArgumentError(InvalidNErrorMessage, "n", Uint64Value(n)))
    ensures n != 0 && p <= 0.0 ==>
      r == Failure(NewInvalidArgumentError(InvalidPErrorMessage, "p", Float64Value(p)))
    ensures n != 0 && p > 0.0 ==> r.Success?
    ensures r.Success? ==>
      var bf := r.value;
      && bf.Valid() && fresh(bf.a)
      && bf.n == n && bf.m == optimalM(n, p) && bf.k == optimalK(n, bf.m)
      && (forall j :: 0 <= j < bf.a.Length ==> !bf.a[j])
      && (forall i :: 0 <= i < |bf.h| ==>
            bf.h[i] == Hasher(randUint64(i), emptyDigest(randUint64(i))))
  {
    if n == 0 {
      return Failure(NewInvalidArgumentError(InvalidNErrorMessage, "n", Uint64Value(n)));
    }
    if p <= 0.0 {
      return Failure(NewInvalidArgumentError(InvalidPErrorMessage, "p", Float64Value(p)));
    }
    var m := optimalM(n, p);
    var k := optimalK(n, m);
    var a := new bool[m](_ => false);
    var h := new Hasher[k];
    for i := 0 to k
      modifies h
      invariant forall j :: 0 <= j < i ==> h[j] == Hasher(randUint64(j), emptyDigest(randUint64(j)))
    {
      var seed := randUint64(i);
      h[i] := Hasher(seed, emptyDigest(seed));
    }
    var bf := new BloomFilter(k, n, m, a, h[..]);
    return Success(bf);
  }

  /** No false negatives: once a value's positions are turned on, all of them
      read as set. */
  lemma AddThenAllSet(bits: seq<bool>, idx: seq<u64>)
    requires forall j :: 0 <= j < |idx| ==> idx[j] < |bits|
    ensures AllSet(SetAll(bits, idx), idx)
  {
  }

  /** Turning positions on never clears a bit, so whatever read as all set
      before still does. */
  lemma AllSetPreserved(bits: seq<bool>, idx: seq<u64>, other: seq<u64>)
    requires forall j :: 0 <= j < |other| ==> other[j] < |bits|
    requires AllSet(bits, idx)
    ensures AllSet(SetAll(bits, other), idx)
  {
  }

  /** Adding the same value twice leaves the bits as adding it once. */
  lemma SetAllIdempotent(bits: seq<bool>, idx: seq<u64>)
    requires forall j :: 0 <= j < |idx| ==> idx[j] < |bits|
    ensures SetAll(SetAll(bits, idx), idx) == SetAll(bits, idx)
  {
  }

  /** The bits after two insertions do not depend on their order. */
  lemma SetAllCommutes(bits: seq<bool>, x: seq<u64>, y: seq<u64>)
    requires forall j :: 0 <= j < |x| ==> x[j] < |bits|
    requires forall j :: 0 <= j < |y| ==> y[j] < |bits|
    ensures SetAll(SetAll(bits, x), y) == SetAll(SetAll(bits, y), x)
  {
  }

  /** The bits after adding each of `vs` in turn to a filter of `m` bits with hashers `h`. */
  function AddAll(bits: seq<bool>, h: seq<Hasher>, m: u64, vs: seq<seq<byte>>): (r: seq<bool>)
    requires (m >= 1 || |h| == 0) && |bits| == m
    ensures |r| == m
    decreases |vs|
  {
    if vs == [] then bits
    else AddAll(SetAll(bits, Indexes(h, vs[0], m)), h, m, vs[1..])
  }

  /** A value that reads as contained stays contained after any further additions. */
  lemma {:induction false} ContainedAfterAddAll(bits: seq<bool>, h: seq<Hasher>, m: u64,
                                                v: seq<byte>, vs: seq<seq<byte>>)
    requires (m >= 1 || |h| == 0) && |bits| == m
    requires AllSet(bits, Indexes(h, v, m))
    ensures AllSet(AddAll(bits, h, m, vs), Indexes(h, v, m))
    decreases |vs|
  {
    if vs != [] {
      var next := SetAll(bits, Indexes(h, vs[0], m));
      AllSetPreserved(bits, Indexes(h, v, m), Indexes(h, vs[0], m));
      ContainedAfterAddAll(next, h, m, v, vs[1..]);
    }
  }

  /** No false negatives over any history: after adding each of `vs` in turn,
      every one of them reads as contained. */
  lemma {:induction false} NoFalseNegatives(bits: seq<bool>, h: seq<Hasher>, m: u64,
                                            vs: seq<seq<byte>>, i: nat)
    requires (m >= 1 || |h| == 0) && |bits| == m && i < |vs|
    ensures AllSet(AddAll(bits, h, m, vs), Indexes(h, vs[i], m))
    decreases |vs|
  {
    var next := SetAll(bits, Indexes(h, vs[0], m));
    if i == 0 {
      AddThenAllSet(bits, Indexes(h, vs[0], m));
      ContainedAfterAddAll(next, h, m, vs[0], vs[1..]);
    } else {
      NoFalseNegatives(next, h, m, vs[1..], i - 1);
    }
  }

  /** Because positions are read from the value's first eight bytes when it
      has that many, adding one such value makes every value with the same
      first eight bytes read as contained. */
  lemma SharedPrefixReportsContained(bits: seq<bool>, h: seq<Hasher>, m: u64,
                                     v: seq<byte>, w: seq<byte>)
    requires (m >= 1 || |h| == 0) && |bits| == m
    requires |v| >= 8 && |w| >= 8 && v[..8] == w[..8]
    ensures AllSet(SetAll(bits, Indexes(h, v, m)), Indexes(h, w, m))
  {
    SharedPrefixSameIndexes(h, v, w, m);
  }
}
