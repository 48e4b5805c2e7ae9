/** The scenarios the repository's tests exercise, as clients of the filter. */
module Usage {
  import opened Primitives
  import opened Errors
  import opened Hashing
  import opened BitArray
  import opened BloomFilters

  /** Construction with the test's arguments: a zero or negative probability is
      rejected naming `p`, a zero capacity is rejected naming `n` (also when the
      probability is bad too), and a capacity of 1000 with probability 0.1 is
      accepted. */
  method CreateWithTestArguments(optimalM: (u64, real) -> u64, optimalK: (u64, u64) -> u64,
                                 randUint64: nat -> u64, emptyDigest: u64 -> Digest)
    returns (zeroP: Result<BloomFilter, InvalidArgumentError>,
             negativeP: Result<BloomFilter, InvalidArgumentError>,
             zeroN: Result<BloomFilter, InvalidArgumentError>,
             bothBad: Result<BloomFilter, InvalidArgumentError>,
             valid: Result<BloomFilter, InvalidArgumentError>)
    requires optimalM(1000, 0.1) == 0 ==> optimalK(1000, 0) == 0
    ensures zeroP.Failure? && zeroP.error.name == "p" && zeroP.error.v == Float64Value(0.0)
    ensures negativeP.Failure? && negativeP.error.name == "p" && negativeP.error.v == Float64Value(-0.1)
    ensures zeroN.Failure? && zeroN.error.name == "n" && zeroN.error.v == Uint64Value(0)
    ensures bothBad.Failure? && bothBad.error.name == "n"
    ensures valid.Success? && valid.value.n == 1000
  {
    zeroP := CreateBloomFilter(1000, 0.0, optimalM, optimalK, randUint64, emptyDigest);
    negativeP := CreateBloomFilter(1000, -0.1, optimalM, optimalK, randUint64, emptyDigest);
    zeroN := CreateBloomFilter(0, 0.1, optimalM, optimalK, randUint64, emptyDigest);
    bothBad := CreateBloomFilter(0, -0.1, optimalM, optimalK, randUint64, emptyDigest);
    valid := CreateBloomFilter(1000, 0.1, optimalM, optimalK, randUint64, emptyDigest);
  }

  /** Adding a value and then asking for it answers true, and still does
      after another value is added; none of the four calls fails. */
  method AddThenContains(bf: BloomFilter, v: seq<byte>, w: seq<byte>)
    returns (addV: Option<WrappedError>, before: bool, containsBefore: Option<WrappedError>,
             addW: Option<WrappedError>, after: bool, containsAfter: Option<WrappedError>)
    requires bf.Valid()
    modifies bf.a
    ensures addV == None && containsBefore == None && addW == None && containsAfter == None
    ensures before && after
  {
    addV := bf.Add(v);
    before, containsBefore := bf.Contains(v);
    ghost var bits := bf.a[..];
    addW := bf.Add(w);
    AllSetPreserved(bits, Indexes(bf.h, v, bf.m), Indexes(bf.h, w, bf.m));
    after, containsAfter := bf.Contains(v);
  }
}
