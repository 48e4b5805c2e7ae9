# Bloom filter model

A Dafny model of a Go Bloom filter package: a filter sized from a capacity `n`
and a false-positive probability `p`, holding `m` bits and `k` seeded hashers,
with `Add` (turn on a value's `k` positions) and `Contains` (are all of a
value's positions on?). The model covers the constructor's argument
validation, the index derivation, the two bit-array operations, the error type
the constructor returns, and the scenarios of the package's tests.

Modules, one per part of the program:

- `Primitives` — `u64` (Go's `uint64`), `Option` (a Go `error`, `None` for `nil`), `Result`.
- `Errors` — `InvalidArgumentError`, its constructor and `Error()` (errors.go).
- `BitArray` — the bit-array primitive's contract as the filter uses it (out-of-range error
  for positions at or beyond its size) and the error wrapper the filter puts around its errors.
- `Hashing` — index derivation: little-endian decoding, the hashers, `Indexes`.
- `BloomFilters` — the class `BloomFilter`, `CreateBloomFilter`, and the specification
  functions `SetAll` / `AllSet` with the lemmas about them.
- `Usage` — the package tests' scenarios as verified client methods.

The class keeps `k`, `n`, `m`, the hashers and the bit array as constant fields;
only the array's contents change. Go's `Add` and `Contains` have value
receivers, yet the tests rely on a write by `Add` being seen by `Contains`: the
bit array is shared between copies, which is what an `array<bool>` referenced
from a constant field gives.

**Index derivation follows the code, not the textbook design.** The code asks
each hasher for `Sum(v)`. For a Go `hash.Hash` this appends the hasher's current
digest to `v`; it does not hash `v`, and nothing is ever written into the
hasher. The position for hasher `i` is therefore the first eight bytes of
`v ++ digest(seed_i)`, read little-endian, modulo `m` (`Hashing.BitIndex`),
where `digest(seed)` is the xxhash digest of the empty input. The model proves
the consequences: for `|v| >= 8` all `k` positions equal the value's first eight
bytes modulo `m`, whatever the seeds (`Hashing.LongValueIgnoresSeeds`), so any
two such values sharing their first eight bytes are indistinguishable
(`BloomFilters.SharedPrefixReportsContained`).

Sizing (`optimalM`, `optimalK`), the random seed source and the xxhash
digest are parameters of `CreateBloomFilter`: `optimalM: (u64, real) -> u64`,
`optimalK: (u64, u64) -> u64`, `randUint64: nat -> u64` (the `i`-th draw) and
`emptyDigest: u64 -> Digest` (the 8-byte digest of the empty input under a
seed). A float64 probability is modelled as a `real`.

## Model

| member | source | states |
|---|---|---|
| `Errors.NewInvalidArgumentError` | errors.go:9-11 | the constructor stores message, parameter name and value unchanged |
| `Errors.InvalidArgumentError.Error` | errors.go:13-15 | the text is the message the error was built with: rebuilding from it, the name and the value gives the same error |
| `Errors.InvalidArgumentErrorFromFields` | errors.go:3-11 | every error is the one the constructor builds from its own fields (the other half of the round trip) |
| `Errors.ErrorRoundTrip` | errors.go:9-15 | building an error with message `m` and rendering it yields exactly `m` |
| `Errors.ErrorIgnoresNameAndValue` | errors.go:13-15 | two errors with the same message render identically, whatever their name and value |
| `BitArray.TurnOn` | bloomfilter.go:99-103 | an in-range position is turned on and nothing else changes; an out-of-range one gives an error naming it and changes nothing |
| `BitArray.IndexValue` | bloomfilter.go:113-117 | an in-range position reads its bit without error; an out-of-range one gives an error and `false` |
| `Hashing.LittleEndian` | bloomfilter.go:134 | the number decoded from `len` bytes is below 256 to the power `len` |
| `Hashing.DecodeEncode` | bloomfilter.go:134 | decoding the little-endian encoding of a number gives the number back |
| `Hashing.EncodeDecode` | bloomfilter.go:134 | encoding a decoded byte sequence at its length gives the bytes back |
| `Hashing.ReadUint64` | bloomfilter.go:133-134 | the `uint64` read from a buffer is the number whose 8-byte little-endian encoding is the buffer's first eight bytes |
| `Hashing.Hasher.Sum` | bloomfilter.go:132 | the hasher's sum with argument `b` does not hash `b`: it is `b` itself followed by the hasher's 8-byte digest |
| `Hashing.BitIndex` | bloomfilter.go:131-137 | one hasher's position is below `m` |
| `Hashing.Indexes` | bloomfilter.go:127-140 | exactly one position per hasher, each below `m` |
| `Hashing.LongValueIgnoresSeeds` | bloomfilter.go:130-137 | for a value of eight bytes or more every position is the value's first eight bytes modulo `m`, independent of the seeds |
| `Hashing.SharedPrefixSameIndexes` | bloomfilter.go:130-137 | two values of eight bytes or more with the same first eight bytes get the same positions |
| `Hashing.ShortValueIndex` | bloomfilter.go:130-137 | for a shorter value, position `i` is read from the value followed by the first `8 - len(v)` bytes of hasher `i`'s digest |
| `Hashing.IndexDependsOnOwnHasher` | bloomfilter.go:130-137 | position `i` depends only on the value, `m` and hasher `i`'s digest |
| `BloomFilters.SetAll` | bloomfilter.go:98-104 | turning positions on one by one sets exactly the bits that were set or are listed; none is cleared, no other bit changes |
| `BloomFilters.BloomFilter.constructor` | bloomfilter.go:92 | the filter holds the given `k`, `n`, `m`, bit array and hashers, with `m` bits, `k` hashers, and `m >= 1` unless there are no hashers |
| `BloomFilters.BloomFilter.BitIndexesToCheck` | bloomfilter.go:127-141 | returns exactly `k` positions, each below `m`, namely the hashers' positions in order |
| `BloomFilters.BloomFilter.Add` | bloomfilter.go:95-107 | never fails; the new bits are the old ones with every position of the value turned on |
| `BloomFilters.BloomFilter.Contains` | bloomfilter.go:109-125 | never fails, changes no bit, and answers true exactly when every position of the value is set |
| `BloomFilters.CreateBloomFilter` | bloomfilter.go:67-93 | `n == 0` fails naming `n` with value `n` (checked first); otherwise `p <= 0` fails naming `p` with value `p`; otherwise succeeds with the given `n`, `m = optimalM(n, p)`, `k = optimalK(n, m)`, all bits off and `k` hashers seeded by successive draws (for `m = 0`, as with `p = 1`, a filter with no bits and no hashers) |
| `BloomFilters.AddThenAllSet` | bloomfilter.go:95-125 | after turning a value's positions on, all of them read as set |
| `BloomFilters.AllSetPreserved` | bloomfilter.go:95-107 | further insertions never make a contained value read as absent |
| `BloomFilters.SetAllIdempotent` | bloomfilter.go:95-107 | adding a value twice leaves the same bits as adding it once |
| `BloomFilters.SetAllCommutes` | bloomfilter.go:95-107 | the bits after two insertions do not depend on their order |
| `BloomFilters.ContainedAfterAddAll` | bloomfilter.go:95-125 | a value that reads as contained still does after any sequence of additions |
| `BloomFilters.NoFalseNegatives` | bloomfilter.go:95-125 | after adding a sequence of values in turn, each of them reads as contained |
| `BloomFilters.SharedPrefixReportsContained` | bloomfilter.go:127-141 | adding a value of eight bytes or more makes every value with the same first eight bytes read as contained |
| `Usage.CreateWithTestArguments` | bloomfilter_test.go:10-43 | probabilities `0` and `-0.1` are rejected naming `p`, capacity `0` is rejected naming `n` even when `p` is bad too, `(1000, 0.1)` is accepted |
| `Usage.AddThenContains` | bloomfilter_test.go:52-69 | `Add(v)`, `Contains(v)`, `Add(w)`, `Contains(v)` all return no error, and both `Contains(v)` calls answer true |

## Left out

- `optimalM` and `optimalK` (bloomfilter.go:149-164): floating-point logarithm and ceiling formulas; they are parameters of `CreateBloomFilter`.
- `CreateBloomFilter`: requires that `optimalM(n, p) == 0` implies `optimalK(n, 0) == 0`, a fact of the float formula at bloomfilter.go:150 (`ceil(0 * ln 2 / n) = 0`) that the opaque parameter cannot carry. For `p = 1` the code gets `m = 0` and then `k = 0`, so the index loop never runs and the modulo at bloomfilter.go:136 is never reached; the model builds that filter too, and its `Add` changes nothing while its `Contains` answers true for every value.
- `CreateBloomFilter`: whether the bit-array library refuses a size of 0 is not part of this model; allocating 0 bits succeeds here.
- `CreateBloomFilter`: infinite probabilities are not representable, since `p` is a `real`: `-Inf` is rejected naming `p` with a value a `real` cannot hold, and `+Inf` (like `p > 1`) reaches the undefined float-to-`uint64` conversion in `optimalM` (bloomfilter.go:162-163), which the parameter `optimalM` stands in for.
- `CreateBloomFilter`: does not state `k >= 1`, because `optimalK` is not modelled; with `k = 0` the model's `Contains` answers true for every value, as the code would.
- `CreateBloomFilter`: a NaN probability (which passes the `p <= 0` check in Go) is not representable, since `p` is a `real`.
- `CreateBloomFilter`: the allocation failure of the bit-array primitive and its wrapping (bloomfilter.go:78-82) are not modelled; allocating `m` bits always succeeds here.
- The random seed source (bloomfilter.go:89) and the xxhash library: seeds are the parameter `randUint64`, digests the parameter `emptyDigest`.
- The bit-array library's internals and the error-wrapping library: kept only as the out-of-range contract and a wrapper constructor around the cause.
- `BloomFilters.BloomFilter.BitIndexesToCheck`, `BloomFilters.BloomFilter.Add`, `BloomFilters.BloomFilter.Contains`: values are immutable sequences, so the aliasing write of the code is not captured. The hasher's sum appends the digest to the caller's slice (bloomfilter.go:132); when that slice has at least eight bytes of spare capacity, Go's append writes the digest in place into the caller's backing array just past the value's end, on every `Add` and every `Contains` (for example `Contains(buf[:3])` with `len(buf) == 16` overwrites `buf[3:11]` with the last hasher's digest). The positions computed are the same either way.
- The error `binary.Read` could return (bloomfilter.go:134) is ignored by the code; it cannot arise since the buffer always holds at least eight bytes.
- The negative-membership test (bloomfilter_test.go:71-79) and any false-positive rate: probabilistic, depends on the actual hash values.
- Benchmarks and random test data (bloomfilter_test.go:83-411).
- Concurrency: the type is deliberately not safe for concurrent use.
