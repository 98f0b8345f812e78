/** The Bloom filter a table carries, and its on-disk form: eight bits to a byte. */
module Bloom {
  import opened Keys
  import opened Codec

  const SALT: Bytes := [0x73, 0x61, 0x6c, 0x74]

  /** The `i`-th position of `key`: double hashing in 64-bit arithmetic. */
  function HashAt(hash: Hasher, key: Key, i: nat, numBits: nat): (p: nat)
    requires numBits > 0
    ensures p < numBits
  {
    ((hash(key) % U64 + i * (hash(key + SALT) % U64)) % U64) % numBits
  }

  /** The same positions one after another: each is the second hash further, in 64 bits. */
  function Stepped(hash: Hasher, key: Key, i: nat): (h: nat) {
    if i == 0 then hash(key) % U64 else (Stepped(hash, key, i - 1) + hash(key + SALT)) % U64
  }

  lemma {:induction false} HashAtSteps(hash: Hasher, key: Key, i: nat, numBits: nat)
    requires numBits > 0
    ensures HashAt(hash, key, i, numBits) == Stepped(hash, key, i) % numBits
  {
    SteppedTotal(hash, key, i);
  }

  function Advanced(a: nat, i: nat, c: nat): (n: nat) {
    a + i * c
  }

  lemma OneFurther(a: nat, i: nat, c: nat)
    ensures Advanced(a, 0, c) == a && Advanced(a, i + 1, c) == Advanced(a, i, c) + c
  {
  }

  lemma {:induction false} SteppedTotal(hash: Hasher, key: Key, i: nat)
    ensures Stepped(hash, key, i) == Advanced(hash(key) % U64, i, hash(key + SALT) % U64) % U64
  {
    hide Advanced;
    var a, b := hash(key) % U64, hash(key + SALT);
    if i > 0 {
      SteppedTotal(hash, key, i - 1);
      OneFurther(a, i - 1, b % U64);
      SumModulo(Advanced(a, i - 1, b % U64), b);
    } else {
      OneFurther(a, 0, b % U64);
    }
  }

  lemma SumModulo(x: nat, y: nat)
    ensures (x % U64 + y) % U64 == (x + y % U64) % U64
  {
    assert x == U64 * (x / U64) + x % U64 && y == U64 * (y / U64) + y % U64;
    var r := x % U64 + y % U64;
    ModuloAdds(r, y / U64);
    ModuloAdds(r, x / U64);
  }

  lemma {:induction false} ModuloAdds(r: nat, q: nat)
    ensures (r + U64 * q) % U64 == r % U64
  {
    if q > 0 {
      ModuloAdds(r, q - 1);
    }
  }

  /** A filter as a value. The false-positive rate is the 8 bytes of a double that only
      the sizing formulas read. */
  datatype Filter = Filter(expected: nat, rate: Bytes, numBits: nat, numHashes: nat, bits: seq<bool>)

  ghost predicate WellFormed(f: Filter) {
    f.numBits > 0 && |f.bits| == f.numBits
  }

  ghost predicate Marked(hash: Hasher, f: Filter, key: Key) {
    WellFormed(f) && forall i: nat :: i < f.numHashes ==> f.bits[HashAt(hash, key, i, f.numBits)]
  }

  /** Reports exactly whether every position of `key` is set. */
  method PossiblyContains(hash: Hasher, f: Filter, key: Key) returns (r: bool)
    requires WellFormed(f)
    ensures r <==> Marked(hash, f, key)
  {
    var i := 0;
    while i < f.numHashes
      invariant 0 <= i <= f.numHashes
      invariant forall j: nat :: j < i ==> f.bits[HashAt(hash, key, j, f.numBits)]
    {
      if !f.bits[HashAt(hash, key, i, f.numBits)] {
        return false;
      }
      i := i + 1;
    }
    return true;
  }

  /** A filter under construction; `keys` are the ones added so far. */
  class BloomFilter {
    const hash: Hasher
    const expected: nat
    const rate: Bytes
    const numBits: nat
    const numHashes: nat
    var bits: seq<bool>
    ghost var keys: set<Key>

    ghost predicate Valid()
      reads this
    {
      && numBits > 0 && |bits| == numBits && |rate| == 8
      && forall k :: k in keys ==> Marked(hash, AsFilter(), k)
    }

    function AsFilter(): Filter
      reads this
    {
      Filter(expected, rate, numBits, numHashes, bits)
    }

    constructor (hash: Hasher, expected: nat, rate: Bytes, numBits: nat, numHashes: nat)
      requires numBits > 0 && |rate| == 8
      ensures Valid() && keys == {} && this.hash == hash && forall p :: 0 <= p < |bits| ==> !bits[p]
    {
      this.hash, this.expected, this.rate, this.numBits, this.numHashes := hash, expected, rate, numBits, numHashes;
      bits := seq(numBits, _ => false);
      keys := {};
    }

    /** `p` is one of the first `n` positions of `key`. */
    ghost predicate Hits(key: Key, p: nat, n: nat)
      requires numBits > 0
    {
      exists i: nat :: i < n && HashAt(hash, key, i, numBits) == p
    }

    /** Sets the positions of `key` and no others. */
    method Add(key: Key)
      requires Valid()
      modifies this
      ensures Valid() && keys == old(keys) + {key}
      ensures forall p :: 0 <= p < numBits ==> (bits[p] <==> old(bits)[p] || Hits(key, p, numHashes))
    {
      var i := 0;
      while i < numHashes
        invariant 0 <= i <= numHashes && |bits| == numBits && keys == old(keys)
        invariant forall p :: 0 <= p < numBits ==> (bits[p] <==> old(bits)[p] || Hits(key, p, i))
      {
        bits := bits[HashAt(hash, key, i, numBits) := true];
        i := i + 1;
      }
      keys := keys + {key};
      forall k | k in keys ensures Marked(hash, AsFilter(), k) {
        if k != key {
          assert Marked(hash, old(AsFilter()), k);
        }
        forall i: nat | i < numHashes ensures bits[HashAt(hash, k, i, numBits)] {
          assert k == key ==> Hits(key, HashAt(hash, key, i, numBits), numHashes);
        }
      }
    }
  }

  // ----- on disk

  function BitValue(bits: seq<bool>, at: nat): (v: nat)
    ensures v <= 1
  {
    if at < |bits| && bits[at] then 1 else 0
  }

  function Power2(n: nat): (p: nat)
    ensures p > 0
  {
    if n == 0 then 1 else 2 * Power2(n - 1)
  }

  /** `n` bits from `at` on as a number, the first one lowest; bits past the end are 0. */
  function PackBits(bits: seq<bool>, at: nat, n: nat): (b: nat)
    ensures b < Power2(n)
    decreases n
  {
    if n == 0 then 0 else BitValue(bits, at) + 2 * PackBits(bits, at + 1, n - 1)
  }

  function PackByte(bits: seq<bool>, i: nat): (b: byte) {
    assert Power2(3) == 8 && Power2(6) == 8 * Power2(3);
    PackBits(bits, 8 * i, 8) as byte
  }

  /** `b >> j & 1` */
  function BitOf(b: nat, j: nat): (v: nat)
    ensures v <= 1
  {
    if j == 0 then b % 2 else BitOf(b / 2, j - 1)
  }

  lemma {:induction false} PackedBit(bits: seq<bool>, at: nat, n: nat, j: nat)
    requires j < n
    ensures BitOf(PackBits(bits, at, n), j) == BitValue(bits, at + j)
    decreases n
  {
    var rest := PackBits(bits, at + 1, n - 1);
    assert (BitValue(bits, at) + 2 * rest) / 2 == rest;
    if j > 0 {
      PackedBit(bits, at + 1, n - 1, j - 1);
    }
  }

  const HEADER: nat := 32

  function Header(f: Filter): (b: Bytes)
    ensures |f.rate| == 8 ==> |b| == HEADER
  {
    Le(f.expected, 8) + f.rate + Le(f.numBits, 8) + Le(f.numHashes, 8)
  }

  ghost predicate IsEncodingOf(data: Bytes, f: Filter) {
    && |data| == |Header(f)| + (f.numBits + 7) / 8
    && data[..|Header(f)|] == Header(f)
    && forall i :: 0 <= i < (f.numBits + 7) / 8 ==> data[|Header(f)| + i] == PackByte(f.bits, i)
  }

  method Encode(f: Filter) returns (data: Bytes)
    ensures IsEncodingOf(data, f)
  {
    data := Header(f);
    var numBytes := (f.numBits + 7) / 8;
    var i := 0;
    while i < numBytes
      invariant 0 <= i <= numBytes && |data| == |Header(f)| + i && data[..|Header(f)|] == Header(f)
      invariant forall k :: 0 <= k < i ==> data[|Header(f)| + k] == PackByte(f.bits, k)
    {
      data := data + [PackByte(f.bits, i)];
      i := i + 1;
    }
  }

  /** The buffer holds a header and the bits it announces. */
  predicate Decodable(data: Bytes) {
    |data| >= HEADER && |data| >= HEADER + (FromLe(data[16..24]) + 7) / 8
  }

  lemma EncodingDecodable(f: Filter, data: Bytes)
    requires |f.rate| == 8 && f.expected < U64 && f.numBits < U64 && f.numHashes < U64
    requires IsEncodingOf(data, f)
    ensures Decodable(data)
  {
    HeaderFields(data, f);
  }

  /** What the decoder reads; the buffer must hold the bits it announces. */
  ghost predicate IsDecodingOf(f: Filter, data: Bytes) {
    && Decodable(data)
    && f.expected == FromLe(data[..8]) && f.rate == data[8..16]
    && f.numBits == FromLe(data[16..24]) && f.numHashes == FromLe(data[24..32])
    && |f.bits| == f.numBits
    && forall p :: 0 <= p < f.numBits ==> (f.bits[p] <==> BitOf(data[HEADER + p / 8] as nat, p % 8) == 1)
  }

  method Decode(data: Bytes) returns (f: Filter)
    requires Decodable(data)
    ensures IsDecodingOf(f, data)
  {
    var numBits := FromLe(data[16..24]);
    var bits := seq(numBits, _ => false);
    var numBytes := (numBits + 7) / 8;
    var i := 0;
    while i < numBytes
      invariant 0 <= i <= numBytes && |bits| == numBits
      invariant forall p :: 0 <= p < numBits && p < 8 * i ==>
                  (bits[p] <==> BitOf(data[HEADER + p / 8] as nat, p % 8) == 1)
    {
      var b := data[HEADER + i];
      var j := 0;
      while j < 8
        invariant 0 <= j <= 8 && |bits| == numBits
        invariant forall p :: 0 <= p < numBits && p < 8 * i + j ==>
                    (bits[p] <==> BitOf(data[HEADER + p / 8] as nat, p % 8) == 1)
      {
        if i * 8 + j < numBits {
          assert (i * 8 + j) / 8 == i && (i * 8 + j) % 8 == j;
          bits := bits[i * 8 + j := BitOf(b as nat, j) == 1];
        }
        j := j + 1;
      }
      i := i + 1;
    }
    f := Filter(FromLe(data[..8]), data[8..16], numBits, FromLe(data[24..32]), bits);
  }

  lemma HeaderFields(data: Bytes, f: Filter)
    requires |f.rate| == 8 && f.expected < U64 && f.numBits < U64 && f.numHashes < U64
    requires |data| >= HEADER && data[..HEADER] == Header(f)
    ensures FromLe(data[..8]) == f.expected && data[8..16] == f.rate
    ensures FromLe(data[16..24]) == f.numBits && FromLe(data[24..32]) == f.numHashes
  {
    hide Le, FromLe;
    LeRoundTrips(f.expected);
    LeRoundTrips(f.numBits);
    LeRoundTrips(f.numHashes);
    var h := Header(f);
    assert data[..8] == h[..8] == Le(f.expected, 8);
    assert data[8..16] == h[8..16] == f.rate;
    assert data[16..24] == h[16..24] == Le(f.numBits, 8);
    assert data[24..32] == h[24..32] == Le(f.numHashes, 8);
  }

  /** Encoding a filter and decoding the bytes gives the filter back. */
  lemma FilterRoundTrip(f: Filter, data: Bytes, g: Filter)
    requires WellFormed(f) && |f.rate| == 8 && f.expected < U64 && f.numBits < U64 && f.numHashes < U64
    requires IsEncodingOf(data, f) && IsDecodingOf(g, data)
    ensures g == f
  {
    HeaderFields(data, f);
    forall p | 0 <= p < f.numBits ensures g.bits[p] == f.bits[p] {
      PackedBit(f.bits, 8 * (p / 8), 8, p % 8);
      assert data[HEADER + p / 8] == PackByte(f.bits, p / 8);
    }
  }

  /** The encoding of a filter is long enough for the decoder, so no added key is ever
      lost on the way through a file. */
  lemma NoFalseNegatives(hash: Hasher, f: Filter, data: Bytes, g: Filter, key: Key)
    requires Marked(hash, f, key)
    requires |f.rate| == 8 && f.expected < U64 && f.numBits < U64 && f.numHashes < U64
    requires IsEncodingOf(data, f)
    ensures Decodable(data)
    ensures IsDecodingOf(g, data) ==> Marked(hash, g, key)
  {
    HeaderFields(data, f);
    if IsDecodingOf(g, data) {
      FilterRoundTrip(f, data, g);
    }
  }
}
