/** Little-endian integers as the encoders write them with `memcpy`. */
module Codec {
  import opened Keys

  /** A hash function, whatever it computes. */
  type Hasher = Bytes -> nat

  function Pow256(k: nat): (r: nat)
    ensures r > 0
  {
    if k == 0 then 1 else 256 * Pow256(k - 1)
  }

  const U16: nat := 0x1_0000
  const U32: nat := 0x1_0000_0000
  const U64: nat := 0x1_0000_0000_0000_0000

  lemma Widths()
    ensures Pow256(2) == U16 && Pow256(4) == U32 && Pow256(8) == U64
  {
    assert Pow256(3) == 256 * Pow256(2);
    assert Pow256(5) == 256 * Pow256(4);
    assert Pow256(7) == 256 * Pow256(6);
  }

  /** The low `k` bytes of `n`, least significant first. */
  function Le(n: nat, k: nat): (b: Bytes)
    ensures |b| == k
  {
    if k == 0 then [] else [(n % 256) as byte] + Le(n / 256, k - 1)
  }

  function FromLe(b: Bytes): (n: nat) {
    if b == [] then 0 else b[0] as nat + 256 * FromLe(b[1..])
  }

  lemma {:induction false} LeRoundTrip(n: nat, k: nat)
    requires n < Pow256(k)
    ensures FromLe(Le(n, k)) == n
  {
    if k > 0 {
      LeRoundTrip(n / 256, k - 1);
      assert Le(n, k)[1..] == Le(n / 256, k - 1);
    }
  }

  lemma LeRoundTrips(n: nat)
    ensures n < U16 ==> FromLe(Le(n, 2)) == n
    ensures n < U32 ==> FromLe(Le(n, 4)) == n
    ensures n < U64 ==> FromLe(Le(n, 8)) == n
  {
    Widths();
    if n < U16 { LeRoundTrip(n, 2); }
    if n < U32 { LeRoundTrip(n, 4); }
    if n < U64 { LeRoundTrip(n, 8); }
  }

  lemma Product(d: nat, x: nat, y: nat)
    ensures x <= y ==> d * x <= d * y
  {
  }

  lemma Quotient(n: nat, d: nat, q: nat, r: nat)
    requires r < d && n == d * q + r
    ensures q == n / d && r == n % d
  {
    Product(d, n / d + 1, q);
    Product(d, q + 1, n / d);
  }

  /** Dividing by 256 and then by a power of it. */
  lemma DivideTwice(n: nat, p: nat)
    requires p > 0
    ensures (n / 256) / p == n / (256 * p) && n % (256 * p) == 256 * ((n / 256) % p) + n % 256
  {
    var q, b, r := (n / 256) / p, (n / 256) % p, n % 256;
    assert n == 256 * (p * q + b) + r == (256 * p) * q + (256 * b + r);
    assert 256 * b + r < 256 * p;
    Quotient(n, 256 * p, q, 256 * b + r);
  }

  /** Little-endian: byte `i` is the `i`-th digit to the base 256, from the least. */
  lemma {:induction false} LeDigits(n: nat, k: nat, i: nat)
    requires i < k
    ensures Le(n, k)[i] as nat == (n / Pow256(i)) % 256
  {
    if i > 0 {
      LeDigits(n / 256, k - 1, i - 1);
      DivideTwice(n, Pow256(i - 1));
    } else {
      assert Pow256(0) == 1;
    }
  }

  lemma LowDigits(n: nat, j: nat)
    requires j > 0
    ensures var low := n % Pow256(j);
            low % 256 == n % 256 && low / 256 == (n / 256) % Pow256(j - 1)
    ensures (n / 256) / Pow256(j - 1) == n / Pow256(j)
  {
    var p := Pow256(j - 1);
    DivideTwice(n, p);
    Quotient(n % Pow256(j), 256, (n / 256) % p, n % 256);
  }

  function Low(n: nat, p: nat): nat
    requires p > 0
  {
    n % p
  }

  function High(n: nat, p: nat): nat
    requires p > 0
  {
    n / p
  }

  /** A field is its low bytes and then its high bytes. */
  lemma {:induction false} LeSplit(n: nat, j: nat, k: nat)
    ensures Le(n, j + k) == Le(Low(n, Pow256(j)), j) + Le(High(n, Pow256(j)), k)
  {
    if j > 0 {
      hide Pow256;
      LeSplit(n / 256, j - 1, k);
      LowDigits(n, j);
    } else {
      assert Pow256(0) == 1;
    }
  }

  lemma {:induction false} LeOfFromLe(b: Bytes)
    ensures Le(FromLe(b), |b|) == b
  {
    if b != [] {
      LeOfFromLe(b[1..]);
      assert b == [b[0]] + b[1..];
    }
  }

  function Zeros(n: nat): (b: Bytes)
    ensures |b| == n
  {
    seq(n, _ => 0)
  }

  /** `part` stands in `b` at `off`. */
  ghost predicate Holds(b: Bytes, off: nat, part: Bytes) {
    off + |part| <= |b| && b[off..off + |part|] == part
  }

  lemma HoldsSplit(b: Bytes, off: nat, p: Bytes, q: Bytes)
    requires Holds(b, off, p + q)
    ensures Holds(b, off, p) && Holds(b, off + |p|, q)
  {
    var w := b[off..off + |p + q|];
    assert b[off..off + |p|] == w[..|p|] == p;
    assert b[off + |p|..off + |p| + |q|] == w[|p|..] == q;
  }

  lemma HoldsIn(a: Bytes, part: Bytes, c: Bytes)
    ensures Holds(a + part + c, |a|, part)
  {
  }

  lemma HoldsExtended(b: Bytes, more: Bytes, off: nat, part: Bytes)
    requires Holds(b, off, part)
    ensures Holds(b + more, off, part)
  {
    assert (b + more)[off..off + |part|] == b[off..off + |part|];
  }
}
