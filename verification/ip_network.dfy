/** IP addresses and CIDR networks as numbers, and the containment test `address in network`. */
module IpNetwork {

  /** The two IP versions; an address of one is never inside a network of the other. */
  datatype Version = V4 | V6

  /** Number of bits in an address of version `v`. */
  function Width(v: Version): nat
  {
    match v
    case V4 => 32
    case V6 => 128
  }

  function Pow2(n: nat): (r: nat)
    ensures r >= 1
  {
    if n == 0 then 1 else 2 * Pow2(n - 1)
  }

  /** An IP address: its version and its value as an unsigned number. */
  datatype Address = Address(version: Version, value: nat)

  /** A CIDR network `base/len`. */
  datatype Network = Network(version: Version, base: nat, len: nat)

  /** What the address parser guarantees: the value fits in the version's width. */
  predicate ValidAddress(a: Address)
  {
    a.value < Pow2(Width(a.version))
  }

  /** Part of what the network parser guarantees: the base fits and the prefix length is at most the
      width (`ParsedNetwork` adds that the host bits are clear). */
  predicate ValidNetwork(n: Network)
  {
    n.base < Pow2(Width(n.version)) && n.len <= Width(n.version)
  }

  /** Number of host bits below the prefix. */
  function HostBits(n: Network): nat
    requires n.len <= Width(n.version)
  {
    Width(n.version) - n.len
  }

  /** `a in n`: same version, and the address and the base agree once the host bits are shifted out. */
  predicate Contains(n: Network, a: Address)
  {
    && n.version == a.version
    && n.len <= Width(n.version)
    && a.value / Pow2(HostBits(n)) == n.base / Pow2(HostBits(n))
  }

  /** Bit `i` of `x`, counting from the least significant bit. */
  function Bit(x: nat, i: nat): nat
  {
    if i == 0 then x % 2 else Bit(x / 2, i - 1)
  }

  /** Reference definition of containment in the words of RFC 4632, section 3.1: the top `len` bits agree. */
  predicate TopBitsAgree(n: Network, a: Address)
    requires n.len <= Width(n.version)
  {
    BitsAgree(a.value, n.base, HostBits(n), Width(n.version))
  }

  /** The lowest address of the network: the base with its host bits cleared. */
  function NetworkAddress(n: Network): int
    requires n.len <= Width(n.version)
  {
    (n.base / Pow2(HostBits(n))) * Pow2(HostBits(n))
  }

  /** The highest address of the network: the base with its host bits set. */
  function BroadcastAddress(n: Network): int
    requires n.len <= Width(n.version)
  {
    NetworkAddress(n) + Pow2(HostBits(n)) - 1
  }

  // ----- arithmetic on powers of two -----

  /** Division is determined by a quotient and a remainder in range. */
  lemma DivUnique(x: int, d: int, q: int, r: int)
    requires d > 0 && 0 <= r < d && x == d * q + r
    ensures x / d == q && x % d == r
  {
    var q' := x / d;
    var r' := x % d;
    assert x == d * q' + r';
    if q' > q {
      assert d * q' >= d * (q + 1) by { MulMonotone(d, q + 1, q'); }
    } else if q' < q {
      assert d * q >= d * (q' + 1) by { MulMonotone(d, q' + 1, q); }
    }
  }

  lemma MulMonotone(d: int, a: int, b: int)
    requires d > 0 && a <= b
    ensures d * a <= d * b
  {
  }

  /** Without a remainder, division by `p` is undone by multiplying by `p`. */
  lemma ExactDivision(x: nat, p: nat)
    requires p > 0 && x % p == 0
    ensures (x / p) * p == x
  {
    var q := x / p;
    assert x == p * q + x % p;
    assert x == p * q;
  }

  /** Dividing twice is dividing by the product. */
  lemma DivDiv(x: nat, a: nat, b: nat)
    requires a > 0 && b > 0
    ensures x / a / b == x / (a * b)
  {
    var q := x / a;
    var r := x % a;
    var q2 := q / b;
    var r2 := q % b;
    assert x == a * q + r;
    assert q == b * q2 + r2;
    assert x == (a * b) * q2 + (a * r2 + r);
    assert a * r2 <= a * (b - 1) by { MulMonotone(a, r2, b - 1); }
    DivUnique(x, a * b, q2, a * r2 + r);
  }

  /** Bits `lo` up to (not including) `hi` of `x` and `y` agree. */
  predicate BitsAgree(x: nat, y: nat, lo: nat, hi: nat)
  {
    forall i :: lo <= i < hi ==> Bit(x, i) == Bit(y, i)
  }

  /** Two numbers below `2^k` whose low `k` bits agree are equal. */
  lemma {:induction false} LowBitsDetermineValue(x: nat, y: nat, k: nat)
    requires x < Pow2(k) && y < Pow2(k)
    requires BitsAgree(x, y, 0, k)
    ensures x == y
  {
    if k > 0 {
      HalvesBitsAgree(x, y, 1, k);
      LowBitsDetermineValue(x / 2, y / 2, k - 1);
      assert Bit(x, 0) == Bit(y, 0);
    }
  }

  /** Halving shifts every bit down by one place. */
  lemma HalvesBitsAgree(x: nat, y: nat, lo: nat, hi: nat)
    requires 1 <= lo <= hi
    ensures BitsAgree(x / 2, y / 2, lo - 1, hi - 1) <==> BitsAgree(x, y, lo, hi)
  {
    if BitsAgree(x, y, lo, hi) {
      forall i | lo - 1 <= i < hi - 1
        ensures Bit(x / 2, i) == Bit(y / 2, i)
      {
        assert Bit(x, i + 1) == Bit(y, i + 1);
      }
    }
    if BitsAgree(x / 2, y / 2, lo - 1, hi - 1) {
      forall i | lo <= i < hi
        ensures Bit(x, i) == Bit(y, i)
      {
        assert Bit(x / 2, i - 1) == Bit(y / 2, i - 1);
      }
    }
  }

  /** Shifting out `h` bits leaves equal quotients exactly when the bits from `h` up to `h + k` agree. */
  lemma {:induction false} QuotientsEqualIffHighBitsAgree(x: nat, y: nat, h: nat, k: nat)
    requires x < Pow2(h + k) && y < Pow2(h + k)
    ensures x / Pow2(h) == y / Pow2(h) <==> BitsAgree(x, y, h, h + k)
  {
    if h == 0 {
      if BitsAgree(x, y, 0, k) {
        LowBitsDetermineValue(x, y, k);
      }
    } else {
      QuotientsEqualIffHighBitsAgree(x / 2, y / 2, h - 1, k);
      DivDiv(x, 2, Pow2(h - 1));
      DivDiv(y, 2, Pow2(h - 1));
      HalvesBitsAgree(x, y, h, h + k);
    }
  }

  /** Containment is prefix matching: the top `len` bits of the address and of the base agree. */
  lemma ContainsIffTopBitsAgree(n: Network, a: Address)
    requires ValidNetwork(n) && ValidAddress(a) && n.version == a.version
    ensures Contains(n, a) <==> TopBitsAgree(n, a)
  {
    assert HostBits(n) + n.len == Width(n.version);
    QuotientsEqualIffHighBitsAgree(a.value, n.base, HostBits(n), n.len);
  }

  /** Containment is a range test: the address lies between the network and broadcast addresses. */
  lemma ContainsIffInRange(n: Network, a: Address)
    requires n.version == a.version && n.len <= Width(n.version)
    ensures Contains(n, a) <==> NetworkAddress(n) <= a.value <= BroadcastAddress(n)
  {
    var p := Pow2(HostBits(n));
    var q := n.base / p;
    var lo := NetworkAddress(n);
    assert lo == q * p;
    if Contains(n, a) {
      assert a.value == p * q + a.value % p;
    }
    if lo <= a.value <= BroadcastAddress(n) {
      DivUnique(a.value, p, q, a.value - lo);
    }
  }

  /** A `/0` network contains every address of its version. */
  lemma ZeroLengthContainsAll(n: Network, a: Address)
    requires n.len == 0 && ValidNetwork(n) && ValidAddress(a) && n.version == a.version
    ensures Contains(n, a)
  {
    var p := Pow2(Width(n.version));
    DivUnique(a.value, p, 0, a.value);
    DivUnique(n.base, p, 0, n.base);
  }

  /** A full-length network contains its base and nothing else. */
  lemma FullLengthContainsOnlyBase(n: Network, a: Address)
    requires n.len == Width(n.version) && n.version == a.version
    ensures Contains(n, a) <==> a.value == n.base
  {
    assert HostBits(n) == 0;
  }

  /** What a network parse returns: a valid network whose host bits are clear (strict parsing
      rejects a base with host bits set; non-strict parsing masks them off). */
  predicate ParsedNetwork(n: Network)
  {
    ValidNetwork(n) && n.base % Pow2(HostBits(n)) == 0
  }

  /** Masking the host bits of a valid network, as non-strict parsing does, yields a parsed network
      whose base is the network address and which contains exactly the same addresses. */
  lemma MaskHostBits(n: Network, a: Address)
    requires ValidNetwork(n)
    ensures NetworkAddress(n) >= 0
    ensures ParsedNetwork(n.(base := NetworkAddress(n)))
    ensures NetworkAddress(n.(base := NetworkAddress(n))) == NetworkAddress(n)
    ensures Contains(n.(base := NetworkAddress(n)), a) <==> Contains(n, a)
  {
    var p := Pow2(HostBits(n));
    RoundDown(n.base, p);
    var m := n.(base := NetworkAddress(n));
    assert HostBits(m) == HostBits(n);
  }

  /** Rounding down to a multiple of `p` keeps the quotient and leaves no remainder. */
  lemma RoundDown(x: nat, p: nat)
    requires p > 0
    ensures 0 <= (x / p) * p <= x
    ensures ((x / p) * p) / p == x / p && ((x / p) * p) % p == 0
  {
    var q := x / p;
    assert x == p * q + x % p;
    assert q * p >= 0 by { MulMonotone(p, 0, q); }
    DivUnique(q * p, p, q, 0);
  }

  /** A parsed network is its own network address. */
  lemma ParsedNetworkIsNetworkAddress(n: Network)
    requires ParsedNetwork(n)
    ensures NetworkAddress(n) == n.base
  {
    ExactDivision(n.base, Pow2(HostBits(n)));
  }

  /** No address is inside a network of the other IP version. */
  lemma CrossVersionNeverContains(n: Network, a: Address)
    requires n.version != a.version
    ensures !Contains(n, a)
  {
  }
}
