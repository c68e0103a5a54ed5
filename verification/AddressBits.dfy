/**
 * What a CIDR prefix denotes (section 3.1 of RFC 4632): the addresses whose first bits are the gateway's. Bits are
 * told by halving, independently of how a subnet's ends are computed; gateway/sbegw/schema.py.
 */
module AddressBits {
  import opened Division
  import opened Networks

  const ADDRESSES := 0x1_0000_0000

  /** Bit k from the right. */
  predicate Bit(a: nat, k: nat) {
    if k == 0 then a % 2 == 1 else Bit(a / 2, k - 1)
  }

  /** The first n of the thirty-two bits are the same: those from the left, so the last ones from the right. */
  predicate SameFirst(a: nat, b: nat, n: nat)
    requires n <= 32
  {
    forall k: nat | 32 - n <= k < 32 :: Bit(a, k) == Bit(b, k)
  }

  /** Without its last n bits. */
  function Halved(a: nat, n: nat): nat {
    if n == 0 then a else Halved(a / 2, n - 1)
  }

  lemma HalfOfQuotient(a: nat, p: nat)
    requires p >= 1
    ensures a / (2 * p) == a / 2 / p
  {
    var q, r := a / 2 / p, a / 2 % p;
    assert a / 2 == q * p + r;
    assert a == q * (2 * p) + (2 * r + a % 2) by {
      assert q * (2 * p) == 2 * (q * p);
    }
    DivModUnique(a, 2 * p, q, 2 * r + a % 2);
  }

  lemma {:induction false} HalvedIsQuotient(a: nat, n: nat)
    ensures Halved(a, n) == a / Pow2(n)
  {
    if n > 0 {
      HalvedIsQuotient(a / 2, n - 1);
      HalfOfQuotient(a, Pow2(n - 1));
    }
  }

  lemma {:induction false} BitOfHalved(a: nat, n: nat, k: nat)
    ensures Bit(Halved(a, n), k) == Bit(a, n + k)
    decreases n
  {
    if n > 0 {
      BitOfHalved(a / 2, n - 1, k);
    }
  }

  lemma {:induction false} SameBitsSameNumber(a: nat, b: nat, n: nat)
    requires a < Pow2(n) && b < Pow2(n)
    requires forall k: nat | k < n :: Bit(a, k) == Bit(b, k)
    ensures a == b
    decreases n
  {
    if n > 0 {
      forall k: nat | k < n - 1 ensures Bit(a / 2, k) == Bit(b / 2, k) {
        assert Bit(a, k + 1) == Bit(b, k + 1);
      }
      SameBitsSameNumber(a / 2, b / 2, n - 1);
      assert Bit(a, 0) == Bit(b, 0);
    }
  }

  lemma {:induction false} HalvedBelow(a: nat, n: nat, m: nat)
    requires a < Pow2(n + m)
    ensures Halved(a, n) < Pow2(m)
    decreases n
  {
    if n > 0 {
      assert Pow2(n + m) == 2 * Pow2(n - 1 + m);
      HalvedBelow(a / 2, n - 1, m);
    }
  }

  lemma AddressesArePow2()
    ensures Pow2(32) == ADDRESSES
  {
    assert Pow2(8) == 256;
    assert Pow2(16) == 65536;
    assert Pow2(24) == 16777216;
  }

  /** The first bits agree exactly when the addresses agree without the others. */
  lemma SameFirstIffHalved(a: nat, b: nat, n: nat)
    requires a < ADDRESSES && b < ADDRESSES && n <= 32
    ensures SameFirst(a, b, n) <==> Halved(a, 32 - n) == Halved(b, 32 - n)
  {
    AddressesArePow2();
    HalvedBelow(a, 32 - n, n);
    HalvedBelow(b, 32 - n, n);
    var x, y := Halved(a, 32 - n), Halved(b, 32 - n);
    if SameFirst(a, b, n) {
      forall k: nat | k < n ensures Bit(x, k) == Bit(y, k) {
        BitOfHalved(a, 32 - n, k);
        BitOfHalved(b, 32 - n, k);
      }
      SameBitsSameNumber(x, y, n);
    }
    if x == y {
      forall k: nat | 32 - n <= k < 32 ensures Bit(a, k) == Bit(b, k) {
        BitOfHalved(a, 32 - n, k - (32 - n));
        BitOfHalved(b, 32 - n, k - (32 - n));
      }
    }
  }

  /** An aligned interval holds the numbers of one quotient. */
  lemma InAlignedIff(a: nat, ip: nat, size: nat)
    requires size >= 1
    ensures ip - ip % size <= a < ip - ip % size + size <==> a / size == ip / size
  {
    var first := ip - ip % size;
    assert ip == (ip / size) * size + ip % size;
    assert a == (a / size) * size + a % size;
    if first <= a < first + size {
      DivModUnique(a, size, ip / size, a - first);
    }
  }

  /** A subnet holds exactly the addresses whose first bits, as many as its prefix says, are those of the gateway. */
  lemma SubnetIsPrefix(i: Interface, a: nat)
    requires i.prefix <= 32 && i.ip < ADDRESSES && a < ADDRESSES
    ensures In(a, SubnetOf(i)) <==> SameFirst(a, i.ip, i.prefix)
  {
    InAlignedIff(a, i.ip, Pow2(32 - i.prefix));
    HalvedIsQuotient(a, 32 - i.prefix);
    HalvedIsQuotient(i.ip, 32 - i.prefix);
    SameFirstIffHalved(a, i.ip, i.prefix);
  }

  lemma {:induction false} HalvedAgain(a: nat, m: nat, n: nat)
    ensures Halved(Halved(a, m), n) == Halved(a, m + n)
    decreases m
  {
    if m > 0 {
      HalvedAgain(a / 2, m - 1, n);
    }
  }

  lemma {:induction false} HalvedIsSmall(a: nat, n: nat)
    requires Halved(a, n) == 0
    ensures a < Pow2(n)
    decreases n
  {
    if n > 0 {
      HalvedIsSmall(a / 2, n - 1);
    }
  }

  /** A subnet holds no number that is not an address. */
  lemma SubnetHoldsAddresses(i: Interface, a: nat)
    requires i.prefix <= 32 && i.ip < ADDRESSES && In(a, SubnetOf(i))
    ensures a < ADDRESSES
  {
    var n := 32 - i.prefix;
    InAlignedIff(a, i.ip, Pow2(n));
    HalvedIsQuotient(a, n);
    HalvedIsQuotient(i.ip, n);
    HalvedAgain(a, n, i.prefix);
    HalvedAgain(i.ip, n, i.prefix);
    AddressesArePow2();
    HalvedBelow(i.ip, 32, 0);
    HalvedIsSmall(a, 32);
  }

  /** Two subnets share an address exactly when their gateways agree in the bits that both prefixes speak of. */
  lemma SubnetsShareIff(i: Interface, j: Interface)
    requires i.prefix <= 32 && j.prefix <= 32 && i.ip < ADDRESSES && j.ip < ADDRESSES
    ensures ShareAddress(SubnetOf(i), SubnetOf(j)) <==>
            SameFirst(i.ip, j.ip, if i.prefix <= j.prefix then i.prefix else j.prefix)
  {
    SubnetIsPrefix(i, j.ip);
    SubnetIsPrefix(j, i.ip);
    if ShareAddress(SubnetOf(i), SubnetOf(j)) {
      var x: nat :| In(x, SubnetOf(i)) && In(x, SubnetOf(j));
      SubnetHoldsAddresses(i, x);
      SubnetIsPrefix(i, x);
      SubnetIsPrefix(j, x);
    }
  }
}
