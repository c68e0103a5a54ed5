/** Bytes and big-endian integers. */
module Octets {
  type Byte = n: int | 0 <= n < 256

  type Bytes = seq<Byte>

  const TWO_16 := 0x1_0000
  const TWO_32 := 0x1_0000_0000

  function U16(n: nat): (r: Bytes)
    requires n < TWO_16
    ensures |r| == 2 && FromBig(r) == n
  {
    BigOfTwo([n / 256, n % 256]);
    [n / 256, n % 256]
  }

  function U32(n: nat): (r: Bytes)
    requires n < TWO_32
    ensures |r| == 4 && FromBig(r) == n
  {
    var high, low := U16(n / TWO_16), U16(n % TWO_16);
    BigAppend(high, low);
    high + low
  }

  /** The number a big-endian byte string stands for. */
  function FromBig(b: Bytes): nat {
    if b == [] then 0 else 256 * FromBig(b[..|b| - 1]) + b[|b| - 1]
  }

  lemma BigOfTwo(b: Bytes)
    requires |b| == 2
    ensures var high: int := b[0]; FromBig(b) == 256 * high + b[1]
  {
    assert b[..1][..0] == [];
    assert FromBig(b[..1]) == 256 * FromBig(b[..1][..0]) + b[0];
  }

  lemma BigAppend(a: Bytes, b: Bytes)
    requires |b| == 2
    ensures FromBig(a + b) == TWO_16 * FromBig(a) + FromBig(b)
  {
    BigOfTwo(b);
    assert (a + b)[..|a| + 1][..|a|] == a;
    assert FromBig((a + b)[..|a| + 1]) == 256 * FromBig(a) + b[0];
  }
}
