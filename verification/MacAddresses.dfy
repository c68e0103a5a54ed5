/**
 * Derived hardware addresses: gateway/sbegw/util.py, and the BSSID and MLD derivations of
 * gateway/sbegw/wifid.py. An address is its six octets.
 */
module MacAddresses {

  type Octet = n: int | 0 <= n < 256

  type Mac = o: seq<Octet> | |o| == 6 witness [2, 0, 0, 0, 0, 0]

  const DEFAULT_MAC: Mac := [2, 0, 0, 0, 0, 0]

  /** Slots per radio that BSSID derivation keeps apart. */
  const MAX_SLOTS := 16

  /** `octet | 0x02`: set the locally administered bit. */
  function SetLocal(octet: Octet): Octet {
    if octet / 2 % 2 == 1 then octet else octet + 2
  }

  /** `octet ^ 0x80` */
  function FlipTop(octet: Octet): Octet {
    if octet >= 128 then octet - 128 else octet + 128
  }

  predicate IsLocal(mac: Mac) {
    mac[0] / 2 % 2 == 1
  }

  function Derived(base: Mac, local: bool, index: int): Mac {
    (if local then [SetLocal(base[0])] else [base[0]]) + base[1..5] + [(base[5] + index) % 256]
  }

  /** The derivation as the source does it, octet by octet on its own copy. */
  method DeriveMac(base: Mac, localBit: bool, index: int) returns (mac: Mac)
    ensures mac == Derived(base, localBit, index)
  {
    var octets := new Octet[6](i requires 0 <= i < 6 => base[i]);
    if localBit {
      octets[0] := SetLocal(octets[0]);
    }
    octets[5] := (octets[5] + index) % 256;
    mac := octets[..];
  }

  function Bssid(radioMac: Mac, slot: int, ordinal: int): Mac {
    Derived(radioMac, true, ordinal * MAX_SLOTS + slot)
  }

  function MldMac(radioMac: Mac, index: int): Mac {
    [SetLocal(radioMac[0])] + radioMac[1..3] + [FlipTop(radioMac[3]), radioMac[4], (radioMac[5] + 0x40 + index) % 256]
  }

  /** Two derived addresses coincide exactly when all but the last octet agree and the last agree mod 256. */
  lemma DerivedCollideIff(a: Mac, i: int, b: Mac, j: int)
    ensures Derived(a, true, i) == Derived(b, true, j) <==>
            SetLocal(a[0]) == SetLocal(b[0]) && a[1..5] == b[1..5] && (a[5] + i - b[5] - j) % 256 == 0
  {
    var x, y := Derived(a, true, i), Derived(b, true, j);
    assert x == y <==> x[0] == y[0] && x[1..5] == y[1..5] && x[5] == y[5];
    assert x[1..5] == a[1..5] && y[1..5] == b[1..5];
  }

  /** The addresses agree but for the last octets, and those differ by what the indices make up for modulo 256. */
  predicate Clash(a: Mac, slotA: int, ordinalA: int, b: Mac, slotB: int, ordinalB: int) {
    && SetLocal(a[0]) == SetLocal(b[0]) && a[1..5] == b[1..5]
    && (a[5] - b[5] + MAX_SLOTS * (ordinalA - ordinalB) + slotA - slotB) % 256 == 0
  }

  /** The exact condition under which two radios' BSSIDs are one address. */
  lemma BssidsCollideIff(a: Mac, slotA: int, ordinalA: int, b: Mac, slotB: int, ordinalB: int)
    ensures Bssid(a, slotA, ordinalA) == Bssid(b, slotB, ordinalB) <==> Clash(a, slotA, ordinalA, b, slotB, ordinalB)
  {
    DerivedCollideIff(a, ordinalA * MAX_SLOTS + slotA, b, ordinalB * MAX_SLOTS + slotB);
  }

  /** The two indices are one modulo 256. */
  predicate SameIndex(slotA: int, ordinalA: int, slotB: int, ordinalB: int) {
    (MAX_SLOTS * (ordinalA - ordinalB) + slotA - slotB) % 256 == 0
  }

  lemma SameMacBssidsIff(mac: Mac, slotA: int, ordinalA: int, slotB: int, ordinalB: int)
    ensures Bssid(mac, slotA, ordinalA) == Bssid(mac, slotB, ordinalB) <==>
            SameIndex(slotA, ordinalA, slotB, ordinalB)
  {
    BssidsCollideIff(mac, slotA, ordinalA, mac, slotB, ordinalB);
  }

  /** On one MAC, ordinals and slots below sixteen never share a BSSID. */
  lemma SameMacBssidsDistinct(mac: Mac, slotA: int, ordinalA: int, slotB: int, ordinalB: int)
    requires 0 <= slotA < MAX_SLOTS && 0 <= slotB < MAX_SLOTS
    requires 0 <= ordinalA < 16 && 0 <= ordinalB < 16
    ensures Bssid(mac, slotA, ordinalA) == Bssid(mac, slotB, ordinalB) <==> slotA == slotB && ordinalA == ordinalB
  {
    BssidsCollideIff(mac, slotA, ordinalA, mac, slotB, ordinalB);
  }

  /** Radios whose MACs differ in the last octet alone do collide: three apart, slot three against slot zero. */
  lemma NeighbouringMacsCollide(mac: Mac)
    requires mac[5] < 253
    ensures Bssid(mac, 3, 0) == Bssid(mac[5 := mac[5] + 3], 0, 0)
  {
    BssidsCollideIff(mac, 3, 0, mac[5 := mac[5] + 3], 0, 0);
    assert mac[1..5] == mac[5 := mac[5] + 3][1..5];
  }

  /** No BSSID is an MLD address derived from the same MAC, whatever the indices. */
  lemma BssidIsNotMldMac(mac: Mac, slot: int, ordinal: int, index: int)
    ensures Bssid(mac, slot, ordinal) != MldMac(mac, index)
  {
    assert Bssid(mac, slot, ordinal)[3] == mac[1..5][2] == mac[3];
    assert MldMac(mac, index)[3] == FlipTop(mac[3]);
  }

  /**
   * Derived addresses are locally administered, and group addresses only if the radio's own is one; all that tells
   * the maker but that bit is kept.
   */
  lemma DerivedAreLocal(mac: Mac, slot: int, ordinal: int, index: int)
    ensures var bssid, mld := Bssid(mac, slot, ordinal), MldMac(mac, index);
            && IsLocal(bssid) && bssid[0] % 2 == mac[0] % 2 && bssid[0] / 4 == mac[0] / 4 && bssid[1..5] == mac[1..5]
            && IsLocal(mld) && mld[0] == bssid[0] && mld[1..3] == mac[1..3] && mld[4] == mac[4]
  {
    assert Bssid(mac, slot, ordinal)[0] == SetLocal(mac[0]);
    assert MldMac(mac, index)[0] == SetLocal(mac[0]);
  }

  lemma MldMacsCollideIff(mac: Mac, i: int, j: int)
    ensures MldMac(mac, i) == MldMac(mac, j) <==> (i - j) % 256 == 0
  {
    var x, y := MldMac(mac, i), MldMac(mac, j);
    assert x == y <==> x[5] == y[5];
  }

  /** A BSSID is the radio's own address exactly when that address is already local and the index wraps to zero. */
  lemma BssidIsOwnMacIff(mac: Mac, slot: int, ordinal: int)
    ensures Bssid(mac, slot, ordinal) == mac <==> IsLocal(mac) && (ordinal * MAX_SLOTS + slot) % 256 == 0
  {
    var x := Bssid(mac, slot, ordinal);
    assert x[1..5] == mac[1..5];
    assert mac == [mac[0]] + mac[1..5] + [mac[5]];
    assert x == mac <==> x[0] == mac[0] && x[5] == mac[5];
  }
}
