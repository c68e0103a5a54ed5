/**
 * Network validation, gateway/sbegw/schema.py, and what the client database of gateway/sbegw/clientd.py
 * draws from it. Networks are an ordered document; addresses are IPv4 numbers, prefixes as in
 * section 3.1 of RFC 4632.
 */
module Networks {
  import opened Wrappers

  function Pow2(n: nat): (p: nat)
    ensures p >= 1
  {
    if n == 0 then 1 else 2 * Pow2(n - 1)
  }

  /** A gateway address with its prefix length. */
  datatype Interface = Interface(ip: nat, prefix: nat)

  lemma AlignedBelow(ip: nat, size: nat)
    requires size >= 1
    ensures 0 <= ip - ip % size <= ip < ip - ip % size + size
  {
  }

  /** An interval of addresses: what a prefix stands for. */
  datatype Subnet = Subnet(first: nat, size: nat)

  function SubnetOf(i: Interface): (s: Subnet)
    requires i.prefix <= 32
    ensures s.size >= 1 && In(i.ip, s)
  {
    var size := Pow2(32 - i.prefix);
    AlignedBelow(i.ip, size);
    Subnet(i.ip - i.ip % size, size)
  }

  predicate In(address: nat, s: Subnet) {
    s.first <= address < s.first + s.size
  }

  function Last(s: Subnet): int {
    s.first + s.size - 1
  }

  /** The library's overlap test: an end of one subnet lies in the other. */
  predicate Overlaps(a: Subnet, b: Subnet)
    requires a.size >= 1 && b.size >= 1
  {
    In(b.first, a) || In(Last(b), a) || In(a.first, b) || In(Last(a), b)
  }

  ghost predicate ShareAddress(a: Subnet, b: Subnet) {
    exists x: nat :: In(x, a) && In(x, b)
  }

  lemma OverlapsIffShare(a: Subnet, b: Subnet)
    requires a.size >= 1 && b.size >= 1
    ensures Overlaps(a, b) <==> ShareAddress(a, b)
  {
    if Overlaps(a, b) {
      var x := if In(b.first, a) then b.first
               else if In(Last(b), a) then Last(b)
               else if In(a.first, b) then a.first
               else Last(a);
      assert In(x, a) && In(x, b);
    }
  }

  // -------------------------------------------------------------- documents

  /** A text field that should hold an address, as parsing finds it. */
  datatype AddressField = Missing | NotAnAddress | OtherVersion | Address(value: nat)

  datatype SubnetField = NoSubnet | NotASubnet | OtherFamily | Cidr(iface: Interface)

  datatype Reservation = Reservation(macOk: bool, address: AddressField)

  datatype Dhcp = Dhcp(
    enabled: Option<bool>,
    start: AddressField,
    end: AddressField,
    lease: Option<int>,
    reservations: seq<Reservation>)

  const NO_DHCP := Dhcp(Some(false), Missing, Missing, None, [])

  /** `headOk` and `tailOk` stand for the plain field checks before the VLAN and after the subnet. */
  datatype Network = Network(
    id: string,
    headOk: bool,
    vlan: Option<int>,
    subnet: SubnetField,
    dhcp: Option<Dhcp>,
    tailOk: bool)

  type Document = seq<Network>

  const MIN_LEASE := 120
  const MAX_LEASE := 30 * 86400
  const DEFAULT_LEASE := 86400

  predicate Enabled(d: Dhcp) {
    d.enabled == Some(true)
  }

  /** The validator's defaults, filled into a DHCP section. */
  function FillDhcp(d: Dhcp): Dhcp {
    var e := d.(enabled := Some(if d.enabled.Some? then d.enabled.value else false));
    if !Enabled(e) then e else e.(lease := Some(if d.lease.Some? then d.lease.value else DEFAULT_LEASE))
  }

  function Fill(n: Network): Network {
    if n.subnet.Cidr? then n.(dhcp := Some(FillDhcp(if n.dhcp.Some? then n.dhcp.value else NO_DHCP))) else n
  }

  function FillAll(doc: Document): Document {
    seq(|doc|, i requires 0 <= i < |doc| => Fill(doc[i]))
  }

  // -------------------------------------------------- what is acceptable

  predicate SubnetOk(f: SubnetField) {
    f.NoSubnet? || (f.Cidr? && f.iface.prefix < 32)
  }

  predicate HasSubnet(n: Network) {
    n.subnet.Cidr? && n.subnet.iface.prefix < 32
  }

  function Space(n: Network): (s: Subnet)
    requires HasSubnet(n)
    ensures s.size >= 1
  {
    SubnetOf(n.subnet.iface)
  }

  /** An enabled pool: both ends inside the subnet, in order, without the gateway; the rest of the section in range. */
  predicate DhcpOk(d: Dhcp, i: Interface)
    requires i.prefix < 32
  {
    Enabled(d) ==>
      && d.start.Address? && d.end.Address?
      && In(d.start.value, SubnetOf(i)) && In(d.end.value, SubnetOf(i))
      && d.start.value <= d.end.value
      && !(d.start.value <= i.ip <= d.end.value)
      && (d.lease.Some? ==> MIN_LEASE <= d.lease.value <= MAX_LEASE)
      && forall r | r in d.reservations :: r.macOk && r.address.Address? && In(r.address.value, SubnetOf(i))
  }

  predicate NetworkOk(n: Network) {
    && n.headOk && n.tailOk
    && (n.vlan.Some? ==> 1 <= n.vlan.value <= 4094)
    && SubnetOk(n.subnet)
    && (HasSubnet(n) && n.dhcp.Some? ==> DhcpOk(n.dhcp.value, n.subnet.iface))
  }

  /** Two networks of one document do not get in each other's way. */
  ghost predicate Apart(a: Network, b: Network) {
    && (a.vlan.Some? ==> a.vlan != b.vlan)
    && (HasSubnet(a) && HasSubnet(b) ==> !ShareAddress(Space(a), Space(b)))
  }

  ghost predicate AllApart(doc: Document) {
    forall i, j | 0 <= i < j < |doc| :: Apart(doc[i], doc[j])
  }

  ghost predicate Acceptable(doc: Document) {
    (forall i | 0 <= i < |doc| :: NetworkOk(doc[i])) && AllApart(doc)
  }

  datatype Reason = NoNetworks | BadField | BadVlan | VlanTaken | BadSubnet | SubnetOverlaps | BadDhcp

  datatype Refusal = Refusal(index: nat, reason: Reason)

  // ---------------------------------------------------------- the validator

  method ValidateDhcp(d: Dhcp, i: Interface) returns (ok: bool, filled: Dhcp)
    requires i.prefix < 32
    ensures ok <==> DhcpOk(d, i)
    ensures ok ==> filled == FillDhcp(d)
  {
    filled := d.(enabled := Some(if d.enabled.Some? then d.enabled.value else false));
    if filled.enabled == Some(false) {
      return true, filled;
    }
    if !d.start.Address? || !d.end.Address? {
      return false, filled;
    }
    var space, start, end := SubnetOf(i), d.start.value, d.end.value;
    if !In(start, space) || !In(end, space) || start > end {
      return false, filled;
    }
    if i.ip == start || i.ip == end || (start <= i.ip <= end) {
      return false, filled;
    }
    filled := filled.(lease := Some(if d.lease.Some? then d.lease.value else DEFAULT_LEASE));
    if !(MIN_LEASE <= filled.lease.value <= MAX_LEASE) {
      return false, filled;
    }
    ok := ReservationsFit(d.reservations, space);
  }

  method ReservationsFit(reservations: seq<Reservation>, space: Subnet) returns (ok: bool)
    ensures ok <==> forall r | r in reservations :: r.macOk && r.address.Address? && In(r.address.value, space)
  {
    for k := 0 to |reservations|
      invariant forall j | 0 <= j < k ::
                  reservations[j].macOk && reservations[j].address.Address? && In(reservations[j].address.value, space)
    {
      var r := reservations[k];
      if !r.macOk || !r.address.Address? || !In(r.address.value, space) {
        assert r in reservations;
        return false;
      }
    }
    return true;
  }

  /** The validator's running tables: VLANs and subnets seen in the part of the document already accepted. */
  ghost predicate TablesFor(seenVlans: set<int>, seenSubnets: seq<Subnet>, doc: Document) {
    && (forall v :: v in seenVlans <==> exists j :: 0 <= j < |doc| && doc[j].vlan == Some(v))
    && (forall s | s in seenSubnets ::
          s.size >= 1 && exists j :: 0 <= j < |doc| && HasSubnet(doc[j]) && Space(doc[j]) == s)
    && (forall j | 0 <= j < |doc| && HasSubnet(doc[j]) :: Space(doc[j]) in seenSubnets)
  }

  /** Whether a subnet is clear of every one seen. */
  method ClearOf(space: Subnet, seen: seq<Subnet>) returns (clear: bool)
    requires space.size >= 1 && forall s | s in seen :: s.size >= 1
    ensures clear <==> forall s | s in seen :: !ShareAddress(space, s)
  {
    for j := 0 to |seen|
      invariant forall k | 0 <= k < j :: !ShareAddress(space, seen[k])
    {
      OverlapsIffShare(space, seen[j]);
      if Overlaps(space, seen[j]) {
        assert seen[j] in seen;
        return false;
      }
    }
    return true;
  }

  lemma JoinsIff(doc: Document, n: Network, seenVlans: set<int>, seenSubnets: seq<Subnet>)
    requires Acceptable(doc) && TablesFor(seenVlans, seenSubnets, doc)
    ensures Acceptable(doc + [n]) <==>
            && NetworkOk(n)
            && (n.vlan.Some? ==> n.vlan.value !in seenVlans)
            && (HasSubnet(n) ==> forall s | s in seenSubnets :: !ShareAddress(Space(n), s))
  {
    var more := doc + [n];
    assert more[|doc|] == n;
    if Acceptable(more) {
      assert NetworkOk(more[|doc|]);
      forall j | 0 <= j < |doc| ensures doc[j].vlan.Some? ==> doc[j].vlan != n.vlan {
        assert Apart(more[j], more[|doc|]);
      }
      if HasSubnet(n) {
        forall s | s in seenSubnets ensures !ShareAddress(Space(n), s) {
          var j :| 0 <= j < |doc| && HasSubnet(doc[j]) && Space(doc[j]) == s;
          assert Apart(more[j], more[|doc|]);
        }
      }
    }
    if NetworkOk(n) && (n.vlan.Some? ==> n.vlan.value !in seenVlans)
       && (HasSubnet(n) ==> forall s | s in seenSubnets :: !ShareAddress(Space(n), s)) {
      forall i, j | 0 <= i < j < |more| ensures Apart(more[i], more[j]) {
        if j < |doc| { assert Apart(doc[i], doc[j]); }
      }
    }
  }

  /** One network against the tables of those before it. */
  method ValidateOne(n: Network, seenVlans: set<int>, seenSubnets: seq<Subnet>) returns (r: Result<Network, Reason>)
    requires forall s | s in seenSubnets :: s.size >= 1
    ensures r.Ok? <==>
            && NetworkOk(n)
            && (n.vlan.Some? ==> n.vlan.value !in seenVlans)
            && (HasSubnet(n) ==> forall s | s in seenSubnets :: !ShareAddress(Space(n), s))
    ensures r.Ok? ==> r.value == Fill(n)
  {
    if !n.headOk {
      return Err(BadField);
    }
    if n.vlan.Some? {
      if !(1 <= n.vlan.value <= 4094) {
        return Err(BadVlan);
      }
      if n.vlan.value in seenVlans {
        return Err(VlanTaken);
      }
    }
    if !SubnetOk(n.subnet) {
      return Err(BadSubnet);
    }
    var filled := n;
    if n.subnet.Cidr? {
      var clear := ClearOf(Space(n), seenSubnets);
      if !clear {
        return Err(SubnetOverlaps);
      }
      var ok, dhcp := ValidateDhcp(if n.dhcp.Some? then n.dhcp.value else NO_DHCP, n.subnet.iface);
      if !ok {
        return Err(BadDhcp);
      }
      filled := n.(dhcp := Some(dhcp));
    }
    if !n.tailOk {
      return Err(BadField);
    }
    return Ok(filled);
  }

  /**
   * The validator accepts exactly the non-empty documents of sound, pairwise separate networks, hands
   * them back with defaults filled in, and otherwise names the first network that cannot join those
   * before it.
   */
  method ValidateNetworks(doc: Document) returns (r: Result<Document, Refusal>)
    ensures r.Ok? <==> doc != [] && Acceptable(doc)
    ensures r.Ok? ==> r.value == FillAll(doc)
    ensures r.Err? && doc != [] ==>
              r.error.index < |doc| && Acceptable(doc[..r.error.index]) && !Acceptable(doc[..r.error.index + 1])
  {
    if doc == [] {
      return Err(Refusal(0, NoNetworks));
    }
    var seenVlans: set<int> := {};
    var seenSubnets: seq<Subnet> := [];
    var out: Document := [];
    for i := 0 to |doc|
      invariant Acceptable(doc[..i]) && TablesFor(seenVlans, seenSubnets, doc[..i])
      invariant |out| == i && forall k | 0 <= k < i :: out[k] == Fill(doc[k])
    {
      var n := doc[i];
      JoinsIff(doc[..i], n, seenVlans, seenSubnets);
      assert doc[..i + 1] == doc[..i] + [n];
      var one := ValidateOne(n, seenVlans, seenSubnets);
      if one.Err? {
        AcceptablePrefix(doc, i + 1);
        return Err(Refusal(i, one.error));
      }
      TablesNext(seenVlans, seenSubnets, doc[..i], n);
      if n.vlan.Some? {
        seenVlans := seenVlans + {n.vlan.value};
      }
      if n.subnet.Cidr? {
        seenSubnets := seenSubnets + [Space(n)];
      }
      out := out + [one.value];
    }
    assert doc[..|doc|] == doc;
    return Ok(out);
  }

  lemma AcceptablePrefix(doc: Document, k: nat)
    requires k <= |doc|
    ensures Acceptable(doc) ==> Acceptable(doc[..k])
  {
  }

  lemma TablesNext(seenVlans: set<int>, seenSubnets: seq<Subnet>, doc: Document, n: Network)
    requires TablesFor(seenVlans, seenSubnets, doc) && NetworkOk(n)
    ensures TablesFor(if n.vlan.Some? then seenVlans + {n.vlan.value} else seenVlans,
                      if n.subnet.Cidr? then seenSubnets + [Space(n)] else seenSubnets, doc + [n])
  {
    var more := doc + [n];
    var vlans := if n.vlan.Some? then seenVlans + {n.vlan.value} else seenVlans;
    var subnets := if n.subnet.Cidr? then seenSubnets + [Space(n)] else seenSubnets;
    assert more[|doc|] == n;
    forall v ensures v in vlans <==> exists j :: 0 <= j < |more| && more[j].vlan == Some(v) {
      if v in seenVlans {
        var j :| 0 <= j < |doc| && doc[j].vlan == Some(v);
        assert more[j].vlan == Some(v);
      }
      if j :| 0 <= j < |more| && more[j].vlan == Some(v) {
        if j < |doc| { assert doc[j].vlan == Some(v); }
      }
    }
    forall s | s in subnets
      ensures s.size >= 1 && exists j :: 0 <= j < |more| && HasSubnet(more[j]) && Space(more[j]) == s
    {
      if s in seenSubnets {
        var j :| 0 <= j < |doc| && HasSubnet(doc[j]) && Space(doc[j]) == s;
        assert more[j] == doc[j];
      } else {
        assert HasSubnet(more[|doc|]) && Space(more[|doc|]) == s;
      }
    }
    forall j | 0 <= j < |more| && HasSubnet(more[j]) ensures Space(more[j]) in subnets {
      if j < |doc| { assert more[j] == doc[j]; }
    }
  }

  /** Validating what the validator handed back changes nothing more. */
  lemma FillIdempotent(doc: Document)
    ensures FillAll(FillAll(doc)) == FillAll(doc)
    ensures Acceptable(doc) ==> Acceptable(FillAll(doc))
  {
    var filled := FillAll(doc);
    assert forall i | 0 <= i < |doc| :: Fill(Fill(doc[i])) == Fill(doc[i]);
    if Acceptable(doc) {
      forall i | 0 <= i < |doc| ensures NetworkOk(filled[i]) {
        assert NetworkOk(doc[i]);
      }
      forall i, j | 0 <= i < j < |doc| ensures Apart(filled[i], filled[j]) {
        assert Apart(doc[i], doc[j]);
      }
    }
  }

  // ------------------------------------------------------- client lookups

  /** The first network in document order whose subnet holds the address. */
  function Resolve(doc: Document, address: nat): Option<string> {
    if doc == [] then None
    else if HasSubnet(doc[0]) && In(address, Space(doc[0])) then Some(doc[0].id)
    else Resolve(doc[1..], address)
  }

  /** The database's loop over its subnet index. */
  method ResolveClient(doc: Document, address: nat) returns (network: Option<string>)
    ensures network == Resolve(doc, address)
  {
    var index: seq<(Subnet, string)> := [];
    for i := 0 to |doc|
      invariant FirstMatch(index, address) == Resolve(doc[..i], address)
    {
      ResolveAppend(doc[..i], doc[i], address);
      assert doc[..i + 1] == doc[..i] + [doc[i]];
      if HasSubnet(doc[i]) {
        FirstMatchAppend(index, (Space(doc[i]), doc[i].id), address);
        index := index + [(Space(doc[i]), doc[i].id)];
      }
    }
    assert doc[..|doc|] == doc;
    network := None;
    var i := 0;
    while i < |index|
      invariant 0 <= i <= |index| && network.None?
      invariant FirstMatch(index[i..], address) == FirstMatch(index, address)
    {
      if In(address, index[i].0) {
        return Some(index[i].1);
      }
      assert index[i..][1..] == index[i + 1..];
      i := i + 1;
    }
  }

  function FirstMatch(index: seq<(Subnet, string)>, address: nat): Option<string> {
    if index == [] then None
    else if In(address, index[0].0) then Some(index[0].1)
    else FirstMatch(index[1..], address)
  }

  lemma {:induction false} FirstMatchAppend(index: seq<(Subnet, string)>, e: (Subnet, string), address: nat)
    ensures FirstMatch(index + [e], address) ==
            if FirstMatch(index, address).Some? then FirstMatch(index, address)
            else if In(address, e.0) then Some(e.1)
            else None
  {
    if index == [] {
      assert (index + [e])[1..] == [];
    } else {
      assert (index + [e])[1..] == index[1..] + [e];
      FirstMatchAppend(index[1..], e, address);
    }
  }

  lemma {:induction false} ResolveAppend(doc: Document, n: Network, address: nat)
    ensures Resolve(doc + [n], address) ==
            if Resolve(doc, address).Some? then Resolve(doc, address)
            else if HasSubnet(n) && In(address, Space(n)) then Some(n.id) else None
  {
    if doc == [] {
      assert (doc + [n])[1..] == [];
    } else {
      assert (doc + [n])[1..] == doc[1..] + [n];
      ResolveAppend(doc[1..], n, address);
    }
  }

  lemma {:induction false} ResolveFinds(doc: Document, address: nat)
    ensures Resolve(doc, address).Some? <==> exists n :: n in doc && HasSubnet(n) && In(address, Space(n))
    ensures Resolve(doc, address).Some? ==>
              exists n :: n in doc && HasSubnet(n) && In(address, Space(n)) && Resolve(doc, address) == Some(n.id)
  {
    if doc != [] {
      ResolveFinds(doc[1..], address);
      assert doc == [doc[0]] + doc[1..];
      assert doc[0] in doc;
    }
  }

  lemma ApartEitherWay(doc: Document, i: nat, j: nat)
    requires AllApart(doc) && i < |doc| && j < |doc| && i != j && HasSubnet(doc[i]) && HasSubnet(doc[j])
    ensures !ShareAddress(Space(doc[i]), Space(doc[j]))
  {
    if i < j {
      assert Apart(doc[i], doc[j]);
    } else {
      assert Apart(doc[j], doc[i]);
    }
  }

  lemma OnlyOneHolds(doc: Document, a: Network, b: Network, address: nat)
    requires Acceptable(doc) && a in doc && b in doc
    requires HasSubnet(a) && HasSubnet(b) && In(address, Space(a)) && In(address, Space(b))
    ensures a == b
  {
    var i :| 0 <= i < |doc| && doc[i] == a;
    var j :| 0 <= j < |doc| && doc[j] == b;
    assert ShareAddress(Space(a), Space(b));
    if i != j { ApartEitherWay(doc, i, j); }
  }

  /** In an accepted document an address means the same network whatever the order the networks come in. */
  lemma ResolveIgnoresOrder(doc: Document, reordered: Document, address: nat)
    requires Acceptable(doc)
    requires forall n :: n in doc <==> n in reordered
    ensures Resolve(doc, address) == Resolve(reordered, address)
  {
    ResolveFinds(doc, address);
    ResolveFinds(reordered, address);
    if Resolve(doc, address).Some? {
      var a :| a in doc && HasSubnet(a) && In(address, Space(a)) && Resolve(doc, address) == Some(a.id);
      assert a in reordered;
      var b :| b in reordered && HasSubnet(b) && In(address, Space(b)) && Resolve(reordered, address) == Some(b.id);
      OnlyOneHolds(doc, a, b, address);
    }
  }

  /** Without that, order matters: two networks sharing an address answer differently in the two orders. */
  lemma SharingMakesOrderMatter(a: Network, b: Network, address: nat)
    requires HasSubnet(a) && HasSubnet(b) && a.id != b.id
    ensures Resolve([a, b], address) != Resolve([b, a], address) <==> In(address, Space(a)) && In(address, Space(b))
  {
    assert [a, b][1..] == [b] && [b, a][1..] == [a];
    assert [a][1..] == [] && [b][1..] == [];
  }

  /**
   * Every address of an accepted network's enabled pool lies in its subnet, is not the gateway's, and
   * resolves to that network in every order of the document.
   */
  lemma PoolResolvesToItsNetwork(doc: Document, reordered: Document, n: Network, address: nat)
    requires Acceptable(doc) && n in doc
    requires forall m :: m in doc <==> m in reordered
    requires HasSubnet(n) && n.dhcp.Some? && Enabled(n.dhcp.value)
    requires n.dhcp.value.start.Address? && n.dhcp.value.end.Address?
    requires n.dhcp.value.start.value <= address <= n.dhcp.value.end.value
    ensures In(address, Space(n)) && address != n.subnet.iface.ip
    ensures Resolve(reordered, address) == Some(n.id)
  {
    var i :| 0 <= i < |doc| && doc[i] == n;
    assert NetworkOk(doc[i]);
    ResolveFinds(reordered, address);
    assert n in reordered;
    var m :| m in reordered && HasSubnet(m) && In(address, Space(m)) && Resolve(reordered, address) == Some(m.id);
    OnlyOneHolds(doc, n, m, address);
  }

  /** So does every reserved address of an enabled section. */
  lemma ReservationsResolve(doc: Document, reordered: Document, n: Network, r: Reservation)
    requires Acceptable(doc) && n in doc
    requires forall m :: m in doc <==> m in reordered
    requires HasSubnet(n) && n.dhcp.Some? && Enabled(n.dhcp.value) && r in n.dhcp.value.reservations
    ensures r.macOk && r.address.Address? && In(r.address.value, Space(n))
    ensures Resolve(reordered, r.address.value) == Some(n.id)
  {
    var i :| 0 <= i < |doc| && doc[i] == n;
    assert NetworkOk(doc[i]);
    var address := r.address.value;
    ResolveFinds(reordered, address);
    assert n in reordered;
    var m :| m in reordered && HasSubnet(m) && In(address, Space(m)) && Resolve(reordered, address) == Some(m.id);
    OnlyOneHolds(doc, n, m, address);
  }

  function WithDhcp(doc: Document, i: nat, d: Dhcp): Document
    requires i < |doc|
  {
    doc[i := doc[i].(dhcp := Some(d))]
  }

  /** In an accepted document, a network's DHCP section is not looked at if and only if the network has no subnet. */
  lemma DhcpIsUncheckedIff(doc: Document, i: nat)
    requires Acceptable(doc) && i < |doc|
    ensures (forall d: Dhcp :: Acceptable(WithDhcp(doc, i, d))) <==> !HasSubnet(doc[i])
  {
    if HasSubnet(doc[i]) {
      var open := Dhcp(Some(true), Missing, Missing, None, []);
      assert WithDhcp(doc, i, open)[i].dhcp == Some(open);
      assert !NetworkOk(WithDhcp(doc, i, open)[i]);
      assert !Acceptable(WithDhcp(doc, i, open));
    } else {
      forall d: Dhcp ensures Acceptable(WithDhcp(doc, i, d)) {
        WithoutSubnetAnyDhcp(doc, i, d);
      }
    }
  }

  lemma WithoutSubnetAnyDhcp(doc: Document, i: nat, d: Dhcp)
    requires Acceptable(doc) && i < |doc| && !HasSubnet(doc[i])
    ensures Acceptable(WithDhcp(doc, i, d))
  {
    var next := WithDhcp(doc, i, d);
    forall j | 0 <= j < |next| ensures NetworkOk(next[j]) {
      assert NetworkOk(doc[j]);
    }
    forall j, k | 0 <= j < k < |next| ensures Apart(next[j], next[k]) {
      assert Apart(doc[j], doc[k]);
    }
  }

  /** The pool a network has enabled is not empty, lies in a subnet of its own and leaves the gateway out. */
  predicate PoolInside(n: Network) {
    && n.dhcp.Some? && HasSubnet(n) && n.dhcp.value.start.Address? && n.dhcp.value.end.Address?
    && In(n.dhcp.value.start.value, Space(n)) && In(n.dhcp.value.end.value, Space(n))
    && n.dhcp.value.start.value <= n.dhcp.value.end.value
    && !(n.dhcp.value.start.value <= n.subnet.iface.ip <= n.dhcp.value.end.value)
  }

  predicate ServesDhcp(n: Network) {
    n.dhcp.Some? && Enabled(n.dhcp.value)
  }

  /**
   * Every enabled pool of an accepted document is inside its subnet if and only if none is enabled without a
   * subnet.
   */
  lemma PoolsAreInsideIff(doc: Document)
    requires Acceptable(doc)
    ensures (forall n | n in doc && ServesDhcp(n) :: PoolInside(n)) <==>
            (forall n | n in doc && ServesDhcp(n) :: HasSubnet(n))
  {
    forall n | n in doc && ServesDhcp(n) && HasSubnet(n) ensures PoolInside(n) {
      var i :| 0 <= i < |doc| && doc[i] == n;
      assert NetworkOk(doc[i]);
    }
  }

  /** One that is enabled without a subnet, and accepted: no pool at all. */
  lemma DhcpWithoutSubnetIsAccepted(id: string)
    ensures var n := Network(id, true, None, NoSubnet, Some(Dhcp(Some(true), Missing, Missing, None, [])), true);
            Acceptable([n]) && ServesDhcp(n) && !PoolInside(n)
  {
  }
}
