/**
 * On which radios plans can lose a BSS to another one of the same name, or give two BSSes one address: the exact
 * conditions, on what the radios are called and report, over every configuration and slot map.
 */
module BssClashes {
  import opened MacAddresses
  import opened InterfaceNames
  import opened BssSlots
  import opened BssPlan
  import opened BssOrdinals
  import opened BssPlacing
  import opened BssPlanProofs

  // --------------------------------------- a plan for two places of the radios

  /** An enabled network for the radio's band alone. */
  function NetworkOn(radios: Radios, radio: string): Network {
    Network(true, if radio in radios && radios[radio].band.Some? then {radios[radio].band.value} else {}, false)
  }

  /** Two networks, each for the band of one of two radios; all other radios are switched off. */
  function TwoNetworks(radios: Radios, r: string, q: string): WifiConfig {
    WifiConfig(map["x" := NetworkOn(radios, r), "y" := NetworkOn(radios, q)], radios.Keys - {r, q}, map[])
  }

  function LimitOf(radios: Radios, radio: string): int {
    if radio in radios then radios[radio].maxApBss else 0
  }

  /**
   * A slot map that holds the first network on one place and the second on the other. On the other's radio each of
   * them is recorded at the limit, so that it is refused there.
   */
  function TwoSlots(radios: Radios, r: string, m: int, q: string, n: int): SlotMap {
    if r == q then map[r := map["x" := m, "y" := n]]
    else map[r := map["x" := m, "y" := LimitOf(radios, r)], q := map["y" := n, "x" := LimitOf(radios, q)]]
  }

  predicate TwoPlaces(radios: Radios, r: string, m: int, q: string, n: int) {
    Usable(radios, r, m) && Usable(radios, q, n) && (r != q || m != n)
  }

  lemma TwoSlotsInjective(radios: Radios, r: string, m: int, q: string, n: int)
    requires TwoPlaces(radios, r, m, q, n)
    ensures Injective(TwoSlots(radios, r, m, q, n))
  {
  }

  /** Both networks are on their places after planning. */
  lemma BothHold(radios: Radios, r: string, m: int, q: string, n: int)
    requires TwoPlaces(radios, r, m, q, n)
    ensures var slots, cfg := TwoSlots(radios, r, m, q, n), TwoNetworks(radios, r, q);
            var after := PlaceFor(slots, cfg, radios).slots;
            && Injective(slots)
            && ShouldBePlaced(slots, cfg, radios, ("x", r)) && SlotsOf(after, r)["x"] == m
            && ShouldBePlaced(slots, cfg, radios, ("y", q)) && SlotsOf(after, q)["y"] == n
  {
    var slots, cfg := TwoSlots(radios, r, m, q, n), TwoNetworks(radios, r, q);
    TwoSlotsInjective(radios, r, m, q, n);
    HeldSlotHolds(slots, cfg, radios, "x", r);
    HeldSlotHolds(slots, cfg, radios, "y", q);
  }

  /** A network of the other radio is refused on this one. */
  lemma GuestIsRefused(radios: Radios, r: string, m: int, q: string, n: int, pair: Pair)
    requires TwoPlaces(radios, r, m, q, n) && r != q && (pair == ("y", r) || pair == ("x", q))
    requires Eligible(ContextOf(TwoNetworks(radios, r, q), radios), pair)
    ensures !ShouldBePlaced(TwoSlots(radios, r, m, q, n), TwoNetworks(radios, r, q), radios, pair)
  {
    TwoSlotsInjective(radios, r, m, q, n);
    HeldTooHighIsRefused(TwoSlots(radios, r, m, q, n), TwoNetworks(radios, r, q), radios, pair.0, pair.1);
  }

  lemma EligibleIsOfTheTwo(radios: Radios, r: string, q: string, pair: Pair)
    requires Eligible(ContextOf(TwoNetworks(radios, r, q), radios), pair)
    ensures (pair.0 == "x" || pair.0 == "y") && (pair.1 == r || pair.1 == q)
  {
    assert pair.0 in {"x", "y"} && pair.1 in {r, q};
  }

  /** And nothing else is. */
  lemma NoOtherHolds(radios: Radios, r: string, m: int, q: string, n: int, pair: Pair)
    requires TwoPlaces(radios, r, m, q, n)
    requires ShouldBePlaced(TwoSlots(radios, r, m, q, n), TwoNetworks(radios, r, q), radios, pair)
    ensures pair == ("x", r) || pair == ("y", q)
  {
    EligibleIsOfTheTwo(radios, r, q, pair);
    if r != q && (pair == ("y", r) || pair == ("x", q)) {
      GuestIsRefused(radios, r, m, q, n, pair);
    }
  }

  // ------------------------------------------------------ overwritten by name

  ghost predicate PlacesExactly(slots: SlotMap, cfg: WifiConfig, radios: Radios) {
    forall w, r :: InPlan(PlanFor(slots, cfg, radios), w, r) <==> ShouldBePlaced(slots, cfg, radios, (w, r))
  }

  /** Two places of one name: both networks hold their slots and one of the two BSSes is missing. */
  lemma OneNameLosesABss(radios: Radios, r: string, m: int, q: string, n: int)
    requires TwoPlaces(radios, r, m, q, n) && IfaceName(r, m) == IfaceName(q, n)
    ensures var slots, cfg := TwoSlots(radios, r, m, q, n), TwoNetworks(radios, r, q);
            var plan := PlanFor(slots, cfg, radios);
            && Injective(slots)
            && ShouldBePlaced(slots, cfg, radios, ("x", r)) && ShouldBePlaced(slots, cfg, radios, ("y", q))
            && !(InPlan(plan, "x", r) && InPlan(plan, "y", q))
  {
    BothHold(radios, r, m, q, n);
    ClashingPairsAreNotBothPlaced(TwoSlots(radios, r, m, q, n), TwoNetworks(radios, r, q), radios,
                                  ("x", r), ("y", q));
  }

  /**
   * Every plan for these radios places exactly what should be placed, over all configurations and slot maps, if
   * and only if no two usable places of theirs get one name.
   */
  lemma NothingIsOverwrittenIff(radios: Radios)
    ensures (forall slots, cfg | Injective(slots) :: PlacesExactly(slots, cfg, radios)) <==> RadioNamesApart(radios)
  {
    if RadioNamesApart(radios) {
      forall slots, cfg | Injective(slots) ensures PlacesExactly(slots, cfg, radios) {
        RadioNamesApartSuffices(slots, cfg, radios);
        PlacesExactlyIffNamesApart(slots, cfg, radios);
      }
    } else {
      var r, m, q, n :|
        Usable(radios, r, m) && Usable(radios, q, n) && IfaceName(r, m) == IfaceName(q, n) && (r != q || m != n);
      OneNameLosesABss(radios, r, m, q, n);
      assert !PlacesExactly(TwoSlots(radios, r, m, q, n), TwoNetworks(radios, r, q), radios);
    }
  }

  /** It happens: slot twenty of the first 5 GHz radio and slot zero of the second. */
  lemma SlotTwentyIsOverwritten(radios: Radios, r: string, q: string)
    requires r == "radio-5g" && q == "radio-5g-2" && Usable(radios, r, 20) && Usable(radios, q, 0)
    ensures var slots, cfg := TwoSlots(radios, r, 20, q, 0), TwoNetworks(radios, r, q);
            var plan := PlanFor(slots, cfg, radios);
            && Injective(slots)
            && ShouldBePlaced(slots, cfg, radios, ("x", r)) && ShouldBePlaced(slots, cfg, radios, ("y", q))
            && !(InPlan(plan, "x", r) && InPlan(plan, "y", q))
  {
    HighSlotsCollide();
    OneNameLosesABss(radios, r, 20, q, 0);
  }

  // --------------------------------------------------------- one BSSID for two

  ghost predicate BssidsApart(plan: Plan) {
    forall n, m | n in plan.bsses && m in plan.bsses && n != m :: plan.bsses[n].bssid != plan.bsses[m].bssid
  }

  /** The two places derive one BSSID. */
  predicate PlacesClash(radios: Radios, r: string, m: int, q: string, n: int) {
    Clash(AddressOf(radios, r), m, OrdinalOf(radios, r), AddressOf(radios, q), n, OrdinalOf(radios, q))
  }

  /** No two usable places of different names derive one BSSID. */
  ghost predicate RadioBssidsApart(radios: Radios) {
    forall r, m, q, n | Usable(radios, r, m) && Usable(radios, q, n) && IfaceName(r, m) != IfaceName(q, n) ::
      !PlacesClash(radios, r, m, q, n)
  }

  /** Two places of different names: both networks are in the plan, and on one BSSID if the places clash. */
  lemma BothArePlaced(radios: Radios, r: string, m: int, q: string, n: int)
    requires TwoPlaces(radios, r, m, q, n) && IfaceName(r, m) != IfaceName(q, n)
    ensures var slots, cfg := TwoSlots(radios, r, m, q, n), TwoNetworks(radios, r, q);
            var bsses := PlanFor(slots, cfg, radios).bsses;
            && Injective(slots)
            && IfaceName(r, m) in bsses && IfaceName(q, n) in bsses
            && (bsses[IfaceName(r, m)].bssid == bsses[IfaceName(q, n)].bssid <==> PlacesClash(radios, r, m, q, n))
  {
    var slots, cfg := TwoSlots(radios, r, m, q, n), TwoNetworks(radios, r, q);
    BothHold(radios, r, m, q, n);
    NamesApartForTwo(radios, r, m, q, n);
    PlacedUnderName(slots, cfg, radios, "x", r);
    PlacedUnderName(slots, cfg, radios, "y", q);
    PlanBssidsCollideIff(slots, cfg, radios, IfaceName(r, m), IfaceName(q, n));
  }

  lemma NamesApartForTwo(radios: Radios, r: string, m: int, q: string, n: int)
    requires TwoPlaces(radios, r, m, q, n) && IfaceName(r, m) != IfaceName(q, n)
    ensures PlanNamesApart(TwoSlots(radios, r, m, q, n), TwoNetworks(radios, r, q), radios)
  {
    var slots, cfg := TwoSlots(radios, r, m, q, n), TwoNetworks(radios, r, q);
    BothHold(radios, r, m, q, n);
    forall a: Pair | ShouldBePlaced(slots, cfg, radios, a) ensures a == ("x", r) || a == ("y", q) {
      NoOtherHolds(radios, r, m, q, n, a);
    }
    TwoNamesApart(slots, cfg, radios, ("x", r), ("y", q));
  }

  lemma TwoNamesApart(slots: SlotMap, cfg: WifiConfig, radios: Radios, a: Pair, b: Pair)
    requires forall pair: Pair | ShouldBePlaced(slots, cfg, radios, pair) :: pair == a || pair == b
    requires NameOf(PlaceFor(slots, cfg, radios).slots, a) != NameOf(PlaceFor(slots, cfg, radios).slots, b)
    ensures PlanNamesApart(slots, cfg, radios)
  {
    var ctx, after := ContextOf(cfg, radios), PlaceFor(slots, cfg, radios).slots;
    assert forall pair: Pair :: ShouldBePlaced(slots, cfg, radios, pair) <==> Holds(ctx, after, pair);
  }

  /** When names are apart, a pair that holds a slot is in the table under its name, on its radio and slot. */
  lemma PlacedUnderName(slots: SlotMap, cfg: WifiConfig, radios: Radios, w: string, r: string)
    requires Injective(slots) && PlanNamesApart(slots, cfg, radios) && ShouldBePlaced(slots, cfg, radios, (w, r))
    ensures var bsses := PlanFor(slots, cfg, radios).bsses;
            var slot := SlotsOf(PlaceFor(slots, cfg, radios).slots, r)[w];
            && IfaceName(r, slot) in bsses
            && bsses[IfaceName(r, slot)].radio == r && bsses[IfaceName(r, slot)].network == w
            && bsses[IfaceName(r, slot)].slot == slot
  {
    PlanPlacesExactly(slots, cfg, radios, w, r);
    PlaceForEntries(slots, cfg, radios);
    var bsses := PlanFor(slots, cfg, radios).bsses;
    var n :| n in bsses && bsses[n].network == w && bsses[n].radio == r;
    assert EntryOk(ContextOf(cfg, radios), PlaceFor(slots, cfg, radios).slots, bsses[n]);
  }

  /**
   * All BSSIDs of every plan for these radios are distinct, over all configurations and slot maps, if and only if
   * no two usable places of different names derive one.
   */
  lemma BssidsAreDistinctIff(radios: Radios)
    ensures (forall slots, cfg | Injective(slots) :: BssidsApart(PlanFor(slots, cfg, radios))) <==>
            RadioBssidsApart(radios)
  {
    if RadioBssidsApart(radios) {
      forall slots, cfg | Injective(slots) ensures BssidsApart(PlanFor(slots, cfg, radios)) {
        RadioBssidsApartSuffices(slots, cfg, radios);
      }
    } else {
      var r, m, q, n :|
        Usable(radios, r, m) && Usable(radios, q, n) && IfaceName(r, m) != IfaceName(q, n)
        && PlacesClash(radios, r, m, q, n);
      BothArePlaced(radios, r, m, q, n);
      assert !BssidsApart(PlanFor(TwoSlots(radios, r, m, q, n), TwoNetworks(radios, r, q), radios));
    }
  }

  lemma RadioBssidsApartSuffices(slots: SlotMap, cfg: WifiConfig, radios: Radios)
    requires Injective(slots) && RadioBssidsApart(radios)
    ensures BssidsApart(PlanFor(slots, cfg, radios))
  {
    var plan := PlanFor(slots, cfg, radios);
    forall n, m | n in plan.bsses && m in plan.bsses && n != m ensures plan.bsses[n].bssid != plan.bsses[m].bssid {
      EntryIsUsable(slots, cfg, radios, n);
      EntryIsUsable(slots, cfg, radios, m);
      PlanBssidsCollideIff(slots, cfg, radios, n, m);
      var a, b := plan.bsses[n], plan.bsses[m];
      assert !PlacesClash(radios, a.radio, a.slot, b.radio, b.slot);
    }
  }

  lemma EntryIsUsable(slots: SlotMap, cfg: WifiConfig, radios: Radios, n: string)
    requires Injective(slots)
    ensures var bsses := PlanFor(slots, cfg, radios).bsses;
            n in bsses ==>
              Usable(radios, bsses[n].radio, bsses[n].slot) && n == IfaceName(bsses[n].radio, bsses[n].slot)
  {
    PlanEntry(slots, cfg, radios, n);
  }

  /** The radios are two, with addresses three apart in the last octet. */
  ghost predicate ThreeApart(radios: Radios, r: string, q: string) {
    && r != q && radios.Keys == {r, q} && WellNamed(r) && WellNamed(q)
    && Usable(radios, r, 3) && Usable(radios, q, 0)
    && AddressOf(radios, r)[5] < 253
    && AddressOf(radios, q) == AddressOf(radios, r)[5 := AddressOf(radios, r)[5] + 3]
  }

  /** It happens: a network on slot three of the one and a network on slot zero of the other share their BSSID. */
  lemma NeighbouringRadiosShareABssid(radios: Radios, r: string, q: string)
    requires ThreeApart(radios, r, q)
    ensures var bsses := PlanFor(TwoSlots(radios, r, 3, q, 0), TwoNetworks(radios, r, q), radios).bsses;
            && IfaceName(r, 3) in bsses && IfaceName(q, 0) in bsses && IfaceName(r, 3) != IfaceName(q, 0)
            && bsses[IfaceName(r, 3)].bssid == bsses[IfaceName(q, 0)].bssid
  {
    var mac := AddressOf(radios, r);
    OrdinalIsCount(radios, r);
    OrdinalIsCount(radios, q);
    assert Before(radios, r) == {} && Before(radios, q) == {};
    NeighbouringMacsCollide(mac);
    BssidsCollideIff(mac, 3, 0, AddressOf(radios, q), 0, 0);
    NamesInjective(r, 3, q, 0);
    BothArePlaced(radios, r, 3, q, 0);
  }
}
