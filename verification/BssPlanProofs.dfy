/** What every plan of `BssPlan` guarantees. */
module BssPlanProofs {
  import opened MacAddresses
  import opened InterfaceNames
  import opened BssSlots
  import opened BssPlan
  import opened BssOrdinals
  import opened BssPlacing

  // ------------------------------------------------------- what is placed

  ghost predicate InPlan(plan: Plan, network: string, radio: string) {
    exists n :: n in plan.bsses && plan.bsses[n].network == network && plan.bsses[n].radio == radio
  }

  /** No two pairs that hold a slot once the plan is made get one netdev name. */
  ghost predicate PlanNamesApart(slots: SlotMap, cfg: WifiConfig, radios: Radios) {
    NamesApart(ContextOf(cfg, radios), PlaceFor(slots, cfg, radios).slots)
  }

  /**
   * A pair that holds a slot under its radio's limit: an enabled network on an enabled AP-capable radio of its
   * bands.
   */
  predicate ShouldBePlaced(slots: SlotMap, cfg: WifiConfig, radios: Radios, pair: Pair) {
    Holds(ContextOf(cfg, radios), PlaceFor(slots, cfg, radios).slots, pair)
  }

  /**
   * Whatever the radios are called, the pairs a plan refuses are exactly the eligible ones without a slot. Such
   * a pair either holds a slot at or above the radio's limit, or found every slot below it taken.
   */
  lemma PlanRefusesExactly(slots: SlotMap, cfg: WifiConfig, radios: Radios, network: string, radio: string)
    requires Injective(slots)
    ensures var plan := PlanFor(slots, cfg, radios);
            var after := PlaceFor(slots, cfg, radios).slots;
            && ((network, radio) in plan.refused <==>
                  && Eligible(ContextOf(cfg, radios), (network, radio))
                  && !ShouldBePlaced(slots, cfg, radios, (network, radio)))
            && ((network, radio) in plan.refused && network !in SlotsOf(after, radio) ==>
                  AllUsed(SlotsOf(after, radio), radios[radio].maxApBss))
  {
    PlaceForRefusals(slots, cfg, radios);
    assert RefusalOk(ContextOf(cfg, radios), PlaceFor(slots, cfg, radios), Visits(cfg, radios), (network, radio));
  }

  /** An eligible pair that comes with a slot below its radio's limit leaves with that slot, and should be placed. */
  lemma HeldSlotHolds(slots: SlotMap, cfg: WifiConfig, radios: Radios, network: string, radio: string)
    requires Injective(slots) && Eligible(ContextOf(cfg, radios), (network, radio))
    requires network in SlotsOf(slots, radio) && SlotsOf(slots, radio)[network] < radios[radio].maxApBss
    ensures ShouldBePlaced(slots, cfg, radios, (network, radio))
    ensures SlotsOf(PlaceFor(slots, cfg, radios).slots, radio)[network] == SlotsOf(slots, radio)[network]
  {
    PlanKeepsLiveSlot(slots, cfg, radios, network, radio);
  }

  /** One that comes with a slot at or above the limit does not. */
  lemma HeldTooHighIsRefused(slots: SlotMap, cfg: WifiConfig, radios: Radios, network: string, radio: string)
    requires Injective(slots) && Eligible(ContextOf(cfg, radios), (network, radio))
    requires network in SlotsOf(slots, radio) && SlotsOf(slots, radio)[network] >= radios[radio].maxApBss
    ensures !ShouldBePlaced(slots, cfg, radios, (network, radio))
    ensures (network, radio) in PlanFor(slots, cfg, radios).refused
  {
    PlanKeepsLiveSlot(slots, cfg, radios, network, radio);
    PlanRefusesExactly(slots, cfg, radios, network, radio);
  }

  /**
   * When names are apart a plan places exactly the pairs that hold a slot, and so every eligible pair is either
   * placed or refused.
   */
  lemma PlanPlacesExactly(slots: SlotMap, cfg: WifiConfig, radios: Radios, network: string, radio: string)
    requires Injective(slots) && PlanNamesApart(slots, cfg, radios)
    ensures var plan := PlanFor(slots, cfg, radios);
            && (InPlan(plan, network, radio) <==> ShouldBePlaced(slots, cfg, radios, (network, radio)))
            && (Eligible(ContextOf(cfg, radios), (network, radio)) <==>
                  InPlan(plan, network, radio) || (network, radio) in plan.refused)
            && !(InPlan(plan, network, radio) && (network, radio) in plan.refused)
  {
    PlaceForOk(slots, cfg, radios);
    PlanRefusesExactly(slots, cfg, radios, network, radio);
    var p := PlaceFor(slots, cfg, radios);
    var ctx := ContextOf(cfg, radios);
    assert InPlan(PlanFor(slots, cfg, radios), network, radio) <==> Placed(p, (network, radio));
    if Eligible(ctx, (network, radio)) {
      assert PairOk(ctx, p, (network, radio));
    }
  }

  /** Of two pairs that hold slots under one name, at most one is in the plan. */
  lemma ClashingPairsAreNotBothPlaced(slots: SlotMap, cfg: WifiConfig, radios: Radios, a: Pair, b: Pair)
    requires Injective(slots) && a != b
    ensures var plan := PlanFor(slots, cfg, radios);
            var after := PlaceFor(slots, cfg, radios).slots;
            NameOf(after, a) == NameOf(after, b) ==> !(InPlan(plan, a.0, a.1) && InPlan(plan, b.0, b.1))
  {
    PlaceForEntries(slots, cfg, radios);
    var bsses := PlanFor(slots, cfg, radios).bsses;
    var after := PlaceFor(slots, cfg, radios).slots;
    forall n | n in bsses ensures n == NameOf(after, (bsses[n].network, bsses[n].radio)) {
      assert EntryOk(ContextOf(cfg, radios), after, bsses[n]);
    }
  }

  /** So a plan places exactly the pairs that hold a slot if and only if their names are apart. */
  lemma PlacesExactlyIffNamesApart(slots: SlotMap, cfg: WifiConfig, radios: Radios)
    requires Injective(slots)
    ensures (forall w, r :: InPlan(PlanFor(slots, cfg, radios), w, r) <==> ShouldBePlaced(slots, cfg, radios, (w, r)))
       <==> PlanNamesApart(slots, cfg, radios)
  {
    var plan := PlanFor(slots, cfg, radios);
    if PlanNamesApart(slots, cfg, radios) {
      forall w, r ensures InPlan(plan, w, r) <==> ShouldBePlaced(slots, cfg, radios, (w, r)) {
        PlanPlacesExactly(slots, cfg, radios, w, r);
      }
    } else {
      var ctx, after := ContextOf(cfg, radios), PlaceFor(slots, cfg, radios).slots;
      var a: Pair, b: Pair :|
        Holds(ctx, after, a) && Holds(ctx, after, b) && NameOf(after, a) == NameOf(after, b) && a != b;
      ClashingPairsAreNotBothPlaced(slots, cfg, radios, a, b);
      assert ShouldBePlaced(slots, cfg, radios, (a.0, a.1)) && ShouldBePlaced(slots, cfg, radios, (b.0, b.1));
    }
  }

  /** A radio that can host access points, and a slot below its limit. */
  predicate Usable(radios: Radios, radio: string, slot: int) {
    && radio in radios && radios[radio].apSupported && radios[radio].band.Some?
    && 0 <= slot < radios[radio].maxApBss
  }

  /** No two usable places of these radios get one netdev name. */
  ghost predicate RadioNamesApart(radios: Radios) {
    forall r, m, q, n | Usable(radios, r, m) && Usable(radios, q, n) && IfaceName(r, m) == IfaceName(q, n) ::
      r == q && m == n
  }

  /** On such radios names are apart in every plan. */
  lemma RadioNamesApartSuffices(slots: SlotMap, cfg: WifiConfig, radios: Radios)
    requires Injective(slots) && RadioNamesApart(radios)
    ensures PlanNamesApart(slots, cfg, radios)
  {
    PlaceForEntries(slots, cfg, radios);
    var ctx, after := ContextOf(cfg, radios), PlaceFor(slots, cfg, radios).slots;
    forall a, b | Holds(ctx, after, a) && Holds(ctx, after, b) && NameOf(after, a) == NameOf(after, b) ensures a == b {
      var m, n := SlotsOf(after, a.1)[a.0], SlotsOf(after, b.1)[b.0];
      assert RowInjective(after[a.1]) && RowInjective(after[b.1]);
      assert Usable(radios, a.1, m) && Usable(radios, b.1, n);
    }
  }

  /** Radios as discovery names them, none hosting more BSSes than the address derivation keeps apart. */
  ghost predicate Discovered(radios: Radios) {
    forall r | r in radios :: WellNamed(r) && radios[r].maxApBss <= MAX_SLOTS
  }

  lemma DiscoveredRadiosApart(radios: Radios)
    requires Discovered(radios)
    ensures RadioNamesApart(radios)
  {
    forall r, m, q, n | Usable(radios, r, m) && Usable(radios, q, n) && IfaceName(r, m) == IfaceName(q, n)
      ensures r == q && m == n
    {
      NamesInjective(r, m, q, n);
    }
  }

  lemma DiscoveredNamesApart(slots: SlotMap, cfg: WifiConfig, radios: Radios)
    requires Injective(slots) && Discovered(radios)
    ensures PlanNamesApart(slots, cfg, radios)
  {
    DiscoveredRadiosApart(radios);
    RadioNamesApartSuffices(slots, cfg, radios);
  }

  /**
   * The per-radio lists partition the table: every entry is in one list, at one place, and the lists hold nothing
   * else.
   */
  lemma PlanIsPartition(slots: SlotMap, cfg: WifiConfig, radios: Radios)
    requires Injective(slots) && PlanNamesApart(slots, cfg, radios)
    ensures var plan := PlanFor(slots, cfg, radios);
            && (forall n | n in plan.bsses ::
                  var b := plan.bsses[n]; b.iface == n && b.radio in plan.links && b in plan.links[b.radio])
            && (forall r, i | r in plan.links && 0 <= i < |plan.links[r]| ::
                  var b := plan.links[r][i]; b.radio == r && b.iface in plan.bsses && plan.bsses[b.iface] == b)
            && (forall r, i, q, j | && r in plan.links && 0 <= i < |plan.links[r]|
                                    && q in plan.links && 0 <= j < |plan.links[q]|
                                    && plan.links[r][i].iface == plan.links[q][j].iface :: r == q && i == j)
  {
    PlaceForOk(slots, cfg, radios);
  }

  // ------------------------------------------------------------- entries

  /** Entries are named, addressed and linked by their radio and slot, whatever the radios are called. */
  lemma PlanEntry(slots: SlotMap, cfg: WifiConfig, radios: Radios, n: string)
    requires Injective(slots)
    ensures var bsses := PlanFor(slots, cfg, radios).bsses;
            n in bsses ==>
            var b := bsses[n];
            && b.radio in radios && 0 <= b.slot < radios[b.radio].maxApBss
            && b.iface == n == IfaceName(b.radio, b.slot)
            && b.bssid == Bssid(AddressOf(radios, b.radio), b.slot, OrdinalOf(radios, b.radio))
            && Eligible(ContextOf(cfg, radios), (b.network, b.radio))
            && b == MakeBss(ContextOf(cfg, radios), (b.network, b.radio), b.slot)
  {
    PlaceForEntries(slots, cfg, radios);
    OrdinalsDistinct(radios);
  }

  /** The exact condition under which two entries, on radios of any addresses, get one BSSID. */
  lemma PlanBssidsCollideIff(slots: SlotMap, cfg: WifiConfig, radios: Radios, n: string, m: string)
    requires Injective(slots)
    ensures var bsses := PlanFor(slots, cfg, radios).bsses;
            n in bsses && m in bsses ==>
              var a, b := bsses[n], bsses[m];
              a.bssid == b.bssid <==> Clash(AddressOf(radios, a.radio), a.slot, OrdinalOf(radios, a.radio),
                                            AddressOf(radios, b.radio), b.slot, OrdinalOf(radios, b.radio))
  {
    var bsses := PlanFor(slots, cfg, radios).bsses;
    if n in bsses && m in bsses {
      var a, b := bsses[n], bsses[m];
      PlanEntry(slots, cfg, radios, n);
      PlanEntry(slots, cfg, radios, m);
      BssidsCollideIff(AddressOf(radios, a.radio), a.slot, OrdinalOf(radios, a.radio),
                       AddressOf(radios, b.radio), b.slot, OrdinalOf(radios, b.radio));
    }
  }

  /** Two radios report one address. */
  predicate ShareMac(radios: Radios, r: string, q: string) {
    AddressOf(radios, r) == AddressOf(radios, q)
  }

  /** The radio's ordinal and limit are among those the derivation keeps apart. */
  predicate SmallIndices(radios: Radios, r: string) {
    r in radios && OrdinalOf(radios, r) < 16 && radios[r].maxApBss <= MAX_SLOTS
  }

  /**
   * So on radios of one MAC two entries share a BSSID exactly when their indices agree modulo 256, and never when
   * ordinals and limits are small.
   */
  lemma PlanBssidsDistinct(slots: SlotMap, cfg: WifiConfig, radios: Radios, n: string, m: string)
    requires Injective(slots)
    ensures var bsses := PlanFor(slots, cfg, radios).bsses;
            n in bsses && m in bsses && n != m && ShareMac(radios, bsses[n].radio, bsses[m].radio) ==>
              var a, b := bsses[n], bsses[m];
              && (a.bssid == b.bssid <==>
                    SameIndex(a.slot, OrdinalOf(radios, a.radio), b.slot, OrdinalOf(radios, b.radio)))
              && (SmallIndices(radios, a.radio) && SmallIndices(radios, b.radio) ==> a.bssid != b.bssid)
  {
    var bsses := PlanFor(slots, cfg, radios).bsses;
    if n in bsses && m in bsses && n != m && ShareMac(radios, bsses[n].radio, bsses[m].radio) {
      var a, b := bsses[n], bsses[m];
      var o, q := OrdinalOf(radios, a.radio), OrdinalOf(radios, b.radio);
      PlanEntry(slots, cfg, radios, n);
      PlanEntry(slots, cfg, radios, m);
      OrdinalsDistinct(radios);
      SameMacBssidsIff(AddressOf(radios, a.radio), a.slot, o, b.slot, q);
      if SmallIndices(radios, a.radio) && SmallIndices(radios, b.radio) {
        SameMacBssidsDistinct(AddressOf(radios, a.radio), a.slot, o, b.slot, q);
      }
      assert a.radio != b.radio || a.slot != b.slot;
    }
  }

  /** No entry has an MLD address of its radio's MAC, nor, unless that is local already, the MAC itself. */
  lemma PlanBssidsAvoidOthers(slots: SlotMap, cfg: WifiConfig, radios: Radios, n: string, index: int)
    requires Injective(slots)
    ensures var bsses := PlanFor(slots, cfg, radios).bsses;
            n in bsses ==>
            var mac := AddressOf(radios, bsses[n].radio);
            bsses[n].bssid != MldMac(mac, index) && (!IsLocal(mac) ==> bsses[n].bssid != mac)
  {
    var bsses := PlanFor(slots, cfg, radios).bsses;
    if n in bsses {
      var b := bsses[n];
      PlanEntry(slots, cfg, radios, n);
      BssidIsNotMldMac(AddressOf(radios, b.radio), b.slot, OrdinalOf(radios, b.radio), index);
      BssidIsOwnMacIff(AddressOf(radios, b.radio), b.slot, OrdinalOf(radios, b.radio));
    }
  }

  predicate LinksOfOneMld(a: Bss, b: Bss) {
    a.network == b.network && a.mld.Some? && b.mld.Some?
  }

  /** Two links of one MLD share their netdev exactly when the network holds the same slot on both radios. */
  lemma MldLinksShareNetdevIff(slots: SlotMap, cfg: WifiConfig, radios: Radios, n: string, m: string)
    requires Injective(slots)
    ensures var bsses := PlanFor(slots, cfg, radios).bsses;
            n in bsses && m in bsses && LinksOfOneMld(bsses[n], bsses[m]) ==>
              && bsses[n].mld.value.id == bsses[m].mld.value.id
              && bsses[n].netdev.Some? && bsses[m].netdev.Some?
              && (bsses[n].netdev == bsses[m].netdev <==> bsses[n].slot == bsses[m].slot)
  {
    var bsses := PlanFor(slots, cfg, radios).bsses;
    if n in bsses && m in bsses && LinksOfOneMld(bsses[n], bsses[m]) {
      PlanEntry(slots, cfg, radios, n);
      PlanEntry(slots, cfg, radios, m);
      var mld := Mlds(cfg, radios).byNetwork[bsses[n].network];
      SameRadioNamesInjective(AnchorRadio(mld, radios), bsses[n].slot, bsses[m].slot);
    }
  }
}
