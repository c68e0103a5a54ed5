/** What stays put across plans, while networks and radios come and go. */
module BssStability {
  import opened MacAddresses
  import opened InterfaceNames
  import opened BssSlots
  import opened BssPlan
  import opened BssOrdinals
  import opened BssPlacing
  import opened BssPlanProofs
  import opened BssClashes

  // ------------------------------------------------------------------- slots

  /** A run of the planner: the configurations and the radios found, in turn. */
  type Situation = (WifiConfig, Radios)

  function PlannedSlots(slots: SlotMap, at: Situation): SlotMap {
    PlaceFor(slots, at.0, at.1).slots
  }

  /** The state after a run of steps. */
  function After<S, A>(step: (S, A) -> S, s: S, run: seq<A>): S
    decreases |run|
  {
    if run == [] then s else step(After(step, s, run[..|run| - 1]), run[|run| - 1])
  }

  lemma {:induction false} AfterCons<S, A>(step: (S, A) -> S, s: S, first: A, run: seq<A>)
    ensures After(step, s, [first] + run) == After(step, step(s, first), run)
    decreases |run|
  {
    if run == [] {
      assert [first] + run == [first];
      assert [first][..0] == [];
    } else {
      AfterCons(step, s, first, run[..|run| - 1]);
      assert ([first] + run)[..|[first] + run| - 1] == [first] + run[..|run| - 1];
    }
  }

  function SlotsAfter(slots: SlotMap, run: seq<Situation>): SlotMap {
    After(PlannedSlots, slots, run)
  }

  lemma PlanKeepsInjective(slots: SlotMap, at: Situation)
    requires Injective(slots)
    ensures Injective(PlannedSlots(slots, at))
  {
    PlaceForEntries(slots, at.0, at.1);
  }

  /** Slots stay injective on every radio over every run of plans. */
  lemma {:induction false} RunKeepsInjective(slots: SlotMap, run: seq<Situation>)
    requires Injective(slots)
    ensures Injective(SlotsAfter(slots, run))
    decreases |run|
  {
    if run != [] {
      RunKeepsInjective(slots, run[..|run| - 1]);
      PlanKeepsInjective(SlotsAfter(slots, run[..|run| - 1]), run[|run| - 1]);
    }
  }

  predicate AlwaysLive(run: seq<Situation>, network: string, radio: string) {
    forall i | 0 <= i < |run| :: radio in run[i].1 && network in Live(run[i].0, run[i].1)[radio]
  }

  lemma {:induction false} SlotStableOverRuns(slots: SlotMap, run: seq<Situation>, network: string, radio: string)
    requires Injective(slots) && network in SlotsOf(slots, radio)
    requires AlwaysLive(run, network, radio)
    ensures Injective(SlotsAfter(slots, run))
    ensures network in SlotsOf(SlotsAfter(slots, run), radio)
    ensures SlotsOf(SlotsAfter(slots, run), radio)[network] == SlotsOf(slots, radio)[network]
    decreases |run|
  {
    if run != [] {
      SlotStableOverRuns(slots, run[..|run| - 1], network, radio);
      var last := run[|run| - 1];
      PlanKeepsLiveSlot(SlotsAfter(slots, run[..|run| - 1]), last.0, last.1, network, radio);
    }
  }

  /** The BSS is the plan's entry for its network and radio. */
  predicate IsEntry(slots: SlotMap, at: Situation, b: Bss) {
    b.iface in PlanFor(slots, at.0, at.1).bsses && PlanFor(slots, at.0, at.1).bsses[b.iface] == b
  }

  // --------------------------------------------------- refusals over a run

  /** Every slot recorded on these radios is below the radio's limit. */
  predicate SlotsFit(slots: SlotMap, radios: Radios) {
    forall r, w | r in radios && r in slots && w in slots[r] :: slots[r][w] < radios[r].maxApBss
  }

  lemma {:induction false} PlacingKeepsFit(ctx: Context, p: Placing, pairs: seq<Pair>)
    requires SlotsFit(p.slots, ctx.radios)
    ensures SlotsFit(PlaceAll(ctx, p, pairs).slots, ctx.radios)
    decreases |pairs|
  {
    if pairs != [] {
      PlacingKeepsFit(ctx, PlaceOne(ctx, p, pairs[0]), pairs[1..]);
    }
  }

  lemma PlanKeepsFit(slots: SlotMap, at: Situation)
    requires SlotsFit(slots, at.1)
    ensures SlotsFit(PlannedSlots(slots, at), at.1)
  {
    PlacingKeepsFit(ContextOf(at.0, at.1), Start(slots, at.0, at.1), Visits(at.0, at.1));
  }

  /** The slot the second map records is below the limit, or the first recorded it already. */
  predicate FitsOrWasThere(was: SlotMap, now: SlotMap, r: string, w: string, limit: int) {
    w in SlotsOf(now, r) ==>
      || SlotsOf(now, r)[w] < limit
      || (w in SlotsOf(was, r) && SlotsOf(was, r)[w] == SlotsOf(now, r)[w])
  }

  lemma PlaceOneAddsFit(ctx: Context, p: Placing, pair: Pair, r: string, w: string)
    requires r in ctx.radios
    ensures FitsOrWasThere(p.slots, PlaceOne(ctx, p, pair).slots, r, w, ctx.radios[r].maxApBss)
  {
  }

  /** Placing records no slot at or above a limit that was not recorded before. */
  lemma {:induction false} PlacingAddsFit(ctx: Context, p: Placing, pairs: seq<Pair>, r: string, w: string)
    requires r in ctx.radios
    ensures FitsOrWasThere(p.slots, PlaceAll(ctx, p, pairs).slots, r, w, ctx.radios[r].maxApBss)
    decreases |pairs|
  {
    if pairs != [] {
      var q := PlaceOne(ctx, p, pairs[0]);
      PlaceOneAddsFit(ctx, p, pairs[0], r, w);
      PlacingAddsFit(ctx, q, pairs[1..], r, w);
    }
  }

  predicate FullAfter(slots: SlotMap, cfg: WifiConfig, radios: Radios, pair: Pair) {
    pair.1 in radios && AllUsed(SlotsOf(PlaceFor(slots, cfg, radios).slots, pair.1), radios[pair.1].maxApBss)
  }

  /** A radio that can host access points has no slot at or above its limit recorded on it. */
  predicate HostFits(slots: SlotMap, radios: Radios, r: string) {
    Usable(radios, r, 0) ==> forall w | w in SlotsOf(slots, r) :: SlotsOf(slots, r)[w] < radios[r].maxApBss
  }

  /**
   * A pair is refused only when every slot below the limit is taken, while the slots that came to the plan fit
   * the limit of its radio.
   */
  lemma RefusalMeansFull(slots: SlotMap, cfg: WifiConfig, radios: Radios, pair: Pair)
    requires Injective(slots) && HostFits(slots, radios, pair.1)
    ensures pair in PlanFor(slots, cfg, radios).refused ==> FullAfter(slots, cfg, radios, pair)
  {
    var (w, r) := pair;
    PlanRefusesExactly(slots, cfg, radios, w, r);
    if pair in PlanFor(slots, cfg, radios).refused && w in SlotsOf(PlaceFor(slots, cfg, radios).slots, r) {
      PlacingAddsFit(ContextOf(cfg, radios), Start(slots, cfg, radios), Visits(cfg, radios), r, w);
      PruneResult(slots, Live(cfg, radios));
    }
  }

  lemma {:induction false} PlacedRows(ctx: Context, p: Placing, pairs: seq<Pair>, r: string, w: string)
    requires w in SlotsOf(PlaceAll(ctx, p, pairs).slots, r)
    ensures w in SlotsOf(p.slots, r) || w in ctx.cfg.networks
    decreases |pairs|
  {
    if pairs != [] {
      PlacedRows(ctx, PlaceOne(ctx, p, pairs[0]), pairs[1..], r, w);
    }
  }

  /** Only networks of the configuration have slots after a plan. */
  lemma PlannedNetworks(slots: SlotMap, cfg: WifiConfig, radios: Radios, r: string, w: string)
    requires w in SlotsOf(PlaceFor(slots, cfg, radios).slots, r)
    ensures w in cfg.networks
  {
    PlacedRows(ContextOf(cfg, radios), Start(slots, cfg, radios), Visits(cfg, radios), r, w);
  }

  /** A configuration of one network, enabled on the radio's band. */
  function OneNetwork(radios: Radios, w: string, r: string): WifiConfig {
    WifiConfig(map[w := NetworkOn(radios, r)], {}, map[])
  }

  lemma OneNetworkIsEligible(radios: Radios, w: string, r: string)
    requires Usable(radios, r, 0)
    ensures Eligible(ContextOf(OneNetwork(radios, w, r), radios), (w, r))
    ensures OneNetwork(radios, w, r).networks.Keys == {w}
  {
  }

  /** When all the networks of a configuration are one that holds another slot, slot zero is free. */
  lemma ZeroIsFree(slots: SlotMap, cfg: WifiConfig, radios: Radios, w: string, r: string)
    requires Injective(slots) && cfg.networks.Keys == {w} && Eligible(ContextOf(cfg, radios), (w, r))
    requires w in SlotsOf(slots, r) && SlotsOf(slots, r)[w] > 0
    ensures 0 !in SlotsOf(PlaceFor(slots, cfg, radios).slots, r).Values
  {
    PlanKeepsLiveSlot(slots, cfg, radios, w, r);
    var row := SlotsOf(PlaceFor(slots, cfg, radios).slots, r);
    forall v | v in row ensures row[v] != 0 {
      PlannedNetworks(slots, cfg, radios, r, v);
      assert v == w;
    }
  }

  /** A network alone in the configuration, with a slot at or above the limit: refused although slot zero is free. */
  lemma TooHighIsRefusedThoughFree(slots: SlotMap, radios: Radios, w: string, r: string)
    requires Injective(slots) && Usable(radios, r, 0)
    requires w in SlotsOf(slots, r) && SlotsOf(slots, r)[w] >= radios[r].maxApBss
    ensures (w, r) in PlanFor(slots, OneNetwork(radios, w, r), radios).refused
    ensures !FullAfter(slots, OneNetwork(radios, w, r), radios, (w, r))
  {
    OneNetworkIsEligible(radios, w, r);
    HeldTooHighIsRefused(slots, OneNetwork(radios, w, r), radios, w, r);
    ZeroIsFree(slots, OneNetwork(radios, w, r), radios, w, r);
  }

  ghost predicate RefusalsMeanFull(slots: SlotMap, radios: Radios) {
    forall cfg, pair | pair in PlanFor(slots, cfg, radios).refused :: FullAfter(slots, cfg, radios, pair)
  }

  /**
   * Over all configurations plans refuse pairs only for lack of slots, if and only if no radio that can host
   * access points comes to the plan with a slot recorded at or above its limit.
   */
  lemma RefusalsMeanFullIff(slots: SlotMap, radios: Radios)
    requires Injective(slots)
    ensures RefusalsMeanFull(slots, radios) <==> forall r | r in radios :: HostFits(slots, radios, r)
  {
    if forall r | r in radios :: HostFits(slots, radios, r) {
      forall cfg, pair | pair in PlanFor(slots, cfg, radios).refused ensures FullAfter(slots, cfg, radios, pair) {
        RefusalMeansFull(slots, cfg, radios, pair);
      }
    } else {
      var r :| r in radios && !HostFits(slots, radios, r);
      var w :| w in SlotsOf(slots, r) && SlotsOf(slots, r)[w] >= radios[r].maxApBss;
      TooHighIsRefusedThoughFree(slots, radios, w, r);
    }
  }

  /** A radio found again hosts at least as many BSSes as when it was last planned for. */
  predicate LimitsHold(run: seq<Situation>, radios: Radios) {
    forall i, r | 0 <= i < |run| && r in run[i].1 && r in radios :: run[i].1[r].maxApBss <= radios[r].maxApBss
  }

  /** No limit is lowered in the course of the run. */
  predicate NeverLowered(run: seq<Situation>) {
    forall i | 0 <= i < |run| :: LimitsHold(run[..i], run[i].1)
  }

  /** Slots recorded on a radio are below a limit it had at some time of the run. */
  predicate FitSomeTime(slots: SlotMap, run: seq<Situation>) {
    forall r, w | r in slots && w in slots[r] ::
      exists i :: 0 <= i < |run| && r in run[i].1 && slots[r][w] < run[i].1[r].maxApBss
  }

  lemma PlannedFor(slots: SlotMap, at: Situation)
    ensures forall r | r in PlannedSlots(slots, at) :: r in at.1
  {
    PlacedFor(ContextOf(at.0, at.1), Start(slots, at.0, at.1), Visits(at.0, at.1));
  }

  lemma {:induction false} PlacedFor(ctx: Context, p: Placing, pairs: seq<Pair>)
    requires forall r | r in p.slots :: r in ctx.radios
    ensures forall r | r in PlaceAll(ctx, p, pairs).slots :: r in ctx.radios
    decreases |pairs|
  {
    if pairs != [] {
      PlacedFor(ctx, PlaceOne(ctx, p, pairs[0]), pairs[1..]);
    }
  }

  lemma {:induction false} RunKeepsFit(run: seq<Situation>)
    requires NeverLowered(run)
    ensures FitSomeTime(SlotsAfter(map[], run), run)
    decreases |run|
  {
    if run != [] {
      var before, at := run[..|run| - 1], run[|run| - 1];
      assert forall i | 0 <= i < |before| :: before[..i] == run[..i] && before[i] == run[i];
      RunKeepsFit(before);
      FitsNow(SlotsAfter(map[], before), before, at.1);
      PlanKeepsFit(SlotsAfter(map[], before), at);
      PlannedFor(SlotsAfter(map[], before), at);
    }
  }

  lemma FitsNow(slots: SlotMap, run: seq<Situation>, radios: Radios)
    requires FitSomeTime(slots, run) && LimitsHold(run, radios)
    ensures SlotsFit(slots, radios)
  {
    forall r, w | r in radios && r in slots && w in slots[r] ensures slots[r][w] < radios[r].maxApBss {
      var i :| 0 <= i < |run| && r in run[i].1 && slots[r][w] < run[i].1[r].maxApBss;
      assert run[i].1[r].maxApBss <= radios[r].maxApBss;
    }
  }

  /**
   * From an empty map, over every run in which no radio's limit is lowered: a pair is refused only when
   * every slot below the limit is taken.
   */
  lemma RefusedOverRunsMeansFull(run: seq<Situation>, last: Situation, pair: Pair)
    requires NeverLowered(run) && LimitsHold(run, last.1)
    ensures var slots := SlotsAfter(map[], run);
            pair in PlanFor(slots, last.0, last.1).refused ==> FullAfter(slots, last.0, last.1, pair)
  {
    RunKeepsInjective(map[], run);
    RunKeepsFit(run);
    FitsNow(SlotsAfter(map[], run), run, last.1);
    RefusalMeansFull(SlotsAfter(map[], run), last.0, last.1, pair);
  }

  // ------------------------------------------------------- names and addresses

  /** The entry has what the slot map of its plan and its radio give it. */
  ghost predicate EntryFits(slots: SlotMap, at: Situation, b: Bss) {
    && b.network in SlotsOf(PlannedSlots(slots, at), b.radio)
    && b.slot == SlotsOf(PlannedSlots(slots, at), b.radio)[b.network]
    && b.radio in at.1 && b.iface == IfaceName(b.radio, b.slot)
    && b.bssid == Bssid(AddressOf(at.1, b.radio), b.slot, OrdinalOf(at.1, b.radio))
  }

  lemma EntrySlot(slots: SlotMap, at: Situation, b: Bss)
    requires Injective(slots)
    ensures Injective(PlannedSlots(slots, at))
    ensures IsEntry(slots, at, b) ==> EntryFits(slots, at, b)
  {
    PlaceForEntries(slots, at.0, at.1);
    if IsEntry(slots, at, b) {
      PlanEntry(slots, at.0, at.1, b.iface);
      assert EntryOk(ContextOf(at.0, at.1), PlannedSlots(slots, at), b);
    }
  }

  /** The network's slot on the radio is the same before and after everything from `first` up to `last`. */
  lemma SlotCarriesOver(slots: SlotMap, first: Situation, middle: seq<Situation>, last: Situation, network: string,
                        radio: string)
    requires Injective(PlannedSlots(slots, first))
    requires AlwaysLive(middle, network, radio) && radio in last.1 && network in Live(last.0, last.1)[radio]
    ensures var before := SlotsAfter(slots, [first] + middle);
            network in SlotsOf(PlannedSlots(slots, first), radio) ==>
              && Injective(before) && network in SlotsOf(PlannedSlots(before, last), radio)
              && SlotsOf(PlannedSlots(before, last), radio)[network] ==
                 SlotsOf(PlannedSlots(slots, first), radio)[network]
  {
    if network in SlotsOf(PlannedSlots(slots, first), radio) {
      AfterCons(PlannedSlots, slots, first, middle);
      SlotStableOverRuns(PlannedSlots(slots, first), middle, network, radio);
      PlanKeepsLiveSlot(SlotsAfter(slots, [first] + middle), last.0, last.1, network, radio);
    }
  }

  /** The radio reports the same address, and the radios of that address that sort before it are the same. */
  predicate SameOrder(was: Radios, now: Radios, radio: string) {
    AddressOf(was, radio) == AddressOf(now, radio) && Before(was, radio) == Before(now, radio)
  }

  /**
   * Across any sequence of configurations in which a network stays live on a radio, whatever else comes
   * and goes: the first and the last plan to place it give it the same slot and interface, and, the radio
   * and the ones of its address that sort before it being the same, the same BSSID.
   */
  lemma IdentityStableOverRuns(slots: SlotMap, first: Situation, middle: seq<Situation>, last: Situation, a: Bss,
                               b: Bss)
    requires Injective(slots) && a.network == b.network && a.radio == b.radio
    requires AlwaysLive(middle, a.network, a.radio)
    requires a.radio in last.1 && a.network in Live(last.0, last.1)[a.radio]
    ensures IsEntry(slots, first, a) && IsEntry(SlotsAfter(slots, [first] + middle), last, b) ==>
              && a.slot == b.slot && a.iface == b.iface
              && (SameOrder(first.1, last.1, a.radio) ==> a.bssid == b.bssid)
  {
    if IsEntry(slots, first, a) && IsEntry(SlotsAfter(slots, [first] + middle), last, b) {
      EntrySlot(slots, first, a);
      SlotCarriesOver(slots, first, middle, last, a.network, a.radio);
      EntrySlot(SlotsAfter(slots, [first] + middle), last, b);
      OrdinalIsCount(first.1, a.radio);
      OrdinalIsCount(last.1, a.radio);
    }
  }

  /**
   * And placed it is: an SSID placed once, live all the time and still eligible in the last plan, on a slot below the
   * limit there, is in the last plan when its names are apart.
   */
  lemma StillPlaced(slots: SlotMap, first: Situation, middle: seq<Situation>, last: Situation, a: Bss)
    requires Injective(slots) && IsEntry(slots, first, a)
    requires AlwaysLive(middle, a.network, a.radio)
    requires Eligible(ContextOf(last.0, last.1), (a.network, a.radio)) && a.slot < last.1[a.radio].maxApBss
    ensures var before := SlotsAfter(slots, [first] + middle);
            PlanNamesApart(before, last.0, last.1) ==>
              InPlan(PlanFor(before, last.0, last.1), a.network, a.radio)
  {
    var before := SlotsAfter(slots, [first] + middle);
    EntrySlot(slots, first, a);
    SlotCarriesOver(slots, first, middle, last, a.network, a.radio);
    if PlanNamesApart(before, last.0, last.1) {
      PlanPlacesExactly(before, last.0, last.1, a.network, a.radio);
    }
  }

  /**
   * On an unchanged address a kept slot keeps its BSSID exactly when the number of radios that report the
   * same address and sort before this one is unchanged modulo sixteen.
   */
  lemma BssidKeptOnNewRadiosIff(slotsA: SlotMap, atA: Situation, a: Bss, o: nat,
                                slotsB: SlotMap, atB: Situation, b: Bss, q: nat)
    requires Injective(slotsA) && Injective(slotsB) && a.radio == b.radio && a.slot == b.slot
    requires o == |Before(atA.1, a.radio)| && q == |Before(atB.1, b.radio)|
    requires AddressOf(atA.1, a.radio) == AddressOf(atB.1, a.radio)
    ensures IsEntry(slotsA, atA, a) && IsEntry(slotsB, atB, b) ==> (a.bssid == b.bssid <==> (o - q) % 16 == 0)
  {
    EntrySlot(slotsA, atA, a);
    EntrySlot(slotsB, atB, b);
    FittingBssids(slotsA, atA, a, o, slotsB, atB, b, q);
  }

  lemma FittingBssids(slotsA: SlotMap, atA: Situation, a: Bss, o: nat, slotsB: SlotMap, atB: Situation, b: Bss, q: nat)
    requires a.radio == b.radio && a.slot == b.slot
    requires o == |Before(atA.1, a.radio)| && q == |Before(atB.1, b.radio)|
    requires AddressOf(atA.1, a.radio) == AddressOf(atB.1, a.radio)
    ensures EntryFits(slotsA, atA, a) && EntryFits(slotsB, atB, b) ==> (a.bssid == b.bssid <==> (o - q) % 16 == 0)
  {
    if EntryFits(slotsA, atA, a) && EntryFits(slotsB, atB, b) {
      OrdinalIsCount(atA.1, a.radio);
      OrdinalIsCount(atB.1, b.radio);
      BssidsFollow(a, b, AddressOf(atA.1, a.radio), AddressOf(atB.1, a.radio), o, q);
    }
  }

  lemma BssidsFollow(a: Bss, b: Bss, macA: Mac, macB: Mac, o: nat, q: nat)
    requires a.slot == b.slot && a.bssid == Bssid(macA, a.slot, o) && b.bssid == Bssid(macB, b.slot, q)
    ensures macA == macB ==> (a.bssid == b.bssid <==> (o - q) % 16 == 0)
  {
    BssidKeptIff(macA, a.slot, o, q);
  }

  lemma BssidKeptIff(mac: Mac, slot: int, o: nat, q: nat)
    ensures Bssid(mac, slot, o) == Bssid(mac, slot, q) <==> (o - q) % 16 == 0
  {
    BssidsCollideIff(mac, slot, o, mac, slot, q);
    SixteenTimes(o - q);
  }

  lemma SixteenTimes(d: int)
    ensures (MAX_SLOTS * d) % 256 == 0 <==> d % 16 == 0
  {
  }
}
