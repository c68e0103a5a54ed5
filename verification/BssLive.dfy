/**
 * Who holds slots after a plan: only networks that are enabled and select the radio's band. What a network no longer
 * enabled held is free again, and what that means for refusals; gateway/sbegw/wifid.py.
 */
module BssLive {
  import opened BssSlots
  import opened BssPlan
  import opened BssPlacing
  import opened BssPlanProofs
  import opened BssStability

  /** In this configuration the network is enabled and selects the radio's band. */
  predicate Selects(cfg: WifiConfig, radios: Radios, w: string, r: string) {
    && w in cfg.networks && cfg.networks[w].enabled
    && r in radios && radios[r].band.Some? && radios[r].band.value in cfg.networks[w].bands
  }

  /** Every slot recorded belongs to such a network. */
  predicate OnlySelected(slots: SlotMap, cfg: WifiConfig, radios: Radios) {
    forall r, w | r in slots && w in slots[r] :: Selects(cfg, radios, w, r)
  }

  lemma {:induction false} PlacingKeepsSelected(ctx: Context, p: Placing, pairs: seq<Pair>)
    requires OnlySelected(p.slots, ctx.cfg, ctx.radios)
    ensures OnlySelected(PlaceAll(ctx, p, pairs).slots, ctx.cfg, ctx.radios)
    decreases |pairs|
  {
    if pairs != [] {
      PlacingKeepsSelected(ctx, PlaceOne(ctx, p, pairs[0]), pairs[1..]);
    }
  }

  /**
   * After a plan a network has a slot on a radio only if it is enabled in that configuration and selects the radio's
   * band; and such a network that had one still has it.
   */
  lemma PlannedSlotsAreSelected(slots: SlotMap, cfg: WifiConfig, radios: Radios)
    requires Injective(slots)
    ensures var after := PlaceFor(slots, cfg, radios).slots;
            && OnlySelected(after, cfg, radios)
            && (forall r, w | w in SlotsOf(slots, r) && Selects(cfg, radios, w, r) ::
                  w in SlotsOf(after, r) && SlotsOf(after, r)[w] == SlotsOf(slots, r)[w])
  {
    PlacingKeepsSelected(ContextOf(cfg, radios), Start(slots, cfg, radios), Visits(cfg, radios));
    forall r, w | w in SlotsOf(slots, r) && Selects(cfg, radios, w, r)
      ensures w in SlotsOf(PlaceFor(slots, cfg, radios).slots, r)
      ensures SlotsOf(PlaceFor(slots, cfg, radios).slots, r)[w] == SlotsOf(slots, r)[w]
    {
      PlanKeepsLiveSlot(slots, cfg, radios, w, r);
    }
  }

  /** A network that is enabled and selects the radio's band holds the slot. */
  ghost predicate SelectedHolds(slots: SlotMap, cfg: WifiConfig, radios: Radios, r: string, c: int) {
    exists w :: Selects(cfg, radios, w, r) && w in SlotsOf(slots, r) && SlotsOf(slots, r)[w] == c
  }

  /** Every slot below the limit is held by such a network. */
  ghost predicate FullOfSelected(slots: SlotMap, cfg: WifiConfig, radios: Radios, r: string) {
    r in radios && forall c | 0 <= c < radios[r].maxApBss :: SelectedHolds(slots, cfg, radios, r, c)
  }

  /** While recorded slots fit, a pair is refused only when such networks hold every slot below the limit. */
  lemma RefusedOnlyForSelected(slots: SlotMap, cfg: WifiConfig, radios: Radios, pair: Pair)
    requires Injective(slots) && HostFits(slots, radios, pair.1)
    ensures pair in PlanFor(slots, cfg, radios).refused ==>
              FullOfSelected(PlaceFor(slots, cfg, radios).slots, cfg, radios, pair.1)
  {
    if pair in PlanFor(slots, cfg, radios).refused {
      RefusalMeansFull(slots, cfg, radios, pair);
      PlannedSlotsAreSelected(slots, cfg, radios);
      FullIsOfSelected(PlaceFor(slots, cfg, radios).slots, cfg, radios, pair.1);
    }
  }

  lemma FullIsOfSelected(slots: SlotMap, cfg: WifiConfig, radios: Radios, r: string)
    requires OnlySelected(slots, cfg, radios) && r in radios && AllUsed(SlotsOf(slots, r), radios[r].maxApBss)
    ensures FullOfSelected(slots, cfg, radios, r)
  {
    var row := SlotsOf(slots, r);
    forall c | 0 <= c < radios[r].maxApBss ensures SelectedHolds(slots, cfg, radios, r, c) {
      assert c in row.Values;
      var w :| w in row && row[w] == c;
      assert Selects(cfg, radios, w, r);
    }
  }

  /** The networks that are enabled and select the radio's band. */
  function SelectedOn(cfg: WifiConfig, radios: Radios, r: string): set<string> {
    set w | w in cfg.networks && Selects(cfg, radios, w, r)
  }

  lemma RowWithin(row: map<string, int>, holders: set<string>, limit: nat)
    requires row.Keys <= holders && AllUsed(row, limit)
    ensures |holders| >= limit
  {
    ValuesAtMostKeys(row);
    RangeWithin(limit, row.Values);
    KeysAtMost(row.Keys, holders);
    assert |row| == |row.Keys|;
  }

  lemma KeysAtMost(a: set<string>, b: set<string>)
    requires a <= b
    ensures |a| <= |b|
  {
    assert |b| == |a| + |b - a| by {
      assert b == a + (b - a);
    }
  }

  /** While recorded slots fit, a pair that is refused has no slot recorded after the plan. */
  lemma RefusedHoldsNothing(slots: SlotMap, cfg: WifiConfig, radios: Radios, pair: Pair)
    requires Injective(slots) && HostFits(slots, radios, pair.1) && pair.1 in radios
    requires pair in PlanFor(slots, cfg, radios).refused && radios[pair.1].maxApBss >= 1
    ensures pair.0 !in SlotsOf(PlaceFor(slots, cfg, radios).slots, pair.1)
  {
    var (w, r) := pair;
    PlanRefusesExactly(slots, cfg, radios, w, r);
    if w in SlotsOf(PlaceFor(slots, cfg, radios).slots, r) {
      PlacingAddsFit(ContextOf(cfg, radios), Start(slots, cfg, radios), Visits(cfg, radios), r, w);
      PruneResult(slots, Live(cfg, radios));
    }
  }

  lemma RefusedIsSelected(slots: SlotMap, cfg: WifiConfig, radios: Radios, pair: Pair)
    requires Injective(slots) && pair in PlanFor(slots, cfg, radios).refused
    ensures pair.0 in SelectedOn(cfg, radios, pair.1) && |SelectedOn(cfg, radios, pair.1)| >= 1
  {
    var (w, r) := pair;
    PlanRefusesExactly(slots, cfg, radios, w, r);
    KeysAtMost({w}, SelectedOn(cfg, radios, r));
  }

  /** The others hold all slots, so with the refused network they are more than the limit. */
  lemma RefusedIsOneTooMany(slots: SlotMap, cfg: WifiConfig, radios: Radios, w: string, r: string)
    requires OnlySelected(slots, cfg, radios) && r in radios && radios[r].maxApBss >= 0
    requires AllUsed(SlotsOf(slots, r), radios[r].maxApBss)
    requires w !in SlotsOf(slots, r) && w in SelectedOn(cfg, radios, r)
    ensures |SelectedOn(cfg, radios, r)| > radios[r].maxApBss
  {
    RowWithin(SlotsOf(slots, r), SelectedOn(cfg, radios, r) - {w}, radios[r].maxApBss);
  }

  /** So a radio whose band at most as many networks select as it can host refuses none of them. */
  lemma EnoughSlotsRefuseNone(slots: SlotMap, cfg: WifiConfig, radios: Radios, pair: Pair)
    requires Injective(slots) && HostFits(slots, radios, pair.1)
    requires pair.1 in radios && |SelectedOn(cfg, radios, pair.1)| <= radios[pair.1].maxApBss
    ensures pair !in PlanFor(slots, cfg, radios).refused
  {
    if pair in PlanFor(slots, cfg, radios).refused {
      RefusedIsSelected(slots, cfg, radios, pair);
      RefusedHoldsNothing(slots, cfg, radios, pair);
      RefusalMeansFull(slots, cfg, radios, pair);
      PlannedSlotsAreSelected(slots, cfg, radios);
      RefusedIsOneTooMany(PlaceFor(slots, cfg, radios).slots, cfg, radios, pair.0, pair.1);
    }
  }
}
