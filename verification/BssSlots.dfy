/** The persistent (radio, wireless network) -> BSS slot assignment: `SlotAllocator` of gateway/sbegw/wifid.py. */
module BssSlots {
  import opened Wrappers

  type SlotMap = map<string, map<string, int>>

  function SlotsOf(m: SlotMap, radio: string): map<string, int> {
    if radio in m then m[radio] else map[]
  }

  function LowestFree(used: set<int>, from: int, limit: int): (r: Option<int>)
    ensures r.Some? ==> from <= r.value < limit && r.value !in used && forall c | from <= c < r.value :: c in used
    ensures r.None? ==> forall c | from <= c < limit :: c in used
    decreases limit - from
  {
    if from >= limit then None
    else if from !in used then Some(from)
    else LowestFree(used, from + 1, limit)
  }

  /** The slot map and the slot after a network asks for its slot on a radio. */
  function Grant(m: SlotMap, radio: string, network: string, limit: int): (SlotMap, Option<int>) {
    var slots := SlotsOf(m, radio);
    if network in slots then
      (m[radio := slots], if slots[network] < limit then Some(slots[network]) else None)
    else
      var free := LowestFree(slots.Values, 0, limit);
      (m[radio := if free.Some? then slots[network := free.value] else slots], free)
  }

  function Prune(m: SlotMap, live: map<string, set<string>>): SlotMap {
    map r | r in m && r in live :: map w | w in m[r] && w in live[r] :: m[r][w]
  }

  /** Within each radio no two networks hold one slot, and slots are not negative. */
  predicate Injective(m: SlotMap) {
    forall r | r in m :: RowInjective(m[r])
  }

  predicate RowInjective(slots: map<string, int>) {
    && (forall w | w in slots :: slots[w] >= 0)
    && (forall v, w | v in slots && w in slots && slots[v] == slots[w] :: v == w)
  }

  /** The network's slot on the radio is recorded and usable under the limit. */
  predicate Granted(m: SlotMap, radio: string, network: string, limit: int) {
    network in SlotsOf(m, radio) && SlotsOf(m, radio)[network] < limit
  }

  predicate AllUsed(slots: map<string, int>, limit: int) {
    forall c | 0 <= c < limit :: c in slots.Values
  }

  /** Asking for a slot disturbs nobody, keeps slots injective, and answers what the map then records. */
  lemma GrantResult(m: SlotMap, radio: string, network: string, limit: int)
    requires Injective(m)
    ensures var (after, slot) := Grant(m, radio, network, limit);
            && Injective(after)
            && (slot.Some? <==> Granted(after, radio, network, limit))
            && (slot.Some? ==> slot.value == after[radio][network] && 0 <= slot.value < limit)
            && after.Keys == m.Keys + {radio}
            && (forall r | r in m && r != radio :: after[r] == m[r])
            && (forall w | w in SlotsOf(m, radio) :: w in after[radio] && after[radio][w] == SlotsOf(m, radio)[w])
            && (forall w | w in after[radio] :: w == network || w in SlotsOf(m, radio))
            && after[radio].Values >= SlotsOf(m, radio).Values
  {
    var slots := SlotsOf(m, radio);
    var (after, slot) := Grant(m, radio, network, limit);
    assert RowInjective(slots);
    forall v | v in slots.Values ensures v in after[radio].Values {
      var w :| w in slots && slots[w] == v;
      assert after[radio][w] == v;
    }
    forall v, w | v in after[radio] && w in after[radio] && after[radio][v] == after[radio][w] ensures v == w {
      if network !in slots && slot.Some? {
        assert v != network ==> slots[v] in slots.Values;
        assert w != network ==> slots[w] in slots.Values;
      }
    }
    assert RowInjective(after[radio]);
  }

  /** A network new to a radio is refused only when every slot below the limit is taken. */
  lemma NewNetworkRefusedIff(m: SlotMap, radio: string, network: string, limit: int)
    requires network !in SlotsOf(m, radio)
    ensures Grant(m, radio, network, limit).1.None? <==> AllUsed(SlotsOf(m, radio), limit)
  {
  }

  lemma {:induction false} ValuesAtMostKeys(slots: map<string, int>)
    ensures |slots.Values| <= |slots|
    decreases |slots|
  {
    if slots != map[] {
      var k :| k in slots;
      var rest := map w | w in slots && w != k :: slots[w];
      assert rest.Keys == slots.Keys - {k};
      assert slots.Values == rest.Values + {slots[k]} by {
        forall v ensures v in slots.Values <==> v in rest.Values + {slots[k]} {
          if v in slots.Values {
            var w :| w in slots && slots[w] == v;
            if w != k { assert rest[w] == v; }
          }
        }
      }
      ValuesAtMostKeys(rest);
    } else {
      assert slots.Values == {};
    }
  }

  lemma {:induction false} RangeWithin(limit: nat, s: set<int>)
    requires forall c | 0 <= c < limit :: c in s
    ensures |s| >= limit
    decreases limit
  {
    if limit > 0 {
      RangeWithin(limit - 1, s - {limit - 1});
    }
  }

  /** Pigeonhole: with fewer entries than the limit a new network always gets a slot. */
  lemma FewerEntriesThanLimitSucceeds(m: SlotMap, radio: string, network: string, limit: nat)
    requires network !in SlotsOf(m, radio) && |SlotsOf(m, radio)| < limit
    ensures Grant(m, radio, network, limit).1.Some?
  {
    ValuesAtMostKeys(SlotsOf(m, radio));
    if AllUsed(SlotsOf(m, radio), limit) {
      RangeWithin(limit, SlotsOf(m, radio).Values);
    }
  }

  /** Pruning keeps exactly the live assignments, each as it was. */
  lemma PruneResult(m: SlotMap, live: map<string, set<string>>)
    requires Injective(m)
    ensures Injective(Prune(m, live))
    ensures forall r, w :: w in SlotsOf(Prune(m, live), r) <==> w in SlotsOf(m, r) && r in live && w in live[r]
    ensures forall r, w | w in SlotsOf(Prune(m, live), r) :: SlotsOf(Prune(m, live), r)[w] == SlotsOf(m, r)[w]
  {
    forall r | r in Prune(m, live) ensures RowInjective(Prune(m, live)[r]) {
      assert RowInjective(m[r]);
    }
  }

  /** On a radio cut down to four BSSes a network on slot five is refused while no other slot is taken. */
  lemma HeldSlotRefusedThoughOthersFree()
    ensures var m := map["radio-5g" := map["guest" := 5]];
            Grant(m, "radio-5g", "guest", 4).1.None? && forall c | 0 <= c < 4 :: c !in SlotsOf(m, "radio-5g").Values
  {
  }

  /** Delete the networks of one radio that are no longer live on it. */
  method PruneRow(row: map<string, int>, keep: set<string>) returns (kept: map<string, int>)
    ensures kept == map w | w in row && w in keep :: row[w]
  {
    kept := row;
    var networks := row.Keys;
    while networks != {}
      invariant networks <= row.Keys
      invariant kept.Keys == networks + (row.Keys * keep)
      invariant forall w | w in kept :: kept[w] == row[w]
      decreases networks
    {
      var network :| network in networks;
      networks := networks - {network};
      if network !in keep {
        kept := kept - {network};
      }
    }
  }

  class SlotAllocator {
    var slots: SlotMap

    constructor (loaded: SlotMap)
      ensures slots == loaded
    {
      slots := loaded;
    }

    method Slot(radio: string, network: string, limit: int) returns (slot: Option<int>)
      modifies this
      ensures (slots, slot) == Grant(old(slots), radio, network, limit)
    {
      if radio !in slots {
        slots := slots[radio := map[]];
      }
      var row := slots[radio];
      assert row == SlotsOf(old(slots), radio) && slots == old(slots)[radio := row];
      if network in row {
        return if row[network] < limit then Some(row[network]) else None;
      }
      var candidate := 0;
      while candidate < limit
        invariant candidate >= 0
        invariant slots == old(slots)[radio := row]
        invariant LowestFree(row.Values, candidate, limit) == LowestFree(row.Values, 0, limit)
      {
        if candidate !in row.Values {
          slots := slots[radio := row[network := candidate]];
          assert slots == old(slots)[radio := row[network := candidate]];
          return Some(candidate);
        }
        candidate := candidate + 1;
      }
      return None;
    }

    method PruneTo(live: map<string, set<string>>)
      modifies this
      ensures slots == Prune(old(slots), live)
    {
      var radios := slots.Keys;
      while radios != {}
        invariant radios <= old(slots).Keys
        invariant slots.Keys == radios + (old(slots).Keys * live.Keys)
        invariant forall r | r in slots ::
                    slots[r] == if r in radios then old(slots)[r] else Prune(old(slots), live)[r]
        decreases radios
      {
        var radio :| radio in radios;
        radios := radios - {radio};
        if radio !in live {
          slots := slots - {radio};
        } else {
          var row := PruneRow(slots[radio], live[radio]);
          slots := slots[radio := row];
        }
      }
      assert slots == Prune(old(slots), live);
    }
  }
}
