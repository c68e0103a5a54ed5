/**
 * How the planner of `BssPlan` fills its tables: what placing one (network, radio) pair after the other
 * keeps, for any slot map and any radios.
 */
module BssPlacing {
  import opened Wrappers
  import opened Texts
  import opened InterfaceNames
  import opened BssSlots
  import opened BssPlan

  /** The table entry is the BSS its pair should have: eligible, on the slot the map records. */
  predicate EntryOk(ctx: Context, slots: SlotMap, b: Bss) {
    && Eligible(ctx, (b.network, b.radio))
    && Granted(slots, b.radio, b.network, ctx.radios[b.radio].maxApBss)
    && b.slot == SlotsOf(slots, b.radio)[b.network] && b.slot >= 0
    && b == MakeBss(ctx, (b.network, b.radio), b.slot)
  }

  predicate TableOk(ctx: Context, p: Placing) {
    forall n | n in p.bsses ::
      p.bsses[n].iface == n && EntryOk(ctx, p.slots, p.bsses[n]) && p.bsses[n] in LinkOf(p.links, p.bsses[n].radio)
  }

  /** The per-radio lists hold exactly table entries, each under its own radio and once. */
  predicate ListsOk(p: Placing) {
    && (forall r, i | r in p.links && 0 <= i < |p.links[r]| ::
          var b := p.links[r][i]; b.radio == r && b.iface in p.bsses && p.bsses[b.iface] == b)
    && (forall r, i, j | r in p.links && 0 <= i < j < |p.links[r]| :: p.links[r][i].iface != p.links[r][j].iface)
  }

  ghost predicate Placed(p: Placing, pair: Pair) {
    exists n :: n in p.bsses && p.bsses[n].network == pair.0 && p.bsses[n].radio == pair.1
  }

  predicate FromVisited(p: Placing, visited: seq<Pair>) {
    forall n | n in p.bsses :: (p.bsses[n].network, p.bsses[n].radio) in visited
  }

  /** A visited eligible pair is placed exactly when its slot was granted. */
  ghost predicate PairOk(ctx: Context, p: Placing, pair: Pair) {
    Eligible(ctx, pair) ==> (Placed(p, pair) <==> Granted(p.slots, pair.1, pair.0, ctx.radios[pair.1].maxApBss))
  }

  /** A pair is refused exactly when it was visited, is eligible and got no slot; with none recorded, none was free. */
  predicate RefusalOk(ctx: Context, p: Placing, visited: seq<Pair>, pair: Pair) {
    && (pair in p.refused ==> pair in visited && Eligible(ctx, pair))
    && (pair in visited && Eligible(ctx, pair) ==>
          var limit := ctx.radios[pair.1].maxApBss;
          && (pair in p.refused <==> !Granted(p.slots, pair.1, pair.0, limit))
          && (pair in p.refused ==> pair.0 in SlotsOf(p.slots, pair.1) || AllUsed(SlotsOf(p.slots, pair.1), limit)))
  }

  ghost predicate RefusalsOk(ctx: Context, p: Placing, visited: seq<Pair>) {
    Injective(p.slots) && forall pair: Pair :: RefusalOk(ctx, p, visited, pair)
  }

  /** What holds whatever the radios are called: slots are injective and every table entry is right. */
  ghost predicate EntriesOk(ctx: Context, p: Placing, visited: seq<Pair>) {
    Injective(p.slots) && TableOk(ctx, p) && FromVisited(p, visited)
  }

  ghost predicate PlacingOk(ctx: Context, p: Placing, visited: seq<Pair>) {
    && EntriesOk(ctx, p, visited)
    && ListsOk(p)
    && (forall pair | pair in visited :: PairOk(ctx, p, pair))
  }

  // ------------------------------------------------------------------- slots

  /** What every other pair holds is not touched when one pair asks for a slot. */
  lemma SlotsStay(m: SlotMap, radio: string, network: string, limit: int)
    requires Injective(m)
    ensures var after := Grant(m, radio, network, limit).0;
            forall r, w | r != radio || w != network ::
              && (w in SlotsOf(after, r) <==> w in SlotsOf(m, r))
              && (w in SlotsOf(m, r) ==> SlotsOf(after, r)[w] == SlotsOf(m, r)[w])
    ensures var after := Grant(m, radio, network, limit).0;
            network in SlotsOf(m, radio) ==>
              network in SlotsOf(after, radio) && SlotsOf(after, radio)[network] == SlotsOf(m, radio)[network]
  {
    GrantResult(m, radio, network, limit);
    var after := Grant(m, radio, network, limit).0;
    forall r | r != radio ensures SlotsOf(after, r) == SlotsOf(m, r) {
      assert r in after <==> r in m;
    }
  }

  lemma AllUsedStays(m: SlotMap, radio: string, network: string, limit: int, r: string, l: int)
    requires Injective(m) && AllUsed(SlotsOf(m, r), l)
    ensures AllUsed(SlotsOf(Grant(m, radio, network, limit).0, r), l)
  {
    GrantResult(m, radio, network, limit);
  }

  /** The second map has every assignment of the first, unmoved. */
  predicate Leads(m: SlotMap, end: SlotMap) {
    forall r, w | r in m && w in m[r] :: w in SlotsOf(end, r) && SlotsOf(end, r)[w] == m[r][w]
  }

  lemma {:induction false} PlaceAllKeepsSlots(ctx: Context, p: Placing, pairs: seq<Pair>)
    requires Injective(p.slots)
    ensures Injective(PlaceAll(ctx, p, pairs).slots)
    ensures Leads(p.slots, PlaceAll(ctx, p, pairs).slots)
    decreases |pairs|
  {
    if pairs != [] {
      if Eligible(ctx, pairs[0]) {
        GrantResult(p.slots, pairs[0].1, pairs[0].0, ctx.radios[pairs[0].1].maxApBss);
        SlotsStay(p.slots, pairs[0].1, pairs[0].0, ctx.radios[pairs[0].1].maxApBss);
      }
      PlaceAllKeepsSlots(ctx, PlaceOne(ctx, p, pairs[0]), pairs[1..]);
    }
  }

  // ----------------------------------------------------------------- entries

  /** Another pair's entry is still right after this pair asked for its slot. */
  lemma EntryStaysOk(ctx: Context, slots: SlotMap, b: Bss, pair: Pair)
    requires Injective(slots) && pair.1 in ctx.radios
    requires EntryOk(ctx, slots, b) && (b.network, b.radio) != pair
    ensures EntryOk(ctx, Grant(slots, pair.1, pair.0, ctx.radios[pair.1].maxApBss).0, b)
  {
    SlotsStay(slots, pair.1, pair.0, ctx.radios[pair.1].maxApBss);
  }

  lemma PlacedTableOk(ctx: Context, p: Placing, visited: seq<Pair>, pair: Pair, slot: int)
    requires EntriesOk(ctx, p, visited) && pair !in visited && Eligible(ctx, pair)
    requires Grant(p.slots, pair.1, pair.0, ctx.radios[pair.1].maxApBss).1 == Some(slot)
    ensures TableOk(ctx, PlaceOne(ctx, p, pair))
  {
    var (w, r) := pair;
    var q := PlaceOne(ctx, p, pair);
    var limit := ctx.radios[r].maxApBss;
    GrantResult(p.slots, r, w, limit);
    var bss := MakeBss(ctx, pair, slot);
    assert LinkOf(q.links, r) == LinkOf(p.links, r) + [bss];
    forall n | n in q.bsses
      ensures q.bsses[n].iface == n && EntryOk(ctx, q.slots, q.bsses[n])
              && q.bsses[n] in LinkOf(q.links, q.bsses[n].radio)
    {
      if n == bss.iface {
        assert q.bsses[n] == bss && bss in [bss];
      } else {
        var b := p.bsses[n];
        assert b.iface == n && b in LinkOf(p.links, b.radio);
        assert (b.network, b.radio) in visited;
        EntryStaysOk(ctx, p.slots, b, pair);
      }
    }
  }

  lemma RefusedTableOk(ctx: Context, p: Placing, visited: seq<Pair>, pair: Pair)
    requires EntriesOk(ctx, p, visited) && pair !in visited && Eligible(ctx, pair)
    requires Grant(p.slots, pair.1, pair.0, ctx.radios[pair.1].maxApBss).1.None?
    ensures TableOk(ctx, PlaceOne(ctx, p, pair))
  {
    var q := PlaceOne(ctx, p, pair);
    forall n | n in q.bsses ensures EntryOk(ctx, q.slots, q.bsses[n]) {
      assert (q.bsses[n].network, q.bsses[n].radio) in visited;
      EntryStaysOk(ctx, p.slots, p.bsses[n], pair);
    }
  }

  lemma PlaceOneVisits(ctx: Context, p: Placing, visited: seq<Pair>, pair: Pair)
    requires FromVisited(p, visited)
    ensures FromVisited(PlaceOne(ctx, p, pair), visited + [pair])
  {
    var q := PlaceOne(ctx, p, pair);
    forall n | n in q.bsses ensures (q.bsses[n].network, q.bsses[n].radio) in visited + [pair] {
      if n in p.bsses && q.bsses[n] == p.bsses[n] {
        assert (p.bsses[n].network, p.bsses[n].radio) in visited;
      }
    }
  }

  lemma PlaceOneKeepsTable(ctx: Context, p: Placing, visited: seq<Pair>, pair: Pair)
    requires EntriesOk(ctx, p, visited) && pair !in visited
    ensures TableOk(ctx, PlaceOne(ctx, p, pair))
  {
    if Eligible(ctx, pair) {
      var slot := Grant(p.slots, pair.1, pair.0, ctx.radios[pair.1].maxApBss).1;
      if slot.Some? {
        PlacedTableOk(ctx, p, visited, pair, slot.value);
      } else {
        RefusedTableOk(ctx, p, visited, pair);
      }
    }
  }

  lemma PlaceOneKeepsEntries(ctx: Context, p: Placing, visited: seq<Pair>, pair: Pair)
    requires EntriesOk(ctx, p, visited) && pair !in visited
    ensures EntriesOk(ctx, PlaceOne(ctx, p, pair), visited + [pair])
  {
    PlaceOneVisits(ctx, p, visited, pair);
    PlaceOneKeepsTable(ctx, p, visited, pair);
    if Eligible(ctx, pair) {
      GrantResult(p.slots, pair.1, pair.0, ctx.radios[pair.1].maxApBss);
    }
  }

  lemma TailIsUnvisited(visited: seq<Pair>, pairs: seq<Pair>)
    requires pairs != [] && Distinct(pairs) && forall pair | pair in pairs :: pair !in visited
    ensures pairs[0] !in visited && Distinct(pairs[1..])
    ensures forall pair | pair in pairs[1..] :: pair !in visited + [pairs[0]]
    ensures visited + [pairs[0]] + pairs[1..] == visited + pairs
  {
    assert pairs == [pairs[0]] + pairs[1..];
    forall pair | pair in pairs[1..] ensures pair !in visited + [pairs[0]] {
      var i :| 0 <= i < |pairs[1..]| && pairs[1..][i] == pair;
      assert pairs[i + 1] == pair;
    }
  }

  /** The table stays right over any list of distinct pairs. */
  lemma {:induction false} PlaceAllKeepsEntries(ctx: Context, p: Placing, visited: seq<Pair>, pairs: seq<Pair>)
    requires EntriesOk(ctx, p, visited)
    requires Distinct(pairs) && forall pair | pair in pairs :: pair !in visited
    ensures EntriesOk(ctx, PlaceAll(ctx, p, pairs), visited + pairs)
    decreases |pairs|
  {
    if pairs == [] {
      assert visited + pairs == visited;
    } else {
      TailIsUnvisited(visited, pairs);
      PlaceOneKeepsEntries(ctx, p, visited, pairs[0]);
      PlaceAllKeepsEntries(ctx, PlaceOne(ctx, p, pairs[0]), visited + [pairs[0]], pairs[1..]);
    }
  }

  // ---------------------------------------------------------------- refusals

  /** What was decided about another pair stands after this one asked for its slot. */
  lemma OtherRefusalOk(ctx: Context, p: Placing, visited: seq<Pair>, pair: Pair, other: Pair)
    requires RefusalsOk(ctx, p, visited) && Eligible(ctx, pair) && other != pair
    ensures RefusalOk(ctx, PlaceOne(ctx, p, pair), visited + [pair], other)
  {
    assert RefusalOk(ctx, p, visited, other);
    SlotsStay(p.slots, pair.1, pair.0, ctx.radios[pair.1].maxApBss);
    if Eligible(ctx, other) && AllUsed(SlotsOf(p.slots, other.1), ctx.radios[other.1].maxApBss) {
      AllUsedStays(p.slots, pair.1, pair.0, ctx.radios[pair.1].maxApBss, other.1, ctx.radios[other.1].maxApBss);
    }
  }

  lemma OwnRefusalOk(ctx: Context, p: Placing, visited: seq<Pair>, pair: Pair)
    requires RefusalsOk(ctx, p, visited) && Eligible(ctx, pair) && pair !in visited
    ensures RefusalOk(ctx, PlaceOne(ctx, p, pair), visited + [pair], pair)
  {
    assert RefusalOk(ctx, p, visited, pair);
    GrantResult(p.slots, pair.1, pair.0, ctx.radios[pair.1].maxApBss);
  }

  lemma PlaceOneKeepsRefusals(ctx: Context, p: Placing, visited: seq<Pair>, pair: Pair)
    requires RefusalsOk(ctx, p, visited) && pair !in visited
    ensures RefusalsOk(ctx, PlaceOne(ctx, p, pair), visited + [pair])
  {
    if Eligible(ctx, pair) {
      GrantResult(p.slots, pair.1, pair.0, ctx.radios[pair.1].maxApBss);
      OwnRefusalOk(ctx, p, visited, pair);
      forall other: Pair | other != pair ensures RefusalOk(ctx, PlaceOne(ctx, p, pair), visited + [pair], other) {
        OtherRefusalOk(ctx, p, visited, pair, other);
      }
    } else {
      forall other: Pair ensures RefusalOk(ctx, p, visited + [pair], other) {
        assert RefusalOk(ctx, p, visited, other);
      }
    }
  }

  /** Refusals stay right over any list of distinct pairs, whatever the radios are called. */
  lemma {:induction false} PlaceAllKeepsRefusals(ctx: Context, p: Placing, visited: seq<Pair>, pairs: seq<Pair>)
    requires RefusalsOk(ctx, p, visited)
    requires Distinct(pairs) && forall pair | pair in pairs :: pair !in visited
    ensures RefusalsOk(ctx, PlaceAll(ctx, p, pairs), visited + pairs)
    decreases |pairs|
  {
    if pairs == [] {
      assert visited + pairs == visited;
    } else {
      TailIsUnvisited(visited, pairs);
      PlaceOneKeepsRefusals(ctx, p, visited, pairs[0]);
      PlaceAllKeepsRefusals(ctx, PlaceOne(ctx, p, pairs[0]), visited + [pairs[0]], pairs[1..]);
    }
  }

  // ---------------------------------------------------- nothing is overwritten

  /** An eligible pair and the slot the map grants it. */
  predicate Holds(ctx: Context, slots: SlotMap, pair: Pair) {
    Eligible(ctx, pair) && Granted(slots, pair.1, pair.0, ctx.radios[pair.1].maxApBss)
  }

  function NameOf(slots: SlotMap, pair: Pair): string {
    if pair.0 in SlotsOf(slots, pair.1) then IfaceName(pair.1, SlotsOf(slots, pair.1)[pair.0]) else ""
  }

  /** No two pairs that hold a slot get one name. */
  ghost predicate NamesApart(ctx: Context, slots: SlotMap) {
    forall a, b | Holds(ctx, slots, a) && Holds(ctx, slots, b) && NameOf(slots, a) == NameOf(slots, b) :: a == b
  }

  /** The pair of a table entry holds its slot in every later map, under the entry's own name. */
  lemma EntryHolds(ctx: Context, slots: SlotMap, b: Bss, pair: Pair, end: SlotMap)
    requires Injective(slots) && Eligible(ctx, pair)
    requires EntryOk(ctx, slots, b) && (b.network, b.radio) != pair
    requires Leads(Grant(slots, pair.1, pair.0, ctx.radios[pair.1].maxApBss).0, end)
    ensures Holds(ctx, end, (b.network, b.radio)) && NameOf(end, (b.network, b.radio)) == b.iface
  {
    var after := Grant(slots, pair.1, pair.0, ctx.radios[pair.1].maxApBss).0;
    EntryStaysOk(ctx, slots, b, pair);
    assert b.radio in after && b.network in after[b.radio];
  }

  /** Nothing on the table has the name a new pair's BSS gets, so placing it overwrites nothing. */
  lemma NameIsFresh(ctx: Context, p: Placing, visited: seq<Pair>, pair: Pair, slot: int, end: SlotMap)
    requires EntriesOk(ctx, p, visited) && pair !in visited && Eligible(ctx, pair)
    requires Grant(p.slots, pair.1, pair.0, ctx.radios[pair.1].maxApBss).1 == Some(slot)
    requires Leads(Grant(p.slots, pair.1, pair.0, ctx.radios[pair.1].maxApBss).0, end) && NamesApart(ctx, end)
    ensures IfaceName(pair.1, slot) !in p.bsses
  {
    var name := IfaceName(pair.1, slot);
    GrantResult(p.slots, pair.1, pair.0, ctx.radios[pair.1].maxApBss);
    assert Holds(ctx, end, pair) && NameOf(end, pair) == name;
    forall n | n in p.bsses ensures n != name {
      var b := p.bsses[n];
      assert (b.network, b.radio) in visited;
      EntryHolds(ctx, p.slots, b, pair, end);
      assert NameOf(end, (b.network, b.radio)) == n;
    }
  }

  lemma PlacedListsOk(ctx: Context, p: Placing, pair: Pair, slot: int)
    requires ListsOk(p) && Eligible(ctx, pair)
    requires Grant(p.slots, pair.1, pair.0, ctx.radios[pair.1].maxApBss).1 == Some(slot)
    requires IfaceName(pair.1, slot) !in p.bsses
    ensures ListsOk(PlaceOne(ctx, p, pair))
  {
  }

  lemma OtherPairOk(ctx: Context, p: Placing, pair: Pair, other: Pair)
    requires Injective(p.slots) && PairOk(ctx, p, other) && other != pair
    requires Eligible(ctx, pair)
    requires var slot := Grant(p.slots, pair.1, pair.0, ctx.radios[pair.1].maxApBss).1;
             slot.Some? ==> IfaceName(pair.1, slot.value) !in p.bsses
    ensures PairOk(ctx, PlaceOne(ctx, p, pair), other)
  {
    var q := PlaceOne(ctx, p, pair);
    SlotsStay(p.slots, pair.1, pair.0, ctx.radios[pair.1].maxApBss);
    if Placed(p, other) {
      var n :| n in p.bsses && p.bsses[n].network == other.0 && p.bsses[n].radio == other.1;
      assert q.bsses[n] == p.bsses[n];
    }
    if Placed(q, other) {
      var n :| n in q.bsses && q.bsses[n].network == other.0 && q.bsses[n].radio == other.1;
      assert q.bsses[n] == p.bsses[n];
    }
  }

  lemma NotYetPlaced(p: Placing, visited: seq<Pair>, pair: Pair)
    requires FromVisited(p, visited) && pair !in visited
    ensures !Placed(p, pair)
  {
    forall n | n in p.bsses ensures !(p.bsses[n].network == pair.0 && p.bsses[n].radio == pair.1) {
      assert (p.bsses[n].network, p.bsses[n].radio) in visited;
    }
  }

  lemma GrantedOk(ctx: Context, p: Placing, visited: seq<Pair>, pair: Pair, slot: int)
    requires PlacingOk(ctx, p, visited) && pair !in visited && Eligible(ctx, pair)
    requires Grant(p.slots, pair.1, pair.0, ctx.radios[pair.1].maxApBss).1 == Some(slot)
    requires IfaceName(pair.1, slot) !in p.bsses
    ensures PlacingOk(ctx, PlaceOne(ctx, p, pair), visited + [pair])
  {
    var q := PlaceOne(ctx, p, pair);
    GrantResult(p.slots, pair.1, pair.0, ctx.radios[pair.1].maxApBss);
    PlaceOneKeepsEntries(ctx, p, visited, pair);
    PlacedListsOk(ctx, p, pair, slot);
    assert PairOk(ctx, q, pair) by {
      assert q.bsses[IfaceName(pair.1, slot)].network == pair.0;
      assert Placed(q, pair);
    }
    forall other | other in visited ensures PairOk(ctx, q, other) {
      OtherPairOk(ctx, p, pair, other);
    }
  }

  lemma RefusedOk(ctx: Context, p: Placing, visited: seq<Pair>, pair: Pair)
    requires PlacingOk(ctx, p, visited) && pair !in visited && Eligible(ctx, pair)
    requires Grant(p.slots, pair.1, pair.0, ctx.radios[pair.1].maxApBss).1.None?
    ensures PlacingOk(ctx, PlaceOne(ctx, p, pair), visited + [pair])
  {
    var q := PlaceOne(ctx, p, pair);
    GrantResult(p.slots, pair.1, pair.0, ctx.radios[pair.1].maxApBss);
    PlaceOneKeepsEntries(ctx, p, visited, pair);
    assert PairOk(ctx, q, pair) by {
      NotYetPlaced(q, visited, pair);
    }
    forall other | other in visited ensures PairOk(ctx, q, other) {
      OtherPairOk(ctx, p, pair, other);
    }
  }

  lemma PlaceOneOk(ctx: Context, p: Placing, visited: seq<Pair>, pair: Pair, end: SlotMap)
    requires PlacingOk(ctx, p, visited) && pair !in visited
    requires Leads(PlaceOne(ctx, p, pair).slots, end) && NamesApart(ctx, end)
    ensures PlacingOk(ctx, PlaceOne(ctx, p, pair), visited + [pair])
  {
    if Eligible(ctx, pair) {
      var slot := Grant(p.slots, pair.1, pair.0, ctx.radios[pair.1].maxApBss).1;
      if slot.Some? {
        NameIsFresh(ctx, p, visited, pair, slot.value, end);
        GrantedOk(ctx, p, visited, pair, slot.value);
      } else {
        RefusedOk(ctx, p, visited, pair);
      }
    }
  }

  /** Placing keeps the tables whole when the slots it ends with name no two pairs alike. */
  lemma {:induction false} PlaceAllOk(ctx: Context, p: Placing, visited: seq<Pair>, pairs: seq<Pair>)
    requires PlacingOk(ctx, p, visited) && NamesApart(ctx, PlaceAll(ctx, p, pairs).slots)
    requires Distinct(pairs) && forall pair | pair in pairs :: pair !in visited
    ensures PlacingOk(ctx, PlaceAll(ctx, p, pairs), visited + pairs)
    decreases |pairs|
  {
    if pairs == [] {
      assert visited + pairs == visited;
    } else {
      var q := PlaceOne(ctx, p, pairs[0]);
      TailIsUnvisited(visited, pairs);
      PlaceOneKeepsEntries(ctx, p, visited, pairs[0]);
      PlaceAllKeepsSlots(ctx, q, pairs[1..]);
      PlaceOneOk(ctx, p, visited, pairs[0], PlaceAll(ctx, p, pairs).slots);
      PlaceAllOk(ctx, q, visited + [pairs[0]], pairs[1..]);
    }
  }

  // ---------------------------------------------------------- pairs visited

  lemma RowCovers(w: string, rs: seq<string>, pair: Pair)
    ensures pair in Row(w, rs) <==> pair.0 == w && pair.1 in rs
  {
    if pair.0 == w && pair.1 in rs {
      var i :| 0 <= i < |rs| && rs[i] == pair.1;
      assert Row(w, rs)[i] == pair;
    }
  }

  lemma {:induction false} PairIn(ws: seq<string>, rs: seq<string>, pair: Pair)
    ensures pair in Pairs(ws, rs) <==> pair.0 in ws && pair.1 in rs
  {
    if ws != [] {
      PairIn(ws[1..], rs, pair);
      RowCovers(ws[0], rs, pair);
      assert ws == [ws[0]] + ws[1..];
    }
  }

  lemma DistinctAppend<T>(a: seq<T>, b: seq<T>)
    requires Distinct(a) && Distinct(b) && forall x | x in a :: x !in b
    ensures Distinct(a + b)
  {
    forall i, j | 0 <= i < j < |a + b| ensures (a + b)[i] != (a + b)[j] {
      if i < |a| <= j {
        assert a[i] in a && b[j - |a|] in b;
      }
    }
  }

  lemma {:induction false} PairsDistinct(ws: seq<string>, rs: seq<string>)
    requires Distinct(ws) && Distinct(rs)
    ensures Distinct(Pairs(ws, rs))
  {
    if ws != [] {
      PairsDistinct(ws[1..], rs);
      forall pair | pair in Row(ws[0], rs) ensures pair !in Pairs(ws[1..], rs) {
        RowCovers(ws[0], rs, pair);
        PairIn(ws[1..], rs, pair);
      }
      DistinctAppend(Row(ws[0], rs), Pairs(ws[1..], rs));
    }
  }

  /** The planner visits every pair once. */
  lemma PairsCover(ws: seq<string>, rs: seq<string>)
    ensures forall pair: Pair :: pair in Pairs(ws, rs) <==> pair.0 in ws && pair.1 in rs
    ensures Distinct(ws) && Distinct(rs) ==> Distinct(Pairs(ws, rs))
  {
    forall pair: Pair ensures pair in Pairs(ws, rs) <==> pair.0 in ws && pair.1 in rs {
      PairIn(ws, rs, pair);
    }
    if Distinct(ws) && Distinct(rs) {
      PairsDistinct(ws, rs);
    }
  }

  // --------------------------------------------------------- a whole planning

  function Start(slots: SlotMap, cfg: WifiConfig, radios: Radios): Placing {
    Placing(Prune(slots, Live(cfg, radios)), map[], map[], [])
  }

  ghost predicate NothingPlaced(p: Placing) {
    Injective(p.slots) && p.bsses == map[] && p.links == map[] && p.refused == []
  }

  lemma NothingPlacedIsOk(ctx: Context, p: Placing)
    requires NothingPlaced(p)
    ensures PlacingOk(ctx, p, []) && RefusalsOk(ctx, p, [])
  {
  }

  lemma StartsEmpty(slots: SlotMap, cfg: WifiConfig, radios: Radios)
    requires Injective(slots)
    ensures NothingPlaced(Start(slots, cfg, radios))
    ensures Distinct(Visits(cfg, radios))
    ensures forall pair: Pair :: pair in Visits(cfg, radios) <==> pair.0 in cfg.networks && pair.1 in radios
  {
    PruneResult(slots, Live(cfg, radios));
    PairsCover(SortedKeys(cfg.networks.Keys), SortedKeys(radios.Keys));
  }

  /** The table of every plan is right, over every configuration, every injective slot map and any radios. */
  lemma PlaceForEntries(slots: SlotMap, cfg: WifiConfig, radios: Radios)
    requires Injective(slots)
    ensures EntriesOk(ContextOf(cfg, radios), PlaceFor(slots, cfg, radios), Visits(cfg, radios))
  {
    StartsEmpty(slots, cfg, radios);
    NothingPlacedIsOk(ContextOf(cfg, radios), Start(slots, cfg, radios));
    PlaceAllKeepsEntries(ContextOf(cfg, radios), Start(slots, cfg, radios), [], Visits(cfg, radios));
    assert [] + Visits(cfg, radios) == Visits(cfg, radios);
  }

  /** So are its refusals. */
  lemma PlaceForRefusals(slots: SlotMap, cfg: WifiConfig, radios: Radios)
    requires Injective(slots)
    ensures RefusalsOk(ContextOf(cfg, radios), PlaceFor(slots, cfg, radios), Visits(cfg, radios))
    ensures forall pair: Pair :: pair in Visits(cfg, radios) <==> pair.0 in cfg.networks && pair.1 in radios
  {
    StartsEmpty(slots, cfg, radios);
    NothingPlacedIsOk(ContextOf(cfg, radios), Start(slots, cfg, radios));
    PlaceAllKeepsRefusals(ContextOf(cfg, radios), Start(slots, cfg, radios), [], Visits(cfg, radios));
    assert [] + Visits(cfg, radios) == Visits(cfg, radios);
  }

  /** One plan keeps the slot of every network that is enabled on a radio's band. */
  lemma PlanKeepsLiveSlot(slots: SlotMap, cfg: WifiConfig, radios: Radios, network: string, radio: string)
    requires Injective(slots)
    requires network in SlotsOf(slots, radio)
    requires radio in radios && network in Live(cfg, radios)[radio]
    ensures Injective(PlaceFor(slots, cfg, radios).slots)
    ensures network in SlotsOf(PlaceFor(slots, cfg, radios).slots, radio)
    ensures SlotsOf(PlaceFor(slots, cfg, radios).slots, radio)[network] == SlotsOf(slots, radio)[network]
  {
    PruneResult(slots, Live(cfg, radios));
    PlaceAllKeepsSlots(ContextOf(cfg, radios), Start(slots, cfg, radios), Visits(cfg, radios));
    var start := Prune(slots, Live(cfg, radios));
    assert radio in start && network in start[radio];
  }

  /** And the plan is whole when no two of its pairs share a name. */
  lemma PlaceForOk(slots: SlotMap, cfg: WifiConfig, radios: Radios)
    requires Injective(slots) && NamesApart(ContextOf(cfg, radios), PlaceFor(slots, cfg, radios).slots)
    ensures PlacingOk(ContextOf(cfg, radios), PlaceFor(slots, cfg, radios), Visits(cfg, radios))
    ensures forall pair: Pair :: pair in Visits(cfg, radios) <==> pair.0 in cfg.networks && pair.1 in radios
  {
    StartsEmpty(slots, cfg, radios);
    NothingPlacedIsOk(ContextOf(cfg, radios), Start(slots, cfg, radios));
    PlaceAllOk(ContextOf(cfg, radios), Start(slots, cfg, radios), [], Visits(cfg, radios));
    assert [] + Visits(cfg, radios) == Visits(cfg, radios);
  }
}
