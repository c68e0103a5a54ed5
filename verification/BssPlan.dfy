/**
 * The wireless planner: `WifiDaemon.build_plan` and `_mld_anchor_radio` of gateway/sbegw/wifid.py. It
 * turns the wireless configuration and the probed radios into links, MLDs and BSSes.
 */
module BssPlan {
  import opened Wrappers
  import opened Texts
  import opened MacAddresses
  import opened InterfaceNames
  import opened BssSlots

  /** A probed radio; the hardware address belongs to the wiphy and may be shared. */
  datatype Caps = Caps(band: Option<string>, mac: Option<Mac>, apSupported: bool, maxApBss: int)

  type Radios = map<string, Caps>

  datatype Network = Network(enabled: bool, bands: set<string>, mlo: bool)

  datatype MldConfig = MldConfig(network: string, links: seq<string>, enabled: bool, mac: Option<Mac>)

  /** `disabledRadios` are the radios the operator switched off. */
  datatype WifiConfig = WifiConfig(
    networks: map<string, Network>,
    disabledRadios: set<string>,
    mlds: map<string, MldConfig>)

  datatype Mld = Mld(id: string, mac: Mac, network: string, radios: seq<string>)

  datatype MldLink = MldLink(id: string, mac: Mac, linkId: nat)

  datatype Bss = Bss(
    iface: string,
    radio: string,
    network: string,
    slot: int,
    bssid: Mac,
    mld: Option<MldLink>,
    netdev: Option<string>)

  type Pair = (string, string)

  datatype Plan = Plan(
    links: map<string, seq<Bss>>,
    mlds: map<string, Mld>,
    bsses: map<string, Bss>,
    refused: seq<Pair>)

  // ---------------------------------------------------------- radio order

  function BandRank(band: Option<string>): char {
    if band == Some("2g") then '0'
    else if band == Some("5g") then '1'
    else if band == Some("6g") then '2'
    else '9'
  }

  function RankOf(radios: Radios, radio: string): char {
    BandRank(if radio in radios then radios[radio].band else None)
  }

  /** Sort key (band rank, id): the rank is one character, so one text orders like the pair. */
  function RankKey(radios: Radios, radio: string): string {
    [RankOf(radios, radio)] + radio
  }

  /** The ids sorted lowest band first. */
  function ByBand(ids: set<string>, radios: Radios): (r: seq<string>)
  {
    var keys := SortedKeys((set id | id in ids :: RankKey(radios, id)));
    seq(|keys|, i requires 0 <= i < |keys| => if keys[i] == "" then "" else keys[i][1..])
  }

  /** Each place of the list stands for the key at that place. */
  lemma ByBandKeys(ids: set<string>, radios: Radios)
    ensures var keys := SortedKeys((set id | id in ids :: RankKey(radios, id)));
            && |ByBand(ids, radios)| == |keys|
            && forall i | 0 <= i < |keys| ::
                 ByBand(ids, radios)[i] in ids && RankKey(radios, ByBand(ids, radios)[i]) == keys[i]
  {
    var keySet := set id | id in ids :: RankKey(radios, id);
    var keys := SortedKeys(keySet);
    var r := ByBand(ids, radios);
    forall i | 0 <= i < |keys| ensures r[i] in ids && RankKey(radios, r[i]) == keys[i] {
      assert keys[i] in keySet;
      var id :| id in ids && keys[i] == RankKey(radios, id);
      assert keys[i][1..] == id;
    }
  }

  lemma ByBandSorted(ids: set<string>, radios: Radios)
    ensures var r := ByBand(ids, radios);
            forall i, j | 0 <= i < j < |r| :: Leq(RankKey(radios, r[i]), RankKey(radios, r[j]))
  {
    ByBandKeys(ids, radios);
  }

  lemma ByBandLists(ids: set<string>, radios: Radios)
    ensures Distinct(ByBand(ids, radios))
    ensures forall id :: id in ByBand(ids, radios) <==> id in ids
    ensures forall i, j | 0 <= i < j < |ByBand(ids, radios)| ::
              RankOf(radios, ByBand(ids, radios)[i]) <= RankOf(radios, ByBand(ids, radios)[j])
  {
    var keySet := set id | id in ids :: RankKey(radios, id);
    var keys := SortedKeys(keySet);
    var r := ByBand(ids, radios);
    ByBandKeys(ids, radios);
    forall id | id in ids ensures id in r {
      assert RankKey(radios, id) in keySet;
      var i :| 0 <= i < |keys| && keys[i] == RankKey(radios, id);
      assert keys[i][1..] == id && r[i] == id;
    }
  }

  /** The radio whose interface name a whole MLD borrows: lowest band, then id. */
  function AnchorRadio(mld: Mld, radios: Radios): string {
    var order := ByBand((set r | r in mld.radios), radios);
    if order == [] then "" else order[0]
  }

  /** The anchor is one of the MLD's radios, of the lowest band among them. */
  lemma AnchorIsLowestBand(mld: Mld, radios: Radios)
    requires mld.radios != []
    ensures AnchorRadio(mld, radios) in mld.radios
    ensures forall r | r in mld.radios :: RankOf(radios, AnchorRadio(mld, radios)) <= RankOf(radios, r)
  {
    var ids := set r | r in mld.radios;
    var order := ByBand(ids, radios);
    ByBandLists(ids, radios);
    assert mld.radios[0] in ids && mld.radios[0] in order;
    assert order[0] in order;
    forall r | r in mld.radios ensures RankOf(radios, order[0]) <= RankOf(radios, r) {
      assert r in ids && r in order;
      var i :| 0 <= i < |order| && order[i] == r;
    }
  }

  /** Some radio of the MLD is of the band. */
  predicate HasBand(mld: Mld, radios: Radios, band: string) {
    exists r | r in mld.radios :: r in radios && radios[r].band == Some(band)
  }

  /** So a 2.4 GHz radio is the anchor if there is one, else a 5 GHz radio, else a 6 GHz radio. */
  lemma AnchorBand(mld: Mld, radios: Radios)
    requires mld.radios != [] && forall r | r in mld.radios :: r in radios
    ensures AnchorRadio(mld, radios) in radios
    ensures var band := radios[AnchorRadio(mld, radios)].band;
            && (HasBand(mld, radios, "2g") ==> band == Some("2g"))
            && (!HasBand(mld, radios, "2g") && HasBand(mld, radios, "5g") ==> band == Some("5g"))
            && (!HasBand(mld, radios, "2g") && !HasBand(mld, radios, "5g") && HasBand(mld, radios, "6g") ==>
                  band == Some("6g"))
  {
    AnchorIsLowestBand(mld, radios);
    assert AnchorRadio(mld, radios) in mld.radios;
  }

  // -------------------------------------------------------------- ordinals

  function MacOf(caps: Caps): Mac {
    if caps.mac.Some? then caps.mac.value else DEFAULT_MAC
  }

  function Macs(radios: Radios): map<string, Mac> {
    map r | r in radios :: MacOf(radios[r])
  }

  /** The numbers given so far, and the next one for each address. */
  datatype Numbering<K(==)> = Numbering(ordinals: map<string, nat>, seen: map<K, nat>)

  function NumberOne<K>(n: Numbering<K>, radio: string, mac: K): Numbering<K> {
    var ordinal := if mac in n.seen then n.seen[mac] else 0;
    Numbering(n.ordinals[radio := ordinal], n.seen[mac := ordinal + 1])
  }

  function NumberFrom<K>(order: seq<string>, macs: map<string, K>, n: Numbering<K>): Numbering<K>
    requires forall r | r in order :: r in macs
  {
    if order == [] then n
    else NumberFrom(order[1..], macs, NumberOne(n, order[0], macs[order[0]]))
  }

  function Ordinals(radios: Radios): map<string, nat> {
    ByBandLists(radios.Keys, radios);
    NumberFrom(ByBand(radios.Keys, radios), Macs(radios), Numbering(map[], map[])).ordinals
  }

  /** Number radios in the order given, counting separately for each address. */
  method NumberInOrder<K(==)>(order: seq<string>, macs: map<string, K>) returns (ordinals: map<string, nat>)
    requires forall r | r in order :: r in macs
    ensures ordinals == NumberFrom(order, macs, Numbering(map[], map[])).ordinals
  {
    ordinals := map[];
    var seen: map<K, nat> := map[];
    ghost var all := NumberFrom(order, macs, Numbering(map[], map[]));
    for i := 0 to |order|
      invariant NumberFrom(order[i..], macs, Numbering(ordinals, seen)) == all
    {
      assert order[i] in order && order[i..][1..] == order[i + 1..];
      var mac := macs[order[i]];
      var ordinal := if mac in seen then seen[mac] else 0;
      ordinals := ordinals[order[i] := ordinal];
      seen := seen[mac := ordinal + 1];
    }
  }

  predicate NumberingOk<K>(macs: map<string, K>, n: Numbering<K>) {
    && n.ordinals.Keys <= macs.Keys
    && (forall r | r in n.ordinals :: macs[r] in n.seen && n.ordinals[r] < n.seen[macs[r]])
    && (forall m | m in n.seen :: n.seen[m] <= |n.ordinals|)
    && NoneShare(macs, n.ordinals)
  }

  /** No two radios of one address have one number. */
  predicate NoneShare<K(==)>(macs: map<string, K>, ordinals: map<string, nat>)
    requires ordinals.Keys <= macs.Keys
  {
    forall r, q | r in ordinals && q in ordinals && r != q && macs[r] == macs[q] :: ordinals[r] != ordinals[q]
  }

  lemma NumberOneOk<K>(macs: map<string, K>, n: Numbering<K>, radio: string)
    requires NumberingOk(macs, n) && radio in macs && radio !in n.ordinals
    ensures NumberingOk(macs, NumberOne(n, radio, macs[radio]))
  {
    var next := NumberOne(n, radio, macs[radio]);
    assert next.ordinals.Keys == n.ordinals.Keys + {radio};
    assert |next.ordinals| == |n.ordinals| + 1;
    OthersKeepNumbers(macs, n, radio);
  }

  lemma OthersKeepNumbers<K>(macs: map<string, K>, n: Numbering<K>, radio: string)
    requires NumberingOk(macs, n) && radio in macs && radio !in n.ordinals
    ensures var next := NumberOne(n, radio, macs[radio]);
            && next.ordinals.Keys <= macs.Keys && NoneShare(macs, next.ordinals)
            && forall r | r in next.ordinals :: macs[r] in next.seen && next.ordinals[r] < next.seen[macs[r]]
  {
  }

  lemma {:induction false} NumberFromOk<K>(order: seq<string>, macs: map<string, K>, n: Numbering<K>)
    requires forall r | r in order :: r in macs && r !in n.ordinals
    requires Distinct(order) && NumberingOk(macs, n)
    ensures NumberingOk(macs, NumberFrom(order, macs, n))
    decreases |order|
  {
    if order != [] {
      NumberOneOk(macs, n, order[0]);
      FirstIsApart(order);
      NumberFromOk(order[1..], macs, NumberOne(n, order[0], macs[order[0]]));
    }
  }

  lemma {:induction false} NumberFromCovers<K>(order: seq<string>, macs: map<string, K>, n: Numbering<K>, r: string)
    requires forall q | q in order :: q in macs
    ensures r in NumberFrom(order, macs, n).ordinals <==> r in n.ordinals || r in order
    decreases |order|
  {
    if order != [] {
      assert order == [order[0]] + order[1..];
      NumberFromCovers(order[1..], macs, NumberOne(n, order[0], macs[order[0]]), r);
    }
  }

  /** Radios that share a MAC get distinct ordinals, each below the number of radios. */
  lemma OrdinalsDistinct(radios: Radios)
    ensures Ordinals(radios).Keys == radios.Keys
    ensures forall r | r in radios :: Ordinals(radios)[r] < |radios|
    ensures NoneShare(Macs(radios), Ordinals(radios))
  {
    ByBandLists(radios.Keys, radios);
    var order := ByBand(radios.Keys, radios);
    NumberFromOk(order, Macs(radios), Numbering(map[], map[]));
    forall r ensures r in Ordinals(radios) <==> r in radios {
      NumberFromCovers(order, Macs(radios), Numbering(map[], map[]), r);
    }
    assert Ordinals(radios).Keys == radios.Keys;
    assert |Ordinals(radios)| == |Ordinals(radios).Keys| == |radios|;
  }

  // ------------------------------------------------------------------ MLDs

  function OnBands(network: Network, caps: Caps): bool {
    caps.band.Some? && caps.band.value in network.bands
  }

  function RadiosOn(ids: seq<string>, radios: Radios, network: Network): seq<string> {
    if ids == [] then []
    else
      (if ids[0] in radios && OnBands(network, radios[ids[0]]) then [ids[0]] else [])
      + RadiosOn(ids[1..], radios, network)
  }

  /** Derive an MLD for a network that asks for MLO and has none declared. */
  function DeclareOne(w: string, cfg: WifiConfig, radios: Radios,
                      declared: map<string, MldConfig>): map<string, MldConfig>
    requires w in cfg.networks
  {
    var network := cfg.networks[w];
    if !network.mlo || !network.enabled then declared
    else if exists m | m in declared.Values :: m.network == w then declared
    else declared["mlo-" + w := MldConfig(w, RadiosOn(SortedKeys(radios.Keys), radios, network), true, None)]
  }

  function DeclareFrom(ids: seq<string>, cfg: WifiConfig, radios: Radios,
                       declared: map<string, MldConfig>): map<string, MldConfig>
    requires forall w | w in ids :: w in cfg.networks
    decreases |ids|
  {
    if ids == [] then declared else DeclareFrom(ids[1..], cfg, radios, DeclareOne(ids[0], cfg, radios, declared))
  }

  function Declared(cfg: WifiConfig, radios: Radios): map<string, MldConfig> {
    DeclareFrom(SortedKeys(cfg.networks.Keys), cfg, radios, cfg.mlds)
  }

  function Present(links: seq<string>, radios: Radios): (r: seq<string>)
    ensures forall id :: id in r <==> id in links && id in radios
  {
    if links == [] then []
    else (if links[0] in radios then [links[0]] else []) + Present(links[1..], radios)
  }

  /** The MLD that declaration number `index` starts, if it has two radios present and an address to derive from. */
  function StartMld(id: string, index: nat, config: MldConfig, radios: Radios): (r: Option<Mld>)
    ensures r.Some? ==> r.value.id == id && r.value.network == config.network && |r.value.radios| >= 2
  {
    var present := Present(config.links, radios);
    if !config.enabled || |present| < 2 then None
    else
      var ids := set r | r in present;
      assert present[0] in ids;
      var primary := radios[Least(ids)].mac;
      if primary.None? then None
      else
        var mac := if config.mac.Some? then config.mac.value else MldMac(primary.value, index);
        Some(Mld(id, mac, config.network, present))
  }

  datatype MldState = MldState(mlds: map<string, Mld>, byNetwork: map<string, Mld>)

  function StartOne(id: string, index: nat, config: MldConfig, radios: Radios, s: MldState): MldState {
    var mld := StartMld(id, index, config, radios);
    if mld.None? then s
    else
      MldState(s.mlds[id := mld.value],
               if mld.value.network in s.byNetwork then s.byNetwork else s.byNetwork[mld.value.network := mld.value])
  }

  function MldsFrom(ids: seq<string>, index: nat, declared: map<string, MldConfig>, radios: Radios,
                    s: MldState): MldState
    requires forall id | id in ids :: id in declared
    decreases |ids|
  {
    if ids == [] then s
    else MldsFrom(ids[1..], index + 1, declared, radios, StartOne(ids[0], index, declared[ids[0]], radios, s))
  }

  function Mlds(cfg: WifiConfig, radios: Radios): MldState {
    var declared := Declared(cfg, radios);
    MldsFrom(SortedKeys(declared.Keys), 0, declared, radios, MldState(map[], map[]))
  }

  lemma DeclareStep(ids: seq<string>, i: nat, cfg: WifiConfig, radios: Radios, declared: map<string, MldConfig>)
    requires i < |ids| && forall w | w in ids :: w in cfg.networks
    ensures ids[i] in cfg.networks
    ensures DeclareFrom(ids[i..], cfg, radios, declared)
         == DeclareFrom(ids[i + 1..], cfg, radios, DeclareOne(ids[i], cfg, radios, declared))
  {
    assert ids[i] in ids && ids[i..][1..] == ids[i + 1..];
  }

  method DeclareMlds(cfg: WifiConfig, radios: Radios) returns (declared: map<string, MldConfig>)
    ensures declared == Declared(cfg, radios)
  {
    declared := cfg.mlds;
    var ids := SortedKeys(cfg.networks.Keys);
    ghost var all := Declared(cfg, radios);
    for i := 0 to |ids|
      invariant DeclareFrom(ids[i..], cfg, radios, declared) == all
    {
      DeclareStep(ids, i, cfg, radios, declared);
      declared := DeclareOne(ids[i], cfg, radios, declared);
    }
  }

  method StartMlds(cfg: WifiConfig, radios: Radios) returns (s: MldState)
    ensures s == Mlds(cfg, radios)
  {
    var declared := DeclareMlds(cfg, radios);
    var ids := SortedKeys(declared.Keys);
    s := MldState(map[], map[]);
    ghost var all := MldsFrom(ids, 0, declared, radios, s);
    for i := 0 to |ids|
      invariant MldsFrom(ids[i..], i, declared, radios, s) == all
    {
      assert ids[i] in ids && ids[i..][1..] == ids[i + 1..];
      s := StartOne(ids[i], i, declared[ids[i]], radios, s);
    }
  }

  predicate MldStateOk(s: MldState, declared: map<string, MldConfig>, ids: seq<string>) {
    && (forall id | id in s.mlds ::
          id in declared && id !in ids && s.mlds[id].id == id && |s.mlds[id].radios| >= 2
          && s.mlds[id].network == declared[id].network && s.mlds[id].network in s.byNetwork)
    && (forall w | w in s.byNetwork ::
          var m := s.byNetwork[w]; m.network == w && m.id in s.mlds && s.mlds[m.id] == m)
  }

  lemma {:induction false} MldsFromOk(ids: seq<string>, index: nat, declared: map<string, MldConfig>, radios: Radios,
                                      s: MldState)
    requires forall id | id in ids :: id in declared
    requires Distinct(ids) && MldStateOk(s, declared, ids)
    ensures MldStateOk(MldsFrom(ids, index, declared, radios, s), declared, [])
    decreases |ids|
  {
    if ids != [] {
      assert ids == [ids[0]] + ids[1..];
      var next := StartOne(ids[0], index, declared[ids[0]], radios, s);
      assert ids[0] !in ids[1..];
      assert MldStateOk(next, declared, ids[1..]);
      MldsFromOk(ids[1..], index + 1, declared, radios, next);
    }
  }

  /** Every started MLD serves some network, and the one chosen for a network is a started MLD of that network. */
  lemma MldsServeTheirNetworks(cfg: WifiConfig, radios: Radios)
    ensures MldStateOk(Mlds(cfg, radios), Declared(cfg, radios), [])
  {
    var declared := Declared(cfg, radios);
    MldsFromOk(SortedKeys(declared.Keys), 0, declared, radios, MldState(map[], map[]));
  }

  // ------------------------------------------------------------- placement

  function Live(cfg: WifiConfig, radios: Radios): map<string, set<string>> {
    map r | r in radios :: set w | w in cfg.networks && cfg.networks[w].enabled && OnBands(cfg.networks[w], radios[r])
  }

  datatype Context = Context(cfg: WifiConfig, radios: Radios, ordinals: map<string, nat>, mldOf: map<string, Mld>)

  datatype Placing = Placing(slots: SlotMap, bsses: map<string, Bss>, links: map<string, seq<Bss>>, refused: seq<Pair>)

  /** An enabled network on an enabled, AP-capable radio of one of its bands. */
  predicate Eligible(ctx: Context, pair: Pair) {
    && pair.0 in ctx.cfg.networks && pair.1 in ctx.radios
    && ctx.cfg.networks[pair.0].enabled
    && OnBands(ctx.cfg.networks[pair.0], ctx.radios[pair.1])
    && pair.1 !in ctx.cfg.disabledRadios
    && ctx.radios[pair.1].apSupported
  }

  function IndexOf(radios: seq<string>, radio: string): (i: nat)
    requires radio in radios
    ensures i < |radios| && radios[i] == radio
  {
    if radios[|radios| - 1] == radio then |radios| - 1 else IndexOf(radios[..|radios| - 1], radio)
  }

  function MakeBss(ctx: Context, pair: Pair, slot: int): Bss
    requires pair.1 in ctx.radios
  {
    var (w, r) := pair;
    var ordinal := if r in ctx.ordinals then ctx.ordinals[r] else 0;
    var linked := w in ctx.mldOf && r in ctx.mldOf[w].radios;
    Bss(IfaceName(r, slot), r, w, slot, Bssid(MacOf(ctx.radios[r]), slot, ordinal),
        if linked then Some(MldLink(ctx.mldOf[w].id, ctx.mldOf[w].mac, IndexOf(ctx.mldOf[w].radios, r))) else None,
        if linked then Some(IfaceName(AnchorRadio(ctx.mldOf[w], ctx.radios), slot)) else None)
  }

  function LinkOf(links: map<string, seq<Bss>>, radio: string): seq<Bss> {
    if radio in links then links[radio] else []
  }

  function PlaceOne(ctx: Context, p: Placing, pair: Pair): Placing {
    if !Eligible(ctx, pair) then p
    else
      var (w, r) := pair;
      var (slots, slot) := Grant(p.slots, r, w, ctx.radios[r].maxApBss);
      if slot.None? then p.(slots := slots, refused := p.refused + [pair])
      else
        var bss := MakeBss(ctx, pair, slot.value);
        p.(slots := slots, bsses := p.bsses[bss.iface := bss], links := p.links[r := LinkOf(p.links, r) + [bss]])
  }

  function PlaceAll(ctx: Context, p: Placing, pairs: seq<Pair>): Placing
    decreases |pairs|
  {
    if pairs == [] then p else PlaceAll(ctx, PlaceOne(ctx, p, pairs[0]), pairs[1..])
  }

  function Row(w: string, rs: seq<string>): (r: seq<Pair>)
    ensures |r| == |rs| && forall i | 0 <= i < |rs| :: r[i] == (w, rs[i])
  {
    if rs == [] then [] else [(w, rs[0])] + Row(w, rs[1..])
  }

  function Pairs(ws: seq<string>, rs: seq<string>): seq<Pair> {
    if ws == [] then [] else Row(ws[0], rs) + Pairs(ws[1..], rs)
  }

  function ContextOf(cfg: WifiConfig, radios: Radios): Context {
    Context(cfg, radios, Ordinals(radios), Mlds(cfg, radios).byNetwork)
  }

  /** Every (network, radio) pair, in the order the planner visits them. */
  function Visits(cfg: WifiConfig, radios: Radios): seq<Pair> {
    Pairs(SortedKeys(cfg.networks.Keys), SortedKeys(radios.Keys))
  }

  /** What planning a configuration leaves: the slot map and everything placed. */
  function PlaceFor(slots: SlotMap, cfg: WifiConfig, radios: Radios): Placing {
    PlaceAll(ContextOf(cfg, radios), Placing(Prune(slots, Live(cfg, radios)), map[], map[], []), Visits(cfg, radios))
  }

  function PlanFor(slots: SlotMap, cfg: WifiConfig, radios: Radios): Plan {
    var p := PlaceFor(slots, cfg, radios);
    Plan(p.links, Mlds(cfg, radios).mlds, p.bsses, p.refused)
  }

  lemma {:induction false} PlaceAllAppend(ctx: Context, p: Placing, first: seq<Pair>, second: seq<Pair>)
    ensures PlaceAll(ctx, p, first + second) == PlaceAll(ctx, PlaceAll(ctx, p, first), second)
    decreases |first|
  {
    if first == [] {
      assert first + second == second;
    } else {
      assert (first + second)[1..] == first[1..] + second;
      PlaceAllAppend(ctx, PlaceOne(ctx, p, first[0]), first[1..], second);
    }
  }

  /** Place one network on every radio in turn. */
  method PlaceNetwork(allocator: SlotAllocator, ctx: Context, w: string, rs: seq<string>,
                      bsses0: map<string, Bss>, links0: map<string, seq<Bss>>, refused0: seq<Pair>)
    returns (bsses: map<string, Bss>, links: map<string, seq<Bss>>, refused: seq<Pair>)
    modifies allocator
    ensures Placing(allocator.slots, bsses, links, refused) ==
            PlaceAll(ctx, Placing(old(allocator.slots), bsses0, links0, refused0), Row(w, rs))
  {
    bsses, links, refused := bsses0, links0, refused0;
    var row := Row(w, rs);
    ghost var all := PlaceAll(ctx, Placing(allocator.slots, bsses, links, refused), row);
    for j := 0 to |row|
      invariant PlaceAll(ctx, Placing(allocator.slots, bsses, links, refused), row[j..]) == all
    {
      var pair := row[j];
      assert row[j..][1..] == row[j + 1..];
      ghost var next := PlaceOne(ctx, Placing(allocator.slots, bsses, links, refused), pair);
      if Eligible(ctx, pair) {
        var slot := allocator.Slot(pair.1, w, ctx.radios[pair.1].maxApBss);
        if slot.None? {
          refused := refused + [pair];
        } else {
          var bss := MakeBss(ctx, pair, slot.value);
          bsses := bsses[bss.iface := bss];
          links := links[pair.1 := LinkOf(links, pair.1) + [bss]];
        }
      }
      assert next == Placing(allocator.slots, bsses, links, refused);
    }
  }

  /** The planner: prune the slots, then place every network on every radio, filling the tables in place. */
  method BuildPlan(allocator: SlotAllocator, cfg: WifiConfig, radios: Radios) returns (plan: Plan)
    modifies allocator
    ensures plan == PlanFor(old(allocator.slots), cfg, radios)
    ensures allocator.slots == PlaceFor(old(allocator.slots), cfg, radios).slots
  {
    ByBandLists(radios.Keys, radios);
    var ordinals := NumberInOrder(ByBand(radios.Keys, radios), Macs(radios));
    var mlds := StartMlds(cfg, radios);
    allocator.PruneTo(Live(cfg, radios));
    var ctx := Context(cfg, radios, ordinals, mlds.byNetwork);

    var bsses: map<string, Bss> := map[];
    var links: map<string, seq<Bss>> := map[];
    var refused: seq<Pair> := [];
    var ws, rs := SortedKeys(cfg.networks.Keys), SortedKeys(radios.Keys);
    ghost var final := PlaceAll(ctx, Placing(allocator.slots, bsses, links, refused), Pairs(ws, rs));
    for i := 0 to |ws|
      invariant PlaceAll(ctx, Placing(allocator.slots, bsses, links, refused), Pairs(ws[i..], rs)) == final
    {
      assert ws[i..][1..] == ws[i + 1..];
      PlaceAllAppend(ctx, Placing(allocator.slots, bsses, links, refused), Row(ws[i], rs), Pairs(ws[i + 1..], rs));
      bsses, links, refused := PlaceNetwork(allocator, ctx, ws[i], rs, bsses, links, refused);
    }
    plan := Plan(links, mlds.mlds, bsses, refused);
  }
}
