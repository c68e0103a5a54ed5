/**
 * Multi-link devices: which ones are derived from SSIDs, over which radios, when the ones declared by hand are
 * honoured, and what addresses they get; gateway/sbegw/wifid.py.
 */
module BssMlds {
  import opened Wrappers
  import opened Texts
  import opened MacAddresses
  import opened InterfaceNames
  import opened BssSlots
  import opened BssPlan
  import opened BssOrdinals
  import opened BssPlanProofs

  type Declarations = map<string, MldConfig>

  /** The SSID is enabled and asks for a multi-link device. */
  predicate Asks(cfg: WifiConfig, w: string) {
    w in cfg.networks && cfg.networks[w].enabled && cfg.networks[w].mlo
  }

  predicate Serves(declared: Declarations, w: string) {
    exists k | k in declared :: declared[k].network == w
  }

  /** What is derived for an SSID: enabled, without an address, over exactly the radios of the SSID's bands. */
  ghost predicate IsDerived(cfg: WifiConfig, radios: Radios, w: string, m: MldConfig) {
    && w in cfg.networks && m.network == w && m.enabled && m.mac.None? && Distinct(m.links)
    && forall r :: r in m.links <==>
         r in radios && radios[r].band.Some? && radios[r].band.value in cfg.networks[w].bands
  }

  lemma {:induction false} RadiosOnHolds(ids: seq<string>, radios: Radios, network: Network, r: string)
    ensures r in RadiosOn(ids, radios, network) <==> r in ids && r in radios && OnBands(network, radios[r])
  {
    if ids != [] {
      RadiosOnHolds(ids[1..], radios, network, r);
      assert ids == [ids[0]] + ids[1..];
    }
  }

  lemma {:induction false} RadiosOnDistinct(ids: seq<string>, radios: Radios, network: Network)
    requires Distinct(ids)
    ensures Distinct(RadiosOn(ids, radios, network))
  {
    if ids != [] {
      FirstIsApart(ids);
      RadiosOnDistinct(ids[1..], radios, network);
      RadiosOnHolds(ids[1..], radios, network, ids[0]);
    }
  }

  lemma DerivedOverBands(cfg: WifiConfig, radios: Radios, w: string)
    requires w in cfg.networks
    ensures IsDerived(cfg, radios, w,
                      MldConfig(w, RadiosOn(SortedKeys(radios.Keys), radios, cfg.networks[w]), true, None))
  {
    RadiosOnDistinct(SortedKeys(radios.Keys), radios, cfg.networks[w]);
    forall r ensures r in RadiosOn(SortedKeys(radios.Keys), radios, cfg.networks[w]) <==>
                     r in radios && OnBands(cfg.networks[w], radios[r])
    {
      RadiosOnHolds(SortedKeys(radios.Keys), radios, cfg.networks[w], r);
    }
  }

  lemma ServesIffValue(declared: Declarations, w: string)
    ensures (exists m | m in declared.Values :: m.network == w) <==> Serves(declared, w)
  {
    if Serves(declared, w) {
      var k :| k in declared && declared[k].network == w;
      assert declared[k] in declared.Values;
    }
    if exists m :: m in declared.Values && m.network == w {
      var m :| m in declared.Values && m.network == w;
      var k :| k in declared && declared[k] == m;
    }
  }

  /** Deriving for one SSID: its own entry, and only when it asks and nothing serves it yet. */
  lemma DeclareOneIs(w: string, cfg: WifiConfig, radios: Radios, declared: Declarations)
    requires w in cfg.networks
    ensures var after := DeclareOne(w, cfg, radios, declared);
            if Asks(cfg, w) && !Serves(declared, w) then
              && after.Keys == declared.Keys + {"mlo-" + w} && IsDerived(cfg, radios, w, after["mlo-" + w])
              && forall k | k in declared && k != "mlo-" + w :: after[k] == declared[k]
            else after == declared
  {
    ServesIffValue(declared, w);
    DerivedOverBands(cfg, radios, w);
  }

  /** Derived ids tell their SSIDs apart. */
  lemma DerivedIds(v: string, w: string)
    ensures "mlo-" + v == "mlo-" + w <==> v == w
  {
    AppendInjective("mlo-", v, w);
  }

  // ------------------------------------------------ after all SSIDs are seen

  /**
   * Each id is as it was declared by hand, or derived for an SSID that asks, is among those seen and is served by
   * nothing declared by hand, or derived for one whose MLD declared by hand was overwritten.
   */
  ghost predicate EntryFrom(cfg: WifiConfig, radios: Radios, seen: seq<string>, now: Declarations, k: string) {
    k in now ==>
      || (k in cfg.mlds && now[k] == cfg.mlds[k])
      || (now[k].network in seen && Asks(cfg, now[k].network) && k == "mlo-" + now[k].network
          && IsDerived(cfg, radios, now[k].network, now[k]))
  }

  ghost predicate DeclaredOk(cfg: WifiConfig, radios: Radios, seen: seq<string>, now: Declarations) {
    && cfg.mlds.Keys <= now.Keys
    && (forall k | k in now :: EntryFrom(cfg, radios, seen, now, k))
    && (forall w | w in seen && Asks(cfg, w) && !Serves(cfg.mlds, w) ::
          "mlo-" + w in now && IsDerived(cfg, radios, w, now["mlo-" + w]))
  }

  /** What serves an SSID not seen yet was declared by hand. */
  lemma UnseenIsServedByHand(cfg: WifiConfig, radios: Radios, seen: seq<string>, now: Declarations, w: string)
    requires DeclaredOk(cfg, radios, seen, now) && w !in seen
    ensures Serves(now, w) ==> Serves(cfg.mlds, w)
  {
    if Serves(now, w) {
      var k :| k in now && now[k].network == w;
      assert EntryFrom(cfg, radios, seen, now, k);
    }
  }

  lemma DeclareOneKeepsOk(cfg: WifiConfig, radios: Radios, seen: seq<string>, now: Declarations, w: string)
    requires DeclaredOk(cfg, radios, seen, now) && w !in seen && w in cfg.networks
    ensures DeclaredOk(cfg, radios, seen + [w], DeclareOne(w, cfg, radios, now))
  {
    var after := DeclareOne(w, cfg, radios, now);
    DeclareOneIs(w, cfg, radios, now);
    UnseenIsServedByHand(cfg, radios, seen, now, w);
    forall k | k in after ensures EntryFrom(cfg, radios, seen + [w], after, k) {
      if k in now {
        assert EntryFrom(cfg, radios, seen, now, k);
      }
    }
    forall v | v in seen + [w] && Asks(cfg, v) && !Serves(cfg.mlds, v)
      ensures "mlo-" + v in after && IsDerived(cfg, radios, v, after["mlo-" + v])
    {
      DerivedIds(v, w);
    }
  }

  lemma {:induction false} DeclareFromOk(ids: seq<string>, cfg: WifiConfig, radios: Radios, seen: seq<string>,
                                         now: Declarations)
    requires Distinct(ids) && (forall w | w in ids :: w in cfg.networks && w !in seen)
    requires DeclaredOk(cfg, radios, seen, now)
    ensures DeclaredOk(cfg, radios, seen + ids, DeclareFrom(ids, cfg, radios, now))
    decreases |ids|
  {
    if ids == [] {
      assert seen + ids == seen;
    } else {
      FirstIsApart(ids);
      DeclareOneKeepsOk(cfg, radios, seen, now, ids[0]);
      DeclareFromOk(ids[1..], cfg, radios, seen + [ids[0]], DeclareOne(ids[0], cfg, radios, now));
      assert seen + [ids[0]] + ids[1..] == seen + ids;
    }
  }

  lemma DeclaredIsOk(cfg: WifiConfig, radios: Radios)
    ensures DeclaredOk(cfg, radios, SortedKeys(cfg.networks.Keys), Declared(cfg, radios))
  {
    var ids := SortedKeys(cfg.networks.Keys);
    DeclareFromOk(ids, cfg, radios, [], cfg.mlds);
    assert [] + ids == ids;
  }

  /**
   * An SSID that asks for a multi-link device and has none declared by hand gets one over exactly the radios of its
   * bands. Whatever else is declared is as it was by hand, or derived likewise.
   */
  lemma DerivedMlds(cfg: WifiConfig, radios: Radios)
    ensures forall w | Asks(cfg, w) && !Serves(cfg.mlds, w) ::
              "mlo-" + w in Declared(cfg, radios) && IsDerived(cfg, radios, w, Declared(cfg, radios)["mlo-" + w])
    ensures forall k | k in Declared(cfg, radios) ::
              || (k in cfg.mlds && Declared(cfg, radios)[k] == cfg.mlds[k])
              || exists w :: Asks(cfg, w) && k == "mlo-" + w && IsDerived(cfg, radios, w, Declared(cfg, radios)[k])
  {
    DeclaredIsOk(cfg, radios);
    forall k | k in Declared(cfg, radios)
      ensures || (k in cfg.mlds && Declared(cfg, radios)[k] == cfg.mlds[k])
              || exists w :: Asks(cfg, w) && k == "mlo-" + w && IsDerived(cfg, radios, w, Declared(cfg, radios)[k])
    {
      assert EntryFrom(cfg, radios, SortedKeys(cfg.networks.Keys), Declared(cfg, radios), k);
    }
  }

  // --------------------------------------------- the ones declared by hand

  ghost predicate KeptByHand(cfg: WifiConfig, now: Declarations) {
    forall k | k in cfg.mlds :: k in now && now[k] == cfg.mlds[k]
  }

  /** No SSID without a multi-link device of its own would derive one under an id used by hand. */
  ghost predicate IdsLeftAlone(cfg: WifiConfig) {
    forall w | Asks(cfg, w) && "mlo-" + w in cfg.mlds :: Serves(cfg.mlds, w)
  }

  lemma {:induction false} DeclareFromKeeps(ids: seq<string>, cfg: WifiConfig, radios: Radios, now: Declarations)
    requires forall w | w in ids :: w in cfg.networks
    requires IdsLeftAlone(cfg) && KeptByHand(cfg, now)
    ensures KeptByHand(cfg, DeclareFrom(ids, cfg, radios, now))
    decreases |ids|
  {
    if ids != [] {
      var w := ids[0];
      DeclareOneIs(w, cfg, radios, now);
      if Serves(cfg.mlds, w) {
        var k :| k in cfg.mlds && cfg.mlds[k].network == w;
        assert now[k].network == w;
      }
      DeclareFromKeeps(ids[1..], cfg, radios, DeclareOne(w, cfg, radios, now));
    }
  }

  /**
   * Multi-link devices declared by hand are honoured exactly when no SSID that has none of its own derives one under
   * the id of one of them.
   */
  lemma ByHandIsHonouredIff(cfg: WifiConfig, radios: Radios)
    ensures KeptByHand(cfg, Declared(cfg, radios)) <==> IdsLeftAlone(cfg)
  {
    if IdsLeftAlone(cfg) {
      DeclareFromKeeps(SortedKeys(cfg.networks.Keys), cfg, radios, cfg.mlds);
    }
    DerivedMlds(cfg, radios);
    forall w | Asks(cfg, w) && "mlo-" + w in cfg.mlds && !Serves(cfg.mlds, w)
      ensures !KeptByHand(cfg, Declared(cfg, radios))
    {
      var id := "mlo-" + w;
      assert Declared(cfg, radios)[id].network == w && cfg.mlds[id].network != w;
    }
  }

  /** It does happen: an SSID that asks, and a device declared for another SSID under the id the first one derives. */
  lemma ByHandIsOverwritten(cfg: WifiConfig, radios: Radios, v: string, w: string, mine: MldConfig)
    requires cfg.networks == map[v := Network(true, {"5g", "6g"}, true), w := Network(true, {"5g", "6g"}, false)]
    requires v != w && mine.network == w && cfg.mlds == map["mlo-" + v := mine]
    ensures "mlo-" + v in Declared(cfg, radios) && Declared(cfg, radios)["mlo-" + v] != mine
  {
    assert Asks(cfg, v) && !Serves(cfg.mlds, v);
    DerivedMlds(cfg, radios);
  }

  // ------------------------------------------------------------- addresses

  /** A started device is its declaration started at its place in the order of ids. */
  ghost predicate IsStarted(declared: Declarations, radios: Radios, ids: seq<string>, from: nat, id: string, m: Mld) {
    exists i :: 0 <= i < |ids| && ids[i] == id && StartedAt(declared, radios, id, from + i, m)
  }

  predicate StartedAt(declared: Declarations, radios: Radios, id: string, index: nat, m: Mld) {
    id in declared && StartMld(id, index, declared[id], radios) == Some(m)
  }

  lemma StartedBehind(declared: Declarations, radios: Radios, ids: seq<string>, from: nat, id: string, m: Mld)
    requires ids != [] && IsStarted(declared, radios, ids[1..], from + 1, id, m)
    ensures IsStarted(declared, radios, ids, from, id, m)
  {
    var rest := ids[1..];
    var i :| 0 <= i < |rest| && rest[i] == id && StartedAt(declared, radios, id, from + 1 + i, m);
    assert ids[i + 1] == id && StartedAt(declared, radios, id, from + (i + 1), m);
  }

  lemma StartedInFront(declared: Declarations, radios: Radios, ids: seq<string>, from: nat, m: Mld)
    requires ids != [] && StartedAt(declared, radios, ids[0], from, m)
    ensures IsStarted(declared, radios, ids, from, ids[0], m)
  {
    assert StartedAt(declared, radios, ids[0], from + 0, m);
  }

  lemma StartOneStarts(first: string, index: nat, declared: Declarations, radios: Radios, s: MldState, id: string)
    requires first in declared
    ensures var next := StartOne(first, index, declared[first], radios, s).mlds;
            id in next ==>
              || (id in s.mlds && next[id] == s.mlds[id])
              || (id == first && StartedAt(declared, radios, first, index, next[id]))
  {
  }

  lemma {:induction false} MldsFromStarts(ids: seq<string>, index: nat, declared: Declarations, radios: Radios,
                                          s: MldState, id: string)
    requires forall k | k in ids :: k in declared
    ensures var r := MldsFrom(ids, index, declared, radios, s).mlds;
            id in r ==> (id in s.mlds && r[id] == s.mlds[id]) || IsStarted(declared, radios, ids, index, id, r[id])
    decreases |ids|
  {
    if ids != [] {
      var next := StartOne(ids[0], index, declared[ids[0]], radios, s);
      var r := MldsFrom(ids[1..], index + 1, declared, radios, next).mlds;
      MldsFromStarts(ids[1..], index + 1, declared, radios, next, id);
      StartOneStarts(ids[0], index, declared, radios, s, id);
      if id in r {
        if IsStarted(declared, radios, ids[1..], index + 1, id, r[id]) {
          StartedBehind(declared, radios, ids, index, id, r[id]);
        } else if id !in s.mlds || r[id] != s.mlds[id] {
          StartedInFront(declared, radios, ids, index, r[id]);
        }
      }
    }
  }

  /** The address of the radio an MLD's own address is derived from: the first of its radios in id order. */
  function PrimaryAddress(m: Mld, radios: Radios): Mac {
    var ids := set r | r in m.radios;
    if ids == {} then DEFAULT_MAC else AddressOf(radios, Least(ids))
  }

  /**
   * A started MLD has the address it was given, or the one derived from its primary radio and its place in the order
   * of ids.
   */
  lemma MldAddress(cfg: WifiConfig, radios: Radios, id: string) returns (index: nat)
    requires id in Mlds(cfg, radios).mlds
    ensures var ids := SortedKeys(Declared(cfg, radios).Keys);
            var m := Mlds(cfg, radios).mlds[id];
            && id in Declared(cfg, radios) && index < |ids| && ids[index] == id
            && m.radios == Present(Declared(cfg, radios)[id].links, radios)
            && m.mac == var given := Declared(cfg, radios)[id].mac;
                        if given.Some? then given.value else MldMac(PrimaryAddress(m, radios), index)
  {
    var declared := Declared(cfg, radios);
    var ids := SortedKeys(declared.Keys);
    MldsFromStarts(ids, 0, declared, radios, MldState(map[], map[]), id);
    var m := Mlds(cfg, radios).mlds[id];
    var i :| 0 <= i < |ids| && ids[i] == id && StartedAt(declared, radios, id, 0 + i, m);
    index := i;
    StartedAddress(id, i, declared[id], radios, m);
  }

  lemma StartedAddress(id: string, index: nat, config: MldConfig, radios: Radios, m: Mld)
    requires StartMld(id, index, config, radios) == Some(m)
    ensures m.radios == Present(config.links, radios)
    ensures m.mac == if config.mac.Some? then config.mac.value else MldMac(PrimaryAddress(m, radios), index)
  {
    var ids := set r | r in m.radios;
    assert m.radios[0] in ids;
    assert Least(ids) in ids;
  }

  /**
   * No BSS on a radio of an MLD's primary address has that MLD's address, unless that was given by hand.
   */
  lemma MldAddressIsNoBssid(slots: SlotMap, cfg: WifiConfig, radios: Radios, n: string, id: string)
    requires Injective(slots)
    ensures var plan := PlanFor(slots, cfg, radios);
            n in plan.bsses && id in plan.mlds && id in Declared(cfg, radios) && Declared(cfg, radios)[id].mac.None?
            && AddressOf(radios, plan.bsses[n].radio) == PrimaryAddress(plan.mlds[id], radios) ==>
              plan.bsses[n].bssid != plan.mlds[id].mac
  {
    var plan := PlanFor(slots, cfg, radios);
    if n in plan.bsses && id in plan.mlds {
      var index := MldAddress(cfg, radios, id);
      PlanBssidsAvoidOthers(slots, cfg, radios, n, index);
    }
  }

  /** Two such MLDs of one primary address share theirs exactly when their places in the order agree modulo 256. */
  lemma MldAddressesCollideIff(cfg: WifiConfig, radios: Radios, i: nat, j: nat)
    ensures var declared := Declared(cfg, radios);
            var ids := SortedKeys(declared.Keys);
            var mlds := Mlds(cfg, radios).mlds;
            i < |ids| && j < |ids| && ids[i] in mlds && ids[j] in mlds
            && declared[ids[i]].mac.None? && declared[ids[j]].mac.None?
            && PrimaryAddress(mlds[ids[i]], radios) == PrimaryAddress(mlds[ids[j]], radios) ==>
              (mlds[ids[i]].mac == mlds[ids[j]].mac <==> (i - j) % 256 == 0)
  {
    var ids := SortedKeys(Declared(cfg, radios).Keys);
    var mlds := Mlds(cfg, radios).mlds;
    if i < |ids| && j < |ids| && ids[i] in mlds && ids[j] in mlds {
      var a := MldAddress(cfg, radios, ids[i]);
      var b := MldAddress(cfg, radios, ids[j]);
      assert a == i && b == j;
      MldMacsCollideIff(PrimaryAddress(mlds[ids[i]], radios), i, j);
    }
  }

  // ------------------------------------------------------ which of them start

  lemma PresentIsEmptyIff(links: seq<string>, radios: Radios)
    ensures Present(links, radios) != [] <==> exists k :: 0 <= k < |links| && links[k] in radios
  {
    var present := Present(links, radios);
    if present != [] {
      assert present[0] in present && present[0] in links;
    }
    if k :| 0 <= k < |links| && links[k] in radios {
      assert links[k] in present;
    }
  }

  ghost predicate TwoPresent(links: seq<string>, radios: Radios) {
    exists i, j :: 0 <= i < j < |links| && links[i] in radios && links[j] in radios
  }

  lemma TwoPresentIff(links: seq<string>, radios: Radios)
    requires links != []
    ensures TwoPresent(links, radios) <==>
            TwoPresent(links[1..], radios) || (links[0] in radios && Present(links[1..], radios) != [])
  {
    var rest := links[1..];
    PresentIsEmptyIff(rest, radios);
    if i, j :| 0 <= i < j < |links| && links[i] in radios && links[j] in radios {
      assert rest[j - 1] in radios;
      if i > 0 { assert rest[i - 1] in radios; }
    }
    if i, j :| 0 <= i < j < |rest| && rest[i] in radios && rest[j] in radios {
      assert links[i + 1] in radios && links[j + 1] in radios;
    }
    if k :| 0 <= k < |rest| && rest[k] in radios {
      assert links[k + 1] in radios;
    }
  }

  lemma {:induction false} PresentCount(links: seq<string>, radios: Radios)
    ensures |Present(links, radios)| >= 2 <==> TwoPresent(links, radios)
  {
    if links != [] {
      PresentCount(links[1..], radios);
      TwoPresentIff(links, radios);
    }
  }

  /** The first, in id order, of the radios of the declaration that are present has an address. */
  ghost predicate PrimaryHasAddress(config: MldConfig, radios: Radios) {
    exists p :: p in config.links && p in radios && radios[p].mac.Some?
                && forall r | r in config.links && r in radios :: Leq(p, r)
  }

  /** Enabled, with two places of its list present, and an address to derive from. */
  ghost predicate CanStart(config: MldConfig, radios: Radios) {
    && config.enabled
    && TwoPresent(config.links, radios)
    && PrimaryHasAddress(config, radios)
  }

  lemma PrimaryIsLeast(config: MldConfig, radios: Radios, ids: set<string>)
    requires ids == (set r | r in Present(config.links, radios)) && ids != {}
    ensures radios[Least(ids)].mac.Some? <==> PrimaryHasAddress(config, radios)
  {
    var least := Least(ids);
    assert least in config.links && least in radios && forall r | r in config.links && r in radios :: r in ids;
    if PrimaryHasAddress(config, radios) {
      var p :| p in config.links && p in radios && radios[p].mac.Some?
               && forall r | r in config.links && r in radios :: Leq(p, r);
      LeqAntisymmetric(p, least);
    }
  }

  lemma StartsIff(id: string, index: nat, config: MldConfig, radios: Radios)
    ensures StartMld(id, index, config, radios).Some? <==> CanStart(config, radios)
  {
    PresentCount(config.links, radios);
    var present := Present(config.links, radios);
    if |present| >= 2 {
      var ids := set r | r in present;
      assert present[0] in ids;
      PrimaryIsLeast(config, radios, ids);
    }
  }

  lemma {:induction false} MldsFromStartedIff(ids: seq<string>, index: nat, declared: Declarations, radios: Radios,
                                              s: MldState, id: string)
    requires forall k | k in ids :: k in declared
    ensures id in MldsFrom(ids, index, declared, radios, s).mlds <==>
            id in s.mlds || (id in ids && CanStart(declared[id], radios))
    decreases |ids|
  {
    if ids != [] {
      StartsIff(ids[0], index, declared[ids[0]], radios);
      var next := StartOne(ids[0], index, declared[ids[0]], radios, s);
      MldsFromStartedIff(ids[1..], index + 1, declared, radios, next, id);
      assert ids == [ids[0]] + ids[1..];
    }
  }

  /** Exactly the declarations that can start are started. */
  lemma MldStartsIff(cfg: WifiConfig, radios: Radios, id: string)
    ensures id in Mlds(cfg, radios).mlds <==>
            id in Declared(cfg, radios) && CanStart(Declared(cfg, radios)[id], radios)
  {
    var declared := Declared(cfg, radios);
    MldsFromStartedIff(SortedKeys(declared.Keys), 0, declared, radios, MldState(map[], map[]), id);
  }

  /** Each started device that serves a network has an id no less than that of the one chosen for the network. */
  predicate FirstServes(s: MldState) {
    forall id | id in s.mlds ::
      && s.mlds[id].id == id && s.mlds[id].network in s.byNetwork
      && Leq(s.byNetwork[s.mlds[id].network].id, id)
  }

  /** Ids still to come are no less than any chosen. */
  predicate ChosenBefore(s: MldState, ids: seq<string>) {
    forall w, k | w in s.byNetwork && k in ids :: Leq(s.byNetwork[w].id, k)
  }

  lemma StartOneFirstServes(id: string, index: nat, config: MldConfig, radios: Radios, s: MldState, rest: seq<string>)
    requires FirstServes(s) && ChosenBefore(s, [id] + rest) && forall k | k in rest :: Leq(id, k)
    ensures FirstServes(StartOne(id, index, config, radios, s))
    ensures ChosenBefore(StartOne(id, index, config, radios, s), rest)
  {
    LeqTotal(id, id);
    assert id in [id] + rest && forall k | k in rest :: k in [id] + rest;
  }

  lemma {:induction false} MldsFromFirstServes(ids: seq<string>, index: nat, declared: Declarations, radios: Radios,
                                               s: MldState)
    requires forall k | k in ids :: k in declared
    requires forall i, j | 0 <= i < j < |ids| :: Leq(ids[i], ids[j])
    requires FirstServes(s) && ChosenBefore(s, ids)
    ensures FirstServes(MldsFrom(ids, index, declared, radios, s))
    decreases |ids|
  {
    if ids != [] {
      var rest := ids[1..];
      assert ids == [ids[0]] + rest;
      forall k | k in rest ensures Leq(ids[0], k) {
        var j :| 0 <= j < |rest| && rest[j] == k;
        assert ids[j + 1] == k;
      }
      StartOneFirstServes(ids[0], index, declared[ids[0]], radios, s, rest);
      MldsFromFirstServes(rest, index + 1, declared, radios, StartOne(ids[0], index, declared[ids[0]], radios, s));
    }
  }

  /** Of several devices started for one SSID, the one its BSSes link to is the first in id order. */
  lemma MldOfNetworkIsFirst(cfg: WifiConfig, radios: Radios)
    ensures FirstServes(Mlds(cfg, radios))
  {
    var declared := Declared(cfg, radios);
    MldsFromFirstServes(SortedKeys(declared.Keys), 0, declared, radios, MldState(map[], map[]));
  }

  // ------------------------------------------------------------- the links

  /** The two ids stand in the list in this order. */
  ghost predicate InOrder(links: seq<string>, first: string, second: string) {
    exists i, j :: 0 <= i < j < |links| && links[i] == first && links[j] == second
  }

  lemma InOrderBehind(links: seq<string>, first: string, second: string)
    requires links != [] && InOrder(links[1..], first, second)
    ensures InOrder(links, first, second)
  {
    var rest := links[1..];
    var i, j :| 0 <= i < j < |rest| && rest[i] == first && rest[j] == second;
    assert links[i + 1] == first && links[j + 1] == second;
  }

  lemma {:induction false} PresentInOrder(links: seq<string>, radios: Radios, i: nat, j: nat)
    requires i < j < |Present(links, radios)|
    ensures InOrder(links, Present(links, radios)[i], Present(links, radios)[j])
  {
    var present, rest := Present(links, radios), Present(links[1..], radios);
    if links[0] !in radios {
      assert present == rest;
      PresentInOrder(links[1..], radios, i, j);
      InOrderBehind(links, present[i], present[j]);
    } else if i > 0 {
      assert present == [links[0]] + rest;
      PresentInOrder(links[1..], radios, i - 1, j - 1);
      InOrderBehind(links, present[i], present[j]);
    } else {
      assert present == [links[0]] + rest && present[j] == rest[j - 1];
      assert present[j] in rest && present[j] in links[1..];
      var k :| 0 <= k < |links[1..]| && links[1..][k] == present[j];
      assert links[0] == present[i] && links[k + 1] == present[j];
    }
  }

  /** The radios of a started MLD, and so its link numbers, follow the order of the list it was declared with. */
  lemma LinksKeepDeclaredOrder(cfg: WifiConfig, radios: Radios, id: string)
    requires id in Mlds(cfg, radios).mlds
    ensures id in Declared(cfg, radios)
    ensures var links, own := Declared(cfg, radios)[id].links, Mlds(cfg, radios).mlds[id].radios;
            forall i, j | 0 <= i < j < |own| :: InOrder(links, own[i], own[j])
  {
    var index := MldAddress(cfg, radios, id);
    var links := Declared(cfg, radios)[id].links;
    var own := Mlds(cfg, radios).mlds[id].radios;
    forall i, j | 0 <= i < j < |own| ensures InOrder(links, own[i], own[j]) {
      PresentInOrder(links, radios, i, j);
    }
  }

  /**
   * A BSS is a link of the device chosen for its SSID exactly when that has its radio. The link's number is the
   * radio's place in the device, and its netdev is named after the anchor radio and the BSS's own slot.
   */
  lemma EntryLinks(slots: SlotMap, cfg: WifiConfig, radios: Radios, n: string)
    requires Injective(slots)
    ensures var plan := PlanFor(slots, cfg, radios);
            var byNetwork := Mlds(cfg, radios).byNetwork;
            n in plan.bsses ==>
              var b := plan.bsses[n];
              && (b.mld.Some? <==> b.network in byNetwork && b.radio in byNetwork[b.network].radios)
              && (b.netdev.Some? <==> b.mld.Some?)
              && (b.mld.Some? ==>
                    var m := byNetwork[b.network];
                    && m.network == b.network && m.id in plan.mlds && plan.mlds[m.id] == m
                    && b.mld.value.id == m.id && b.mld.value.mac == m.mac
                    && b.mld.value.linkId < |m.radios| && m.radios[b.mld.value.linkId] == b.radio
                    && b.netdev == Some(IfaceName(AnchorRadio(m, radios), b.slot)))
  {
    PlanEntry(slots, cfg, radios, n);
    MldsServeTheirNetworks(cfg, radios);
  }
}
