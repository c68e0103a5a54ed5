/** What a radio's ordinal is: how many radios of its address come before it in band order. */
module BssOrdinals {
  import opened Texts
  import opened MacAddresses
  import opened BssPlan

  function OrdinalOf(radios: Radios, radio: string): nat {
    var ordinals := Ordinals(radios);
    if radio in ordinals then ordinals[radio] else 0
  }

  function AddressOf(radios: Radios, radio: string): Mac {
    if radio in radios then MacOf(radios[radio]) else DEFAULT_MAC
  }

  /** The radios of the same address that sort before this one. */
  function Before(radios: Radios, radio: string): set<string> {
    set q | q in radios && q != radio && MacOf(radios[q]) == AddressOf(radios, radio)
            && Leq(RankKey(radios, q), RankKey(radios, radio))
  }

  /** How many of the radios listed have the address. */
  function Sharing<K(==)>(order: seq<string>, macs: map<string, K>, mac: K): nat
    requires forall r | r in order :: r in macs
  {
    if order == [] then 0
    else (if macs[order[0]] == mac then 1 else 0) + Sharing(order[1..], macs, mac)
  }

  function SeenOf<K>(n: Numbering<K>, mac: K): nat {
    if mac in n.seen then n.seen[mac] else 0
  }

  lemma {:induction false} OthersKeepOrdinal<K>(order: seq<string>, macs: map<string, K>, n: Numbering<K>, r: string)
    requires forall q | q in order :: q in macs
    requires r in n.ordinals && r !in order
    ensures r in NumberFrom(order, macs, n).ordinals && NumberFrom(order, macs, n).ordinals[r] == n.ordinals[r]
    decreases |order|
  {
    if order != [] {
      assert order == [order[0]] + order[1..];
      OthersKeepOrdinal(order[1..], macs, NumberOne(n, order[0], macs[order[0]]), r);
    }
  }

  /** Numbering counts, for each radio, the radios of its address numbered before it. */
  lemma {:induction false} NumberingCounts<K>(order: seq<string>, macs: map<string, K>, n: Numbering<K>, i: nat)
    requires forall q | q in order :: q in macs
    requires Distinct(order) && i < |order|
    ensures order[i] in NumberFrom(order, macs, n).ordinals
    ensures NumberFrom(order, macs, n).ordinals[order[i]] ==
            SeenOf(n, macs[order[i]]) + Sharing(order[..i], macs, macs[order[i]])
    decreases |order|
  {
    var next := NumberOne(n, order[0], macs[order[0]]);
    FirstIsApart(order);
    if i == 0 {
      OthersKeepOrdinal(order[1..], macs, next, order[0]);
    } else {
      NumberingCounts(order[1..], macs, next, i - 1);
      assert order[..i][1..] == order[1..][..i - 1];
      assert order[1..][i - 1] == order[i] && order[..i][0] == order[0];
    }
  }

  function SharingSet<K(==)>(order: seq<string>, macs: map<string, K>, mac: K): set<string>
    requires forall r | r in order :: r in macs
  {
    set q | q in order && macs[q] == mac
  }

  /** Counted one by one or as a set. */
  lemma {:induction false} SharingIsSize<K>(order: seq<string>, macs: map<string, K>, mac: K)
    requires forall q | q in order :: q in macs
    requires Distinct(order)
    ensures Sharing(order, macs, mac) == |SharingSet(order, macs, mac)|
  {
    if order == [] {
      assert SharingSet(order, macs, mac) == {};
    } else {
      var rest := order[1..];
      FirstIsApart(order);
      SharingIsSize(rest, macs, mac);
      assert SharingSet(order, macs, mac) ==
             SharingSet(rest, macs, mac) + if macs[order[0]] == mac then {order[0]} else {};
    }
  }

  /** The sort key tells radios apart. */
  lemma KeysTellApart(radios: Radios, p: string, q: string)
    requires Leq(RankKey(radios, p), RankKey(radios, q)) && Leq(RankKey(radios, q), RankKey(radios, p))
    ensures p == q
  {
    LeqAntisymmetric(RankKey(radios, p), RankKey(radios, q));
    assert RankKey(radios, p)[1..] == p && RankKey(radios, q)[1..] == q;
  }

  /** The radios listed before place i are those that sort before the radio there. */
  lemma {:induction false} ListedBeforeIff(ids: set<string>, radios: Radios, i: nat, q: string)
    requires i < |ByBand(ids, radios)| && q in ids
    ensures var order := ByBand(ids, radios);
            q in order[..i] <==> q != order[i] && Leq(RankKey(radios, q), RankKey(radios, order[i]))
  {
    var order := ByBand(ids, radios);
    ByBandLists(ids, radios);
    ByBandSorted(ids, radios);
    assert q in order;
    var j :| 0 <= j < |order| && order[j] == q;
    if j < i {
      assert order[..i][j] == q;
    } else if j > i {
      assert order[i] != order[j];
      if Leq(RankKey(radios, q), RankKey(radios, order[i])) {
        KeysTellApart(radios, q, order[i]);
      }
      forall k | 0 <= k < i ensures order[..i][k] != q {
        assert order[k] != order[j];
      }
    } else {
      forall k | 0 <= k < i ensures order[..i][k] != q {
        assert order[k] != order[j];
      }
    }
  }

  /** A radio's ordinal is the number of radios that report its address and sort before it. */
  lemma OrdinalIsCount(radios: Radios, radio: string)
    requires radio in radios
    ensures OrdinalOf(radios, radio) == |Before(radios, radio)|
  {
    var order, macs := ByBand(radios.Keys, radios), Macs(radios);
    ByBandLists(radios.Keys, radios);
    assert radio in order;
    var i :| 0 <= i < |order| && order[i] == radio;
    NumberingCounts(order, macs, Numbering(map[], map[]), i);
    ListedIsDistinct(order, i);
    SharingIsSize(order[..i], macs, macs[radio]);
    ListedBefore(radios, i);
  }

  lemma ListedIsDistinct(order: seq<string>, i: nat)
    requires Distinct(order) && i <= |order|
    ensures Distinct(order[..i]) && forall q | q in order[..i] :: q in order
  {
  }

  lemma ListedBefore(radios: Radios, i: nat)
    requires i < |ByBand(radios.Keys, radios)|
    ensures var order := ByBand(radios.Keys, radios);
            && (forall q | q in order[..i] :: q in Macs(radios)) && order[i] in radios
            && SharingSet(order[..i], Macs(radios), Macs(radios)[order[i]]) == Before(radios, order[i])
  {
    var order := ByBand(radios.Keys, radios);
    ByBandLists(radios.Keys, radios);
    assert order[i] in order;
    forall q | q in order[..i] ensures q in Macs(radios) {
      assert q in order;
    }
    forall q | q in radios
      ensures q in order[..i] <==> q != order[i] && Leq(RankKey(radios, q), RankKey(radios, order[i]))
    {
      ListedBeforeIff(radios.Keys, radios, i, q);
    }
  }
}
