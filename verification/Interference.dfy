/**
 * The neighbour loop of `ChannelAnalyzer.analyse` in gateway/sbegw/rf.py: how many neighbouring access
 * points cover each channel and how heavily.
 */
module Interference {
  import opened Wrappers
  import opened Texts
  import opened Channels

  /** A scanned access point; a scan entry may lack its channel or its signal level. */
  datatype Neighbour = Neighbour(channel: Option<int>, width: int, rssi: Option<real>)

  datatype Load = Load(count: nat, weight: real, strongest: Option<real>)

  const EMPTY_LOAD := Load(0, 0.0, None)

  function Footprint(n: Neighbour, band: Band): seq<int> {
    if n.channel.None? then [] else Occupied(n.channel.value, if n.width == 0 then 20 else n.width, band)
  }

  /** How much one neighbour weighs on a channel it covers. */
  function Weight(n: Neighbour): (w: real)
    ensures w >= 0.0
  {
    if n.rssi.None? then 0.3
    else if n.rssi.value + 95.0 <= 0.0 then 0.0
    else (n.rssi.value + 95.0) / 45.0
  }

  function LoadOf(load: map<int, Load>, channel: int): Load {
    if channel in load then load[channel] else EMPTY_LOAD
  }

  /** The neighbours that cover the channel, in scan order. */
  function Covering(ns: seq<Neighbour>, channel: int, band: Band): seq<Neighbour> {
    if ns == [] then []
    else
      Covering(ns[..|ns| - 1], channel, band)
      + (if channel in Footprint(ns[|ns| - 1], band) then [ns[|ns| - 1]] else [])
  }

  function TotalWeight(ns: seq<Neighbour>): (w: real)
    ensures w >= 0.0
  {
    if ns == [] then 0.0 else TotalWeight(ns[..|ns| - 1]) + Weight(ns[|ns| - 1])
  }

  predicate IsStrongest(s: Option<real>, ns: seq<Neighbour>) {
    match s
    case None => forall i | 0 <= i < |ns| :: ns[i].rssi.None?
    case Some(x) =>
      && (exists i :: 0 <= i < |ns| && ns[i].rssi == Some(x))
      && (forall i | 0 <= i < |ns| && ns[i].rssi.Some? :: ns[i].rssi.value <= x)
  }

  // Footprints list no channel twice, so one neighbour is counted once per channel.

  lemma {:induction false} Channels2gDistinct(low: int, high: int)
    ensures Distinct(Channels2g(low, high))
    ensures forall i | 0 <= i < |Channels2g(low, high)| :: low <= Channels2g(low, high)[i]
    decreases high - low + 1
  {
    if low <= high { Channels2gDistinct(low + 1, high); }
  }

  predicate Rising(xs: seq<int>) {
    forall i | 0 < i < |xs| :: xs[i - 1] < xs[i]
  }

  lemma {:induction false} RisingApart(xs: seq<int>, i: nat, j: nat)
    requires Rising(xs) && i < j < |xs|
    ensures xs[i] < xs[j]
  {
    if i + 1 < j { RisingApart(xs, i, j - 1); }
  }

  lemma Table5gRises(width: int)
    ensures forall i | 0 <= i < |Blocks5g(width)| :: Rising(Blocks5g(width)[i])
  {
  }

  lemma {:induction false} RisingDistinct(xs: seq<int>)
    requires Rising(xs)
    ensures Distinct(xs)
  {
    forall i, j | 0 <= i < j < |xs| ensures xs[i] != xs[j] {
      RisingApart(xs, i, j);
    }
  }

  lemma OccupiedDistinct(channel: int, width: int, band: Band)
    ensures Distinct(Occupied(channel, width, band))
  {
    match band
    case Band2g =>
      var spread := if width <= 20 then 2 else 4;
      Channels2gDistinct(channel - spread, channel + spread);
    case Band5g =>
      if width > 20 && FirstBlock(Blocks5g(width), channel).Some? {
        var i := FirstBlockAt(Blocks5g(width), channel);
        Table5gRises(width);
        RisingDistinct(Blocks5g(width)[i]);
      }
    case Band6g =>
  }

  lemma FootprintDistinct(n: Neighbour, band: Band)
    ensures Distinct(Footprint(n, band))
  {
    if n.channel.Some? {
      OccupiedDistinct(n.channel.value, if n.width == 0 then 20 else n.width, band);
    }
  }

  /** One neighbour heard on every channel it covers. */
  method Hear(before: map<int, Load>, n: Neighbour, covered: seq<int>) returns (load: map<int, Load>)
    requires Distinct(covered)
    ensures forall c | c !in covered :: (c in load <==> c in before) && LoadOf(load, c) == LoadOf(before, c)
    ensures forall c | c in covered :: c in load && load[c] == Heard(LoadOf(before, c), n)
  {
    load := before;
    for j := 0 to |covered|
      invariant forall c | c !in covered[..j] :: (c in load <==> c in before) && LoadOf(load, c) == LoadOf(before, c)
      invariant forall c | c in covered[..j] :: c in load && load[c] == Heard(LoadOf(before, c), n)
    {
      var c := covered[j];
      assert c !in covered[..j];
      load := load[c := Heard(LoadOf(load, c), n)];
      assert covered[..j + 1] == covered[..j] + [c];
    }
    assert covered[..|covered|] == covered;
  }

  /** The loop's table holds, for each channel, exactly the neighbours whose footprint covers it. */
  method Accumulate(ns: seq<Neighbour>, band: Band) returns (load: map<int, Load>)
    ensures forall c :: LoadOf(load, c).count == |Covering(ns, c, band)|
    ensures forall c :: LoadOf(load, c).weight == TotalWeight(Covering(ns, c, band))
    ensures forall c :: IsStrongest(LoadOf(load, c).strongest, Covering(ns, c, band))
    ensures forall c :: c in load <==> Covering(ns, c, band) != []
  {
    load := map[];
    for i := 0 to |ns|
      invariant Records(load, ns[..i], band)
    {
      ghost var before := load;
      FootprintDistinct(ns[i], band);
      load := Hear(load, ns[i], Footprint(ns[i], band));
      RecordsNext(before, load, ns[..i], ns[i], band);
      assert ns[..i] + [ns[i]] == ns[..i + 1];
    }
    assert ns[..|ns|] == ns;
    forall c
      ensures LoadOf(load, c).count == |Covering(ns, c, band)|
      ensures LoadOf(load, c).weight == TotalWeight(Covering(ns, c, band))
      ensures IsStrongest(LoadOf(load, c).strongest, Covering(ns, c, band))
      ensures c in load <==> Covering(ns, c, band) != []
    {
      assert RecordsAt(load, ns, band, c);
    }
  }

  /** One more neighbour heard on a channel. */
  function Heard(load: Load, n: Neighbour): Load {
    Load(load.count + 1, load.weight + Weight(n),
         if n.rssi.None? then load.strongest
         else if load.strongest.None? || n.rssi.value > load.strongest.value then n.rssi
         else load.strongest)
  }

  ghost predicate RecordsAt(load: map<int, Load>, ns: seq<Neighbour>, band: Band, c: int) {
    var covering := Covering(ns, c, band);
    && LoadOf(load, c).count == |covering|
    && LoadOf(load, c).weight == TotalWeight(covering)
    && IsStrongest(LoadOf(load, c).strongest, covering)
    && (c in load <==> covering != [])
  }

  ghost predicate Records(load: map<int, Load>, ns: seq<Neighbour>, band: Band) {
    forall c :: RecordsAt(load, ns, band, c)
  }

  lemma StrongestOfMore(load: Load, ns: seq<Neighbour>, n: Neighbour)
    requires IsStrongest(load.strongest, ns)
    ensures IsStrongest(Heard(load, n).strongest, ns + [n])
  {
    var more := ns + [n];
    assert more[|ns|] == n;
    if load.strongest.Some? {
      var i :| 0 <= i < |ns| && ns[i].rssi == load.strongest;
      assert more[i] == ns[i];
    }
  }

  lemma CoveringNext(ns: seq<Neighbour>, n: Neighbour, channel: int, band: Band)
    ensures Covering(ns + [n], channel, band) ==
            if channel in Footprint(n, band) then Covering(ns, channel, band) + [n] else Covering(ns, channel, band)
  {
    assert (ns + [n])[..|ns + [n]| - 1] == ns;
  }

  lemma RecordsNext(before: map<int, Load>, after: map<int, Load>, ns: seq<Neighbour>, n: Neighbour, band: Band)
    requires Records(before, ns, band)
    requires forall c | c !in Footprint(n, band) ::
               (c in after <==> c in before) && LoadOf(after, c) == LoadOf(before, c)
    requires forall c | c in Footprint(n, band) :: c in after && after[c] == Heard(LoadOf(before, c), n)
    ensures Records(after, ns + [n], band)
  {
    forall c ensures RecordsAt(after, ns + [n], band, c) {
      assert RecordsAt(before, ns, band, c);
      CoveringNext(ns, n, c, band);
      if c in Footprint(n, band) {
        HeardIsRecorded(LoadOf(before, c), Covering(ns, c, band), n);
      }
    }
  }

  lemma HeardIsRecorded(load: Load, covering: seq<Neighbour>, n: Neighbour)
    requires load.count == |covering| && load.weight == TotalWeight(covering) && IsStrongest(load.strongest, covering)
    ensures Heard(load, n).count == |covering + [n]|
    ensures Heard(load, n).weight == TotalWeight(covering + [n])
    ensures IsStrongest(Heard(load, n).strongest, covering + [n])
  {
    assert (covering + [n])[..|covering|] == covering;
    StrongestOfMore(load, covering, n);
  }

  // ------------------------------------------- what a neighbour weighs

  /**
   * A louder neighbour weighs no less: nothing up to -95 dBm, one at -50, in proportion between and beyond; and a
   * neighbour of unknown level as much as one at -81.5.
   */
  lemma LouderWeighsMore(n: Neighbour, m: Neighbour)
    requires n.rssi.Some? && m.rssi.Some?
    ensures n.rssi.value <= m.rssi.value ==> Weight(n) <= Weight(m)
    ensures Weight(n) == 0.0 <==> n.rssi.value <= -95.0
    ensures n.rssi.value >= -95.0 ==> Weight(n) * 45.0 == n.rssi.value + 95.0
    ensures Weight(n.(rssi := None)) == Weight(n.(rssi := Some(-81.5)))
    ensures forall band :: Footprint(n.(width := 0), band) == Footprint(n.(width := 20), band)
  {
  }

  // ------------------------------------------- what one more neighbour adds

  lemma {:induction false} CoveringAppend(a: seq<Neighbour>, b: seq<Neighbour>, channel: int, band: Band)
    ensures Covering(a + b, channel, band) == Covering(a, channel, band) + Covering(b, channel, band)
    decreases |b|
  {
    if b == [] {
      assert a + b == a;
    } else {
      assert (a + b)[..|a + b| - 1] == a + b[..|b| - 1];
      CoveringAppend(a, b[..|b| - 1], channel, band);
    }
  }

  lemma {:induction false} TotalWeightAppend(a: seq<Neighbour>, b: seq<Neighbour>)
    ensures TotalWeight(a + b) == TotalWeight(a) + TotalWeight(b)
    decreases |b|
  {
    if b == [] {
      assert a + b == a;
    } else {
      assert (a + b)[..|a + b| - 1] == a + b[..|b| - 1];
      TotalWeightAppend(a, b[..|b| - 1]);
    }
  }

  /** The weight on a channel, as the loop's table gives it. */
  function WeightOn(ns: seq<Neighbour>, channel: int, band: Band): (w: real)
    ensures w >= 0.0
  {
    TotalWeight(Covering(ns, channel, band))
  }

  /** The same neighbour heard louder: the same footprint, no less weight. */
  predicate Louder(n: Neighbour, m: Neighbour) {
    m.channel == n.channel && m.width == n.width
    && n.rssi.Some? && m.rssi.Some? && n.rssi.value <= m.rssi.value
  }

  lemma LouderAddsWeight(a: seq<Neighbour>, n: Neighbour, m: Neighbour, b: seq<Neighbour>, channel: int, band: Band)
    requires Louder(n, m)
    ensures WeightOn(a + [n] + b, channel, band) <= WeightOn(a + [m] + b, channel, band)
  {
    NeighbourAddsWeight(a, n, b, channel, band);
    NeighbourAddsWeight(a, m, b, channel, band);
    LouderWeighsMore(n, m);
  }

  /** A neighbour more, wherever it stands in the scan, adds its weight to the channels it covers and to no other. */
  lemma NeighbourAddsWeight(a: seq<Neighbour>, n: Neighbour, b: seq<Neighbour>, channel: int, band: Band)
    ensures WeightOn(a + [n] + b, channel, band) ==
            WeightOn(a + b, channel, band) + if channel in Footprint(n, band) then Weight(n) else 0.0
    ensures |Covering(a + [n] + b, channel, band)| ==
            |Covering(a + b, channel, band)| + if channel in Footprint(n, band) then 1 else 0
  {
    var one := Covering([n], channel, band);
    CoveringNext([], n, channel, band);
    assert [] + [n] == [n];
    assert one == if channel in Footprint(n, band) then [n] else [];
    CoveringAppend(a + [n], b, channel, band);
    CoveringAppend(a, [n], channel, band);
    CoveringAppend(a, b, channel, band);
    TotalWeightAppend(Covering(a, channel, band) + one, Covering(b, channel, band));
    TotalWeightAppend(Covering(a, channel, band), one);
    TotalWeightAppend(Covering(a, channel, band), Covering(b, channel, band));
  }
}
