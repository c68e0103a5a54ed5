/**
 * Channel blocks: `occupied_channels`, `bonded_channels` and `_centre_freq` of gateway/sbegw/rf.py, and
 * `centre_channel` of gateway/sbegw/adapters/hostapd.py, which computes the same centre another way.
 */
module Channels {
  import opened Wrappers
  import opened Division

  datatype Band = Band2g | Band5g | Band6g

  function ChannelToFreq(channel: int, band: Band): Option<int> {
    match band
    case Band2g =>
      if channel == 14 then Some(2484) else if 1 <= channel <= 13 then Some(2407 + channel * 5) else None
    case Band5g => Some(5000 + channel * 5)
    case Band6g => Some(5950 + channel * 5)
  }

  /** How many 20 MHz subchannels a width has. */
  function Subchannels(width: int): (n: nat)
    ensures n >= 1
  {
    match width
    case 20 => 1
    case 40 => 2
    case 80 => 4
    case 160 => 8
    case 240 => 12
    case 320 => 16
    case _ => 1
  }

  /** The bonded blocks of 5 GHz. */
  function Blocks5g(width: int): seq<seq<int>> {
    match width
    case 40 => [[36, 40], [44, 48], [52, 56], [60, 64], [100, 104], [108, 112], [116, 120], [124, 128],
                [132, 136], [140, 144], [149, 153], [157, 161], [165, 169]]
    case 80 => [[36, 40, 44, 48], [52, 56, 60, 64], [100, 104, 108, 112], [116, 120, 124, 128],
                [132, 136, 140, 144], [149, 153, 157, 161]]
    case 160 => [[36, 40, 44, 48, 52, 56, 60, 64], [100, 104, 108, 112, 116, 120, 124, 128]]
    case 240 => [[36, 40, 44, 48, 52, 56, 60, 64, 100, 104, 108, 112],
                 [100, 104, 108, 112, 116, 120, 124, 128, 132, 136, 140, 144]]
    case 320 => [[36, 40, 44, 48, 52, 56, 60, 64, 100, 104, 108, 112, 116, 120, 124, 128]]
    case _ => []
  }

  function FirstBlock(blocks: seq<seq<int>>, channel: int): Option<seq<int>> {
    if blocks == [] then None
    else if channel in blocks[0] then Some(blocks[0])
    else FirstBlock(blocks[1..], channel)
  }

  /** first, first + step, ... : `count` numbers. */
  function Steps(first: int, step: int, count: nat): (r: seq<int>)
    ensures |r| == count
  {
    seq(count, i requires 0 <= i < count => first + i * step)
  }

  /** The 2.4 GHz channel numbers from `low` to `high`. */
  function Channels2g(low: int, high: int): seq<int>
    decreases high - low
  {
    if low > high then [] else (if 1 <= low <= 14 then [low] else []) + Channels2g(low + 1, high)
  }

  function Start6g(channel: int, count: nat): int
    requires count >= 1
  {
    (channel - 1) / 4 / count * count * 4 + 1
  }

  function Occupied(channel: int, width: int, band: Band): seq<int> {
    match band
    case Band2g =>
      var spread := if width <= 20 then 2 else 4;
      Channels2g(channel - spread, channel + spread)
    case Band5g =>
      if width <= 20 then [channel]
      else
        var block := FirstBlock(Blocks5g(width), channel);
        if block.Some? then block.value else [channel]
    case Band6g =>
      if width <= 20 then [channel]
      else Steps(Start6g(channel, Subchannels(width)), 4, Subchannels(width))
  }

  function Bonded(channel: int, width: int, band: Band): seq<int> {
    match band
    case Band2g =>
      if width <= 20 then [channel] else if channel + 4 <= 14 then [channel, channel + 4] else []
    case Band5g =>
      if width <= 20 then [channel]
      else
        var block := FirstBlock(Blocks5g(width), channel);
        if block.Some? then block.value else []
    case Band6g =>
      if width <= 20 then [channel]
      else if channel in Occupied(channel, width, band) then Occupied(channel, width, band) else []
  }

  // ------------------------------------------------------- 2.4 GHz footprints

  lemma {:induction false} Channels2gMember(low: int, high: int, c: int)
    ensures c in Channels2g(low, high) <==> low <= c <= high && 1 <= c <= 14
    decreases high - low + 1
  {
    if low <= high {
      Channels2gMember(low + 1, high, c);
    }
  }

  /**
   * Two 2.4 GHz channels are clear of each other's splatter exactly when they are five apart at 20 MHz, nine apart when
   * wider: so 1, 6 and 11 are clear of each other.
   */
  lemma Footprints2gShareIff(a: int, b: int, width: int)
    requires 1 <= a <= 14 && 1 <= b <= 14
    ensures (exists c :: c in Occupied(a, width, Band2g) && c in Occupied(b, width, Band2g)) <==>
            if width <= 20 then -5 < a - b < 5 else -9 < a - b < 9
  {
    var spread := if width <= 20 then 2 else 4;
    forall c
      ensures c in Occupied(a, width, Band2g) <==> a - spread <= c <= a + spread && 1 <= c <= 14
      ensures c in Occupied(b, width, Band2g) <==> b - spread <= c <= b + spread && 1 <= c <= 14
    {
      Channels2gMember(a - spread, a + spread, c);
      Channels2gMember(b - spread, b + spread, c);
    }
    var middle := (a + b) / 2;
    assert -2 * spread <= a - b <= 2 * spread ==>
             middle in Occupied(a, width, Band2g) && middle in Occupied(b, width, Band2g);
  }

  /** A 2.4 GHz block wider than 20 MHz is the channel and the one four above, where there is one. */
  lemma Bonded2gIs(channel: int, width: int)
    requires 1 <= channel <= 14 && width > 20
    ensures Bonded(channel, width, Band2g) != [] <==> channel <= 10
    ensures forall c :: c in Bonded(channel, width, Band2g) <==> channel <= 10 && (c == channel || c == channel + 4)
  {
  }

  /** The channels a block needs are among those it is disturbed on, and a channel is disturbed on itself. */
  lemma BondedWithinOccupied(channel: int, width: int, band: Band)
    requires band == Band2g ==> 1 <= channel <= 14
    ensures forall c | c in Bonded(channel, width, band) :: c in Occupied(channel, width, band)
    ensures Bonded(channel, width, band) != [] ==> channel in Bonded(channel, width, band)
    ensures (band == Band6g ==> On6g(channel)) ==> channel in Occupied(channel, width, band)
  {
    match band
    case Band2g =>
      var spread := if width <= 20 then 2 else 4;
      Channels2gMember(channel - spread, channel + spread, channel);
      Channels2gMember(channel - spread, channel + spread, channel + 4);
    case Band5g =>
      if width > 20 && FirstBlock(Blocks5g(width), channel).Some? {
        var i := FirstBlockAt(Blocks5g(width), channel);
      }
    case Band6g =>
      if width > 20 {
        Bonded6gIff(channel, width);
      }
  }

  // ------------------------------------------------------ the 5 GHz tables

  /** Four apart from one channel to the next, as many as the width has. */
  predicate IsRun(block: seq<int>, count: nat) {
    |block| == count && forall i | 0 < i < count :: block[i] == block[i - 1] + 4
  }

  /** The 5 GHz blocks of 40, 80 and 160 MHz are runs of neighbouring channels. */
  lemma Blocks5gAreRuns()
    ensures forall i | 0 <= i < |Blocks5g(40)| :: IsRun(Blocks5g(40)[i], 2)
    ensures forall i | 0 <= i < |Blocks5g(80)| :: IsRun(Blocks5g(80)[i], 4)
    ensures forall i | 0 <= i < |Blocks5g(160)| :: IsRun(Blocks5g(160)[i], 8)
  {
  }

  /** Each block of 80 MHz is two of 40, each of 160 MHz two of 80, and the one of 320 MHz the two of 160. */
  lemma Blocks5gAreHalves()
    ensures forall i | 0 <= i < |Blocks5g(80)| :: Blocks5g(80)[i] == Blocks5g(40)[2 * i] + Blocks5g(40)[2 * i + 1]
    ensures forall i | 0 <= i < |Blocks5g(160)| :: Blocks5g(160)[i] == Blocks5g(80)[2 * i] + Blocks5g(80)[2 * i + 1]
    ensures |Blocks5g(320)| == 1 && Blocks5g(320)[0] == Blocks5g(160)[0] + Blocks5g(160)[1]
  {
  }

  // ------------------------------------------------------------ the blocks

  predicate On6g(channel: int) {
    (channel - 1) % 4 == 0
  }

  lemma {:induction false} StepsMember(first: int, count: nat, c: int)
    ensures c in Steps(first, 4, count) <==> first <= c < first + 4 * count && (c - first) % 4 == 0
  {
    var r := Steps(first, 4, count);
    if first <= c < first + 4 * count && (c - first) % 4 == 0 {
      assert r[(c - first) / 4] == c;
    }
  }

  /** The index of the aligned group of `count` channels a 6 GHz channel falls in. */
  function Group(channel: int, count: nat): int
    requires count >= 1
  {
    (channel - 1) / 4 / count
  }

  /** Membership in a 6 GHz block is agreement on the group. */
  lemma {:induction false} BlockIsGroup(channel: int, width: int, c: int)
    requires width > 20
    ensures c in Occupied(channel, width, Band6g) <==>
            On6g(c) && Group(c, Subchannels(width)) == Group(channel, Subchannels(width))
  {
    var n := Subchannels(width);
    var g := Group(channel, n);
    var first := Start6g(channel, n);
    StepsMember(first, n, c);
    assert first == 4 * (g * n) + 1;
    assert (c - first) % 4 == (c - 1) % 4;
    if On6g(c) {
      var k := (c - 1) / 4;
      assert c == 4 * k + 1;
      if first <= c < first + n * 4 {
        DivModUnique(k, n, g, k - g * n);
      }
      if Group(c, n) == g {
        assert k == g * n + k % n;
      }
    }
  }

  /** The block of a 6 GHz channel contains it; off the raster no width can be bonded. */
  lemma Bonded6gIff(channel: int, width: int)
    requires width > 20
    ensures channel in Occupied(channel, width, Band6g) <==> On6g(channel)
    ensures Bonded(channel, width, Band6g) != [] <==> On6g(channel)
  {
    BlockIsGroup(channel, width, channel);
    assert |Occupied(channel, width, Band6g)| == Subchannels(width);
  }

  /** The blocks of one width partition the 6 GHz channels: two blocks are the same or share nothing. */
  lemma Blocks6gPartition(a: int, b: int, width: int)
    requires On6g(a) && On6g(b) && width > 20
    ensures a in Occupied(a, width, Band6g) && |Occupied(a, width, Band6g)| == Subchannels(width)
    ensures Occupied(a, width, Band6g) == Occupied(b, width, Band6g)
            || forall c | c in Occupied(a, width, Band6g) :: c !in Occupied(b, width, Band6g)
    ensures b in Occupied(a, width, Band6g) <==> Occupied(a, width, Band6g) == Occupied(b, width, Band6g)
  {
    BlockIsGroup(a, width, a);
    BlockIsGroup(a, width, b);
    BlockIsGroup(b, width, b);
    if Group(a, Subchannels(width)) != Group(b, Subchannels(width)) {
      forall c | c in Occupied(a, width, Band6g) ensures c !in Occupied(b, width, Band6g) {
        BlockIsGroup(a, width, c);
        BlockIsGroup(b, width, c);
      }
    }
  }

  lemma GroupOfGroup(k: int, n: nat, m: nat)
    requires n >= 1 && m >= 1
    ensures k / (n * m) == k / n / m
  {
    var q, r := k / n / m, k / n % m;
    var s := k % n;
    assert k == n * (q * m + r) + s;
    assert n * (q * m + r) == q * (n * m) + n * r;
    assert n * r <= n * (m - 1);
    assert n * (m - 1) == n * m - n;
    DivModUnique(k, n * m, q, n * r + s);
  }

  /** All the channels of the narrower block are in the wider one. */
  predicate Nests(channel: int, narrow: int, wide: int) {
    forall c | c in Occupied(channel, narrow, Band6g) :: c in Occupied(channel, wide, Band6g)
  }

  /** 20/40/80/160/320 blocks nest: the narrower block of a channel lies inside its wider one. */
  lemma Blocks6gNest(channel: int, narrow: int, wide: int)
    requires On6g(channel)
    requires narrow in {20, 40, 80, 160, 320} && wide in {20, 40, 80, 160, 320} && narrow <= wide
    ensures Nests(channel, narrow, wide)
  {
    forall c | c in Occupied(channel, narrow, Band6g) ensures c in Occupied(channel, wide, Band6g) {
      if wide > 20 {
        BlockIsGroup(channel, wide, c);
        var m := if narrow == 20 then Subchannels(wide) else Subchannels(wide) / Subchannels(narrow);
        if narrow > 20 {
          BlockIsGroup(channel, narrow, c);
          assert Subchannels(narrow) * m == Subchannels(wide);
          GroupOfGroup((c - 1) / 4, Subchannels(narrow), m);
          GroupOfGroup((channel - 1) / 4, Subchannels(narrow), m);
        }
      }
    }
  }

  /** Every channel in the channel's group of `count` is in its group of `wider` as well. */
  ghost predicate GroupsNest(channel: int, count: nat, wider: nat)
    requires count >= 1 && wider >= 1
  {
    forall c | On6g(c) && Group(c, count) == Group(channel, count) :: Group(c, wider) == Group(channel, wider)
  }

  lemma NestsIffGroupsNest(channel: int, narrow: int, wide: int, n: nat, m: nat)
    requires narrow > 20 && wide > 20 && n == Subchannels(narrow) && m == Subchannels(wide)
    ensures Nests(channel, narrow, wide) <==> GroupsNest(channel, n, m)
  {
    forall c
      ensures c in Occupied(channel, narrow, Band6g) <==> On6g(c) && Group(c, n) == Group(channel, n)
      ensures c in Occupied(channel, wide, Band6g) <==> On6g(c) && Group(c, m) == Group(channel, m)
    {
      BlockIsGroup(channel, narrow, c);
      BlockIsGroup(channel, wide, c);
    }
  }

  /** A group of groups holds each of them. */
  lemma WholeGroupsNest(channel: int, n: nat, times: nat)
    requires n >= 1 && times >= 1
    ensures n * times >= 1 && GroupsNest(channel, n, n * times)
  {
    assert n * times >= n;
    forall c | On6g(c) && Group(c, n) == Group(channel, n) ensures Group(c, n * times) == Group(channel, n * times) {
      GroupOfGroup((c - 1) / 4, n, times);
      GroupOfGroup((channel - 1) / 4, n, times);
    }
  }

  /** Where the eights of three in a row fall among the twelves. */
  lemma EightsByTwelves(k: int, t: int)
    ensures k / 8 == 3 * t ==> k / 12 == 2 * t
    ensures k / 8 == 3 * t + 2 ==> k / 12 == 2 * t + 1
  {
  }

  /** Where the twelves of four in a row fall among the sixteens. */
  lemma TwelvesBySixteens(k: int, t: int)
    ensures k / 12 == 4 * t ==> k / 16 == 3 * t
    ensures k / 12 == 4 * t + 3 ==> k / 16 == 3 * t + 2
  {
  }

  lemma GroupAt(k: int, count: nat, g: int, r: int)
    requires count >= 1 && k == g * count + r && 0 <= r < count
    ensures On6g(4 * k + 1) && Group(4 * k + 1, count) == g
  {
    DivModUnique(k, count, g, r);
  }

  /** Two channels of one narrow group and of two wider ones keep the groups from nesting. */
  lemma StraddlingBreaksNest(channel: int, count: nat, wider: nat, a: int, b: int)
    requires count >= 1 && wider >= 1 && On6g(a) && On6g(b)
    requires Group(a, count) == Group(channel, count) == Group(b, count) && Group(a, wider) != Group(b, wider)
    ensures !GroupsNest(channel, count, wider)
  {
  }

  /** Eights in twelves: the middle one of three sticks out on either side. */
  lemma EightsInTwelves(channel: int)
    ensures GroupsNest(channel, 8, 12) <==> Group(channel, 8) % 3 != 1
  {
    var g := Group(channel, 8);
    var t := g / 3;
    if g % 3 == 1 {
      GroupAt(8 * g, 8, g, 0);
      GroupAt(8 * g + 7, 8, g, 7);
      GroupAt(8 * g, 12, 2 * t, 8);
      GroupAt(8 * g + 7, 12, 2 * t + 1, 3);
      StraddlingBreaksNest(channel, 8, 12, 4 * (8 * g) + 1, 4 * (8 * g + 7) + 1);
    } else {
      forall c | On6g(c) && Group(c, 8) == g ensures Group(c, 12) == Group(channel, 12) {
        EightsByTwelves((c - 1) / 4, t);
        EightsByTwelves((channel - 1) / 4, t);
      }
    }
  }

  /** Twelves in sixteens: the middle two of four stick out. */
  lemma TwelvesInSixteens(channel: int)
    ensures GroupsNest(channel, 12, 16) <==> Group(channel, 12) % 4 == 0 || Group(channel, 12) % 4 == 3
  {
    var g := Group(channel, 12);
    var t, rest := g / 4, g % 4;
    if rest == 1 || rest == 2 {
      GroupAt(12 * g, 12, g, 0);
      GroupAt(12 * g + 11, 12, g, 11);
      GroupAt(12 * g, 16, 3 * t + rest - 1, 16 - 4 * rest);
      GroupAt(12 * g + 11, 16, 3 * t + rest, 11 - 4 * rest);
      StraddlingBreaksNest(channel, 12, 16, 4 * (12 * g) + 1, 4 * (12 * g + 11) + 1);
    } else {
      forall c | On6g(c) && Group(c, 12) == g ensures Group(c, 16) == Group(channel, 16) {
        TwelvesBySixteens((c - 1) / 4, t);
        TwelvesBySixteens((channel - 1) / 4, t);
      }
    }
  }

  /** A 240 MHz block holds the channel's 160 MHz block exactly when that is not the middle one of three. */
  lemma Block160NestsIff(channel: int)
    ensures Nests(channel, 160, 240) <==> Group(channel, 8) % 3 != 1
  {
    NestsIffGroupsNest(channel, 160, 240, 8, 12);
    EightsInTwelves(channel);
  }

  /** A 320 MHz block holds the channel's 240 MHz block exactly when that is the first or last of four. */
  lemma Block240NestsIff(channel: int)
    ensures Nests(channel, 240, 320) <==> Group(channel, 12) % 4 == 0 || Group(channel, 12) % 4 == 3
  {
    NestsIffGroupsNest(channel, 240, 320, 12, 16);
    TwelvesInSixteens(channel);
  }

  /** The narrower blocks always nest in it. */
  lemma NarrowBlocksNestIn240(channel: int, narrow: int)
    requires narrow in {20, 40, 80} && On6g(channel)
    ensures Nests(channel, narrow, 240)
  {
    if narrow > 20 {
      NestsIffGroupsNest(channel, narrow, 240, Subchannels(narrow), 12);
      WholeGroupsNest(channel, Subchannels(narrow), 12 / Subchannels(narrow));
    } else {
      BlockIsGroup(channel, 240, channel);
    }
  }

  /** Channel 33 is one whose 160 MHz block sticks out. */
  lemma Block160OfChannel33SticksOut()
    ensures !Nests(33, 160, 240)
  {
    Block160NestsIff(33);
  }

  // ------------------------------------------------------- the two centres

  function Sum(xs: seq<int>): int {
    if xs == [] then 0 else xs[0] + Sum(xs[1..])
  }

  /** Python's `int(a / b)`: the quotient, truncated toward zero. */
  function TruncDiv(a: int, b: nat): int
    requires b > 0
  {
    if a >= 0 then a / b else -(-a / b)
  }

  /** The channels' frequencies, leaving out those that have none, or zero. */
  function Freqs(channels: seq<int>, band: Band): seq<int> {
    if channels == [] then []
    else
      var f := ChannelToFreq(channels[0], band);
      (if f.Some? && f.value != 0 then [f.value] else []) + Freqs(channels[1..], band)
  }

  /** Centre frequency as the channel selector averages it. */
  function CentreFreq(channel: int, width: int, band: Band): Option<int> {
    if width <= 20 then ChannelToFreq(channel, band)
    else MeanFreq(Occupied(channel, width, band), band)
  }

  function MeanFreq(channels: seq<int>, band: Band): Option<int> {
    var freqs := Freqs(channels, band);
    if freqs == [] then None else Some(TruncDiv(Sum(freqs), |freqs|))
  }

  /** hostapd's 5 GHz segment table: the first and last channel of each block. */
  function Segments5g(width: int): seq<(int, int)> {
    match width
    case 80 => [(36, 48), (52, 64), (100, 112), (116, 128), (132, 144), (149, 161)]
    case 160 => [(36, 64), (100, 128)]
    case 240 => [(36, 112), (100, 144)]
    case 320 => [(36, 128)]
    case _ => []
  }

  function FirstSegment(segments: seq<(int, int)>, channel: int): Option<int> {
    if segments == [] then None
    else if segments[0].0 <= channel <= segments[0].1 then Some((segments[0].0 + segments[0].1) / 2)
    else FirstSegment(segments[1..], channel)
  }

  /** Centre channel as hostapd's segment-0 index is computed. */
  function CentreChannel(channel: int, width: int, band: Band): Option<int> {
    if width < 80 || band == Band2g then None
    else if band == Band5g then FirstSegment(Segments5g(width), channel)
    else if width !in {80, 160, 320} then None
    else Some(Start6g(channel, Subchannels(width)) + (Subchannels(width) - 1) * 2)
  }

  lemma {:induction false} SumSteps(first: int, step: int, count: nat)
    ensures 2 * Sum(Steps(first, step, count)) == count * (2 * first + (count - 1) * step)
    decreases count
  {
    if count > 0 {
      assert Steps(first, step, count)[1..] == Steps(first + step, step, count - 1);
      SumSteps(first + step, step, count - 1);
      assert (count - 1) * (2 * (first + step) + (count - 2) * step) + 2 * first
             == count * (2 * first + (count - 1) * step) by {
        assert (count - 2) * step == count * step - 2 * step;
        assert (count - 1) * step == count * step - step;
        assert (count - 1) * (2 * first + count * step) ==
               count * (2 * first + count * step) - (2 * first + count * step);
        assert count * (2 * first + count * step - step) == count * (2 * first + count * step) - count * step;
      }
    }
  }

  function Base(band: Band): int {
    if band == Band6g then 5950 else 5000
  }

  lemma {:induction false} FreqsOfSteps(first: int, count: nat, band: Band)
    requires band != Band2g
    requires forall i | 0 <= i < count :: Base(band) + 5 * (first + i * 4) != 0
    ensures Freqs(Steps(first, 4, count), band) == Steps(Base(band) + 5 * first, 20, count)
    decreases count
  {
    if count > 0 {
      assert Steps(first, 4, count)[0] == first + 0 * 4 == first;
      assert Steps(first, 4, count)[1..] == Steps(first + 4, 4, count - 1);
      forall i | 0 <= i < count - 1 ensures Base(band) + 5 * (first + 4 + i * 4) != 0 {
        assert first + 4 + i * 4 == first + (i + 1) * 4;
      }
      FreqsOfSteps(first + 4, count - 1, band);
      assert Base(band) + 5 * (first + 0 * 4) != 0;
      assert Steps(Base(band) + 5 * first, 20, count) ==
             [Base(band) + 5 * first] + Steps(Base(band) + 5 * (first + 4), 20, count - 1);
    }
  }

  lemma TruncDivExact(x: int, n: nat)
    requires n > 0
    ensures TruncDiv(n * x, n) == x
  {
    assert n * x >= 0 <==> x >= 0;
    DivModUnique(n * x, n, x, 0);
    DivModUnique(-(n * x), n, -x, 0);
  }

  /** A run of equally spaced channels averages to the frequency of its middle. */
  lemma RunCentre(first: int, count: nat, band: Band)
    requires count > 0 && band != Band2g
    requires forall i | 0 <= i < count :: Base(band) + 5 * (first + i * 4) != 0
    ensures var freqs := Freqs(Steps(first, 4, count), band);
            |freqs| == count && TruncDiv(Sum(freqs), |freqs|) == Base(band) + 5 * (first + 2 * (count - 1))
  {
    FreqsOfSteps(first, count, band);
    var f := Base(band) + 5 * first;
    SumSteps(f, 20, count);
    RunTotal(Sum(Steps(f, 20, count)), f, count);
    TruncDivExact(f + 10 * (count - 1), count);
  }

  lemma RunTotal(sum: int, f: int, count: nat)
    requires 2 * sum == count * (2 * f + (count - 1) * 20)
    ensures sum == count * (f + 10 * (count - 1))
  {
    var mean := f + 10 * (count - 1);
    assert 2 * f + (count - 1) * 20 == 2 * mean;
    assert count * (2 * mean) == 2 * (count * mean);
  }

  /** On 6 GHz the averaged frequency is the frequency of hostapd's centre channel, for every channel number. */
  lemma Centres6gAgree(channel: int, width: int)
    requires width in {80, 160, 320}
    ensures CentresAgree(channel, width, Band6g)
  {
    var n := Subchannels(width);
    var first := Start6g(channel, n);
    var k := (channel - 1) / 4 / n * n;
    assert first == 4 * k + 1;
    forall i | 0 <= i < n ensures 5950 + 5 * (first + i * 4) != 0 {
      assert 5950 + 5 * (first + i * 4) == 5955 + 20 * (k + i);
      assert (5955 + 20 * (k + i)) % 20 == 15;
    }
    RunCentre(first, n, Band6g);
  }

  /** The 5 GHz segment is the block's first and last channel, the block a run without gaps. */
  predicate IsSegmentOf(segment: (int, int), block: seq<int>) {
    && block != [] && segment.0 > 0
    && block == Steps(segment.0, 4, |block|)
    && segment.1 == segment.0 + 4 * (|block| - 1)
  }

  lemma {:induction false} FirstBlockAt(blocks: seq<seq<int>>, channel: int) returns (i: nat)
    requires FirstBlock(blocks, channel).Some?
    ensures i < |blocks| && FirstBlock(blocks, channel) == Some(blocks[i]) && channel in blocks[i]
    ensures forall j | 0 <= j < i :: channel !in blocks[j]
  {
    if channel in blocks[0] {
      i := 0;
    } else {
      var k := FirstBlockAt(blocks[1..], channel);
      i := k + 1;
      assert forall j | 1 <= j < i :: blocks[j] == blocks[1..][j - 1];
    }
  }

  lemma {:induction false} FirstSegmentAt(segments: seq<(int, int)>, channel: int, i: nat)
    requires i < |segments| && segments[i].0 <= channel <= segments[i].1
    requires forall j | 0 <= j < i :: segments[j].1 < segments[i].0
    ensures FirstSegment(segments, channel) == Some((segments[i].0 + segments[i].1) / 2)
  {
    if i > 0 {
      assert segments[0].1 < channel;
      FirstSegmentAt(segments[1..], channel, i - 1);
    }
  }

  lemma {:induction false} SumAppend(xs: seq<int>, ys: seq<int>)
    ensures Sum(xs + ys) == Sum(xs) + Sum(ys)
  {
    if xs == [] {
      assert xs + ys == ys;
    } else {
      assert (xs + ys)[1..] == xs[1..] + ys;
      SumAppend(xs[1..], ys);
    }
  }

  lemma {:induction false} FreqsAppend(xs: seq<int>, ys: seq<int>, band: Band)
    ensures Freqs(xs + ys, band) == Freqs(xs, band) + Freqs(ys, band)
  {
    if xs == [] {
      assert xs + ys == ys;
    } else {
      assert (xs + ys)[1..] == xs[1..] + ys;
      FreqsAppend(xs[1..], ys, band);
    }
  }

  /** Two runs in one block average to the weighted mean of their middles. */
  lemma TwoRunsSum(a: nat, m: nat, b: nat, n: nat)
    ensures var freqs := Freqs(Steps(a, 4, m) + Steps(b, 4, n), Band5g);
            |freqs| == m + n
            && 2 * Sum(freqs) == m * (2 * (5000 + 5 * a) + (m - 1) * 20) + n * (2 * (5000 + 5 * b) + (n - 1) * 20)
  {
    FreqsAppend(Steps(a, 4, m), Steps(b, 4, n), Band5g);
    FreqsOfSteps(a, m, Band5g);
    FreqsOfSteps(b, n, Band5g);
    SumAppend(Steps(5000 + 5 * a, 20, m), Steps(5000 + 5 * b, 20, n));
    SumSteps(5000 + 5 * a, 20, m);
    SumSteps(5000 + 5 * b, 20, n);
  }

  lemma SegmentsMatch(width: int)
    requires width in {80, 160}
    ensures |Blocks5g(width)| == |Segments5g(width)|
    ensures forall i | 0 <= i < |Blocks5g(width)| :: IsSegmentOf(Segments5g(width)[i], Blocks5g(width)[i])
    ensures forall i, j | 0 <= j < i < |Segments5g(width)| :: Segments5g(width)[j].1 < Segments5g(width)[i].0
  {
  }

  /** Averaging a block and halving its segment's ends give one centre, for any such pair of tables. */
  lemma TablesAgree(blocks: seq<seq<int>>, segments: seq<(int, int)>, channel: int)
    requires |blocks| == |segments|
    requires forall i | 0 <= i < |blocks| :: IsSegmentOf(segments[i], blocks[i])
    requires forall i, j | 0 <= j < i < |segments| :: segments[j].1 < segments[i].0
    requires FirstBlock(blocks, channel).Some?
    ensures var freqs := Freqs(FirstBlock(blocks, channel).value, Band5g);
            && FirstSegment(segments, channel).Some? && freqs != []
            && TruncDiv(Sum(freqs), |freqs|) == 5000 + 5 * FirstSegment(segments, channel).value
  {
    var i := FirstBlockAt(blocks, channel);
    SegmentCentre(segments[i], blocks[i], channel);
    FirstSegmentAt(segments, channel, i);
  }

  lemma SegmentCentre(segment: (int, int), block: seq<int>, channel: int)
    requires IsSegmentOf(segment, block) && channel in block
    ensures segment.0 <= channel <= segment.1
    ensures var freqs := Freqs(block, Band5g);
            freqs != [] && TruncDiv(Sum(freqs), |freqs|) == 5000 + 5 * ((segment.0 + segment.1) / 2)
  {
    StepsMember(segment.0, |block|, channel);
    RunCentre(segment.0, |block|, Band5g);
  }

  /** A block of two runs: where its channels lie, and what its frequencies add up to. */
  lemma TwoRunBlock(block: seq<int>, a: nat, m: nat, b: nat, n: nat, channel: int)
    requires block == Steps(a, 4, m) + Steps(b, 4, n) && n > 0 && a + 4 * m <= b
    requires channel in block
    ensures a <= channel <= b + 4 * (n - 1)
    ensures |Freqs(block, Band5g)| == m + n
    ensures 2 * Sum(Freqs(block, Band5g)) ==
            m * (2 * (5000 + 5 * a) + (m - 1) * 20) + n * (2 * (5000 + 5 * b) + (n - 1) * 20)
  {
    StepsMember(a, m, channel);
    StepsMember(b, n, channel);
    TwoRunsSum(a, m, b, n);
  }

  lemma Wide320Agree(block: seq<int>, channel: int)
    requires block == Steps(36, 4, 8) + Steps(100, 4, 8) && channel in block
    ensures FirstSegment([(36, 128)], channel) == Some(82)
    ensures var freqs := Freqs(block, Band5g); |freqs| == 16 && TruncDiv(Sum(freqs), 16) == 5000 + 5 * 82
  {
    TwoRunBlock(block, 36, 8, 100, 8, channel);
    TruncDivExact(5410, 16);
  }

  /** Both centres, read off the two tables. */
  lemma CentresFromTables(channel: int, width: int)
    requires width >= 80
    ensures CentreChannel(channel, width, Band5g) == FirstSegment(Segments5g(width), channel)
    ensures FirstBlock(Blocks5g(width), channel).Some? ==>
              CentreFreq(channel, width, Band5g) == MeanFreq(FirstBlock(Blocks5g(width), channel).value, Band5g)
  {
  }

  predicate CentresAgree(channel: int, width: int, band: Band) {
    && CentreChannel(channel, width, band).Some?
    && CentreFreq(channel, width, band) == ChannelToFreq(CentreChannel(channel, width, band).value, band)
  }

  lemma OneBlock(block: seq<int>, channel: int)
    requires FirstBlock([block], channel).Some?
    ensures channel in block && FirstBlock([block], channel) == Some(block)
  {
    assert [block][1..] == [];
  }

  lemma Centres320(channel: int, width: int, block: seq<int>)
    requires width >= 80 && Blocks5g(width) == [block] && Segments5g(width) == [(36, 128)]
    requires FirstBlock([block], channel).Some?
    requires block == Steps(36, 4, 8) + Steps(100, 4, 8)
    ensures CentresAgree(channel, width, Band5g)
  {
    OneBlock(block, channel);
    Wide320Agree(block, channel);
    CentresFromTables(channel, width);
  }

  lemma SameCentre(channel: Option<int>, freq: Option<int>, centre: int)
    requires channel == Some(centre) && freq == Some(5000 + 5 * centre)
    ensures channel.Some? && freq == ChannelToFreq(channel.value, Band5g)
  {
  }

  lemma MatchedTables(blocks: seq<seq<int>>, segments: seq<(int, int)>, channel: int)
    returns (block: seq<int>, centre: int)
    requires |blocks| == |segments|
    requires forall i | 0 <= i < |blocks| :: IsSegmentOf(segments[i], blocks[i])
    requires forall i, j | 0 <= j < i < |segments| :: segments[j].1 < segments[i].0
    requires FirstBlock(blocks, channel).Some?
    ensures FirstBlock(blocks, channel) == Some(block) && FirstSegment(segments, channel) == Some(centre)
    ensures MeanFreq(block, Band5g) == Some(5000 + 5 * centre)
  {
    TablesAgree(blocks, segments, channel);
    block := FirstBlock(blocks, channel).value;
    centre := FirstSegment(segments, channel).value;
  }

  /** On 5 GHz the two agree for every channel of every 80, 160 and 320 MHz block. */
  lemma Centres5gAgree(channel: int, width: int)
    requires width in {80, 160, 320} && FirstBlock(Blocks5g(width), channel).Some?
    ensures CentresAgree(channel, width, Band5g)
  {
    if width == 320 {
      Centres320(channel, width, Blocks5g(width)[0]);
    } else {
      SegmentsMatch(width);
      var block, centre := MatchedTables(Blocks5g(width), Segments5g(width), channel);
      CentresFromTables(channel, width);
      SameCentre(CentreChannel(channel, width, Band5g), CentreFreq(channel, width, Band5g), centre);
    }
  }

  lemma First240Disagrees(block: seq<int>, channel: int)
    requires block == Steps(36, 4, 8) + Steps(100, 4, 4) && channel in block
    ensures FirstSegment([(36, 112), (100, 144)], channel) == Some(74)
    ensures var freqs := Freqs(block, Band5g); |freqs| == 12 && Sum(freqs) == 64120
  {
    TwoRunBlock(block, 36, 8, 100, 4, channel);
  }

  lemma Second240Agrees(block: seq<int>, channel: int)
    requires block == Steps(100, 4, 12) && channel in block && channel > 112
    ensures FirstSegment([(36, 112), (100, 144)], channel) == Some(122)
    ensures var freqs := Freqs(block, Band5g); |freqs| == 12 && TruncDiv(Sum(freqs), 12) == 5000 + 5 * 122
  {
    StepsMember(100, 12, channel);
    RunCentre(100, 12, Band5g);
    var segments := [(36, 112), (100, 144)];
    assert segments[1..] == [(100, 144)];
    assert FirstSegment(segments[1..], channel) == Some(122);
  }

  lemma TwoBlocks(first: seq<int>, second: seq<int>, channel: int)
    requires FirstBlock([first, second], channel).Some?
    ensures FirstBlock([first, second], channel) == if channel in first then Some(first) else Some(second)
    ensures channel !in first ==> channel in second
  {
    assert [first, second][1..] == [second];
    if channel !in first { OneBlock(second, channel); }
  }

  lemma Centres240(channel: int, width: int, first: seq<int>, second: seq<int>)
    requires width >= 80 && Blocks5g(width) == [first, second] && Segments5g(width) == [(36, 112), (100, 144)]
    requires FirstBlock([first, second], channel).Some?
    requires first == Steps(36, 4, 8) + Steps(100, 4, 4) && second == Steps(100, 4, 12)
    ensures CentresAgree(channel, width, Band5g) <==> channel !in first
  {
    TwoBlocks(first, second, channel);
    CentresFromTables(channel, width);
    if channel in first {
      First240Disagrees(first, channel);
    } else {
      StepsMember(36, 8, channel);
      StepsMember(100, 4, channel);
      StepsMember(100, 12, channel);
      Second240Agrees(second, channel);
    }
  }

  /** At 240 MHz they agree exactly outside the first block, whose channels are not contiguous. */
  lemma Centres5g240AgreeIff(channel: int)
    requires FirstBlock(Blocks5g(240), channel).Some?
    ensures CentresAgree(channel, 240, Band5g) <==> channel !in Blocks5g(240)[0]
  {
    Centres240(channel, 240, Blocks5g(240)[0], Blocks5g(240)[1]);
  }
}
