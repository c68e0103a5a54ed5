/**
 * What a channel's score depends on: more interference, utilisation or noise anywhere in a scan raises no score, and
 * the two preferences cost exactly the channels they are about; gateway/sbegw/rf.py.
 */
module ChannelScores {
  import opened Wrappers
  import opened Channels
  import opened Interference
  import opened ChannelSelection

  // ------------------------------------------------------- a worse scan

  /** Neither measurement is there without the other, and the second is not lower. */
  predicate Rose(a: Option<real>, b: Option<real>) {
    if a.Some? && b.Some? then a.value <= b.value else a.None? && b.None?
  }

  predicate NoBetterEntry(x: Entry, y: Entry) {
    && x.channel == y.channel && x.dfs == y.dfs && x.psc == y.psc && x.noIr == y.noIr
    && x.interference <= y.interference
    && Rose(x.noise, y.noise) && Rose(x.utilisation, y.utilisation)
  }

  /** The same channels, with interference, noise or utilisation somewhere higher, nowhere lower. */
  predicate NoBetter(a: seq<Entry>, b: seq<Entry>) {
    |a| == |b| && forall i | 0 <= i < |a| :: NoBetterEntry(a[i], b[i])
  }

  lemma {:induction false} EntriesWithOneMore(details: seq<Detail>, before: seq<Neighbour>, n: Neighbour,
                                              after: seq<Neighbour>,
                                              survey: map<int, Survey>, band: Band, r: Rounding)
    requires Rounds(r)
    ensures NoBetter(Entries(details, before + after, survey, band, r),
                     Entries(details, before + [n] + after, survey, band, r))
    decreases |details|
  {
    if details != [] {
      EntriesWithOneMore(details[..|details| - 1], before, n, after, survey, band, r);
      NeighbourAddsWeight(before, n, after, details[|details| - 1].channel, band);
    }
  }

  lemma {:induction false} WithinWithMore(a: seq<Entry>, b: seq<Entry>, covered: seq<int>)
    requires NoBetter(a, b)
    ensures NoBetter(Within(a, covered), Within(b, covered))
  {
    if a != [] {
      WithinWithMore(a[1..], b[1..], covered);
      var x, y := Within(a[1..], covered), Within(b[1..], covered);
      assert NoBetterEntry(a[0], b[0]);
      assert NoBetter([a[0]] + x, [b[0]] + y);
      assert [] + x == x && [] + y == y;
    }
  }

  lemma {:induction false} SumWithMore(a: seq<Entry>, b: seq<Entry>)
    requires NoBetter(a, b)
    ensures SumInterference(a) <= SumInterference(b)
  {
    if a != [] { SumWithMore(a[1..], b[1..]); }
  }

  predicate AllRose(xs: seq<Option<real>>, ys: seq<Option<real>>) {
    |xs| == |ys| && forall i | 0 <= i < |xs| :: Rose(xs[i], ys[i])
  }

  lemma {:induction false} TotalWithMore(xs: seq<Option<real>>, ys: seq<Option<real>>)
    requires AllRose(xs, ys)
    ensures |Reported(xs)| == |Reported(ys)| && Total(Reported(xs)) <= Total(Reported(ys))
  {
    if xs != [] {
      TotalWithMore(xs[1..], ys[1..]);
      if xs[0].Some? {
        assert Reported(xs) == [xs[0].value] + Reported(xs[1..]) && Reported(ys) == [ys[0].value] + Reported(ys[1..]);
      } else {
        assert Reported(xs) == Reported(xs[1..]) && Reported(ys) == Reported(ys[1..]);
      }
    }
  }

  lemma QuotientWithMore(x: real, y: real, n: real)
    requires x <= y && n > 0.0
    ensures x / n <= y / n
  {
  }

  lemma MeanWithMore(xs: seq<Option<real>>, ys: seq<Option<real>>)
    requires AllRose(xs, ys)
    ensures Rose(Mean(xs), Mean(ys))
  {
    TotalWithMore(xs, ys);
    if Reported(xs) != [] {
      QuotientWithMore(Total(Reported(xs)), Total(Reported(ys)), |Reported(xs)| as real);
    }
  }

  lemma HasDfsWithMore(x: seq<Entry>, y: seq<Entry>)
    requires NoBetter(x, y)
    ensures HasDfs(x) <==> HasDfs(y)
  {
    if HasDfs(x) {
      var e :| e in x && e.dfs;
      var k :| 0 <= k < |x| && x[k] == e;
      assert y[k] in y && y[k].dfs;
    }
    if HasDfs(y) {
      var e :| e in y && e.dfs;
      var k :| 0 <= k < |y| && y[k] == e;
      assert x[k] in x && x[k].dfs;
    }
  }

  lemma PenaltyWithMore(x: seq<Entry>, y: seq<Entry>, d: Entry, e: Entry, band: Band, s: Settings)
    requires NoBetter(x, y) && d.psc == e.psc
    ensures OtherPenalty(x, d, band, s) <= OtherPenalty(y, e, band, s)
  {
    MeanWithMore(Utilisations(x), Utilisations(y));
    MeanWithMore(Noises(x), Noises(y));
    HasDfsWithMore(x, y);
  }

  lemma BaseScoreWithMore(a: seq<Entry>, b: seq<Entry>, i: nat, width: int, band: Band, s: Settings)
    requires NoBetter(a, b) && i < |a|
    ensures BaseScore(b, b[i], width, band, s) <= BaseScore(a, a[i], width, band, s)
  {
    var covered := Occupied(a[i].channel, width, band);
    WithinWithMore(a, b, covered);
    SumWithMore(Within(a, covered), Within(b, covered));
    PenaltyWithMore(Within(a, covered), Within(b, covered), a[i], b[i], band, s);
  }

  lemma HasChannelWithMore(a: seq<Entry>, b: seq<Entry>, c: int)
    requires NoBetter(a, b)
    ensures HasChannel(a, c) <==> HasChannel(b, c)
  {
    if HasChannel(a, c) {
      var x :| x in a && x.channel == c;
      var k :| 0 <= k < |a| && a[k] == x;
      assert b[k] in b && b[k].channel == c;
    }
    if HasChannel(b, c) {
      var x :| x in b && x.channel == c;
      var k :| 0 <= k < |b| && b[k] == x;
      assert a[k] in a && a[k].channel == c;
    }
  }

  lemma CandidacyWithMore(a: seq<Entry>, b: seq<Entry>, i: nat, width: int, band: Band)
    requires NoBetter(a, b) && i < |a|
    ensures IsCandidate(a, a[i], width, band) <==> IsCandidate(b, b[i], width, band)
  {
    forall c ensures HasChannel(a, c) <==> HasChannel(b, c) {
      HasChannelWithMore(a, b, c);
    }
  }

  /** The second list scores the same channels, none of them higher. */
  predicate NoHigher(a: seq<Candidate>, b: seq<Candidate>) {
    |a| == |b| && forall i | 0 <= i < |a| :: a[i].channel == b[i].channel && b[i].score <= a[i].score
  }

  lemma ScoreWithMore(x: real, y: real, channel: int, current: Option<int>, r: Rounding)
    requires Rounds(r) && y <= x
    ensures Score(y, channel, current, r) <= Score(x, channel, current, r)
  {
  }

  lemma ScoreEntryWithMore(a: seq<Entry>, b: seq<Entry>, i: nat, width: int, band: Band, s: Settings,
                           current: Option<int>, r: Rounding)
    requires Rounds(r) && NoBetter(a, b) && i < |a|
    ensures NoHigher(ScoreEntry(a[i], a, width, band, s, current, r), ScoreEntry(b[i], b, width, band, s, current, r))
  {
    CandidacyWithMore(a, b, i, width, band);
    BaseScoreWithMore(a, b, i, width, band, s);
    ScoreWithMore(BaseScore(a, a[i], width, band, s), BaseScore(b, b[i], width, band, s), a[i].channel, current, r);
  }

  lemma NoHigherAppend(a: seq<Candidate>, b: seq<Candidate>, c: seq<Candidate>, d: seq<Candidate>)
    requires NoHigher(a, b) && NoHigher(c, d)
    ensures NoHigher(a + c, b + d)
  {
  }

  lemma {:induction false} CandidatesWithMore(i: nat, a: seq<Entry>, b: seq<Entry>, width: int, band: Band, s: Settings,
                                              current: Option<int>, r: Rounding)
    requires Rounds(r) && NoBetter(a, b) && i <= |a|
    ensures NoHigher(Candidates(a[i..], a, width, band, s, current, r),
                     Candidates(b[i..], b, width, band, s, current, r))
    decreases |a| - i
  {
    if i < |a| {
      CandidatesWithMore(i + 1, a, b, width, band, s, current, r);
      ScoreEntryWithMore(a, b, i, width, band, s, current, r);
      CandidatesStep(i, a, width, band, s, current, r);
      CandidatesStep(i, b, width, band, s, current, r);
      NoHigherAppend(ScoreEntry(a[i], a, width, band, s, current, r), ScoreEntry(b[i], b, width, band, s, current, r),
                     Candidates(a[i + 1..], a, width, band, s, current, r),
                     Candidates(b[i + 1..], b, width, band, s, current, r));
    }
  }

  /** More interference, utilisation or noise anywhere raises no score and changes no channel's candidacy. */
  lemma WorseScanNeverHelps(a: seq<Entry>, b: seq<Entry>, width: int, band: Band, s: Settings, current: Option<int>,
                            r: Rounding)
    requires Rounds(r) && NoBetter(a, b)
    ensures NoHigher(Candidates(a, a, width, band, s, current, r), Candidates(b, b, width, band, s, current, r))
  {
    CandidatesWithMore(0, a, b, width, band, s, current, r);
    assert a[0..] == a && b[0..] == b;
  }

  /** A neighbour more in the scan raises no candidate's score and changes no channel's candidacy. */
  lemma NeighbourNeverHelps(details: seq<Detail>, before: seq<Neighbour>, n: Neighbour, after: seq<Neighbour>,
                            survey: map<int, Survey>, width: int, band: Band, s: Settings,
                            current: Option<int>, r: Rounding)
    requires Rounds(r)
    ensures var a := Entries(details, before + after, survey, band, r);
            var b := Entries(details, before + [n] + after, survey, band, r);
            NoHigher(Candidates(a, a, width, band, s, current, r), Candidates(b, b, width, band, s, current, r))
  {
    EntriesWithOneMore(details, before, n, after, survey, band, r);
    WorseScanNeverHelps(Entries(details, before + after, survey, band, r),
                        Entries(details, before + [n] + after, survey, band, r), width, band, s, current, r);
  }

  lemma {:induction false} EntriesWithLouder(details: seq<Detail>, before: seq<Neighbour>, n: Neighbour, m: Neighbour,
                                             after: seq<Neighbour>, survey: map<int, Survey>, band: Band, r: Rounding)
    requires Rounds(r) && Louder(n, m)
    ensures NoBetter(Entries(details, before + [n] + after, survey, band, r),
                     Entries(details, before + [m] + after, survey, band, r))
    decreases |details|
  {
    if details != [] {
      EntriesWithLouder(details[..|details| - 1], before, n, m, after, survey, band, r);
      LouderAddsWeight(before, n, m, after, details[|details| - 1].channel, band);
    }
  }

  /** Nor does a neighbour heard louder. */
  lemma LouderNeighbourNeverHelps(details: seq<Detail>, before: seq<Neighbour>, n: Neighbour, m: Neighbour,
                                  after: seq<Neighbour>, survey: map<int, Survey>, width: int, band: Band, s: Settings,
                                  current: Option<int>, r: Rounding)
    requires Rounds(r) && Louder(n, m)
    ensures var a := Entries(details, before + [n] + after, survey, band, r);
            var b := Entries(details, before + [m] + after, survey, band, r);
            NoHigher(Candidates(a, a, width, band, s, current, r), Candidates(b, b, width, band, s, current, r))
  {
    EntriesWithLouder(details, before, n, m, after, survey, band, r);
    WorseScanNeverHelps(Entries(details, before + [n] + after, survey, band, r),
                        Entries(details, before + [m] + after, survey, band, r), width, band, s, current, r);
  }

  // ------------------------------------------------------- who is a candidate

  /** The channel of an entry can start an access point of the width: it may transmit, and its block is permitted. */
  predicate CanHost(entries: seq<Entry>, e: Entry, width: int, band: Band) {
    && e in entries && !e.noIr
    && (band == Band2g ==> e.channel == 1 || e.channel == 6 || e.channel == 11)
    && Bonded(e.channel, width, band) != []
    && forall c | c in Bonded(e.channel, width, band) :: exists x | x in entries :: x.channel == c
  }

  lemma {:induction false} CandidatesHold(todo: seq<Entry>, entries: seq<Entry>, width: int, band: Band, s: Settings,
                                          current: Option<int>, r: Rounding, c: Candidate)
    requires forall e | e in todo :: e in entries
    ensures c in Candidates(todo, entries, width, band, s, current, r) <==>
            exists e :: e in todo && CanHost(entries, e, width, band) && c.channel == e.channel
                        && c.score == Score(BaseScore(entries, e, width, band, s), e.channel, current, r)
  {
    if todo != [] {
      assert todo == [todo[0]] + todo[1..] && todo[0] in todo;
      CandidatesHold(todo[1..], entries, width, band, s, current, r, c);
    }
  }

  /**
   * What is recommended can host an access point of the width: it may transmit, on 2.4 GHz it is 1, 6 or 11, and its
   * whole block is permitted. Something is recommended exactly when such a channel exists.
   */
  lemma RecommendsWhatCanHost(s: Situation, current: Option<int>, since: real, r: Rounding)
    ensures var best := Recommend(s, current, since, r).best;
            && (best.Some? <==> exists e :: CanHost(s.entries, e, s.width, s.band))
            && (best.Some? ==> exists e :: CanHost(s.entries, e, s.width, s.band) && best.value.channel == e.channel)
  {
    var cs := Candidates(s.entries, s.entries, s.width, s.band, s.settings, current, r);
    var best := Recommend(s, current, since, r).best;
    RecommendResult(s, current, since, r);
    if best.Some? {
      CandidatesHold(s.entries, s.entries, s.width, s.band, s.settings, current, r, best.value);
    }
    if e :| CanHost(s.entries, e, s.width, s.band) {
      var c := Candidate(e.channel, Score(BaseScore(s.entries, e, s.width, s.band, s.settings), e.channel, current, r));
      CandidatesHold(s.entries, s.entries, s.width, s.band, s.settings, current, r, c);
      assert c in cs;
    }
  }

  lemma {:induction false} NoNegativeInterference(block: seq<Entry>)
    requires forall x | x in block :: x.interference >= 0.0
    ensures SumInterference(block) >= 0.0
  {
    if block != [] {
      assert block[0] in block && forall x | x in block[1..] :: x in block;
      NoNegativeInterference(block[1..]);
    }
  }

  /** No score is below zero, and none above a hundred but for staying put. */
  lemma ScoresAreBounded(s: Situation, current: Option<int>, r: Rounding, c: Candidate)
    requires Rounds(r) && c in Candidates(s.entries, s.entries, s.width, s.band, s.settings, current, r)
    requires forall x | x in s.entries :: x.interference >= 0.0 && (x.utilisation.Some? ==> x.utilisation.value >= 0.0)
    ensures r.one(0.0) <= c.score <= r.one(if current == Some(c.channel) then 106.0 else 100.0)
  {
    CandidatesHold(s.entries, s.entries, s.width, s.band, s.settings, current, r, c);
    var e :| e in s.entries && CanHost(s.entries, e, s.width, s.band) && c.channel == e.channel
             && c.score == Score(BaseScore(s.entries, e, s.width, s.band, s.settings), e.channel, current, r);
    BaseIsAtMostHundred(s.entries, e, s.width, s.band, s.settings);
    var base := BaseScore(s.entries, e, s.width, s.band, s.settings);
    assert Max(0.0, base + if current == Some(e.channel) then STICKINESS else 0.0) <=
           if current == Some(e.channel) then 106.0 else 100.0;
  }

  lemma BaseIsAtMostHundred(entries: seq<Entry>, e: Entry, width: int, band: Band, s: Settings)
    requires forall x | x in entries :: x.interference >= 0.0 && (x.utilisation.Some? ==> x.utilisation.value >= 0.0)
    ensures BaseScore(entries, e, width, band, s) <= 100.0
  {
    var covered := Occupied(e.channel, width, band);
    var block := Within(entries, covered);
    forall x | x in block ensures x in entries {
      WithinHolds(entries, covered, x);
    }
    NoNegativeInterference(block);
    MeanNotNegative(Utilisations(block));
  }

  lemma {:induction false} TotalNotNegative(values: seq<Option<real>>)
    requires forall i | 0 <= i < |values| && values[i].Some? :: values[i].value >= 0.0
    ensures Total(Reported(values)) >= 0.0
  {
    if values != [] {
      TotalNotNegative(values[1..]);
      if values[0].Some? {
        assert Reported(values) == [values[0].value] + Reported(values[1..]);
      } else {
        assert Reported(values) == Reported(values[1..]);
      }
    }
  }

  lemma MeanNotNegative(values: seq<Option<real>>)
    requires forall i | 0 <= i < |values| && values[i].Some? :: values[i].value >= 0.0
    ensures Mean(values).Some? ==> Mean(values).value >= 0.0
  {
    TotalNotNegative(values);
    if Reported(values) != [] {
      QuotientWithMore(0.0, Total(Reported(values)), |Reported(values)| as real);
    }
  }

  /** The entry has the channel's own flags and survey, and the neighbours that cover it. */
  predicate IsEntryOf(d: Detail, ns: seq<Neighbour>, survey: map<int, Survey>, band: Band, r: Rounding, e: Entry) {
    && e.channel == d.channel && e.dfs == d.dfs && e.psc == d.psc && e.noIr == d.noIr
    && e.neighbours == |Covering(ns, d.channel, band)|
    && e.interference == r.two(WeightOn(ns, d.channel, band))
    && if d.channel in survey then
         e.noise == survey[d.channel].noise && e.utilisation == survey[d.channel].utilisation
       else e.noise.None? && e.utilisation.None?
  }

  lemma MakeEntryIff(d: Detail, ns: seq<Neighbour>, survey: map<int, Survey>, band: Band, r: Rounding, e: Entry)
    ensures e == MakeEntry(d, ns, survey, band, r) <==> IsEntryOf(d, ns, survey, band, r, e)
  {
  }

  /** The scan's entries are those of the enabled channels. */
  lemma {:induction false} EntriesAreOfDetails(details: seq<Detail>, ns: seq<Neighbour>, survey: map<int, Survey>,
                                               band: Band, r: Rounding, e: Entry)
    ensures e in Entries(details, ns, survey, band, r) <==>
            exists d :: d in details && !d.disabled && IsEntryOf(d, ns, survey, band, r, e)
    decreases |details|
  {
    if details != [] {
      var before, last := details[..|details| - 1], details[|details| - 1];
      EntriesAreOfDetails(before, ns, survey, band, r, e);
      MakeEntryIff(last, ns, survey, band, r, e);
      assert details == before + [last];
    }
  }

  // ------------------------------------------------------- the preferences

  /** The block of the channel holds a DFS channel of the scan. */
  predicate BlockHasDfs(entries: seq<Entry>, channel: int, width: int, band: Band) {
    exists x | x in entries :: x.dfs && x.channel in Occupied(channel, width, band)
  }

  lemma {:induction false} WithinHolds(entries: seq<Entry>, covered: seq<int>, x: Entry)
    ensures x in Within(entries, covered) <==> x in entries && x.channel in covered
  {
    if entries != [] {
      WithinHolds(entries[1..], covered, x);
      assert entries == [entries[0]] + entries[1..];
    }
  }

  lemma HasDfsIff(entries: seq<Entry>, channel: int, width: int, band: Band)
    ensures HasDfs(Within(entries, Occupied(channel, width, band))) <==> BlockHasDfs(entries, channel, width, band)
  {
    var covered := Occupied(channel, width, band);
    forall x ensures x in Within(entries, covered) <==> x in entries && x.channel in covered {
      WithinHolds(entries, covered, x);
    }
  }

  /** Avoiding DFS costs a channel nineteen points if its block has a DFS channel, and nothing otherwise. */
  lemma AvoidDfsCosts(entries: seq<Entry>, e: Entry, width: int, band: Band, s: Settings)
    ensures BaseScore(entries, e, width, band, s.(avoidDfs := false))
         == BaseScore(entries, e, width, band, s.(avoidDfs := true))
            + if BlockHasDfs(entries, e.channel, width, band) then 19.0 else 0.0
  {
    HasDfsIff(entries, e.channel, width, band);
  }

  /** Preferring the PSC costs four points on the 6 GHz channels that are none, and nothing otherwise. */
  lemma PreferPscCosts(entries: seq<Entry>, e: Entry, width: int, band: Band, s: Settings)
    ensures BaseScore(entries, e, width, band, s.(preferPsc := false))
         == BaseScore(entries, e, width, band, s.(preferPsc := true)) + if band == Band6g && !e.psc then 4.0 else 0.0
  {
  }

  /** Nobody is heard in the block and nothing measured there. */
  predicate Silent(block: seq<Entry>) {
    forall x | x in block :: x.interference == 0.0 && x.noise.None? && x.utilisation.None?
  }

  lemma {:induction false} SilentTotals(block: seq<Entry>)
    requires Silent(block)
    ensures SumInterference(block) == 0.0 && Reported(Noises(block)) == [] && Reported(Utilisations(block)) == []
  {
    if block != [] {
      assert block[0] in block;
      assert forall x | x in block[1..] :: x in block;
      SilentTotals(block[1..]);
      assert Noises(block)[1..] == Noises(block[1..]) && Utilisations(block)[1..] == Utilisations(block[1..]);
    }
  }

  /** What a channel in a silent block scores: a hundred, six less with DFS and twenty-five when that is avoided. */
  lemma SilentChannelScores(entries: seq<Entry>, e: Entry, width: int, s: Settings)
    requires forall x | x in entries && x.channel in Occupied(e.channel, width, Band5g) ::
               x.interference == 0.0 && x.noise.None? && x.utilisation.None?
    ensures BaseScore(entries, e, width, Band5g, s) ==
            if !BlockHasDfs(entries, e.channel, width, Band5g) then 100.0 else if s.avoidDfs then 75.0 else 94.0
  {
    var covered := Occupied(e.channel, width, Band5g);
    HasDfsIff(entries, e.channel, width, Band5g);
    forall x | x in Within(entries, covered) ensures x in entries && x.channel in covered {
      WithinHolds(entries, covered, x);
    }
    SilentTotals(Within(entries, covered));
  }

  // ----------------------------------------------- what that does to the ranking

  /** The second list has the same channels, none higher, and the spared ones as they were. */
  ghost predicate LowersExcept(a: seq<Candidate>, b: seq<Candidate>, spared: int -> bool) {
    NoHigher(a, b) && forall i | 0 <= i < |a| && spared(a[i].channel) :: a[i] == b[i]
  }

  /** No entry scores higher under the second settings, and those on spared channels the same. */
  ghost predicate CostsExcept(todo: seq<Entry>, entries: seq<Entry>, width: int, band: Band, s: Settings, t: Settings,
                              spared: int -> bool) {
    forall e | e in todo ::
      && BaseScore(entries, e, width, band, t) <= BaseScore(entries, e, width, band, s)
      && (spared(e.channel) ==> BaseScore(entries, e, width, band, t) == BaseScore(entries, e, width, band, s))
  }

  lemma ScoreEntryOfSettings(e: Entry, entries: seq<Entry>, width: int, band: Band, s: Settings, t: Settings,
                             current: Option<int>, r: Rounding, spared: int -> bool)
    requires Rounds(r) && BaseScore(entries, e, width, band, t) <= BaseScore(entries, e, width, band, s)
    requires spared(e.channel) ==> BaseScore(entries, e, width, band, t) == BaseScore(entries, e, width, band, s)
    ensures LowersExcept(ScoreEntry(e, entries, width, band, s, current, r),
                         ScoreEntry(e, entries, width, band, t, current, r), spared)
  {
    ScoreWithMore(BaseScore(entries, e, width, band, s), BaseScore(entries, e, width, band, t), e.channel, current, r);
  }

  lemma LowersAppend(a: seq<Candidate>, b: seq<Candidate>, c: seq<Candidate>, d: seq<Candidate>, spared: int -> bool)
    requires LowersExcept(a, b, spared) && LowersExcept(c, d, spared)
    ensures LowersExcept(a + c, b + d, spared)
  {
  }

  lemma {:induction false} CandidatesOfSettings(todo: seq<Entry>, entries: seq<Entry>, width: int, band: Band,
                                                s: Settings, t: Settings, current: Option<int>, r: Rounding,
                                                spared: int -> bool)
    requires Rounds(r) && CostsExcept(todo, entries, width, band, s, t, spared)
    ensures LowersExcept(Candidates(todo, entries, width, band, s, current, r),
                         Candidates(todo, entries, width, band, t, current, r), spared)
  {
    if todo != [] {
      assert todo[0] in todo && forall e | e in todo[1..] :: e in todo;
      CandidatesOfSettings(todo[1..], entries, width, band, s, t, current, r, spared);
      ScoreEntryOfSettings(todo[0], entries, width, band, s, t, current, r, spared);
      LowersAppend(ScoreEntry(todo[0], entries, width, band, s, current, r),
                   ScoreEntry(todo[0], entries, width, band, t, current, r),
                   Candidates(todo[1..], entries, width, band, s, current, r),
                   Candidates(todo[1..], entries, width, band, t, current, r), spared);
    }
  }

  lemma BestStays(a: seq<Candidate>, b: seq<Candidate>, best: Candidate, next: Candidate, spared: int -> bool)
    requires LowersExcept(a, b, spared) && spared(best.channel)
    requires best in a && forall c | c in a :: Ahead(best, c)
    requires next in b && forall c | c in b :: Ahead(next, c)
    ensures next == best
  {
    var i :| 0 <= i < |a| && a[i] == best;
    var j :| 0 <= j < |b| && b[j] == next;
    assert a[i] == b[i] && b[i] in b && a[j] in a;
  }

  /** A best channel that is spared stays best, at its score. */
  lemma SparedBestStays(s: Situation, t: Situation, current: Option<int>, since: real, r: Rounding, spared: int -> bool)
    requires LowersExcept(Candidates(s.entries, s.entries, s.width, s.band, s.settings, current, r),
                          Candidates(t.entries, t.entries, t.width, t.band, t.settings, current, r), spared)
    ensures var best := Recommend(s, current, since, r).best;
            best.Some? && spared(best.value.channel) ==> Recommend(t, current, since, r).best == best
  {
    var a := Candidates(s.entries, s.entries, s.width, s.band, s.settings, current, r);
    var b := Candidates(t.entries, t.entries, t.width, t.band, t.settings, current, r);
    var best, next := Recommend(s, current, since, r).best, Recommend(t, current, since, r).best;
    RecommendResult(s, current, since, r);
    RecommendResult(t, current, since, r);
    if best.Some? && spared(best.value.channel) {
      assert a != [] && |a| == |b| && next.Some?;
      BestStays(a, b, best.value, next.value, spared);
    }
  }

  /**
   * Turning DFS avoidance on raises no candidate's score and leaves the channels alone whose block has no DFS channel;
   * so if such a channel was the best it still is.
   */
  lemma AvoidingDfs(s: Situation, current: Option<int>, since: real, r: Rounding)
    requires Rounds(r)
    ensures var t := s.(settings := s.settings.(avoidDfs := true));
            var u := s.(settings := s.settings.(avoidDfs := false));
            var clear: int -> bool := c => !BlockHasDfs(s.entries, c, s.width, s.band);
            && LowersExcept(Candidates(s.entries, s.entries, s.width, s.band, u.settings, current, r),
                            Candidates(s.entries, s.entries, s.width, s.band, t.settings, current, r), clear)
            && var best := Recommend(u, current, since, r).best;
               (best.Some? && clear(best.value.channel) ==> Recommend(t, current, since, r).best == best)
  {
    var t := s.(settings := s.settings.(avoidDfs := true));
    var u := s.(settings := s.settings.(avoidDfs := false));
    var clear: int -> bool := c => !BlockHasDfs(s.entries, c, s.width, s.band);
    forall e | e in s.entries
      ensures BaseScore(s.entries, e, s.width, s.band, t.settings) <=
              BaseScore(s.entries, e, s.width, s.band, u.settings)
      ensures clear(e.channel) ==>
                BaseScore(s.entries, e, s.width, s.band, t.settings) ==
                BaseScore(s.entries, e, s.width, s.band, u.settings)
    {
      AvoidDfsCosts(s.entries, e, s.width, s.band, s.settings);
    }
    CandidatesOfSettings(s.entries, s.entries, s.width, s.band, u.settings, t.settings, current, r, clear);
    SparedBestStays(u, t, current, since, r, clear);
  }

  /** Every entry of the scan on this channel is a PSC. */
  predicate IsPsc(entries: seq<Entry>, channel: int) {
    forall x | x in entries && x.channel == channel :: x.psc
  }

  /** The same of preferring the PSCs of 6 GHz, and of any channel in the other bands. */
  lemma PreferringPsc(s: Situation, current: Option<int>, since: real, r: Rounding)
    requires Rounds(r)
    ensures var t := s.(settings := s.settings.(preferPsc := true));
            var u := s.(settings := s.settings.(preferPsc := false));
            var spared: int -> bool := c => s.band != Band6g || IsPsc(s.entries, c);
            && LowersExcept(Candidates(s.entries, s.entries, s.width, s.band, u.settings, current, r),
                            Candidates(s.entries, s.entries, s.width, s.band, t.settings, current, r), spared)
            && var best := Recommend(u, current, since, r).best;
               (best.Some? && spared(best.value.channel) ==> Recommend(t, current, since, r).best == best)
  {
    var t := s.(settings := s.settings.(preferPsc := true));
    var u := s.(settings := s.settings.(preferPsc := false));
    var spared: int -> bool := c => s.band != Band6g || IsPsc(s.entries, c);
    forall e | e in s.entries
      ensures BaseScore(s.entries, e, s.width, s.band, t.settings) <=
              BaseScore(s.entries, e, s.width, s.band, u.settings)
      ensures spared(e.channel) ==>
                BaseScore(s.entries, e, s.width, s.band, t.settings) ==
                BaseScore(s.entries, e, s.width, s.band, u.settings)
    {
      PreferPscCosts(s.entries, e, s.width, s.band, s.settings);
    }
    CandidatesOfSettings(s.entries, s.entries, s.width, s.band, u.settings, t.settings, current, r, spared);
    SparedBestStays(u, t, current, since, r, spared);
  }
}
