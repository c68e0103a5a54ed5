/**
 * Scoring and ranking candidate channels: the channel list of `ChannelAnalyzer.analyse` and `recommend`
 * in gateway/sbegw/rf.py. Scores are reals; the two roundings are any monotone functions.
 */
module ChannelSelection {
  import opened Wrappers
  import opened Channels
  import opened Interference

  datatype Rounding = Rounding(one: real -> real, two: real -> real)

  ghost predicate Monotone(f: real -> real) {
    forall x, y :: x <= y ==> f(x) <= f(y)
  }

  ghost predicate Rounds(r: Rounding) {
    Monotone(r.one) && Monotone(r.two)
  }

  /** A channel as the regulatory probe reports it. */
  datatype Detail = Detail(channel: int, disabled: bool, dfs: bool, psc: bool, noIr: bool)

  datatype Survey = Survey(noise: Option<real>, utilisation: Option<real>)

  /** A channel as it is scored. */
  datatype Entry = Entry(
    channel: int,
    dfs: bool,
    psc: bool,
    noIr: bool,
    neighbours: nat,
    interference: real,
    noise: Option<real>,
    utilisation: Option<real>)

  datatype Settings = Settings(avoidDfs: bool, preferPsc: bool, minImprovement: real, minInterval: real)

  function MakeEntry(d: Detail, ns: seq<Neighbour>, survey: map<int, Survey>, band: Band, r: Rounding): Entry {
    var measured := if d.channel in survey then survey[d.channel] else Survey(None, None);
    Entry(d.channel, d.dfs, d.psc, d.noIr, |Covering(ns, d.channel, band)|, r.two(WeightOn(ns, d.channel, band)),
          measured.noise, measured.utilisation)
  }

  function Entries(details: seq<Detail>, ns: seq<Neighbour>, survey: map<int, Survey>, band: Band,
                   r: Rounding): seq<Entry> {
    if details == [] then []
    else
      Entries(details[..|details| - 1], ns, survey, band, r) +
      if details[|details| - 1].disabled then [] else [MakeEntry(details[|details| - 1], ns, survey, band, r)]
  }

  /** Build the channel list from the neighbour table, skipping disabled channels. */
  method ListChannels(details: seq<Detail>, ns: seq<Neighbour>, survey: map<int, Survey>, band: Band, r: Rounding)
    returns (entries: seq<Entry>)
    ensures entries == Entries(details, ns, survey, band, r)
  {
    var load := Accumulate(ns, band);
    entries := [];
    for i := 0 to |details|
      invariant entries == Entries(details[..i], ns, survey, band, r)
    {
      var d := details[i];
      assert details[..i + 1][..i] == details[..i];
      if !d.disabled {
        var heard := LoadOf(load, d.channel);
        var measured := if d.channel in survey then survey[d.channel] else Survey(None, None);
        entries := entries + [Entry(d.channel, d.dfs, d.psc, d.noIr, heard.count, r.two(heard.weight),
                                    measured.noise, measured.utilisation)];
      }
    }
    assert details[..|details|] == details;
  }

  // --------------------------------------------------------------- scoring

  function Min(a: real, b: real): real { if a <= b then a else b }

  function Max(a: real, b: real): real { if a >= b then a else b }

  function SumInterference(block: seq<Entry>): real {
    if block == [] then 0.0 else block[0].interference + SumInterference(block[1..])
  }

  function Reported(values: seq<Option<real>>): seq<real> {
    if values == [] then []
    else (if values[0].Some? then [values[0].value] else []) + Reported(values[1..])
  }

  function Total(values: seq<real>): real {
    if values == [] then 0.0 else values[0] + Total(values[1..])
  }

  /** The mean of the values that were measured, if any were. */
  function Mean(values: seq<Option<real>>): Option<real> {
    var known := Reported(values);
    if known == [] then None else Some(Total(known) / |known| as real)
  }

  function Within(entries: seq<Entry>, covered: seq<int>): seq<Entry> {
    if entries == [] then []
    else (if entries[0].channel in covered then [entries[0]] else []) + Within(entries[1..], covered)
  }

  function Noises(block: seq<Entry>): seq<Option<real>> {
    seq(|block|, i requires 0 <= i < |block| => block[i].noise)
  }

  function Utilisations(block: seq<Entry>): seq<Option<real>> {
    seq(|block|, i requires 0 <= i < |block| => block[i].utilisation)
  }

  predicate HasDfs(block: seq<Entry>) {
    exists b | b in block :: b.dfs
  }

  predicate HasChannel(entries: seq<Entry>, channel: int) {
    exists x | x in entries :: x.channel == channel
  }

  /** Everything the score takes off that does not depend on the neighbours. */
  function OtherPenalty(block: seq<Entry>, e: Entry, band: Band, s: Settings): real {
    var utilisation := Mean(Utilisations(block));
    var noise := Mean(Noises(block));
    (if utilisation.Some? then Min(30.0, utilisation.value * 0.35) else 0.0)
    + (if noise.Some? then Max(0.0, noise.value + 95.0) * 1.2 else 0.0)
    + (if HasDfs(block) then (if s.avoidDfs then 25.0 else 6.0) else 0.0)
    + (if band == Band6g && s.preferPsc && !e.psc then 4.0 else 0.0)
  }

  const STICKINESS := 6.0

  /** The score before stickiness and rounding. */
  function BaseScore(entries: seq<Entry>, e: Entry, width: int, band: Band, s: Settings): real {
    var block := Within(entries, Occupied(e.channel, width, band));
    100.0 - Min(55.0, SumInterference(block) * 11.0) - OtherPenalty(block, e, band, s)
  }

  predicate IsCandidate(entries: seq<Entry>, e: Entry, width: int, band: Band) {
    && !e.noIr
    && (band == Band2g ==> e.channel in [1, 6, 11])
    && Bonded(e.channel, width, band) != []
    && forall c | c in Bonded(e.channel, width, band) :: HasChannel(entries, c)
  }

  datatype Candidate = Candidate(channel: int, score: real)

  function Score(base: real, channel: int, current: Option<int>, r: Rounding): real {
    r.one(Max(0.0, base + if current == Some(channel) then STICKINESS else 0.0))
  }

  /** The entry's candidate, if it is one. */
  function ScoreEntry(e: Entry, entries: seq<Entry>, width: int, band: Band, s: Settings,
                      current: Option<int>, r: Rounding): seq<Candidate> {
    if IsCandidate(entries, e, width, band) then
      [Candidate(e.channel, Score(BaseScore(entries, e, width, band, s), e.channel, current, r))]
    else []
  }

  function Candidates(todo: seq<Entry>, entries: seq<Entry>, width: int, band: Band, s: Settings,
                      current: Option<int>, r: Rounding): seq<Candidate> {
    if todo == [] then []
    else ScoreEntry(todo[0], entries, width, band, s, current, r)
         + Candidates(todo[1..], entries, width, band, s, current, r)
  }

  lemma CandidatesStep(i: nat, entries: seq<Entry>, width: int, band: Band, s: Settings, current: Option<int>,
                       r: Rounding)
    requires i < |entries|
    ensures Candidates(entries[i..], entries, width, band, s, current, r) ==
            ScoreEntry(entries[i], entries, width, band, s, current, r)
            + Candidates(entries[i + 1..], entries, width, band, s, current, r)
  {
    assert entries[i..][1..] == entries[i + 1..];
  }

  // --------------------------------------------------------------- ranking

  /** Higher score first, then lower channel: the key of the source's sort. */
  predicate Ahead(a: Candidate, b: Candidate) {
    a.score > b.score || (a.score == b.score && a.channel <= b.channel)
  }

  function Insert(c: Candidate, ranked: seq<Candidate>): seq<Candidate> {
    if ranked == [] || Ahead(c, ranked[0]) then [c] + ranked
    else [ranked[0]] + Insert(c, ranked[1..])
  }

  /** A stable sort by `Ahead`. */
  function Ranked(cs: seq<Candidate>): seq<Candidate> {
    if cs == [] then [] else Insert(cs[0], Ranked(cs[1..]))
  }

  predicate Sorted(cs: seq<Candidate>) {
    forall i, j | 0 <= i < j < |cs| :: Ahead(cs[i], cs[j])
  }

  lemma {:induction false} InsertResult(c: Candidate, ranked: seq<Candidate>)
    requires Sorted(ranked)
    ensures Sorted(Insert(c, ranked)) && multiset(Insert(c, ranked)) == multiset(ranked) + multiset{c}
  {
    if ranked == [] || Ahead(c, ranked[0]) {
    } else {
      InsertResult(c, ranked[1..]);
      var tail := Insert(c, ranked[1..]);
      assert ranked == [ranked[0]] + ranked[1..];
      forall j | 0 <= j < |tail| ensures Ahead(ranked[0], tail[j]) {
        assert tail[j] in multiset(tail);
        if tail[j] != c {
          assert tail[j] in ranked[1..];
          var k :| 0 <= k < |ranked[1..]| && ranked[1..][k] == tail[j];
          assert ranked[k + 1] == tail[j];
        }
      }
    }
  }

  /** Ranking loses and invents no candidate and puts them in order. */
  lemma {:induction false} RankedResult(cs: seq<Candidate>)
    ensures Sorted(Ranked(cs)) && multiset(Ranked(cs)) == multiset(cs)
  {
    if cs != [] {
      RankedResult(cs[1..]);
      InsertResult(cs[0], Ranked(cs[1..]));
      assert cs == [cs[0]] + cs[1..];
    }
  }

  function FindChannel(cs: seq<Candidate>, channel: Option<int>): Option<Candidate> {
    if cs == [] then None
    else if channel == Some(cs[0].channel) then Some(cs[0])
    else FindChannel(cs[1..], channel)
  }

  lemma {:induction false} FindChannelResult(cs: seq<Candidate>, channel: Option<int>)
    ensures FindChannel(cs, channel).Some? <==> exists c :: c in cs && channel == Some(c.channel)
    ensures FindChannel(cs, channel).Some? ==>
              FindChannel(cs, channel).value in cs && channel == Some(FindChannel(cs, channel).value.channel)
  {
    if cs != [] {
      FindChannelResult(cs[1..], channel);
      assert cs == [cs[0]] + cs[1..];
    }
  }

  // -------------------------------------------------------- recommendation

  /** What is measured and configured of one radio. */
  datatype Situation = Situation(entries: seq<Entry>, width: int, band: Band, settings: Settings)

  datatype Recommendation = Recommendation(best: Option<Candidate>, current: Option<Candidate>, shouldSwitch: bool)

  /** `since` is the time passed since the radio's last recorded switch. */
  function Recommend(s: Situation, current: Option<int>, since: real, r: Rounding): Recommendation {
    var ranked := Ranked(Candidates(s.entries, s.entries, s.width, s.band, s.settings, current, r));
    if ranked == [] then Recommendation(None, None, false)
    else
      var best := ranked[0];
      var found := FindChannel(ranked, current);
      var should :=
        if current.None? then true
        else if best.channel == current.value then false
        else if found.None? then true
        else if best.score - found.value.score < s.settings.minImprovement then false
        else if since < s.settings.minInterval then false
        else true;
      Recommendation(Some(best), found, should)
  }

  /** Score one channel, if it can be used. */
  method ScoreChannel(s: Situation, e: Entry, current: Option<int>, r: Rounding) returns (scored: seq<Candidate>)
    ensures scored == ScoreEntry(e, s.entries, s.width, s.band, s.settings, current, r)
  {
    if !IsCandidate(s.entries, e, s.width, s.band) {
      return [];
    }
    var score := BaseScore(s.entries, e, s.width, s.band, s.settings);
    if current == Some(e.channel) {
      score := score + STICKINESS;
    }
    scored := [Candidate(e.channel, r.one(Max(0.0, score)))];
  }

  /** Score every channel that can be used. */
  method ScoreCandidates(s: Situation, current: Option<int>, r: Rounding) returns (candidates: seq<Candidate>)
    ensures candidates == Candidates(s.entries, s.entries, s.width, s.band, s.settings, current, r)
  {
    candidates := [];
    ghost var all := Candidates(s.entries, s.entries, s.width, s.band, s.settings, current, r);
    for i := 0 to |s.entries|
      invariant candidates + Candidates(s.entries[i..], s.entries, s.width, s.band, s.settings, current, r) == all
    {
      var scored := ScoreChannel(s, s.entries[i], current, r);
      CandidatesGrow(candidates, i, s, current, r);
      candidates := candidates + scored;
    }
  }

  lemma CandidatesGrow(done: seq<Candidate>, i: nat, s: Situation, current: Option<int>, r: Rounding)
    requires i < |s.entries|
    ensures done + Candidates(s.entries[i..], s.entries, s.width, s.band, s.settings, current, r) ==
            (done + ScoreEntry(s.entries[i], s.entries, s.width, s.band, s.settings, current, r))
            + Candidates(s.entries[i + 1..], s.entries, s.width, s.band, s.settings, current, r)
  {
    CandidatesStep(i, s.entries, s.width, s.band, s.settings, current, r);
  }

  /** The recommendation as the source computes it: score, rank, look the current channel up, decide. */
  method ComputeRecommendation(s: Situation, current: Option<int>, since: real,
                               r: Rounding) returns (rec: Recommendation)
    ensures rec == Recommend(s, current, since, r)
  {
    var candidates := ScoreCandidates(s, current, r);
    var ranked := Ranked(candidates);
    if ranked == [] {
      return Recommendation(None, None, false);
    }
    var best := ranked[0];
    var found := FindChannel(ranked, current);
    var should := false;
    if current.None? {
      should := true;
    } else if best.channel == current.value {
      should := false;
    } else if found.None? {
      should := true;
    } else {
      var gain := best.score - found.value.score;
      if gain >= s.settings.minImprovement && since >= s.settings.minInterval {
        should := true;
      }
    }
    rec := Recommendation(Some(best), found, should);
  }

  /** The best is a candidate that no candidate is ahead of; the current channel is found if it was scored at all. */
  lemma RecommendResult(s: Situation, current: Option<int>, since: real, r: Rounding)
    ensures var cs := Candidates(s.entries, s.entries, s.width, s.band, s.settings, current, r);
            var rec := Recommend(s, current, since, r);
            && (rec.best.None? <==> cs == [])
            && (rec.best.Some? ==> rec.best.value in cs && forall c | c in cs :: Ahead(rec.best.value, c))
            && (rec.current.Some? <==> exists c :: c in cs && current == Some(c.channel))
            && (rec.current.Some? ==> rec.current.value in cs && current == Some(rec.current.value.channel))
  {
    var cs := Candidates(s.entries, s.entries, s.width, s.band, s.settings, current, r);
    var ranked := Ranked(cs);
    RankedResult(cs);
    FindChannelResult(ranked, current);
    assert forall c :: c in cs <==> c in multiset(cs);
    assert forall c :: c in ranked <==> c in multiset(ranked);
    assert cs == [] <==> |multiset(cs)| == 0;
    if ranked != [] {
      assert ranked[0] in ranked;
      forall c | c in cs ensures Ahead(ranked[0], c) {
        assert c in ranked;
        var i :| 0 <= i < |ranked| && ranked[i] == c;
      }
    }
  }

  /** Of the candidates on a channel the one found is ahead of the others. */
  lemma {:induction false} FoundIsAhead(ranked: seq<Candidate>, channel: int)
    requires Sorted(ranked) && FindChannel(ranked, Some(channel)).Some?
    ensures forall c | c in ranked && c.channel == channel :: Ahead(FindChannel(ranked, Some(channel)).value, c)
  {
    if ranked[0].channel != channel {
      FoundIsAhead(ranked[1..], channel);
      assert ranked == [ranked[0]] + ranked[1..];
    }
  }

  /** Staying where it is costs more than the threshold, and the last switch is long enough ago. */
  predicate PaysToLeave(cs: seq<Candidate>, best: Candidate, channel: int, since: real, settings: Settings) {
    forall c | c in cs && c.channel == channel ::
      best.score - c.score >= settings.minImprovement && since >= settings.minInterval
  }

  /** The candidate is not behind any other, and is not on the channel. */
  predicate IsBestElsewhere(cs: seq<Candidate>, best: Candidate, channel: int) {
    best in cs && best.channel != channel && forall c | c in cs :: Ahead(best, c)
  }

  /**
   * A switch is advised exactly when some channel can be scored and the radio is on none, or there is a best candidate
   * on another channel and leaving pays: always so when the current channel cannot be scored.
   */
  lemma SwitchIff(s: Situation, current: Option<int>, since: real, r: Rounding)
    ensures var cs := Candidates(s.entries, s.entries, s.width, s.band, s.settings, current, r);
            Recommend(s, current, since, r).shouldSwitch <==>
            cs != [] && (current.None? || exists b ::
              IsBestElsewhere(cs, b, current.value) && PaysToLeave(cs, b, current.value, since, s.settings))
  {
    var cs := Candidates(s.entries, s.entries, s.width, s.band, s.settings, current, r);
    var rec := Recommend(s, current, since, r);
    RecommendResult(s, current, since, r);
    if cs != [] && current.Some? {
      BestIsOne(cs, rec.best.value);
      RankedResult(cs);
      FoundOnChannel(cs, current.value);
      if rec.shouldSwitch {
        assert IsBestElsewhere(cs, rec.best.value, current.value);
        assert PaysToLeave(cs, rec.best.value, current.value, since, s.settings);
      }
    }
  }

  /** Candidates that no candidate is ahead of are one and the same. */
  lemma BestIsOne(cs: seq<Candidate>, best: Candidate)
    requires best in cs && forall c | c in cs :: Ahead(best, c)
    ensures forall b | b in cs && (forall c | c in cs :: Ahead(b, c)) :: b == best
  {
  }

  lemma FoundOnChannel(cs: seq<Candidate>, channel: int)
    ensures var found := FindChannel(Ranked(cs), Some(channel));
            && (found.Some? ==> found.value in cs && found.value.channel == channel
                                && forall c | c in cs && c.channel == channel :: found.value.score >= c.score)
            && (found.None? ==> forall c | c in cs :: c.channel != channel)
  {
    var ranked := Ranked(cs);
    RankedResult(cs);
    FindChannelResult(ranked, Some(channel));
    assert forall c :: c in cs <==> c in multiset(cs);
    assert forall c :: c in ranked <==> c in multiset(ranked);
    if FindChannel(ranked, Some(channel)).Some? {
      FoundIsAhead(ranked, channel);
    }
  }

  // ----------------------------------------------------------- convergence

  /** Two candidate lists of one scan, under different current channels, place by place. */
  predicate SameButSticky(a: seq<Candidate>, b: seq<Candidate>, from: Option<int>, to: int) {
    && |a| == |b|
    && forall i | 0 <= i < |a| ::
         && a[i].channel == b[i].channel
         && (a[i].channel == to ==> a[i].score <= b[i].score)
         && (a[i].channel != to ==> b[i].score <= a[i].score)
  }

  lemma {:induction false} MovingShiftsScores(todo: seq<Entry>, s: Situation, from: Option<int>, to: int, r: Rounding)
    requires Rounds(r)
    ensures SameButSticky(Candidates(todo, s.entries, s.width, s.band, s.settings, from, r),
                          Candidates(todo, s.entries, s.width, s.band, s.settings, Some(to), r), from, to)
  {
    if todo != [] {
      MovingShiftsScores(todo[1..], s, from, to, r);
      var base := BaseScore(s.entries, todo[0], s.width, s.band, s.settings);
      var channel := todo[0].channel;
      assert channel == to ==> Score(base, channel, from, r) <= Score(base, channel, Some(to), r);
      assert channel != to ==> Score(base, channel, Some(to), r) <= Score(base, channel, from, r);
    }
  }

  /** With measurements and settings frozen, the channel moved to is the one recommended from there on. */
  lemma OneMoveConverges(s: Situation, from: Option<int>, since: real, later: real, r: Rounding)
    requires Rounds(r) && Recommend(s, from, since, r).best.Some?
    ensures var to := Recommend(s, from, since, r).best.value.channel;
            var again := Recommend(s, Some(to), later, r);
            again.best.Some? && again.best.value.channel == to && !again.shouldSwitch
  {
    var to := Recommend(s, from, since, r).best.value.channel;
    var a := Candidates(s.entries, s.entries, s.width, s.band, s.settings, from, r);
    var b := Candidates(s.entries, s.entries, s.width, s.band, s.settings, Some(to), r);
    RecommendResult(s, from, since, r);
    RecommendResult(s, Some(to), later, r);
    MovingShiftsScores(s.entries, s, from, to, r);
    var i :| 0 <= i < |a| && a[i] == Recommend(s, from, since, r).best.value;
    var j :| 0 <= j < |b| && b[j] == Recommend(s, Some(to), later, r).best.value;
    assert Ahead(a[i], a[j]) && Ahead(b[j], b[i]);
  }
}
