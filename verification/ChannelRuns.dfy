/**
 * Channel switching over time: `optimise`, `_record` and `_load_history` of gateway/sbegw/rf.py. One
 * attempt is one radio's turn in one optimisation run; the air and the clock are what each attempt reads.
 */
module ChannelRuns {
  import opened Wrappers
  import opened Channels
  import opened ChannelSelection

  const KEPT_SWITCHES := 200

  datatype Switch = Switch(ts: real, radio: string, from: Option<int>, to: int, manual: bool)

  /**
   * `decideAt` and `recordAt` are the clock when the recommendation is made and when a switch is recorded;
   * `works` is whether the hardware takes the new channel.
   */
  datatype Attempt = Attempt(
    radio: string,
    situation: Situation,
    current: Option<int>,
    force: bool,
    dryRun: bool,
    works: bool,
    decideAt: real,
    recordAt: real)

  datatype Memory = Memory(lastSwitch: map<string, real>, history: seq<Switch>)

  function LastSwitch(m: Memory, radio: string): real {
    if radio in m.lastSwitch then m.lastSwitch[radio] else 0.0
  }

  function Advice(m: Memory, a: Attempt, r: Rounding): Recommendation {
    Recommend(a.situation, a.current, a.decideAt - LastSwitch(m, a.radio), r)
  }

  /** The attempt moves the radio. */
  predicate Moves(m: Memory, a: Attempt, r: Rounding) {
    var rec := Advice(m, a, r);
    && rec.best.Some?
    && (rec.shouldSwitch || a.force)
    && a.current != Some(rec.best.value.channel)
    && !a.dryRun && a.works
  }

  function Record(m: Memory, s: Switch): Memory {
    var all := m.history + [s];
    Memory(m.lastSwitch[s.radio := s.ts], if |all| <= KEPT_SWITCHES then all else all[|all| - KEPT_SWITCHES..])
  }

  function SwitchOf(m: Memory, a: Attempt, r: Rounding): Switch
    requires Moves(m, a, r)
  {
    Switch(a.recordAt, a.radio, a.current, Advice(m, a, r).best.value.channel, a.force)
  }

  function Step(m: Memory, a: Attempt, r: Rounding): Memory {
    if Moves(m, a, r) then Record(m, SwitchOf(m, a, r)) else m
  }

  function After(m: Memory, run: seq<Attempt>, r: Rounding): Memory {
    if run == [] then m else Step(After(m, run[..|run| - 1], r), run[|run| - 1], r)
  }

  /** Which attempts of a run move their radio. */
  function WhichMove(m: Memory, run: seq<Attempt>, r: Rounding): seq<bool> {
    if run == [] then []
    else
      var before := run[..|run| - 1];
      WhichMove(m, before, r) + [Moves(After(m, before, r), run[|run| - 1], r)]
  }

  class ChannelAnalyzer {
    var lastSwitch: map<string, real>
    var history: seq<Switch>

    ghost function Model(): Memory
      reads this
    {
      Memory(lastSwitch, history)
    }

    /** The newest time of each radio in the stored history. */
    constructor (loaded: seq<Switch>)
      ensures history == loaded && lastSwitch == Reloaded(loaded)
    {
      history := loaded;
      lastSwitch := map[];
      new;
      for i := 0 to |loaded|
        invariant history == loaded && lastSwitch == Reloaded(loaded[..i])
      {
        lastSwitch := lastSwitch[loaded[i].radio := loaded[i].ts];
        assert loaded[..i + 1][..i] == loaded[..i];
      }
      assert loaded[..|loaded|] == loaded;
    }

    method RecordSwitch(s: Switch)
      modifies this
      ensures Model() == Record(old(Model()), s)
    {
      history := history + [s];
      if |history| > KEPT_SWITCHES {
        history := history[|history| - KEPT_SWITCHES..];
      }
      lastSwitch := lastSwitch[s.radio := s.ts];
    }

    /** One radio's turn. */
    method OptimiseRadio(a: Attempt, r: Rounding) returns (moved: bool)
      modifies this
      ensures Model() == Step(old(Model()), a, r) && (moved <==> Moves(old(Model()), a, r))
    {
      var last := if a.radio in lastSwitch then lastSwitch[a.radio] else 0.0;
      var rec := ComputeRecommendation(a.situation, a.current, a.decideAt - last, r);
      if rec.best.None? {
        return false;
      }
      if !rec.shouldSwitch && !a.force {
        return false;
      }
      if Some(rec.best.value.channel) == a.current || a.dryRun || !a.works {
        return false;
      }
      RecordSwitch(Switch(a.recordAt, a.radio, a.current, rec.best.value.channel, a.force));
      return true;
    }

    /** One optimisation run over the radios in turn; `switched` says which of them moved. */
    method Optimise(run: seq<Attempt>, r: Rounding) returns (switched: seq<bool>)
      modifies this
      ensures Model() == After(old(Model()), run, r)
      ensures switched == WhichMove(old(Model()), run, r)
    {
      switched := [];
      ghost var m := Model();
      for i := 0 to |run|
        invariant Model() == After(m, run[..i], r) && switched == WhichMove(m, run[..i], r)
      {
        assert run[..i + 1][..i] == run[..i];
        var moved := OptimiseRadio(run[i], r);
        switched := switched + [moved];
      }
      assert run[..|run|] == run;
    }
  }

  // ------------------------------------------------------------- who moves

  /**
   * A working turn that is no dry run moves the radio exactly when a switch is advised or, being forced, when the best
   * channel is another one.
   */
  lemma TurnMovesIff(m: Memory, a: Attempt, r: Rounding)
    requires a.works && !a.dryRun
    ensures var rec := Advice(m, a, r);
            Moves(m, a, r) <==>
            rec.shouldSwitch || (a.force && rec.best.Some? && a.current != Some(rec.best.value.channel))
  {
  }

  /** Dry runs and turns that fail record nothing, over any run. */
  lemma {:induction false} DryRunsRecordNothing(m: Memory, run: seq<Attempt>, r: Rounding)
    requires forall i | 0 <= i < |run| :: run[i].dryRun || !run[i].works
    ensures After(m, run, r) == m
    decreases |run|
  {
    if run != [] {
      DryRunsRecordNothing(m, run[..|run| - 1], r);
    }
  }

  // ------------------------------------------------------------- no flapping

  /** An unforced move away from a channel that could be scored: the kind the thresholds govern. */
  predicate Governed(m: Memory, a: Attempt, r: Rounding) {
    Moves(m, a, r) && !a.force && Advice(m, a, r).current.Some?
  }

  function AllCandidates(a: Attempt, r: Rounding): seq<Candidate> {
    var s := a.situation;
    Candidates(s.entries, s.entries, s.width, s.band, s.settings, a.current, r)
  }

  /** Such a move gains at least the configured improvement and keeps the configured distance from the last one. */
  lemma GovernedMovePays(m: Memory, a: Attempt, r: Rounding)
    requires Governed(m, a, r)
    ensures var rec := Advice(m, a, r);
            && rec.best.value.score - rec.current.value.score >= a.situation.settings.minImprovement
            && a.decideAt - LastSwitch(m, a.radio) >= a.situation.settings.minInterval
            && a.current == Some(rec.current.value.channel) && rec.best.value.channel != rec.current.value.channel
            && forall c | c in AllCandidates(a, r) :: Ahead(rec.best.value, c)
  {
    RecommendResult(a.situation, a.current, a.decideAt - LastSwitch(m, a.radio), r);
  }

  /**
   * The clock does not go back between one radio's turns. Turns of different radios may overlap: one run
   * decides for all its radios before it switches the first.
   */
  predicate ClockIsMonotone(run: seq<Attempt>, radio: string) {
    && (forall i | 0 <= i < |run| && run[i].radio == radio :: run[i].decideAt <= run[i].recordAt)
    && (forall i, j | 0 <= i < j < |run| && run[i].radio == run[j].radio == radio :: run[i].recordAt <= run[j].decideAt)
  }

  /** When the governed moves of one radio were recorded, in order. */
  function GovernedTimes(m: Memory, run: seq<Attempt>, radio: string, r: Rounding): seq<real> {
    if run == [] then []
    else
      var before := run[..|run| - 1];
      var a := run[|run| - 1];
      GovernedTimes(m, before, radio, r)
      + if a.radio == radio && Governed(After(m, before, r), a, r) then [a.recordAt] else []
  }

  predicate SpacedBy(times: seq<real>, interval: real) {
    forall i | 0 <= i < |times| - 1 :: times[i] + interval <= times[i + 1]
  }

  predicate AtLeastEvery(run: seq<Attempt>, radio: string, interval: real) {
    forall i | 0 <= i < |run| && run[i].radio == radio :: run[i].situation.settings.minInterval >= interval
  }

  lemma {:induction false} GovernedMovesAreSpaced(m: Memory, run: seq<Attempt>, radio: string, interval: real,
                                                r: Rounding)
    requires ClockIsMonotone(run, radio) && AtLeastEvery(run, radio, interval)
    ensures var times := GovernedTimes(m, run, radio, r);
            && SpacedBy(times, interval)
            && (times != [] ==>
                  exists k :: LastRecordedBy(m, run, radio, k, r) && times[|times| - 1] <= run[k].recordAt)
    decreases |run|
  {
    if run != [] {
      var before := run[..|run| - 1];
      var a := run[|run| - 1];
      GovernedMovesAreSpaced(m, before, radio, interval, r);
      var at := After(m, before, r);
      var times := GovernedTimes(m, before, radio, r);
      if times != [] {
        var k :| LastRecordedBy(m, before, radio, k, r) && times[|times| - 1] <= before[k].recordAt;
        var next := LastRecordedStep(m, run, radio, k, r);
        assert run[next].recordAt >= times[|times| - 1];
      } else if a.radio == radio && Governed(at, a, r) {
        assert LastRecordedBy(m, run, radio, |run| - 1, r);
      }
      if a.radio == radio && Governed(at, a, r) {
        if times != [] {
          GovernedMoveWaits(at, a, r, times[|times| - 1], interval);
        }
        SpacedAppend(times, a.recordAt, interval);
      }
    }
  }

  lemma GovernedMoveWaits(m: Memory, a: Attempt, r: Rounding, last: real, interval: real)
    requires Governed(m, a, r) && a.radio in m.lastSwitch && last <= m.lastSwitch[a.radio]
    requires a.decideAt <= a.recordAt && a.situation.settings.minInterval >= interval
    ensures last + interval <= a.recordAt
  {
    GovernedMovePays(m, a, r);
  }

  lemma SpacedAppend(times: seq<real>, t: real, interval: real)
    requires SpacedBy(times, interval) && (times != [] ==> times[|times| - 1] + interval <= t)
    ensures SpacedBy(times + [t], interval)
  {
  }

  /** What is remembered as the radio's last switch is when attempt k, one of its own, was recorded. */
  predicate LastRecordedBy(m: Memory, run: seq<Attempt>, radio: string, k: int, r: Rounding) {
    && 0 <= k < |run| && run[k].radio == radio
    && radio in After(m, run, r).lastSwitch && After(m, run, r).lastSwitch[radio] == run[k].recordAt
  }

  lemma LastRecordedStep(m: Memory, run: seq<Attempt>, radio: string, k: int, r: Rounding) returns (next: int)
    requires run != [] && ClockIsMonotone(run, radio) && LastRecordedBy(m, run[..|run| - 1], radio, k, r)
    ensures LastRecordedBy(m, run, radio, next, r) && run[next].recordAt >= run[k].recordAt
  {
    var before, a := run[..|run| - 1], run[|run| - 1];
    assert before[k] == run[k];
    next := if a.radio == radio && Moves(After(m, before, r), a, r) then |run| - 1 else k;
  }

  lemma {:induction false} SpacedTimesSpan(times: seq<real>, interval: real, i: nat, j: nat)
    requires SpacedBy(times, interval) && i <= j < |times|
    ensures times[j] - times[i] >= (j - i) as real * interval
    decreases j - i
  {
    if i < j {
      SpacedTimesSpan(times, interval, i, j - 1);
      assert (j - i) as real * interval == (j - 1 - i) as real * interval + interval by {
        assert (j - i) as real == (j - 1 - i) as real + 1.0;
      }
    }
  }

  /**
   * Over any run whose clock does not go back, any window of length `span` that holds the governed moves i..j of
   * a radio holds at most 1 + span / interval of them.
   */
  lemma WindowHoldsFewMoves(m: Memory, run: seq<Attempt>, radio: string, interval: real, r: Rounding,
                            from: real, span: real, i: nat, j: nat)
    requires ClockIsMonotone(run, radio) && AtLeastEvery(run, radio, interval)
    requires i <= j < |GovernedTimes(m, run, radio, r)|
    requires from <= GovernedTimes(m, run, radio, r)[i] && GovernedTimes(m, run, radio, r)[j] <= from + span
    ensures (j - i) as real * interval <= span
    ensures interval > 0.0 ==> (j - i + 1) as real <= 1.0 + span / interval
  {
    var times := GovernedTimes(m, run, radio, r);
    assert SpacedBy(times, interval) by {
      GovernedMovesAreSpaced(m, run, radio, interval, r);
    }
    SpacedWindow(times, interval, from, span, i, j);
  }

  lemma SpacedWindow(times: seq<real>, interval: real, from: real, span: real, i: nat, j: nat)
    requires SpacedBy(times, interval) && i <= j < |times|
    requires from <= times[i] && times[j] <= from + span
    ensures (j - i) as real * interval <= span
    ensures interval > 0.0 ==> (j - i + 1) as real <= 1.0 + span / interval
  {
    SpacedTimesSpan(times, interval, i, j);
    if interval > 0.0 {
      QuotientBound((j - i) as real, interval, span);
    }
  }

  lemma QuotientBound(n: real, d: real, span: real)
    requires d > 0.0 && n * d <= span
    ensures n <= span / d
  {
    var q := span / d;
    assert q * d == span;
    assert (q - n) * d >= 0.0;
    assert q - n < 0.0 ==> (q - n) * d < 0.0;
  }

  // ---------------------------------------------------------- after a restart

  /** `_last_switch` as rebuilt from a stored history. */
  function Reloaded(history: seq<Switch>): map<string, real> {
    if history == [] then map[]
    else Reloaded(history[..|history| - 1])[history[|history| - 1].radio := history[|history| - 1].ts]
  }

  /** What a restart would rebuild agrees with memory wherever it says anything. */
  predicate HistoryAgrees(m: Memory) {
    forall radio | radio in Reloaded(m.history) ::
      radio in m.lastSwitch && m.lastSwitch[radio] == Reloaded(m.history)[radio]
  }

  lemma {:induction false} ReloadedKeys(history: seq<Switch>, radio: string)
    ensures radio in Reloaded(history) <==> exists i :: 0 <= i < |history| && history[i].radio == radio
  {
    if history != [] {
      ReloadedKeys(history[..|history| - 1], radio);
      if i :| 0 <= i < |history| && history[i].radio == radio {
        assert i < |history| - 1 ==> history[..|history| - 1][i].radio == radio;
      }
    }
  }

  lemma {:induction false} ReloadedSuffix(history: seq<Switch>, k: nat)
    requires k <= |history|
    ensures forall radio | radio in Reloaded(history[k..]) ::
              radio in Reloaded(history) && Reloaded(history)[radio] == Reloaded(history[k..])[radio]
    decreases |history| - k
  {
    if k < |history| {
      ReloadedSuffix(history[..|history| - 1], k);
      assert history[k..][..|history| - k - 1] == history[..|history| - 1][k..];
    }
  }

  /** Every record, dropping of the oldest included, keeps the two in agreement. */
  lemma RecordKeepsAgreement(m: Memory, s: Switch)
    requires HistoryAgrees(m)
    ensures HistoryAgrees(Record(m, s))
  {
    var all := m.history + [s];
    assert all[..|all| - 1] == m.history;
    if |all| > KEPT_SWITCHES {
      ReloadedSuffix(all, |all| - KEPT_SWITCHES);
    }
  }

  lemma {:induction false} RunKeepsAgreement(m: Memory, run: seq<Attempt>, r: Rounding)
    requires HistoryAgrees(m)
    ensures HistoryAgrees(After(m, run, r))
    decreases |run|
  {
    if run != [] {
      var at := After(m, run[..|run| - 1], r);
      RunKeepsAgreement(m, run[..|run| - 1], r);
      if Moves(at, run[|run| - 1], r) {
        RecordKeepsAgreement(at, SwitchOf(at, run[|run| - 1], r));
      }
    }
  }

  /** How many of the attempts flagged moved. */
  function Count(which: seq<bool>): nat {
    if which == [] then 0 else Count(which[..|which| - 1]) + if which[|which| - 1] then 1 else 0
  }

  lemma {:induction false} WhichMoveLength(m: Memory, run: seq<Attempt>, r: Rounding)
    ensures |WhichMove(m, run, r)| == |run|
    decreases |run|
  {
    if run != [] {
      WhichMoveLength(m, run[..|run| - 1], r);
    }
  }

  /** Attempt k is the last of the run to move the radio. */
  predicate IsLastMove(which: seq<bool>, run: seq<Attempt>, radio: string, k: nat) {
    && k < |which| == |run| && which[k] && run[k].radio == radio
    && forall j | k < j < |run| && which[j] :: run[j].radio != radio
  }

  /** The switch a turn records, if any. */
  function Made(m: Memory, a: Attempt, r: Rounding): Option<Switch> {
    if Moves(m, a, r) then Some(SwitchOf(m, a, r)) else None
  }

  function AllMade(m: Memory, run: seq<Attempt>, r: Rounding): seq<Option<Switch>> {
    if run == [] then []
    else AllMade(m, run[..|run| - 1], r) + [Made(After(m, run[..|run| - 1], r), run[|run| - 1], r)]
  }

  function Push(history: seq<Switch>, s: Option<Switch>): seq<Switch> {
    var all := if s.Some? then history + [s.value] else history;
    if s.None? || |all| <= KEPT_SWITCHES then all else all[|all| - KEPT_SWITCHES..]
  }

  function Pushed(history: seq<Switch>, made: seq<Option<Switch>>): seq<Switch> {
    if made == [] then history else Push(Pushed(history, made[..|made| - 1]), made[|made| - 1])
  }

  lemma StepPushes(m: Memory, a: Attempt, r: Rounding)
    ensures Step(m, a, r).history == Push(m.history, Made(m, a, r))
  {
  }

  lemma {:induction false} HistoryIsPushed(m: Memory, run: seq<Attempt>, r: Rounding)
    ensures After(m, run, r).history == Pushed(m.history, AllMade(m, run, r))
    decreases |run|
  {
    if run != [] {
      HistoryIsPushed(m, run[..|run| - 1], r);
      StepPushes(After(m, run[..|run| - 1], r), run[|run| - 1], r);
    }
  }

  /** Turn by turn, a switch is recorded exactly by the turns that move, each its own radio's. */
  predicate MadeBy(made: seq<Option<Switch>>, which: seq<bool>, run: seq<Attempt>) {
    && |made| == |which| == |run|
    && forall i | 0 <= i < |run| ::
         && (made[i].Some? <==> which[i])
         && (made[i].Some? ==> made[i].value.radio == run[i].radio)
  }

  lemma {:induction false} MadeByMoves(m: Memory, run: seq<Attempt>, r: Rounding)
    ensures MadeBy(AllMade(m, run, r), WhichMove(m, run, r), run)
    decreases |run|
  {
    if run != [] {
      MadeByMoves(m, run[..|run| - 1], r);
    }
  }

  /** The newest `after` records are other radios', and the one before them, if it is still kept, is this radio's. */
  predicate LastAt(history: seq<Switch>, radio: string, after: nat) {
    && |history| <= KEPT_SWITCHES && (after >= KEPT_SWITCHES - 1 ==> |history| == KEPT_SWITCHES)
    && if after < KEPT_SWITCHES then
         && after < |history| && history[|history| - 1 - after].radio == radio
         && forall j | |history| - after <= j < |history| :: history[j].radio != radio
       else forall j | 0 <= j < |history| :: history[j].radio != radio
  }

  lemma PushMovesBack(history: seq<Switch>, s: Switch, radio: string, after: nat)
    requires LastAt(history, radio, after) && s.radio != radio
    ensures LastAt(Push(history, Some(s)), radio, after + 1)
  {
  }

  lemma PushLands(history: seq<Switch>, s: Switch)
    ensures LastAt(Push(history, Some(s)), s.radio, 0)
  {
  }

  lemma {:induction false} PushedAppend(history: seq<Switch>, head: seq<Option<Switch>>, tail: seq<Option<Switch>>)
    ensures Pushed(history, head + tail) == Pushed(Pushed(history, head), tail)
    decreases |tail|
  {
    if tail == [] {
      assert head + tail == head;
    } else {
      var n := |tail| - 1;
      PushedAppend(history, head, tail[..n]);
      assert (head + tail)[..|head| + n] == head + tail[..n];
    }
  }

  /** The turn moved another radio or none. */
  predicate Others(made: Option<Switch>, radio: string) {
    made.Some? ==> made.value.radio != radio
  }

  lemma OthersPushBack(history: seq<Switch>, made: Option<Switch>, radio: string, after: nat)
    requires LastAt(history, radio, after) && Others(made, radio)
    ensures LastAt(Push(history, made), radio, if made.Some? then after + 1 else after)
  {
    if made.Some? {
      PushMovesBack(history, made.value, radio, after);
    }
  }

  /** Turns that move other radios push the record back by one each. */
  lemma {:induction false} LaterTurnsMoveBack(history: seq<Switch>, tail: seq<Option<Switch>>, which: seq<bool>,
                                              radio: string, after: nat)
    requires LastAt(history, radio, after) && |tail| == |which|
    requires forall i | 0 <= i < |tail| :: (tail[i].Some? <==> which[i]) && Others(tail[i], radio)
    ensures LastAt(Pushed(history, tail), radio, after + Count(which))
    decreases |tail|
  {
    if tail != [] {
      var n := |tail| - 1;
      LaterTurnsMoveBack(history, tail[..n], which[..n], radio, after);
      OthersPushBack(Pushed(history, tail[..n]), tail[n], radio, after + Count(which[..n]));
    }
  }

  lemma LastMoveIsAt(history: seq<Switch>, made: seq<Option<Switch>>, which: seq<bool>, run: seq<Attempt>,
                     radio: string, k: nat)
    requires MadeBy(made, which, run) && IsLastMove(which, run, radio, k)
    ensures LastAt(Pushed(history, made), radio, Count(which[k + 1..]))
  {
    var head := made[..k + 1];
    assert head[..k] == made[..k] && head[k] == made[k];
    PushLands(Pushed(history, made[..k]), made[k].value);
    LaterTurnsMoveBack(Pushed(history, head), made[k + 1..], which[k + 1..], radio, 0);
    PushedAppend(history, head, made[k + 1..]);
    assert made == head + made[k + 1..];
  }

  /**
   * A radio that moves in a run is remembered across a restart if and only if fewer than two hundred moves
   * of the run come after its last one.
   */
  lemma RestartRemembersIff(m: Memory, run: seq<Attempt>, r: Rounding, which: seq<bool>, radio: string, k: nat)
    requires which == WhichMove(m, run, r) && IsLastMove(which, run, radio, k)
    ensures radio in Reloaded(After(m, run, r).history) <==> Count(which[k + 1..]) < KEPT_SWITCHES
  {
    MadeByMoves(m, run, r);
    LastMoveIsAt(m.history, AllMade(m, run, r), which, run, radio, k);
    HistoryIsPushed(m, run, r);
    LastAtIsReloaded(After(m, run, r).history, radio, Count(which[k + 1..]));
  }

  lemma LastAtIsReloaded(history: seq<Switch>, radio: string, after: nat)
    requires LastAt(history, radio, after)
    ensures radio in Reloaded(history) <==> after < KEPT_SWITCHES
  {
    ReloadedKeys(history, radio);
  }

  /** What a restart remembers, it remembers at the very time. */
  lemma RestartRemembersTheTime(m: Memory, run: seq<Attempt>, r: Rounding, radio: string)
    requires HistoryAgrees(m) && radio in Reloaded(After(m, run, r).history)
    ensures radio in After(m, run, r).lastSwitch
    ensures After(m, run, r).lastSwitch[radio] == Reloaded(After(m, run, r).history)[radio]
  {
    RunKeepsAgreement(m, run, r);
  }

  /** A forced turn of a radio that is on no channel yet. */
  function ForcedTurn(scene: Situation, radio: string): Attempt {
    Attempt(radio, scene, None, true, false, true, 0.0, 0.0)
  }

  predicate HasCandidate(scene: Situation, r: Rounding) {
    Recommend(scene, None, 0.0, r).best.Some?
  }

  lemma ForcedTurnAlwaysMoves(m: Memory, scene: Situation, radio: string, r: Rounding)
    requires HasCandidate(scene, r)
    ensures Moves(m, ForcedTurn(scene, radio), r)
  {
  }

  lemma {:induction false} AllMove(m: Memory, scene: Situation, run: seq<Attempt>, r: Rounding)
    requires HasCandidate(scene, r) && forall i | 0 <= i < |run| :: run[i] == ForcedTurn(scene, run[i].radio)
    ensures |WhichMove(m, run, r)| == |run| && forall i | 0 <= i < |run| :: WhichMove(m, run, r)[i]
    decreases |run|
  {
    if run != [] {
      var before := run[..|run| - 1];
      AllMove(m, scene, before, r);
      ForcedTurnAlwaysMoves(After(m, before, r), scene, run[|run| - 1].radio, r);
    }
  }

  /** One clear 2.4 GHz channel is enough to choose from. */
  lemma OneChannelHasCandidate(r: Rounding)
    ensures HasCandidate(Situation([Entry(1, false, false, false, 0, 0.0, None, None)], 20, Band2g,
                                   Settings(false, false, 8.0, 3600.0)), r)
  {
    var s := Situation([Entry(1, false, false, false, 0, 0.0, None, None)], 20, Band2g,
                       Settings(false, false, 8.0, 3600.0));
    var e := s.entries[0];
    assert Bonded(1, 20, Band2g) == [1] && e in s.entries;
    assert IsCandidate(s.entries, e, 20, Band2g);
    assert Candidates(s.entries, s.entries, s.width, s.band, s.settings, None, r) != [];
    RecommendResult(s, None, 0.0, r);
  }

  lemma {:induction false} CountAll(which: seq<bool>)
    requires forall i | 0 <= i < |which| :: which[i]
    ensures Count(which) == |which|
  {
    if which != [] {
      CountAll(which[..|which| - 1]);
    }
  }

  /** A running process remembers every radio that moved. */
  lemma {:induction false} MovedRadioIsRemembered(m: Memory, run: seq<Attempt>, r: Rounding, k: nat)
    requires k < |run| == |WhichMove(m, run, r)| && WhichMove(m, run, r)[k]
    ensures run[k].radio in After(m, run, r).lastSwitch
    decreases |run|
  {
    WhichMoveLength(m, run[..|run| - 1], r);
    if k < |run| - 1 {
      MovedRadioIsRemembered(m, run[..|run| - 1], r, k);
    }
  }

  lemma FirstIsLastMove(which: seq<bool>, run: seq<Attempt>)
    requires |which| == |run| > 0 && forall i | 0 <= i < |run| :: which[i]
    requires forall i | 0 < i < |run| :: run[i].radio != run[0].radio
    ensures IsLastMove(which, run, run[0].radio, 0) && Count(which[1..]) == |run| - 1
  {
    CountAll(which[1..]);
  }

  /** The process remembers when the radio moved last; after a restart it will not. */
  predicate Forgettable(m: Memory, radio: string) {
    radio in m.lastSwitch && radio !in Reloaded(m.history)
  }

  lemma Forgets(m: Memory, run: seq<Attempt>, r: Rounding, which: seq<bool>, radio: string, k: nat)
    requires which == WhichMove(m, run, r) && IsLastMove(which, run, radio, k)
    ensures Forgettable(After(m, run, r), radio) <==> Count(which[k + 1..]) >= KEPT_SWITCHES
  {
    RestartRemembersIff(m, run, r, which, radio, k);
    MovedRadioIsRemembered(m, run, r, k);
  }

  /** One switch of a radio, then a number of switches of another. */
  function ForgettingRun(scene: Situation, radio: string, other: string, later: nat): seq<Attempt> {
    [ForcedTurn(scene, radio)] + seq(later, i => ForcedTurn(scene, other))
  }

  lemma ForgettingRunMoves(m: Memory, scene: Situation, run: seq<Attempt>, r: Rounding, radio: string, other: string,
                           later: nat)
    requires HasCandidate(scene, r) && run == ForgettingRun(scene, radio, other, later) && radio != other
    ensures IsLastMove(WhichMove(m, run, r), run, radio, 0) && Count(WhichMove(m, run, r)[1..]) == later
  {
    assert run[0].radio == radio;
    AllMove(m, scene, run, r);
    FirstIsLastMove(WhichMove(m, run, r), run);
  }

  /** Two hundred make a restart forget the first, whichever two radios they are; fewer do not. */
  lemma TwoHundredLaterSwitchesForget(m: Memory, scene: Situation, run: seq<Attempt>, r: Rounding, radio: string,
                                      other: string, later: nat)
    requires HasCandidate(scene, r) && run == ForgettingRun(scene, radio, other, later) && radio != other
    ensures Forgettable(After(m, run, r), radio) <==> later >= KEPT_SWITCHES
  {
    ForgettingRunMoves(m, scene, run, r, radio, other, later);
    Forgets(m, run, r, WhichMove(m, run, r), radio, 0);
  }

  // ------------------------------------------------------------- convergence

  /** The channel a radio is on after a run, having started on `current`. */
  function ChannelAfter(m: Memory, run: seq<Attempt>, radio: string, current: Option<int>, r: Rounding): Option<int> {
    if run == [] then current
    else
      var before, a := run[..|run| - 1], run[|run| - 1];
      var at := After(m, before, r);
      if a.radio == radio && Moves(at, a, r) then Some(Advice(at, a, r).best.value.channel)
      else ChannelAfter(m, before, radio, current, r)
  }

  /** Measurements and settings of the radio stand still, and each of its turns finds it on the channel it is on. */
  predicate Frozen(m: Memory, run: seq<Attempt>, radio: string, s: Situation, current: Option<int>, r: Rounding) {
    forall i | 0 <= i < |run| && run[i].radio == radio ::
      run[i].situation == s && run[i].current == ChannelAfter(m, run[..i], radio, current, r)
  }

  /** How often a radio moved. */
  function SwitchesOf(which: seq<bool>, run: seq<Attempt>, radio: string): nat
    requires |which| == |run|
  {
    if run == [] then 0
    else
      var n := |run| - 1;
      SwitchesOf(which[..n], run[..n], radio) + if which[n] && run[n].radio == radio then 1 else 0
  }

  /**
   * A move is recorded as what it was: the newest entry of the history has the radio, the channel it left, the one it
   * is on from then, which is another, and the time the process remembers.
   */
  lemma MoveIsRecorded(m: Memory, run: seq<Attempt>, a: Attempt, r: Rounding, current: Option<int>)
    requires Moves(After(m, run, r), a, r)
    ensures var after := After(m, run + [a], r);
            && after.history != []
            && var last := after.history[|after.history| - 1];
               && last.radio == a.radio && last.from == a.current && last.manual == a.force
               && Some(last.to) == ChannelAfter(m, run + [a], a.radio, current, r) && Some(last.to) != last.from
               && a.radio in after.lastSwitch && after.lastSwitch[a.radio] == last.ts == a.recordAt
  {
    assert (run + [a])[..|run|] == run;
  }

  /** On the best channel already: nothing, forced or not, moves the radio. */
  predicate Settled(s: Situation, current: Option<int>, r: Rounding) {
    var rec := Recommend(s, current, 0.0, r);
    rec.best.None? || current == Some(rec.best.value.channel)
  }

  lemma MovingSettles(m: Memory, a: Attempt, r: Rounding)
    requires Rounds(r) && Moves(m, a, r)
    ensures var best := Recommend(a.situation, a.current, 0.0, r).best;
            best == Advice(m, a, r).best && Settled(a.situation, Some(best.value.channel), r)
  {
    OneMoveConverges(a.situation, a.current, 0.0, 0.0, r);
  }

  /**
   * However often optimisation runs over a frozen scene, forced or not, a radio switches at most once, to the best
   * channel.
   */
  lemma {:induction false} FrozenRunSwitchesAtMostOnce(m: Memory, run: seq<Attempt>, radio: string, s: Situation,
                                                       current: Option<int>, r: Rounding)
    requires Rounds(r) && Frozen(m, run, radio, s, current, r)
    ensures |WhichMove(m, run, r)| == |run|
    ensures var n := SwitchesOf(WhichMove(m, run, r), run, radio);
            var end := ChannelAfter(m, run, radio, current, r);
            && n <= 1
            && (n == 0 ==> end == current)
            && (n == 1 ==> && !Settled(s, current, r) && Settled(s, end, r)
                           && end == Some(Recommend(s, current, 0.0, r).best.value.channel))
    decreases |run|
  {
    WhichMoveLength(m, run, r);
    if run != [] {
      var before, a := run[..|run| - 1], run[|run| - 1];
      var at := After(m, before, r);
      assert forall i | 0 <= i < |before| :: before[..i] == run[..i] && before[i] == run[i];
      FrozenRunSwitchesAtMostOnce(m, before, radio, s, current, r);
      assert WhichMove(m, run, r)[..|run| - 1] == WhichMove(m, before, r);
      if a.radio == radio && Moves(at, a, r) {
        assert a.situation == s && a.current == ChannelAfter(m, before, radio, current, r);
        MovingSettles(at, a, r);
      }
    }
  }

  predicate ForcedTurnOf(a: Attempt, radio: string) {
    a.radio == radio && a.force && a.works && !a.dryRun
  }

  /** A forced, working turn moves a radio exactly when it is not on the best channel. */
  lemma ForcedTurnMoves(m: Memory, a: Attempt, r: Rounding)
    requires ForcedTurnOf(a, a.radio)
    ensures Moves(m, a, r) <==> !Settled(a.situation, a.current, r)
  {
  }

  /** One forced turn that works is enough to bring it there, wherever in the run it falls. */
  lemma {:induction false} ForcedTurnReachesTheBest(m: Memory, run: seq<Attempt>, radio: string, s: Situation,
                                                    current: Option<int>, r: Rounding, i: nat)
    requires Rounds(r) && Frozen(m, run, radio, s, current, r)
    requires i < |run| && ForcedTurnOf(run[i], radio)
    ensures Settled(s, ChannelAfter(m, run, radio, current, r), r)
    decreases |run|
  {
    var before, a := run[..|run| - 1], run[|run| - 1];
    var at := After(m, before, r);
    if a.radio == radio && Moves(at, a, r) {
      MovingSettles(at, a, r);
    } else if i < |before| {
      assert forall k | 0 <= k < |before| :: before[..k] == run[..k] && before[k] == run[k];
      ForcedTurnReachesTheBest(m, before, radio, s, current, r, i);
    } else {
      ForcedTurnMoves(at, a, r);
    }
  }
}
