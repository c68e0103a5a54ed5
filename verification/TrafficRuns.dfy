/** What the traffic engine holds after a whole run: exact hourly totals, and the services of recent flows. */
module TrafficRuns {
  import opened Wrappers
  import opened Ledgers
  import opened Traffic

  // -------------------------------------------------- the accepted flows of a run

  function Logged(s: State, a: Action): seq<Flow> {
    if a.Ingest? && Accepts(a.event, a.moment.settings)
    then [FlowOf(a.event, a.moment, ServiceOf(s.flowApps, a.event.flowId))]
    else []
  }

  function Log(s: State, actions: seq<Action>): seq<Flow>
    decreases |actions|
  {
    if actions == [] then [] else Logged(s, actions[0]) + Log(Step(s, actions[0]), actions[1..])
  }

  /** The flows of one hour, client and protocol, in order. */
  function OfKey(log: seq<Flow>, k: Key): seq<Flow> {
    if log == [] then []
    else OfKey(log[..|log| - 1], k) + if KeyOf(log[|log| - 1]) == k then [log[|log| - 1]] else []
  }

  function Sum(flows: seq<Flow>, of: Flow -> nat): nat {
    if flows == [] then 0 else Sum(flows[..|flows| - 1], of) + of(flows[|flows| - 1])
  }

  function Rx(f: Flow): nat { f.rx }

  function Tx(f: Flow): nat { f.tx }

  function RxPackets(f: Flow): nat { f.rxPackets }

  function TxPackets(f: Flow): nat { f.txPackets }

  /**
   * The bucket sums the flows up: bytes and packets in total, seen from the first to the last, under what the first
   * was and with the address of the last.
   */
  predicate SumsUp(b: Bucket, flows: seq<Flow>) {
    && flows != []
    && b.rx == Sum(flows, Rx) && b.tx == Sum(flows, Tx)
    && b.rxPackets == Sum(flows, RxPackets) && b.txPackets == Sum(flows, TxPackets)
    && b.firstSeen == flows[0].time && b.lastSeen == flows[|flows| - 1].time
    && b.app == flows[0].app && b.ip == flows[|flows| - 1].ip
  }

  lemma GrownSumsUp(b: Option<Bucket>, flows: seq<Flow>, f: Flow)
    requires if b.Some? then SumsUp(b.value, flows) else flows == []
    ensures SumsUp(Grown(b, f), flows + [f])
  {
    assert (flows + [f])[..|flows|] == flows;
  }

  lemma {:induction false} OfKeyHolds(log: seq<Flow>, k: Key)
    ensures forall f | f in OfKey(log, k) :: f in log && KeyOf(f) == k
    ensures (forall f | f in log :: KeyOf(f) != k) ==> OfKey(log, k) == []
    ensures (exists f :: f in log && KeyOf(f) == k) ==> OfKey(log, k) != []
    decreases |log|
  {
    if log != [] {
      OfKeyHolds(log[..|log| - 1], k);
      assert log == log[..|log| - 1] + [log[|log| - 1]];
    }
  }

  // ------------------------------------------------------------------ the clock

  function TimeOf(a: Action): real {
    if a.Ingest? then a.moment.time else a.time
  }

  /** The clock does not go back, and pruning keeps at least an hour, as the validator demands. */
  predicate InOrder(actions: seq<Action>, clock: real) {
    actions != [] ==>
      && TimeOf(actions[0]) >= clock
      && (actions[0].Prune? ==> actions[0].hours >= 1)
      && InOrder(actions[1..], TimeOf(actions[0]))
  }

  function ClockAfter(actions: seq<Action>, clock: real): real {
    if actions == [] then clock else ClockAfter(actions[1..], TimeOf(actions[0]))
  }

  function Later(a: real, b: real): real {
    if a < b then b else a
  }

  function HorizonStep(a: Action, horizon: real): real {
    if a.Prune? then Later(horizon, Cutoff(a.time, a.hours)) else horizon
  }

  /** The latest cutoff any pruning has used. */
  function Horizon(actions: seq<Action>, horizon: real): real {
    if actions == [] then horizon
    else Horizon(actions[1..], HorizonStep(actions[0], horizon))
  }

  lemma HourSpan(t: real)
    ensures Hour(t) as real <= t < Hour(t) as real + HOUR as real
    ensures Hour(t) % HOUR == 0
  {
    var q := (t / HOUR as real).Floor;
    assert q as real <= t / HOUR as real < q as real + 1.0;
    assert (t / HOUR as real) * HOUR as real == t;
    assert (q * HOUR) as real == q as real * HOUR as real;
  }

  lemma HourIsOne(t: real, h: int)
    requires h % HOUR == 0 && h as real <= t < h as real + HOUR as real
    ensures Hour(t) == h
  {
    HourSpan(t);
    var q, p := h / HOUR, Hour(t) / HOUR;
    assert h == q * HOUR && Hour(t) == p * HOUR;
    assert (q - p) * HOUR < HOUR && (p - q) * HOUR < HOUR by {
      assert h as real < Hour(t) as real + HOUR as real && Hour(t) as real < h as real + HOUR as real;
      assert h < Hour(t) + HOUR && Hour(t) < h + HOUR;
    }
  }

  /** A flow belongs to the bucket of its client, its protocol and the full hour its time lies in. */
  lemma BucketOfFlow(f: Flow, k: Key)
    ensures KeyOf(f) == k <==>
            && k.client == f.client && k.protocol == f.app.protocol
            && k.hour % HOUR == 0 && k.hour as real <= f.time < k.hour as real + HOUR as real
  {
    HourSpan(f.time);
    if k.hour % HOUR == 0 && k.hour as real <= f.time < k.hour as real + HOUR as real {
      HourIsOne(f.time, k.hour);
    }
  }

  lemma SameHourIsClose(a: real, b: real)
    requires Hour(a) == Hour(b)
    ensures a - b < HOUR as real
  {
    HourSpan(a);
    HourSpan(b);
  }

  // -------------------------------------------------------------- exact totals

  /** A bucket holds exactly the logged flows of its hour, client and protocol. */
  predicate Holds(k: Key, b: Bucket, log: seq<Flow>) {
    && SumsUp(b, OfKey(log, k))
    && k.hour == Hour(b.lastSeen)
    && forall f | f in log && KeyOf(f) == k :: f.time <= b.lastSeen
  }

  /** Buckets are exact, and a flow without a bucket is from before the horizon. */
  ghost predicate Exact(buckets: Ledger<Key, Bucket>, log: seq<Flow>, horizon: real, clock: real) {
    && Keyed(buckets)
    && (forall k :: Find(buckets, k).Some? ==>
          Holds(k, Find(buckets, k).value, log) && horizon <= Find(buckets, k).value.lastSeen <= clock)
    && (forall f | f in log :: Find(buckets, KeyOf(f)).None? ==> f.time < horizon)
    && horizon <= clock - HOUR as real
  }

  lemma OfKeyNext(log: seq<Flow>, f: Flow, k: Key)
    ensures OfKey(log + [f], k) == OfKey(log, k) + if KeyOf(f) == k then [f] else []
  {
    assert (log + [f])[..|log|] == log;
  }

  lemma OtherBucketHolds(j: Key, b: Bucket, log: seq<Flow>, f: Flow)
    requires Holds(j, b, log) && KeyOf(f) != j
    ensures Holds(j, b, log + [f])
  {
    OfKeyNext(log, f, j);
    assert OfKey(log, j) + [] == OfKey(log, j);
  }

  lemma OwnBucketHolds(b: Option<Bucket>, log: seq<Flow>, f: Flow)
    requires if b.Some? then Holds(KeyOf(f), b.value, log) else forall g | g in log :: KeyOf(g) != KeyOf(f)
    requires b.Some? ==> b.value.lastSeen <= f.time
    ensures Holds(KeyOf(f), Grown(b, f), log + [f])
  {
    OfKeyNext(log, f, KeyOf(f));
    OfKeyHolds(log, KeyOf(f));
    GrownSumsUp(b, OfKey(log, KeyOf(f)), f);
  }

  /** With no bucket for its key, no flow logged has the key: those without a bucket are too old. */
  lemma NoBucketNoFlows(buckets: Ledger<Key, Bucket>, log: seq<Flow>, horizon: real, clock: real, f: Flow)
    requires Exact(buckets, log, horizon, clock) && f.time >= clock && Find(buckets, KeyOf(f)).None?
    ensures forall g | g in log :: KeyOf(g) != KeyOf(f)
  {
    forall g | g in log ensures KeyOf(g) != KeyOf(f) {
      if KeyOf(g) == KeyOf(f) { SameHourIsClose(f.time, g.time); }
    }
  }

  lemma {:induction false} BookKeepsExact(buckets: Ledger<Key, Bucket>, log: seq<Flow>, horizon: real, clock: real,
                                          f: Flow)
    requires Exact(buckets, log, horizon, clock) && f.time >= clock
    ensures Exact(Book(buckets, f), log + [f], horizon, f.time)
  {
    var next, k, before := Book(buckets, f), KeyOf(f), Find(buckets, KeyOf(f));
    var b := Grown(before, f);
    PutKeepsKeyed(buckets, k, b);
    if before.None? {
      NoBucketNoFlows(buckets, log, horizon, clock, f);
    }
    OwnBucketHolds(before, log, f);
    forall j | Find(next, j).Some?
      ensures Holds(j, Find(next, j).value, log + [f]) && horizon <= Find(next, j).value.lastSeen <= f.time
    {
      PutFinds(buckets, k, b, j);
      if j != k {
        OtherBucketHolds(j, Find(buckets, j).value, log, f);
      }
    }
    forall g | g in log + [f] && Find(next, KeyOf(g)).None? ensures g.time < horizon {
      PutFinds(buckets, k, b, KeyOf(g));
      assert g in log;
    }
  }

  lemma {:induction false} PruneKeepsExact(buckets: Ledger<Key, Bucket>, log: seq<Flow>, horizon: real, clock: real,
                                           time: real, hours: int)
    requires Exact(buckets, log, horizon, clock) && time >= clock && hours >= 1
    ensures Exact(Filter(buckets, Fresh(Cutoff(time, hours))), log, Later(horizon, Cutoff(time, hours)), time)
  {
    FilterFinds(buckets, Fresh(Cutoff(time, hours)));
    assert (hours * HOUR) as real >= HOUR as real;
  }

  /** The engine beside what it is accountable for: the flows accepted, the latest cutoff and the clock. */
  datatype Books = Books(state: State, log: seq<Flow>, horizon: real, clock: real)

  ghost predicate BooksExact(b: Books) {
    Exact(b.state.buckets, b.log, b.horizon, b.clock)
  }

  function StepBooks(b: Books, a: Action): Books {
    Books(Step(b.state, a), b.log + Logged(b.state, a), HorizonStep(a, b.horizon), TimeOf(a))
  }

  function RunBooks(b: Books, actions: seq<Action>): Books
    decreases |actions|
  {
    if actions == [] then b else RunBooks(StepBooks(b, actions[0]), actions[1..])
  }

  lemma AppendTwice<T>(a: seq<T>, b: seq<T>, c: seq<T>)
    ensures (a + b) + c == a + (b + c)
  {
  }

  lemma {:induction false} RunBooksIs(b: Books, actions: seq<Action>)
    ensures RunBooks(b, actions) == Books(Run(b.state, actions), b.log + Log(b.state, actions),
                                          Horizon(actions, b.horizon), ClockAfter(actions, b.clock))
    decreases |actions|
  {
    if actions == [] {
      assert b.log + [] == b.log;
    } else {
      RunBooksIs(StepBooks(b, actions[0]), actions[1..]);
      AppendTwice(b.log, Logged(b.state, actions[0]), Log(Step(b.state, actions[0]), actions[1..]));
    }
  }

  lemma StepKeepsExact(b: Books, a: Action)
    requires BooksExact(b) && TimeOf(a) >= b.clock && (a.Prune? ==> a.hours >= 1)
    ensures BooksExact(StepBooks(b, a))
  {
    assert b.log + [] == b.log;
    if a.Prune? {
      PruneKeepsExact(b.state.buckets, b.log, b.horizon, b.clock, a.time, a.hours);
    } else if Accepts(a.event, a.moment.settings) {
      BookKeepsExact(b.state.buckets, b.log, b.horizon, b.clock, Logged(b.state, a)[0]);
    }
  }

  lemma {:induction false} BooksStayExact(b: Books, actions: seq<Action>)
    requires BooksExact(b) && InOrder(actions, b.clock)
    ensures BooksExact(RunBooks(b, actions))
    decreases |actions|
  {
    if actions != [] {
      StepKeepsExact(b, actions[0]);
      BooksStayExact(StepBooks(b, actions[0]), actions[1..]);
    }
  }

  /** Over every run under a clock that does not go back, buckets stay exact. */
  lemma RunKeepsExact(s: State, actions: seq<Action>, log: seq<Flow>, horizon: real, clock: real)
    requires Exact(s.buckets, log, horizon, clock) && InOrder(actions, clock)
    ensures Exact(Run(s, actions).buckets, log + Log(s, actions), Horizon(actions, horizon), ClockAfter(actions, clock))
  {
    BooksStayExact(Books(s, log, horizon, clock), actions);
    RunBooksIs(Books(s, log, horizon, clock), actions);
  }

  /**
   * From an empty table, under a clock that does not go back: every bucket sums up exactly the run's
   * accepted flows of its hour, client and protocol, none of it pruned or counted twice; every
   * accepted flow no older than the latest cutoff is in a bucket; and no bucket ends before that cutoff.
   */
  lemma {:induction false} BucketsAreHourlyTotals(actions: seq<Action>, clock: real)
    requires InOrder(actions, clock)
    ensures
      var s := State([], [], 0, 0);
      var end := Run(s, actions);
      var log := Log(s, actions);
      var horizon := Horizon(actions, clock - HOUR as real);
      && (forall k :: Find(end.buckets, k).Some? ==>
            var b := Find(end.buckets, k).value;
            SumsUp(b, OfKey(log, k)) && k.hour as real + HOUR as real > horizon)
      && (forall f | f in log && f.time >= horizon :: Find(end.buckets, KeyOf(f)).Some?)
  {
    var s := State([], [], 0, 0);
    RunKeepsExact(s, actions, [], clock - HOUR as real, clock);
    assert [] + Log(s, actions) == Log(s, actions);
    var end := Run(s, actions);
    forall k | Find(end.buckets, k).Some?
      ensures k.hour as real + HOUR as real > Horizon(actions, clock - HOUR as real)
    {
      HourSpan(Find(end.buckets, k).value.lastSeen);
    }
  }

  /** How many events a run takes in. */
  function Events(actions: seq<Action>): nat {
    if actions == [] then 0 else (if actions[0].Ingest? then 1 else 0) + Events(actions[1..])
  }

  /** Over every run the counters count: every event is seen once, and every flow booked is accepted once. */
  lemma {:induction false} RunCounts(s: State, actions: seq<Action>)
    ensures Run(s, actions).eventsSeen == s.eventsSeen + Events(actions)
    ensures Run(s, actions).flowsAccepted == s.flowsAccepted + |Log(s, actions)|
    decreases |actions|
  {
    if actions != [] {
      RunCounts(Step(s, actions[0]), actions[1..]);
    }
  }

  // ------------------------------------------------- flows whose service is known

  predicate TableOk(s: State) {
    Keyed(s.flowApps) && |s.flowApps| <= REMEMBERED_FLOWS
  }

  lemma {:induction false} TailFinds(l: Ledger<string, App>, n: nat, id: string)
    requires Keyed(l) && n <= |l|
    ensures Keyed(l[n..])
    ensures Find(l[n..], id).Some? ==> Find(l, id) == Find(l[n..], id)
  {
    if Find(l[n..], id).Some? {
      var i :| 0 <= i < |l[n..]| && l[n..][i].0 == id && l[n..][i].1 == Find(l[n..], id).value;
      FindAt(l, n + i);
    }
  }

  lemma {:induction false} RememberOk(l: Ledger<string, App>, id: string, app: App)
    requires Keyed(l)
    ensures Keyed(Remember(l, id, app)) && |Remember(l, id, app)| <= REMEMBERED_FLOWS
  {
    DropFinds(l, id);
    var all := Drop(l, id) + [(id, app)];
    forall i | 0 <= i < |all| - 1 ensures all[i].0 != id {
      assert Find(Drop(l, id), id).None?;
    }
    if |all| > REMEMBERED_FLOWS {
      TailFinds(all, |all| - REMEMBERED_FLOWS, id);
    }
  }

  /** The table of services never exceeds its limit and names each flow once. */
  lemma {:induction false} RunKeepsTable(s: State, actions: seq<Action>)
    requires TableOk(s)
    ensures TableOk(Run(s, actions))
    decreases |actions|
  {
    if actions != [] {
      var a := actions[0];
      if a.Ingest? && a.event.Metadata? && a.event.service.Some? {
        RememberOk(s.flowApps, a.event.flowId, a.event.service.value);
      } else if a.Ingest? {
        DropFinds(s.flowApps, if a.event.FlowEnd? then a.event.flowId else "");
      }
      RunKeepsTable(Step(s, a), actions[1..]);
    }
  }

  /** The flow is in the table, with at most `n` flows named after it. */
  ghost predicate NamedWithin(l: Ledger<string, App>, id: string, app: App, n: nat) {
    exists i :: 0 <= i < |l| && l[i] == (id, app) && |l| - i <= n + 1
  }

  lemma {:induction false} DropKeepsNamed(l: Ledger<string, App>, other: string, id: string, app: App, n: nat)
    requires other != id && NamedWithin(l, id, app, n)
    ensures NamedWithin(Drop(l, other), id, app, n)
  {
    var i :| 0 <= i < |l| && l[i] == (id, app) && |l| - i <= n + 1;
    if l[0].0 == other {
      assert Drop(l, other)[i - 1] == (id, app);
    } else if i == 0 {
      DropShortens(l, other);
      assert Drop(l, other)[0] == (id, app);
    } else {
      assert l[1..][i - 1] == (id, app);
      DropKeepsNamed(l[1..], other, id, app, n);
      var rest := Drop(l[1..], other);
      var j :| 0 <= j < |rest| && rest[j] == (id, app) && |rest| - j <= n + 1;
      assert Drop(l, other)[j + 1] == (id, app);
    }
  }

  lemma DropShortens(l: Ledger<string, App>, id: string)
    ensures |Drop(l, id)| <= |l|
  {
  }

  lemma {:induction false} RememberNames(l: Ledger<string, App>, id: string, app: App)
    ensures NamedWithin(Remember(l, id, app), id, app, 0)
  {
    var r := Remember(l, id, app);
    assert r[|r| - 1] == (id, app);
  }

  lemma {:induction false} RememberKeepsNamed(l: Ledger<string, App>, other: string, a: App, id: string, app: App,
                                              n: nat)
    requires other != id && n + 1 < REMEMBERED_FLOWS && NamedWithin(l, id, app, n)
    ensures NamedWithin(Remember(l, other, a), id, app, n + 1)
  {
    DropKeepsNamed(l, other, id, app, n);
    var kept := Drop(l, other);
    var i :| 0 <= i < |kept| && kept[i] == (id, app) && |kept| - i <= n + 1;
    var all, r := kept + [(other, a)], Remember(l, other, a);
    assert r[i - (|all| - |r|)] == (id, app);
  }

  /** How many times a run names the service of a flow. */
  function Namings(actions: seq<Action>): nat {
    if actions == [] then 0
    else (if actions[0].Ingest? && actions[0].event.Metadata? then 1 else 0) + Namings(actions[1..])
  }

  predicate Concerns(a: Action, id: string) {
    a.Ingest? && !a.event.Unrelated? && a.event.flowId == id
  }

  lemma {:induction false} RunKeepsNamed(s: State, actions: seq<Action>, id: string, app: App, n: nat)
    requires NamedWithin(s.flowApps, id, app, n) && n + Namings(actions) < REMEMBERED_FLOWS
    requires forall i | 0 <= i < |actions| :: !Concerns(actions[i], id)
    ensures NamedWithin(Run(s, actions).flowApps, id, app, n + Namings(actions))
    decreases |actions|
  {
    if actions != [] {
      var a := actions[0];
      var next := Step(s, a);
      assert !Concerns(a, id);
      if a.Ingest? && a.event.Metadata? {
        if a.event.flowId != "" && a.event.service.Some? {
          RememberKeepsNamed(s.flowApps, a.event.flowId, a.event.service.value, id, app, n);
        }
        RunKeepsNamed(next, actions[1..], id, app, n + 1);
      } else {
        if next.flowApps != s.flowApps {
          DropKeepsNamed(s.flowApps, a.event.flowId, id, app, n);
        }
        RunKeepsNamed(next, actions[1..], id, app, n);
      }
    }
  }

  /**
   * A flow whose service was named is booked under that service when it ends, whatever happened to other
   * flows in between, as long as fewer than 32768 namings did.
   */
  lemma {:induction false} NamedFlowIsBookedUnderItsService(s: State, naming: Event, m: Moment, between: seq<Action>,
                                                end: Event, n: Moment)
    requires TableOk(s)
    requires naming.Metadata? && naming.service.Some? && naming.flowId != ""
    requires forall i | 0 <= i < |between| :: !Concerns(between[i], naming.flowId)
    requires Namings(between) < REMEMBERED_FLOWS
    requires Accepts(end, n.settings) && end.flowId == naming.flowId
    ensures
      var before := Run(Step(s, Ingest(naming, m)), between);
      && Logged(before, Ingest(end, n)) == [FlowOf(end, n, naming.service)]
      && ServiceOf(Step(before, Ingest(end, n)).flowApps, end.flowId) == None
  {
    var id, app := naming.flowId, naming.service.value;
    var first := Step(s, Ingest(naming, m));
    RememberNames(s.flowApps, id, app);
    RunKeepsNamed(first, between, id, app, 0);
    RememberOk(s.flowApps, id, app);
    RunKeepsTable(first, between);
    var before := Run(first, between);
    var i :| 0 <= i < |before.flowApps| && before.flowApps[i] == (id, app);
    FindAt(before.flowApps, i);
    DropFinds(before.flowApps, id);
  }
}
