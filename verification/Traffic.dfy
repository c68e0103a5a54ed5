/**
 * Traffic accounting, gateway/sbegw/dpi.py: metadata events name a flow's service, flow events add bytes
 * to hourly buckets, pruning drops old buckets. The engine is a class proved to step as `Step` does; what
 * it accounts for over whole runs is proved about `Run`.
 */
module Traffic {
  import opened Wrappers
  import opened Ledgers
  import opened Networks

  const REMEMBERED_FLOWS := 32768
  const HOUR := 3600

  datatype Ip = Ip(version: nat, value: nat)

  datatype LocalNet = LocalNet(version: nat, subnet: Subnet)

  datatype App = App(protocol: string, category: int, application: int, display: string)

  /** The device an address belongs to, or the bare address when no client is known under it. */
  datatype Client = Device(mac: string) | Unknown(ip: Ip)

  /**
   * `service` is what the host name says the flow is, `parsed` what its protocol alone says. An address
   * that is absent or does not parse is `None`.
   */
  datatype Event =
    | Metadata(flowId: string, service: Option<App>)
    | FlowEnd(flowId: string, src: Option<Ip>, dst: Option<Ip>, toServer: int, toClient: int,
              packetsToServer: int, packetsToClient: int, parsed: App)
    | Unrelated

  datatype Settings = Settings(includeIpv6: bool, nets: seq<LocalNet>)

  /** What an event is read against: settings, the live clients' addresses, and the clock. */
  datatype Moment = Moment(settings: Settings, macs: map<Ip, string>, time: real)

  datatype Key = Key(hour: int, client: Client, protocol: string)

  datatype Bucket = Bucket(
    ip: Ip,
    app: App,
    rx: nat,
    tx: nat,
    rxPackets: nat,
    txPackets: nat,
    firstSeen: real,
    lastSeen: real)

  /** One accepted flow, seen from the local client. */
  datatype Flow = Flow(time: real, client: Client, ip: Ip, app: App, rx: nat, tx: nat, rxPackets: nat, txPackets: nat)

  datatype State = State(
    flowApps: Ledger<string, App>,
    buckets: Ledger<Key, Bucket>,
    eventsSeen: nat,
    flowsAccepted: nat)

  // ------------------------------------------------------------ one event

  function Clamp(n: int): nat {
    if n < 0 then 0 else n
  }

  predicate Local(ip: Ip, s: Settings) {
    exists i :: 0 <= i < |s.nets| && s.nets[i].version == ip.version && In(ip.value, s.nets[i].subnet)
  }

  predicate Accepts(e: Event, s: Settings) {
    && e.FlowEnd? && e.src.Some? && e.dst.Some?
    && (s.includeIpv6 || (e.src.value.version != 6 && e.dst.value.version != 6))
    && Local(e.src.value, s) != Local(e.dst.value, s)
  }

  function Identity(ip: Ip, macs: map<Ip, string>): Client {
    if ip in macs && macs[ip] != "" then Device(macs[ip]) else Unknown(ip)
  }

  function Hour(time: real): int {
    (time / HOUR as real).Floor * HOUR
  }

  function ServiceOf(flowApps: Ledger<string, App>, flowId: string): Option<App> {
    if flowId == "" then None else Find(flowApps, flowId)
  }

  function FlowOf(e: Event, m: Moment, service: Option<App>): Flow
    requires Accepts(e, m.settings)
  {
    var app := if service.Some? then service.value else e.parsed;
    if Local(e.src.value, m.settings) then
      Flow(m.time, Identity(e.src.value, m.macs), e.src.value, app,
           Clamp(e.toClient), Clamp(e.toServer), Clamp(e.packetsToClient), Clamp(e.packetsToServer))
    else
      Flow(m.time, Identity(e.dst.value, m.macs), e.dst.value, app,
           Clamp(e.toServer), Clamp(e.toClient), Clamp(e.packetsToServer), Clamp(e.packetsToClient))
  }

  function KeyOf(f: Flow): Key {
    Key(Hour(f.time), f.client, f.app.protocol)
  }

  function Grown(b: Option<Bucket>, f: Flow): Bucket {
    match b
    case None => Bucket(f.ip, f.app, f.rx, f.tx, f.rxPackets, f.txPackets, f.time, f.time)
    case Some(o) => o.(ip := f.ip, rx := o.rx + f.rx, tx := o.tx + f.tx,
                       rxPackets := o.rxPackets + f.rxPackets, txPackets := o.txPackets + f.txPackets,
                       lastSeen := f.time)
  }

  function Book(buckets: Ledger<Key, Bucket>, f: Flow): Ledger<Key, Bucket> {
    Put(buckets, KeyOf(f), Grown(Find(buckets, KeyOf(f)), f))
  }

  /** The newest flow goes to the end; the oldest are forgotten beyond the limit. */
  function Remember(flowApps: Ledger<string, App>, flowId: string, app: App): Ledger<string, App> {
    var all := Drop(flowApps, flowId) + [(flowId, app)];
    if |all| > REMEMBERED_FLOWS then all[|all| - REMEMBERED_FLOWS..] else all
  }

  function Ingested(s: State, e: Event, m: Moment): State {
    var seen := s.(eventsSeen := s.eventsSeen + 1);
    if e.Metadata? then
      if e.flowId != "" && e.service.Some? then
        seen.(flowApps := Remember(s.flowApps, e.flowId, e.service.value))
      else seen
    else if Accepts(e, m.settings) then
      seen.(flowApps := if e.flowId == "" then s.flowApps else Drop(s.flowApps, e.flowId),
            buckets := Book(s.buckets, FlowOf(e, m, ServiceOf(s.flowApps, e.flowId))),
            flowsAccepted := s.flowsAccepted + 1)
    else seen
  }

  function Cutoff(time: real, hours: int): real {
    time - (hours * HOUR) as real
  }

  function Fresh(cutoff: real): Bucket -> bool {
    (b: Bucket) => b.lastSeen >= cutoff
  }

  function Stale(cutoff: real): Bucket -> bool {
    (b: Bucket) => b.lastSeen < cutoff
  }

  datatype Action = Ingest(event: Event, moment: Moment) | Prune(time: real, hours: int)

  function Step(s: State, a: Action): State {
    match a
    case Ingest(e, m) => Ingested(s, e, m)
    case Prune(time, hours) => s.(buckets := Filter(s.buckets, Fresh(Cutoff(time, hours))))
  }

  function Run(s: State, actions: seq<Action>): State
    decreases |actions|
  {
    if actions == [] then s else Run(Step(s, actions[0]), actions[1..])
  }

  // ------------------------------------------------- polling the event file

  /** A line of the event file; `None` is one that is not a document. */
  type Line = Option<Event>

  predicate Counts(line: Line, s: Settings) {
    line.Some? && Accepts(line.value, s)
  }

  /** Where a poll starting at line `i` stops: at the end, or at the line after its `limit`-th accepted one. */
  function Reached(lines: seq<Line>, i: nat, limit: int, s: Settings): (n: nat)
    requires i <= |lines|
    ensures i <= n <= |lines|
    decreases |lines| - i
  {
    if i == |lines| || limit <= 0 then i
    else Reached(lines, i + 1, if Counts(lines[i], s) then limit - 1 else limit, s)
  }

  /** The flows among lines `i` to `n` that count. */
  function Accepted(lines: seq<Line>, i: nat, n: nat, s: Settings): nat
    requires i <= n <= |lines|
    decreases n - i
  {
    if i == n then 0 else (if Counts(lines[i], s) then 1 else 0) + Accepted(lines, i + 1, n, s)
  }

  function Actions(lines: seq<Line>, i: nat, n: nat, s: Settings, macs: map<Ip, string>,
                   clock: nat -> real): seq<Action>
    requires i <= n <= |lines|
    decreases n - i
  {
    if i == n then []
    else
      var rest := Actions(lines, i + 1, n, s, macs, clock);
      if lines[i].None? then rest else [Ingest(lines[i].value, Moment(s, macs, clock(i)))] + rest
  }

  /** A file shorter than the offset has been replaced and is read from its start. */
  function Start(lines: seq<Line>, offset: nat): nat {
    if offset > |lines| then 0 else offset
  }

  class DpiEngine {
    var flowApps: Ledger<string, App>
    var buckets: Ledger<Key, Bucket>
    var eventsSeen: nat
    var flowsAccepted: nat
    var offset: nat

    ghost function Model(): State
      reads this
    {
      State(flowApps, buckets, eventsSeen, flowsAccepted)
    }

    constructor (stored: Ledger<Key, Bucket>)
      ensures Model() == State([], stored, 0, 0) && offset == 0
    {
      flowApps, buckets := [], stored;
      eventsSeen, flowsAccepted, offset := 0, 0, 0;
    }

    /** Put a flow's service at the end of the table, then forget the oldest beyond the limit. */
    method NameFlow(flowId: string, app: App)
      modifies this`flowApps
      ensures flowApps == Remember(old(flowApps), flowId, app)
    {
      flowApps := Drop(flowApps, flowId) + [(flowId, app)];
      ghost var all := flowApps;
      while |flowApps| > REMEMBERED_FLOWS
        invariant |flowApps| <= |all| && flowApps == all[|all| - |flowApps|..]
        invariant |flowApps| == |all| || |flowApps| >= REMEMBERED_FLOWS
      {
        flowApps := flowApps[1..];
      }
      assert all[0..] == all;
    }

    method IngestEvent(e: Event, m: Moment) returns (accepted: bool)
      modifies this`flowApps, this`buckets, this`eventsSeen, this`flowsAccepted
      ensures Model() == Ingested(old(Model()), e, m)
      ensures accepted == Accepts(e, m.settings)
    {
      eventsSeen := eventsSeen + 1;
      match e {
        case Unrelated => return false;
        case Metadata(flowId, service) =>
          if flowId != "" && service.Some? {
            NameFlow(flowId, service.value);
          }
          return false;
        case FlowEnd(flowId, src, dst, toServer, toClient, packetsToServer, packetsToClient, parsed) =>
          if src.None? || dst.None? {
            return false;
          }
          if !m.settings.includeIpv6 && (src.value.version == 6 || dst.value.version == 6) {
            return false;
          }
          var srcLocal, dstLocal := Local(src.value, m.settings), Local(dst.value, m.settings);
          if srcLocal == dstLocal {
            return false;
          }
          var ip, rx, tx := dst.value, Clamp(toServer), Clamp(toClient);
          var rxPackets, txPackets := Clamp(packetsToServer), Clamp(packetsToClient);
          if srcLocal {
            ip, rx, tx := src.value, tx, rx;
            rxPackets, txPackets := txPackets, rxPackets;
          }
          var app := parsed;
          var service := ServiceOf(flowApps, flowId);
          if service.Some? {
            app := service.value;
          }
          if flowId != "" {
            flowApps := Drop(flowApps, flowId);
          }
          var flow := Flow(m.time, Identity(ip, m.macs), ip, app, rx, tx, rxPackets, txPackets);
          buckets := Book(buckets, flow);
          flowsAccepted := flowsAccepted + 1;
          return true;
      }
    }

    method PruneOld(time: real, hours: int)
      modifies this`buckets
      ensures Model() == Step(old(Model()), Prune(time, hours))
    {
      buckets := Filter(buckets, Fresh(Cutoff(time, hours)));
    }

    /**
     * Ingest the file's new lines, at most `limit` accepted flows, then prune. Leaving the line loop early
     * makes the file position unreadable, so the offset moves only when the end was reached.
     */
    method Poll(lines: seq<Line>, limit: int, s: Settings, macs: map<Ip, string>, clock: nat -> real, time: real,
                hours: int)
      returns (count: nat)
      modifies this
      ensures
        var start := Start(lines, old(offset));
        var end := Reached(lines, start, limit, s);
        && Model() == Run(old(Model()), Actions(lines, start, end, s, macs, clock) + [Prune(time, hours)])
        && offset == (if end == |lines| then end else start)
        && count == Accepted(lines, start, end, s)
    {
      if offset > |lines| {
        offset := 0;
      }
      var i := offset;
      count := 0;
      ghost var start, end := i, Reached(lines, i, limit, s);
      ghost var all := Run(Model(), Actions(lines, start, end, s, macs, clock));
      while i < |lines| && count < limit
        invariant start <= i <= end <= |lines|
        invariant Reached(lines, i, limit - count, s) == end
        invariant offset == start
        invariant Run(Model(), Actions(lines, i, end, s, macs, clock)) == all
        invariant count + Accepted(lines, i, end, s) == Accepted(lines, start, end, s)
        decreases |lines| - i
      {
        if lines[i].Some? {
          var accepted := IngestEvent(lines[i].value, Moment(s, macs, clock(i)));
          if accepted { count := count + 1; }
        }
        i := i + 1;
      }
      assert i == end;
      if i == |lines| {
        offset := i;
      }
      RunAppend(old(Model()), Actions(lines, start, end, s, macs, clock), [Prune(time, hours)]);
      PruneOld(time, hours);
    }
  }

  lemma {:induction false} RunAppend(s: State, a: seq<Action>, b: seq<Action>)
    ensures Run(s, a + b) == Run(Run(s, a), b)
    decreases |a|
  {
    if a == [] {
      assert a + b == b;
    } else {
      assert (a + b)[1..] == a[1..] + b;
      RunAppend(Step(s, a[0]), a[1..], b);
    }
  }

  // ------------------------------------------------------- reading lines once

  lemma {:induction false} ReachedCounts(lines: seq<Line>, i: nat, limit: int, s: Settings)
    requires i <= |lines|
    ensures
      var n := Reached(lines, i, limit, s);
      && Accepted(lines, i, n, s) <= Clamp(limit)
      && (n < |lines| ==> Accepted(lines, i, n, s) == Clamp(limit))
    decreases |lines| - i
  {
    if i < |lines| && limit > 0 {
      ReachedCounts(lines, i + 1, if Counts(lines[i], s) then limit - 1 else limit, s);
    }
  }

  /** Fewer flows than the limit count before the last line, or there is no line to read. */
  predicate WithinLimit(lines: seq<Line>, i: nat, limit: int, s: Settings)
    requires i <= |lines|
  {
    i == |lines| || Accepted(lines, i, |lines| - 1, s) < limit
  }

  lemma {:induction false} ReachesEndIff(lines: seq<Line>, i: nat, limit: int, s: Settings)
    requires i <= |lines| && limit > 0
    ensures Reached(lines, i, limit, s) == |lines| <==> WithinLimit(lines, i, limit, s)
    decreases |lines| - i
  {
    if i < |lines| - 1 {
      var rest := if Counts(lines[i], s) then limit - 1 else limit;
      if rest > 0 {
        ReachesEndIff(lines, i + 1, rest, s);
      }
    }
  }

  /**
   * Polling an unchanged file a second time accepts nothing if and only if fewer flows than the limit count
   * before its last line, so that the first poll got to the end. A poll stopped by its limit leaves the
   * offset, and the next accepts the same flows again.
   */
  lemma SecondPollIsQuietIff(lines: seq<Line>, offset: nat, limit: int, s: Settings)
    requires limit > 0
    ensures
      var start := Start(lines, offset);
      var end := Reached(lines, start, limit, s);
      var next := if end == |lines| then end else start;
      var again := Reached(lines, Start(lines, next), limit, s);
      && (Accepted(lines, Start(lines, next), again, s) == 0 <==> WithinLimit(lines, start, limit, s))
      && (end == |lines| <==> WithinLimit(lines, start, limit, s))
      && (end < |lines| ==> Accepted(lines, Start(lines, next), again, s) == Accepted(lines, start, end, s) == limit)
  {
    ReachedCounts(lines, Start(lines, offset), limit, s);
    ReachesEndIff(lines, Start(lines, offset), limit, s);
  }

  /**
   * Lines are read once and none is left out: a poll of a file that grew starts behind the part a poll before it read
   * to the end, and one of a file that got shorter, having been replaced, at its first line.
   */
  lemma NextPollReadsOn(before: seq<Line>, grown: seq<Line>, replaced: seq<Line>, offset: nat, limit: int, s: Settings,
                        macs: map<Ip, string>, clock: nat -> real)
    requires limit > 0 && WithinLimit(before, Start(before, offset), limit, s)
    requires before <= grown && |replaced| < |before|
    ensures var next := Reached(before, Start(before, offset), limit, s);
            && next == |before| && Start(grown, next) == |before| && Start(replaced, next) == 0
            && Actions(grown, 0, |grown|, s, macs, clock) ==
               Actions(grown, 0, |before|, s, macs, clock)
               + Actions(grown, Start(grown, next), |grown|, s, macs, clock)
            && Actions(grown, 0, |before|, s, macs, clock) == Actions(before, 0, |before|, s, macs, clock)
  {
    ReachesEndIff(before, Start(before, offset), limit, s);
    ActionsSplit(grown, 0, |before|, |grown|, s, macs, clock);
    ActionsOfPrefix(before, grown, 0, s, macs, clock);
  }

  lemma {:induction false} ActionsSplit(lines: seq<Line>, i: nat, m: nat, n: nat, s: Settings, macs: map<Ip, string>,
                                        clock: nat -> real)
    requires i <= m <= n <= |lines|
    ensures Actions(lines, i, n, s, macs, clock) ==
            Actions(lines, i, m, s, macs, clock) + Actions(lines, m, n, s, macs, clock)
    decreases m - i
  {
    if i < m {
      ActionsSplit(lines, i + 1, m, n, s, macs, clock);
    }
  }

  lemma {:induction false} ActionsOfPrefix(a: seq<Line>, b: seq<Line>, i: nat, s: Settings, macs: map<Ip, string>,
                                           clock: nat -> real)
    requires a <= b && i <= |a|
    ensures Actions(a, i, |a|, s, macs, clock) == Actions(b, i, |a|, s, macs, clock)
    decreases |a| - i
  {
    if i < |a| {
      ActionsOfPrefix(a, b, i + 1, s, macs, clock);
      assert a[i] == b[i];
    }
  }

  /** Two flows that count and a limit of one: each poll books the first flow again and never gets to the second. */
  lemma LimitedPollRepeats(first: Event, second: Event, s: Settings)
    requires Accepts(first, s)
    ensures var lines := [Some(first), Some(second)];
            Reached(lines, 0, 1, s) == 1 && Accepted(lines, 0, 1, s) == 1
            && forall m: Moment | m.settings == s ::
                 Actions(lines, Start(lines, 0), 1, s, m.macs, i => m.time) == [Ingest(first, m)]
  {
    var lines := [Some(first), Some(second)];
    assert Counts(lines[0], s);
    assert Reached(lines, 1, 0, s) == 1;
  }

  // ------------------------------------------------------------ direction

  /** The bytes and packets one end of a flow sent. */
  function SentBy(e: Event, source: bool): (nat, nat)
    requires e.FlowEnd?
  {
    if source then (Clamp(e.toServer), Clamp(e.packetsToServer)) else (Clamp(e.toClient), Clamp(e.packetsToClient))
  }

  /**
   * An accepted flow is booked to its one local end, whichever end that is: what that end sent is
   * transmitted, what the other end sent is received, under the service that was named if one was. The client is the
   * device known under that end's own address, or the bare address.
   */
  lemma FlowIsTheLocalEnd(e: Event, m: Moment, service: Option<App>)
    requires Accepts(e, m.settings)
    ensures var f := FlowOf(e, m, service);
            var source := f.ip == e.src.value;
            && (source || f.ip == e.dst.value)
            && Local(f.ip, m.settings) && !Local(if source then e.dst.value else e.src.value, m.settings)
            && (f.tx, f.txPackets) == SentBy(e, source) && (f.rx, f.rxPackets) == SentBy(e, !source)
            && f.rx + f.tx == EventBytes(e)
            && f.app == (if service.Some? then service.value else e.parsed) && f.time == m.time
            && (f.ip in m.macs && m.macs[f.ip] != "" ==> f.client == Device(m.macs[f.ip]))
            && (!(f.ip in m.macs && m.macs[f.ip] != "") ==> f.client == Unknown(f.ip))
  {
    assert e.src.value != e.dst.value;
  }

  // ------------------------------------------------------------- IPv6 left out

  predicate NoIpv6(s: State) {
    forall i | 0 <= i < |s.buckets| :: s.buckets[i].1.ip.version != 6
  }

  lemma {:induction false} PutKeeps(l: Ledger<Key, Bucket>, k: Key, v: Bucket)
    requires v.ip.version != 6 && forall i | 0 <= i < |l| :: l[i].1.ip.version != 6
    ensures forall i | 0 <= i < |Put(l, k, v)| :: Put(l, k, v)[i].1.ip.version != 6
  {
    if l != [] && l[0].0 != k {
      PutKeeps(l[1..], k, v);
    }
  }

  lemma {:induction false} FilterKeeps(l: Ledger<Key, Bucket>, keep: Bucket -> bool)
    requires forall i | 0 <= i < |l| :: l[i].1.ip.version != 6
    ensures forall i | 0 <= i < |Filter(l, keep)| :: Filter(l, keep)[i].1.ip.version != 6
  {
    if l != [] {
      FilterKeeps(l[1..], keep);
    }
  }

  /** While IPv6 is left out no IPv6 address ever gets a bucket, over any run. */
  lemma {:induction false} RunKeepsNoIpv6(s: State, actions: seq<Action>)
    requires NoIpv6(s)
    requires forall i | 0 <= i < |actions| && actions[i].Ingest? :: !actions[i].moment.settings.includeIpv6
    ensures NoIpv6(Run(s, actions))
    decreases |actions|
  {
    if actions != [] {
      var a := actions[0];
      if a.Prune? {
        FilterKeeps(s.buckets, Fresh(Cutoff(a.time, a.hours)));
      } else if Accepts(a.event, a.moment.settings) {
        var f := FlowOf(a.event, a.moment, ServiceOf(s.flowApps, a.event.flowId));
        PutKeeps(s.buckets, KeyOf(f), Grown(Find(s.buckets, KeyOf(f)), f));
      }
      RunKeepsNoIpv6(Step(s, a), actions[1..]);
    }
  }

  // ------------------------------------------------------------ conservation

  function BucketBytes(b: Bucket): int {
    b.rx + b.tx
  }

  function Stored(s: State): int {
    Weigh(s.buckets, BucketBytes)
  }

  function EventBytes(e: Event): nat
    requires e.FlowEnd?
  {
    Clamp(e.toServer) + Clamp(e.toClient)
  }

  /** The bytes of the accepted flows of a run, whatever the engine remembers. */
  function AcceptedBytes(actions: seq<Action>): nat {
    if actions == [] then 0
    else
      var a := actions[0];
      (if a.Ingest? && Accepts(a.event, a.moment.settings) then EventBytes(a.event) else 0)
      + AcceptedBytes(actions[1..])
  }

  function PrunedBytes(s: State, actions: seq<Action>): int
    decreases |actions|
  {
    if actions == [] then 0
    else
      var a := actions[0];
      (if a.Prune? then Weigh(Filter(s.buckets, Stale(Cutoff(a.time, a.hours))), BucketBytes) else 0)
      + PrunedBytes(Step(s, a), actions[1..])
  }

  lemma {:induction false} FreshAndStale(l: Ledger<Key, Bucket>, cutoff: real)
    ensures Weigh(Filter(l, Fresh(cutoff)), BucketBytes) + Weigh(Filter(l, Stale(cutoff)), BucketBytes) ==
            Weigh(l, BucketBytes)
  {
    if l != [] {
      FreshAndStale(l[1..], cutoff);
      assert ([l[0]] + Filter(l[1..], Fresh(cutoff)))[1..] == Filter(l[1..], Fresh(cutoff));
      assert ([l[0]] + Filter(l[1..], Stale(cutoff)))[1..] == Filter(l[1..], Stale(cutoff));
    }
  }

  /** Over every run: bytes stored plus bytes pruned are the bytes stored before plus the bytes accepted. */
  lemma {:induction false} RunConservesBytes(s: State, actions: seq<Action>)
    ensures Stored(Run(s, actions)) + PrunedBytes(s, actions) == Stored(s) + AcceptedBytes(actions)
    decreases |actions|
  {
    if actions != [] {
      var a := actions[0];
      if a.Prune? {
        FreshAndStale(s.buckets, Cutoff(a.time, a.hours));
      } else if Accepts(a.event, a.moment.settings) {
        var f := FlowOf(a.event, a.moment, ServiceOf(s.flowApps, a.event.flowId));
        PutWeighs(s.buckets, KeyOf(f), Grown(Find(s.buckets, KeyOf(f)), f), BucketBytes);
      }
      RunConservesBytes(Step(s, a), actions[1..]);
    }
  }
}
