/**
 * The transactional configuration protocol of gateway/sbegw/configd.py as a state machine: stage, commit
 * (validate, preflight, checkpoint, apply, health check), confirm, timed rollback, revision rollback.
 *
 * The validator, the appliers and the health checks are the environment: each step carries what they
 * answer. `applied[i]` is the configuration applier i's subsystem matches (None: unknown, as after a
 * failed call); `calls` logs every applier call with both of its arguments.
 */
module ConfigMachine {
  import opened Wrappers
  import opened Documents

  type Config = d: Doc | d.Dict? witness Dict(map[])

  datatype Pending = Pending(txid: string, previous: Config, revision: nat, deadline: int)

  datatype Source = Checkpoint | Committed

  datatype Revision = Revision(id: nat, txid: string, source: Source, config: Config)

  datatype Call = Call(applier: nat, from: Config, to: Config)

  datatype State = State(
    running: Config,
    candidate: Config,
    runningFile: Config,
    pending: Option<Pending>,
    timer: Option<string>,
    revisions: seq<Revision>,
    lastId: nat,
    applied: seq<Option<Config>>,
    calls: seq<Call>)

  /** A preflight's or a health check's answer; an exception is a refusal with one message. */
  datatype Verdict = Verdict(ok: bool, messages: seq<string>)

  /** An applier's answer; `left` is what its subsystem is left matching when the call did not succeed. */
  datatype ApplyResult = ApplyResult(ok: bool, requiresConfirmation: bool, left: Option<Config>)

  /** What the environment answers to one commit: one entry for each registered applier or health check. */
  datatype Env = Env(
    txid: string,
    now: int,
    validated: Option<Config>,
    preflight: seq<Verdict>,
    applies: seq<ApplyResult>,
    health: seq<Verdict>,
    restores: seq<Option<Config>>)

  datatype Options = Options(force: bool, confirmRequired: Option<bool>, rollbackSeconds: int)

  const DEFAULT_ROLLBACK_SECONDS := 120
  const DEFAULT_OPTIONS := Options(false, None, DEFAULT_ROLLBACK_SECONDS)
  const KEPT_REVISIONS := 60

  datatype Stage = Lock | Validate | Preflight | Apply | Health | NoRevision

  datatype Outcome =
    | NothingToCommit
    | Installed(revision: nat, confirmPending: bool)
    | Rejected(stage: Stage)

  // ------------------------------------------------------------ operations

  function Problems(verdicts: seq<Verdict>): seq<string> {
    if verdicts == [] then []
    else (if verdicts[0].ok then [] else verdicts[0].messages) + Problems(verdicts[1..])
  }

  function Newest(revisions: seq<Revision>): seq<Revision> {
    if |revisions| <= KEPT_REVISIONS then revisions else revisions[|revisions| - KEPT_REVISIONS..]
  }

  function SaveRevision(s: State, txid: string, source: Source, config: Config): State {
    s.(revisions := Newest(s.revisions + [Revision(s.lastId + 1, txid, source, config)]), lastId := s.lastId + 1)
  }

  function LatestRevision(s: State): nat {
    if s.revisions == [] then 0 else s.revisions[|s.revisions| - 1].id
  }

  datatype Applying = Applying(applied: seq<Option<Config>>, calls: seq<Call>, failed: Option<nat>, needsConfirm: bool)

  /** Call the appliers in order from number i on, stopping at the first that does not succeed. */
  function ApplyFrom(i: nat, a: Applying, was: Config, next: Config, results: seq<ApplyResult>): (r: Applying)
    requires i <= |a.applied| == |results|
    ensures |r.applied| == |a.applied|
    decreases |results| - i
  {
    if i == |results| then a
    else
      var result := results[i];
      var calls := a.calls + [Call(i, was, next)];
      var needs := a.needsConfirm || result.requiresConfirmation;
      if result.ok then
        ApplyFrom(i + 1, Applying(a.applied[i := Some(next)], calls, a.failed, needs), was, next, results)
      else
        Applying(a.applied[i := result.left], calls, Some(i), needs)
  }

  function CallEach(n: nat, was: Config, next: Config): (r: seq<Call>)
    ensures |r| == n
  {
    seq(n, i requires 0 <= i < n => Call(i, was, next))
  }

  /** Re-apply a configuration. Every applier is called; `restores[i]` is what that leaves applier i matching. */
  function RollbackTo(s: State, config: Config, restores: seq<Option<Config>>): State
    requires |restores| == |s.applied|
  {
    s.(running := config, candidate := config, runningFile := config,
       applied := restores, calls := s.calls + CallEach(|s.applied|, s.running, config))
  }

  predicate FitsEnv(n: nat, env: Env) {
    |env.preflight| == |env.applies| == |env.restores| == n
  }

  function Commit(s: State, o: Options, env: Env): (r: (State, Outcome))
    requires FitsEnv(|s.applied|, env)
    ensures |r.0.applied| == |s.applied|
  {
    if s.pending.Some? then (s, Rejected(Lock))
    else
      var changes := Diff(s.running, s.candidate, []);
      if changes == [] && !o.force then (s, NothingToCommit)
      else if env.validated.None? then (s, Rejected(Validate))
      else if Problems(env.preflight) != [] then (s, Rejected(Preflight))
      else Install(s, o, env, changes != [])
  }

  function Install(s: State, o: Options, env: Env, record: bool): (State, Outcome)
    requires FitsEnv(|s.applied|, env) && env.validated.Some?
  {
    var was, next := s.running, env.validated.value;
    var s1 := if record then SaveRevision(s, env.txid, Checkpoint, was) else s;
    var a := ApplyFrom(0, Applying(s1.applied, s1.calls, None, false), was, next, env.applies);
    var s2 := s1.(applied := a.applied, calls := a.calls);
    if a.failed.Some? then (RollbackTo(s2, was, env.restores), Rejected(Apply))
    else if Problems(env.health) != [] then (RollbackTo(s2, was, env.restores), Rejected(Health))
    else
      var s3 := s2.(running := next, runningFile := next, candidate := next);
      var s4 := if record then SaveRevision(s3, env.txid, Committed, next) else s3;
      var revision := if record then s4.lastId else LatestRevision(s);
      var confirm := if o.confirmRequired.Some? then o.confirmRequired.value else a.needsConfirm;
      var s5 :=
        if confirm && o.rollbackSeconds > 0 then
          s4.(pending := Some(Pending(env.txid, was, revision, env.now + o.rollbackSeconds)), timer := Some(env.txid))
        else s4;
      (s5, Installed(revision, s5.pending.Some?))
  }

  predicate IsPending(s: State, txid: string) {
    s.pending.Some? && s.pending.value.txid == txid
  }

  function Confirm(s: State, txid: string): State {
    if IsPending(s, txid) then s.(pending := None, timer := None) else s
  }

  /** The rollback timer of one transaction fires, its two lock regions taken as one step. */
  function Expire(s: State, txid: string, restores: seq<Option<Config>>): State
    requires |restores| == |s.applied|
  {
    if IsPending(s, txid) then
      RollbackTo(s.(pending := None, timer := None), s.pending.value.previous, restores)
    else s
  }

  function FindRevision(revisions: seq<Revision>, id: nat): Option<Config> {
    if revisions == [] then None
    else if revisions[0].id == id then Some(revisions[0].config)
    else FindRevision(revisions[1..], id)
  }

  function Revert(s: State, id: nat, defaults: Config, env: Env): (r: (State, Outcome))
    requires FitsEnv(|s.applied|, env) && IsDefaultConfig(defaults)
    ensures |r.0.applied| == |s.applied|
  {
    var row := FindRevision(s.revisions, id);
    if row.None? then (s, Rejected(NoRevision))
    else Commit(s.(candidate := Migrate(row.value, defaults)), DEFAULT_OPTIONS, env)
  }

  datatype Step =
    | StageStep(validated: Option<Config>)
    | DiscardStep
    | CommitStep(options: Options, env: Env)
    | ConfirmStep(txid: string)
    | ExpireStep(txid: string, restores: seq<Option<Config>>)
    | RevertStep(id: nat, defaults: Config, env: Env)

  predicate Fits(n: nat, step: Step) {
    match step
    case CommitStep(_, env) => FitsEnv(n, env)
    case ExpireStep(_, restores) => |restores| == n
    case RevertStep(_, defaults, env) => FitsEnv(n, env) && IsDefaultConfig(defaults)
    case _ => true
  }

  function Next(s: State, step: Step): (r: State)
    requires Fits(|s.applied|, step)
    ensures |r.applied| == |s.applied|
  {
    match step
    case StageStep(validated) => if validated.Some? then s.(candidate := validated.value) else s
    case DiscardStep => s.(candidate := s.running)
    case CommitStep(o, env) => Commit(s, o, env).0
    case ConfirmStep(txid) => Confirm(s, txid)
    case ExpireStep(txid, restores) => Expire(s, txid, restores)
    case RevertStep(id, defaults, env) => Revert(s, id, defaults, env).0
  }

  predicate AllFit(n: nat, steps: seq<Step>) {
    forall i | 0 <= i < |steps| :: Fits(n, steps[i])
  }

  /** The state after a whole run. */
  function Run(s: State, steps: seq<Step>): (r: State)
    requires AllFit(|s.applied|, steps)
    ensures |r.applied| == |s.applied|
    decreases |steps|
  {
    if steps == [] then s
    else Next(Run(s, steps[..|steps| - 1]), steps[|steps| - 1])
  }

  // ------------------------------------------- the system matches `running`

  /** Every applier's subsystem, the file on disk and `running` are one document. */
  predicate InSync(s: State) {
    s.runningFile == s.running && AllMatch(s.applied, s.running)
  }

  predicate AllMatch(applied: seq<Option<Config>>, config: Config) {
    forall i | 0 <= i < |applied| :: applied[i] == Some(config)
  }

  /** Any re-apply this step has to fall back on succeeds. */
  predicate RestoresWork(s: State, step: Step) {
    match step
    case CommitStep(_, env) => AllMatch(env.restores, s.running)
    case RevertStep(_, _, env) => AllMatch(env.restores, s.running)
    case ExpireStep(txid, restores) => IsPending(s, txid) ==> AllMatch(restores, s.pending.value.previous)
    case _ => true
  }

  lemma {:induction false} ApplyFromResult(i: nat, a: Applying, was: Config, next: Config, results: seq<ApplyResult>)
    requires i <= |a.applied| == |results| && a.failed.None?
    requires AllMatch(a.applied[..i], next)
    ensures var r := ApplyFrom(i, a, was, next, results);
            && (r.failed.None? <==> forall j | i <= j < |results| :: results[j].ok)
            && (r.failed.None? ==> AllMatch(r.applied, next))
            && (r.failed.Some? ==> i <= r.failed.value < |results| && !results[r.failed.value].ok)
    decreases |results| - i
  {
    if i == |results| {
      assert a.applied[..i] == a.applied;
    } else if results[i].ok {
      var b := Applying(a.applied[i := Some(next)], a.calls + [Call(i, was, next)], None,
                        a.needsConfirm || results[i].requiresConfirmation);
      assert b.applied[..i + 1] == a.applied[..i] + [Some(next)];
      ApplyFromResult(i + 1, b, was, next, results);
    }
  }

  /** The calls made are the appliers' in order, up to and including the one that failed. */
  lemma {:induction false} ApplyFromCalls(i: nat, a: Applying, was: Config, next: Config, results: seq<ApplyResult>)
    requires i <= |a.applied| == |results| && a.failed.None?
    ensures var r := ApplyFrom(i, a, was, next, results);
            var n := if r.failed.None? then |results| else r.failed.value + 1;
            i <= n <= |results| && r.calls == a.calls + CallEach(|results|, was, next)[i..n]
    decreases |results| - i
  {
    var all := CallEach(|results|, was, next);
    if i == |results| {
      assert all[i..i] == [];
    } else if results[i].ok {
      var b := Applying(a.applied[i := Some(next)], a.calls + [Call(i, was, next)], None,
                        a.needsConfirm || results[i].requiresConfirmation);
      ApplyFromCalls(i + 1, b, was, next, results);
      var r := ApplyFrom(i + 1, b, was, next, results);
      var n := if r.failed.None? then |results| else r.failed.value + 1;
      CallsExtend(a.calls, all, i, n);
    } else {
      CallsExtend(a.calls, all, i, i + 1);
      assert all[i + 1..i + 1] == [];
    }
  }

  lemma CallsExtend(calls: seq<Call>, all: seq<Call>, i: nat, n: nat)
    requires i < n <= |all|
    ensures (calls + [all[i]]) + all[i + 1..n] == calls + all[i..n]
  {
    assert [all[i]] + all[i + 1..n] == all[i..n];
  }

  /** The three ways a commit that passed its gates can end, and the exact condition of each. */
  lemma InstallResult(s: State, o: Options, env: Env, record: bool)
    requires FitsEnv(|s.applied|, env) && env.validated.Some?
    ensures var (r, out) := Install(s, o, env, record);
            && (out.Installed? <==>
                  (forall i | 0 <= i < |env.applies| :: env.applies[i].ok) && Problems(env.health) == [])
            && (out.Installed? ==>
                  && r.running == r.runningFile == r.candidate == env.validated.value
                  && AllMatch(r.applied, r.running)
                  && r.calls == s.calls + CallEach(|s.applied|, s.running, r.running))
            && (!out.Installed? ==>
                  && (out == Rejected(Apply) || out == Rejected(Health))
                  && r.running == r.runningFile == r.candidate == s.running
                  && r.applied == env.restores && r.pending == s.pending && r.timer == s.timer)
  {
    var s1 := if record then SaveRevision(s, env.txid, Checkpoint, s.running) else s;
    ApplyFromResult(0, Applying(s1.applied, s1.calls, None, false), s.running, env.validated.value, env.applies);
    ApplyFromCalls(0, Applying(s1.applied, s1.calls, None, false), s.running, env.validated.value, env.applies);
    var all := CallEach(|s.applied|, s.running, env.validated.value);
    assert all[0..] == all;
  }

  /** No step loses the match between the system, the file and `running`, however it ends. */
  lemma StepKeepsSync(s: State, step: Step)
    requires Fits(|s.applied|, step) && InSync(s) && RestoresWork(s, step)
    ensures InSync(Next(s, step))
  {
    match step
    case CommitStep(o, env) => CommitKeepsSync(s, o, env);
    case RevertStep(id, defaults, env) =>
      var row := FindRevision(s.revisions, id);
      if row.Some? {
        CommitKeepsSync(s.(candidate := Migrate(row.value, defaults)), DEFAULT_OPTIONS, env);
      }
    case _ =>
  }

  lemma CommitKeepsSync(s: State, o: Options, env: Env)
    requires FitsEnv(|s.applied|, env) && InSync(s) && AllMatch(env.restores, s.running)
    ensures InSync(Commit(s, o, env).0)
  {
    if env.validated.Some? {
      InstallResult(s, o, env, Diff(s.running, s.candidate, []) != []);
    }
  }

  /** The first commit that reaches the appliers puts the system in step, whatever it matched before. */
  lemma CommitEstablishesSync(s: State, o: Options, env: Env)
    requires FitsEnv(|s.applied|, env)
    ensures var (r, out) := Commit(s, o, env);
            && (out.Installed? ==> InSync(r))
            && (out == Rejected(Apply) || out == Rejected(Health) ==>
                  (InSync(r) <==> AllMatch(env.restores, s.running)))
  {
    if env.validated.Some? {
      InstallResult(s, o, env, Diff(s.running, s.candidate, []) != []);
    }
  }

  predicate AllRestoresWork(s: State, steps: seq<Step>)
    requires AllFit(|s.applied|, steps)
  {
    forall i | 0 <= i < |steps| :: RestoresWork(Run(s, steps[..i]), steps[i])
  }

  /** Over every run, at every step boundary. */
  lemma {:induction false} RunKeepsSync(s: State, steps: seq<Step>, k: nat)
    requires AllFit(|s.applied|, steps) && k <= |steps|
    requires InSync(s) && AllRestoresWork(s, steps)
    ensures InSync(Run(s, steps[..k]))
    decreases k
  {
    if k > 0 {
      RunKeepsSync(s, steps, k - 1);
      assert steps[..k][..k - 1] == steps[..k - 1];
      StepKeepsSync(Run(s, steps[..k - 1]), steps[k - 1]);
    }
  }

  /** A commit refused by the lock, the validator or a preflight calls no applier and changes nothing. */
  lemma EarlyRefusalTouchesNothing(s: State, o: Options, env: Env)
    requires FitsEnv(|s.applied|, env)
    ensures Commit(s, o, env).1 in {Rejected(Lock), Rejected(Validate), Rejected(Preflight), NothingToCommit} ==>
              Commit(s, o, env).0 == s
    ensures Commit(s, o, env).1 == Rejected(Lock) <==> s.pending.Some?
    ensures Commit(s, o, env).1 == NothingToCommit <==> s.pending.None? && s.candidate == s.running && !o.force
  {
    DiffEmptyIffEqual(s.running, s.candidate, []);
    if env.validated.Some? {
      InstallResult(s, o, env, Diff(s.running, s.candidate, []) != []);
    }
  }

  /** A refusal counts only if it comes with a message: refusing verdicts without one are not seen. */
  lemma {:induction false} ProblemsNeedMessages(verdicts: seq<Verdict>)
    ensures Problems(verdicts) != [] <==>
            exists i :: 0 <= i < |verdicts| && !verdicts[i].ok && verdicts[i].messages != []
  {
    if verdicts != [] {
      ProblemsNeedMessages(verdicts[1..]);
      var v := verdicts[0];
      if Problems(verdicts[1..]) != [] {
        var i :| 0 <= i < |verdicts[1..]| && !verdicts[1..][i].ok && verdicts[1..][i].messages != [];
        assert !verdicts[i + 1].ok && verdicts[i + 1].messages != [];
      }
      if i :| 0 <= i < |verdicts| && !verdicts[i].ok && verdicts[i].messages != [] {
        if i > 0 { assert verdicts[i] == verdicts[1..][i - 1]; }
      }
      assert |Problems(verdicts)| == |if v.ok then [] else v.messages| + |Problems(verdicts[1..])|;
    }
  }

  /** The exact condition under which a commit is installed. */
  lemma InstalledIff(s: State, o: Options, env: Env)
    requires FitsEnv(|s.applied|, env)
    ensures Commit(s, o, env).1.Installed? <==>
            && s.pending.None?
            && (s.candidate != s.running || o.force)
            && env.validated.Some?
            && (forall i | 0 <= i < |env.preflight| :: env.preflight[i].ok || env.preflight[i].messages == [])
            && (forall i | 0 <= i < |env.applies| :: env.applies[i].ok)
            && (forall i | 0 <= i < |env.health| :: env.health[i].ok || env.health[i].messages == [])
  {
    DiffEmptyIffEqual(s.running, s.candidate, []);
    ProblemsNeedMessages(env.preflight);
    ProblemsNeedMessages(env.health);
    if env.validated.Some? {
      InstallResult(s, o, env, Diff(s.running, s.candidate, []) != []);
    }
  }

  /** So a preflight and a health check that both refuse in silence stop nothing: the commit is installed. */
  lemma SilentRefusalIsInstalled(was: Config, next: Config)
    requires was != next
    ensures var s := State(was, next, was, None, None, [], 0, [], []);
            var silent := Verdict(false, []);
            var env := Env("t1", 0, Some(next), [], [], [silent], []);
            Commit(s, Options(false, Some(false), 0), env).1.Installed?
            && Commit(s.(applied := [None]), Options(false, Some(false), 0),
                      Env("t1", 0, Some(next), [silent], [ApplyResult(true, false, None)], [], [None])).1.Installed?
  {
    var s := State(was, next, was, None, None, [], 0, [], []);
    var silent := Verdict(false, []);
    InstalledIff(s, Options(false, Some(false), 0), Env("t1", 0, Some(next), [], [], [silent], []));
    InstalledIff(s.(applied := [None]), Options(false, Some(false), 0),
                 Env("t1", 0, Some(next), [silent], [ApplyResult(true, false, None)], [], [None]));
  }

  /** The last calls made, as many as are asked for. */
  function LastCalls(s: State, count: nat): seq<Call> {
    if count <= |s.calls| then s.calls[|s.calls| - count..] else s.calls
  }

  /** When a commit fails after applying, the rollback asks each applier to go from the old document to itself. */
  lemma RollbackCallsAreFromOldToOld(s: State, o: Options, env: Env)
    requires FitsEnv(|s.applied|, env)
    requires Commit(s, o, env).1 == Rejected(Apply) || Commit(s, o, env).1 == Rejected(Health)
    ensures LastCalls(Commit(s, o, env).0, |s.applied|) == CallEach(|s.applied|, s.running, s.running)
  {
    var record := Diff(s.running, s.candidate, []) != [];
    var s1 := if record then SaveRevision(s, env.txid, Checkpoint, s.running) else s;
    var a := ApplyFrom(0, Applying(s1.applied, s1.calls, None, false), s.running, env.validated.value, env.applies);
    var calls := Commit(s, o, env).0.calls;
    assert calls == a.calls + CallEach(|s.applied|, s.running, s.running);
  }

  /**
   * So recovery rests on appliers that match their second argument whatever the first one is. Appliers
   * that only act on a difference between the two would leave the system out of step with `running`
   * exactly when some applier no longer matched it.
   */
  lemma DifferenceDrivenAppliersDoNotRecover(s: State, o: Options, env: Env)
    requires FitsEnv(|s.applied|, env) && env.validated.Some?
    requires Commit(s, o, env).1 == Rejected(Apply)
    requires var start := Applying(s.applied, s.calls, None, false);
             var a := ApplyFrom(0, start, s.running, env.validated.value, env.applies);
             env.restores == a.applied
    requires InSync(s) && env.validated.value != s.running
    ensures InSync(Commit(s, o, env).0) <==> !env.applies[0].ok && env.applies[0].left == Some(s.running)
    ensures LastCalls(Commit(s, o, env).0, |s.applied|) == CallEach(|s.applied|, s.running, s.running)
  {
    RollbackCallsAreFromOldToOld(s, o, env);
    var record := Diff(s.running, s.candidate, []) != [];
    var next := env.validated.value;
    InstallResult(s, o, env, record);
    ApplyFromResult(0, Applying(s.applied, s.calls, None, false), s.running, next, env.applies);
    FirstApplierDecides(Applying(s.applied, s.calls, None, false), s.running, next, env.applies);
    if env.applies[0].ok {
      assert env.restores[0] == Some(next);
    } else {
      assert env.restores == s.applied[0 := env.applies[0].left];
      assert env.restores[0] == env.applies[0].left;
    }
  }

  /**
   * Whether the first applier still matches the old document is decided by its own call; if that failed, nobody
   * else was called.
   */
  lemma FirstApplierDecides(a: Applying, was: Config, next: Config, results: seq<ApplyResult>)
    requires |a.applied| == |results| > 0
    ensures var r := ApplyFrom(0, a, was, next, results);
            && (results[0].ok ==> r.applied[0] == Some(next))
            && (!results[0].ok ==> r.applied == a.applied[0 := results[0].left])
  {
    if results[0].ok {
      ApplyFromKeepsDone(1, Applying(a.applied[0 := Some(next)], a.calls + [Call(0, was, next)], a.failed,
                                     a.needsConfirm || results[0].requiresConfirmation), was, next, results);
      assert ApplyFrom(0, a, was, next, results).applied[..1][0] == Some(next);
    }
  }

  lemma {:induction false} ApplyFromKeepsDone(i: nat, a: Applying, was: Config, next: Config, results: seq<ApplyResult>)
    requires i <= |a.applied| == |results|
    ensures ApplyFrom(i, a, was, next, results).applied[..i] == a.applied[..i]
    decreases |results| - i
  {
    if i < |results| && results[i].ok {
      var b := Applying(a.applied[i := Some(next)], a.calls + [Call(i, was, next)], a.failed,
                        a.needsConfirm || results[i].requiresConfirmation);
      ApplyFromKeepsDone(i + 1, b, was, next, results);
      assert a.applied[..i] == b.applied[..i + 1][..i];
      assert ApplyFrom(i + 1, b, was, next, results).applied[..i] ==
             ApplyFrom(i + 1, b, was, next, results).applied[..i + 1][..i];
    }
  }
}
