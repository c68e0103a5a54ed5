/**
 * The configuration store of gateway/sbegw/configd.py as the object it is: fields updated in place, loops
 * over the registered appliers, health checks and revisions. Every method is proved to be a step of
 * `ConfigMachine`, whose runs carry the results.
 */
module ConfigStores {
  import opened Wrappers
  import opened Documents
  import opened ConfigMachine

  class ConfigStore {
    var running: Config
    var candidate: Config
    var runningFile: Config
    var pending: Option<Pending>
    var timer: Option<string>
    var revisions: seq<Revision>
    var lastId: nat
    var applied: seq<Option<Config>>
    var calls: seq<Call>

    ghost function Model(): State
      reads this
    {
      State(running, candidate, runningFile, pending, timer, revisions, lastId, applied, calls)
    }

    /** A store whose running file held `loaded`, or none that could be read. */
    constructor (loaded: Option<Config>, defaults: Config, appliers: nat)
      requires IsDefaultConfig(defaults)
      ensures loaded.None? ==> running == runningFile == defaults
      ensures loaded.Some? ==> running == Migrate(loaded.value, defaults) && runningFile == loaded.value
      ensures loaded.Some? ==> Diff(running, Migrate(running, defaults), []) == []
      ensures candidate == running && pending.None? && revisions == [] && calls == []
      ensures |applied| == appliers && forall i | 0 <= i < appliers :: applied[i] == None
    {
      var config := if loaded.Some? then Migrate(loaded.value, defaults) else defaults;
      running, candidate := config, config;
      runningFile := if loaded.Some? then loaded.value else config;
      pending, timer := None, None;
      revisions, lastId := [], 0;
      applied := seq(appliers, i => None);
      calls := [];
      if loaded.Some? { MigrateTwiceDiffsEmpty(loaded.value, defaults); }
    }

    method Stage(trial: Option<Config>)
      modifies this
      ensures Model() == Next(old(Model()), StageStep(trial))
    {
      if trial.Some? {
        candidate := trial.value;
      }
    }

    method DiscardCandidate()
      modifies this
      ensures Model() == Next(old(Model()), DiscardStep)
    {
      candidate := running;
    }

    method SaveNewRevision(txid: string, source: Source, config: Config) returns (id: nat)
      modifies this`revisions, this`lastId
      ensures Model() == SaveRevision(old(Model()), txid, source, config) && id == lastId
    {
      lastId := lastId + 1;
      revisions := revisions + [Revision(lastId, txid, source, config)];
      if |revisions| > KEPT_REVISIONS {
        revisions := revisions[|revisions| - KEPT_REVISIONS..];
      }
      id := lastId;
    }

    method Rollback(config: Config, restores: seq<Option<Config>>)
      requires |restores| == |applied|
      modifies this
      ensures Model() == RollbackTo(old(Model()), config, restores)
    {
      var current := running;
      running, candidate, runningFile := config, config, config;
      for i := 0 to |restores|
        invariant |applied| == |restores|
        invariant applied[..i] == restores[..i]
        invariant calls == old(calls) + CallEach(|restores|, current, config)[..i]
        invariant Model() == old(Model()).(running := config, candidate := config, runningFile := config,
                                           applied := applied, calls := calls)
      {
        calls := calls + [Call(i, current, config)];
        applied := applied[i := restores[i]];
        assert CallEach(|restores|, current, config)[..i + 1] ==
               CallEach(|restores|, current, config)[..i] + [Call(i, current, config)];
      }
      assert applied == applied[..|restores|] == restores[..|restores|] == restores;
      assert CallEach(|restores|, current, config)[..|restores|] == CallEach(|restores|, current, config);
    }

    method Commit(o: Options, env: Env) returns (out: Outcome)
      requires FitsEnv(|applied|, env)
      modifies this
      ensures (Model(), out) == ConfigMachine.Commit(old(Model()), o, env)
    {
      if pending.Some? {
        return Rejected(Lock);
      }
      var was := running;
      var changes := Diff(was, candidate, []);
      if changes == [] && !o.force {
        return NothingToCommit;
      }
      if env.validated.None? {
        return Rejected(Validate);
      }
      var problems := Collect(env.preflight);
      if problems != [] {
        return Rejected(Preflight);
      }
      out := InstallCandidate(o, env, changes != []);
    }

    /** Checkpoint, apply, health check, then commit or roll back. */
    method InstallCandidate(o: Options, env: Env, record: bool) returns (out: Outcome)
      requires FitsEnv(|applied|, env) && env.validated.Some?
      modifies this
      ensures (Model(), out) == Install(old(Model()), o, env, record)
    {
      var was, next := running, env.validated.value;
      var checkpoint: nat := if revisions == [] then 0 else revisions[|revisions| - 1].id;
      if record {
        checkpoint := SaveNewRevision(env.txid, Checkpoint, was);
      }
      ghost var s1 := Model();
      var failed, needsConfirm := ApplyAll(was, next, env.applies);
      ghost var s2 := Model();
      assert s2 == s1.(applied := applied, calls := calls);
      if failed.Some? {
        Rollback(was, env.restores);
        return Rejected(Apply);
      }
      var unhealthy := Collect(env.health);
      if unhealthy != [] {
        Rollback(was, env.restores);
        return Rejected(Health);
      }

      running := next;
      runningFile := next;
      candidate := next;
      var revision := checkpoint;
      ghost var s3 := Model();
      assert s3 == s2.(running := next, runningFile := next, candidate := next);
      if record {
        revision := SaveNewRevision(env.txid, Committed, next);
      }
      ghost var s4 := Model();
      assert s4 == if record then SaveRevision(s3, env.txid, Committed, next) else s3;
      var confirm := if o.confirmRequired.Some? then o.confirmRequired.value else needsConfirm;
      if confirm && o.rollbackSeconds > 0 {
        pending := Some(Pending(env.txid, was, revision, env.now + o.rollbackSeconds));
        timer := Some(env.txid);
      }
      return Installed(revision, pending.Some?);
    }

    /** Call every applier in turn until one does not succeed. */
    method ApplyAll(was: Config, next: Config,
                    results: seq<ApplyResult>) returns (failed: Option<nat>, needsConfirm: bool)
      requires |results| == |applied|
      modifies this`applied, this`calls
      ensures Applying(applied, calls, failed, needsConfirm) ==
              ApplyFrom(0, Applying(old(applied), old(calls), None, false), was, next, results)
    {
      needsConfirm := false;
      ghost var all := ApplyFrom(0, Applying(applied, calls, None, false), was, next, results);
      for i := 0 to |results|
        invariant |applied| == |results|
        invariant all == ApplyFrom(i, Applying(applied, calls, None, needsConfirm), was, next, results)
      {
        calls := calls + [Call(i, was, next)];
        needsConfirm := needsConfirm || results[i].requiresConfirmation;
        if !results[i].ok {
          applied := applied[i := results[i].left];
          return Some(i), needsConfirm;
        }
        applied := applied[i := Some(next)];
      }
      failed := None;
    }

    method Confirm(txid: string) returns (ok: bool)
      modifies this
      ensures Model() == ConfigMachine.Confirm(old(Model()), txid)
      ensures ok <==> old(IsPending(Model(), txid))
    {
      if pending.None? || pending.value.txid != txid {
        return false;
      }
      timer := None;
      pending := None;
      return true;
    }

    method RollbackTimeout(txid: string, restores: seq<Option<Config>>)
      requires |restores| == |applied|
      modifies this
      ensures Model() == Expire(old(Model()), txid, restores)
    {
      if pending.None? || pending.value.txid != txid {
        return;
      }
      var previous := pending.value.previous;
      pending := None;
      timer := None;
      Rollback(previous, restores);
    }

    method RollbackToRevision(id: nat, defaults: Config, env: Env) returns (out: Outcome)
      requires FitsEnv(|applied|, env) && IsDefaultConfig(defaults)
      modifies this
      ensures (Model(), out) == Revert(old(Model()), id, defaults, env)
    {
      var row: Option<Config> := None;
      ghost var all := FindRevision(revisions, id);
      var i := 0;
      while i < |revisions| && row.None?
        invariant 0 <= i <= |revisions|
        invariant all == if row.Some? then row else FindRevision(revisions[i..], id)
      {
        if revisions[i].id == id {
          row := Some(revisions[i].config);
        }
        i := i + 1;
      }
      if row.None? {
        return Rejected(NoRevision);
      }
      candidate := Migrate(row.value, defaults);
      out := Commit(DEFAULT_OPTIONS, env);
    }
  }

  lemma ProblemsStep(verdicts: seq<Verdict>, i: nat)
    requires i < |verdicts|
    ensures Problems(verdicts[i..]) ==
            (if verdicts[i].ok then [] else verdicts[i].messages) + Problems(verdicts[i + 1..])
  {
    assert verdicts[i..][1..] == verdicts[i + 1..];
  }

  /** Gather the messages of the verdicts that refuse. */
  method Collect(verdicts: seq<Verdict>) returns (problems: seq<string>)
    ensures problems == Problems(verdicts)
  {
    problems := [];
    ghost var all := Problems(verdicts);
    for i := 0 to |verdicts|
      invariant problems + Problems(verdicts[i..]) == all
    {
      ProblemsStep(verdicts, i);
      ghost var rest := Problems(verdicts[i + 1..]);
      if !verdicts[i].ok {
        assert problems + (verdicts[i].messages + rest) == (problems + verdicts[i].messages) + rest;
        problems := problems + verdicts[i].messages;
      }
    }
  }
}
