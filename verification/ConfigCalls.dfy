/**
 * What the appliers are told, read off the log of their calls: over every run the last call to each of them asks
 * for the document that runs, whatever its subsystem made of it. Also when an installed commit waits, and which
 * document a revision brings back; gateway/sbegw/configd.py.
 */
module ConfigCalls {
  import opened Wrappers
  import opened Documents
  import opened ConfigMachine
  import opened ConfigPending

  // ------------------------------------------------------- the last call to each

  /** The document an applier was last asked to match, if it was ever called. */
  function LastTold(calls: seq<Call>, i: nat): Option<Config> {
    if calls == [] then None
    else
      var last := calls[|calls| - 1];
      if last.applier == i then Some(last.to) else LastTold(calls[..|calls| - 1], i)
  }

  /** Every applier was last asked to match the document that runs. */
  predicate Told(s: State) {
    forall i | 0 <= i < |s.applied| :: LastTold(s.calls, i) == Some(s.running)
  }

  /** The same, or no applier was ever called. */
  predicate ToldSinceFirst(s: State) {
    s.calls == [] || Told(s)
  }

  lemma {:induction false} LastToldAppend(a: seq<Call>, b: seq<Call>, i: nat)
    ensures LastTold(a + b, i) == if LastTold(b, i).Some? then LastTold(b, i) else LastTold(a, i)
    decreases |b|
  {
    if b == [] {
      assert a + b == a;
    } else {
      LastToldAppend(a, b[..|b| - 1], i);
      assert (a + b)[..|a + b| - 1] == a + b[..|b| - 1];
    }
  }

  /** One call to each of the first n appliers in order. */
  predicate IsRound(round: seq<Call>, n: nat, from: Config, to: Config) {
    |round| == n && forall i | 0 <= i < n :: round[i] == Call(i, from, to)
  }

  lemma {:induction false} RoundTells(round: seq<Call>, n: nat, from: Config, to: Config, i: nat)
    requires IsRound(round, n, from, to) && i < n
    ensures LastTold(round, i) == Some(to)
    decreases n
  {
    if i < n - 1 {
      RoundTells(round[..n - 1], n - 1, from, to, i);
    }
  }

  /** The log ends with a round of calls that ask for the document that runs. */
  lemma RoundMeansTold(r: State, before: seq<Call>, round: seq<Call>, from: Config)
    requires r.calls == before + round && IsRound(round, |r.applied|, from, r.running)
    ensures Told(r)
  {
    forall i | 0 <= i < |r.applied| ensures LastTold(r.calls, i) == Some(r.running) {
      RoundTells(round, |r.applied|, from, r.running, i);
      LastToldAppend(before, round, i);
    }
  }

  lemma LastCallsAreLast(s: State, n: nat)
    requires n <= |s.calls|
    ensures s.calls == s.calls[..|s.calls| - n] + LastCalls(s, n)
  {
  }

  // --------------------------------------------------------------- over runs

  /** A commit that gets to the appliers leaves them told what runs then, whether it is installed or rolled back. */
  lemma CommitTells(s: State, o: Options, env: Env)
    requires FitsEnv(|s.applied|, env)
    ensures var (r, out) := Commit(s, o, env);
            && (out.Installed? || out == Rejected(Apply) || out == Rejected(Health) ==> Told(r))
            && (!(out.Installed? || out == Rejected(Apply) || out == Rejected(Health)) ==> r == s)
  {
    var (r, out) := Commit(s, o, env);
    var record := Diff(s.running, s.candidate, []) != [];
    if out.Installed? {
      InstallResult(s, o, env, record);
      RoundMeansTold(r, s.calls, CallEach(|s.applied|, s.running, r.running), s.running);
    } else if out == Rejected(Apply) || out == Rejected(Health) {
      RollbackCallsAreFromOldToOld(s, o, env);
      InstallResult(s, o, env, record);
      var round := CallEach(|s.applied|, s.running, s.running);
      LastCallsAreLast(r, |s.applied|);
      RoundMeansTold(r, r.calls[..|r.calls| - |s.applied|], round, s.running);
    }
  }

  /** A timeout calls every applier once, in order, from the unconfirmed document to the recorded one. */
  lemma ExpiryCalls(s: State, txid: string, restores: seq<Option<Config>>)
    requires |restores| == |s.applied| && IsPending(s, txid)
    ensures var r := Expire(s, txid, restores);
            && |r.calls| == |s.calls| + |s.applied| && r.calls[..|s.calls|] == s.calls
            && IsRound(r.calls[|s.calls|..], |s.applied|, s.running, s.pending.value.previous)
            && Told(r)
  {
    var r := Expire(s, txid, restores);
    RoundMeansTold(r, s.calls, r.calls[|s.calls|..], s.running);
  }

  lemma StepKeepsTold(s: State, step: Step)
    requires Fits(|s.applied|, step) && ToldSinceFirst(s)
    ensures ToldSinceFirst(Next(s, step)) && (Told(s) ==> Told(Next(s, step)))
  {
    match step
    case CommitStep(o, env) => CommitTells(s, o, env);
    case RevertStep(id, defaults, env) =>
      var row := FindRevision(s.revisions, id);
      if row.Some? {
        CommitTells(s.(candidate := Migrate(row.value, defaults)), DEFAULT_OPTIONS, env);
      }
    case ExpireStep(txid, restores) =>
      if IsPending(s, txid) {
        ExpiryCalls(s, txid, restores);
      }
    case _ =>
  }

  /**
   * Over every run, at every step boundary, from a store that has called no applier yet: either that is still so, or
   * the last call to every applier asks for the document that runs. No assumption is made of what the calls achieve.
   */
  lemma {:induction false} RunKeepsTold(s: State, steps: seq<Step>, k: nat)
    requires AllFit(|s.applied|, steps) && k <= |steps|
    requires ToldSinceFirst(s)
    ensures ToldSinceFirst(Run(s, steps[..k])) && (Told(s) ==> Told(Run(s, steps[..k])))
    decreases k
  {
    if k > 0 {
      RunKeepsTold(s, steps, k - 1);
      assert steps[..k][..k - 1] == steps[..k - 1];
      StepKeepsTold(Run(s, steps[..k - 1]), steps[k - 1]);
    }
  }

  /**
   * Through any steps that do not settle a waiting commit: its timeout adds exactly one call to each applier, in
   * order, from the document the commit installed to the one that ran before it.
   */
  lemma TimeoutCallsBack(s: State, o: Options, env: Env, steps: seq<Step>, restores: seq<Option<Config>>)
    requires FitsEnv(|s.applied|, env) && Waits(Commit(s, o, env).1)
    requires AllFit(|s.applied|, steps) && NoneSettle(steps, env.txid) && |restores| == |s.applied|
    ensures var held := Run(Commit(s, o, env).0, steps);
            var after := Expire(held, env.txid, restores);
            && |after.calls| == |held.calls| + |s.applied| && after.calls[..|held.calls|] == held.calls
            && IsRound(after.calls[|held.calls|..], |s.applied|, env.validated.value, s.running)
  {
    PendingRecordsPrevious(s, o, env);
    PendingFrozen(Commit(s, o, env).0, steps);
    ExpiryCalls(Run(Commit(s, o, env).0, steps), env.txid, restores);
  }

  // ------------------------------------------------------------ who waits

  /** Some applier asked for a confirmation. */
  predicate SomeAsks(results: seq<ApplyResult>) {
    exists i :: 0 <= i < |results| && results[i].requiresConfirmation
  }

  lemma {:induction false} ApplyFromAsks(i: nat, a: Applying, was: Config, next: Config, results: seq<ApplyResult>)
    requires i <= |a.applied| == |results| && a.failed.None? && forall j | i <= j < |results| :: results[j].ok
    ensures ApplyFrom(i, a, was, next, results).needsConfirm <==>
            a.needsConfirm || exists j :: i <= j < |results| && results[j].requiresConfirmation
    decreases |results| - i
  {
    if i < |results| {
      var b := Applying(a.applied[i := Some(next)], a.calls + [Call(i, was, next)], None,
                        a.needsConfirm || results[i].requiresConfirmation);
      ApplyFromAsks(i + 1, b, was, next, results);
    }
  }

  lemma InstallAsks(s: State, o: Options, env: Env, record: bool)
    requires FitsEnv(|s.applied|, env) && env.validated.Some? && Install(s, o, env, record).1.Installed?
    requires s.pending.None?
    ensures Install(s, o, env, record).1.confirmPending <==>
            && o.rollbackSeconds > 0
            && (if o.confirmRequired.Some? then o.confirmRequired.value else SomeAsks(env.applies))
  {
    InstallResult(s, o, env, record);
    var s1 := if record then SaveRevision(s, env.txid, Checkpoint, s.running) else s;
    ApplyFromAsks(0, Applying(s1.applied, s1.calls, None, false), s.running, env.validated.value, env.applies);
  }

  /**
   * An installed commit waits for its confirmation exactly when there is time to wait and the caller asks for it, or
   * leaves it open and some applier asks.
   */
  lemma WaitsIff(s: State, o: Options, env: Env)
    requires FitsEnv(|s.applied|, env) && Commit(s, o, env).1.Installed?
    ensures Waits(Commit(s, o, env).1) <==>
            && o.rollbackSeconds > 0
            && (o.confirmRequired == Some(true) || (o.confirmRequired.None? && SomeAsks(env.applies)))
  {
    CommitIsInstall(s, o, env);
    InstallAsks(s, o, env, s.candidate != s.running);
  }

  // ---------------------------------------------------------- old revisions

  lemma {:induction false} FindsTheRow(revisions: seq<Revision>, k: nat)
    requires k < |revisions| && forall i, j | 0 <= i < j < |revisions| :: revisions[i].id < revisions[j].id
    ensures FindRevision(revisions, revisions[k].id) == Some(revisions[k].config)
    decreases k
  {
    if k > 0 {
      FindsTheRow(revisions[1..], k - 1);
      assert revisions[0].id < revisions[k].id;
    }
  }

  lemma {:induction false} FindsNone(revisions: seq<Revision>, id: nat)
    requires forall i | 0 <= i < |revisions| :: revisions[i].id != id
    ensures FindRevision(revisions, id).None?
  {
    if revisions != [] {
      FindsNone(revisions[1..], id);
    }
  }

  /**
   * Going back to a revision of the log commits that revision's document, migrated, as a candidate staged just
   * before; with any other id it is refused and nothing changes.
   */
  lemma RevertStagesTheRevision(s: State, id: nat, defaults: Config, env: Env)
    requires FitsEnv(|s.applied|, env) && IsDefaultConfig(defaults) && LogOk(s)
    ensures forall k | 0 <= k < |s.revisions| && s.revisions[k].id == id ::
              Revert(s, id, defaults, env) ==
              Commit(s.(candidate := Migrate(s.revisions[k].config, defaults)), DEFAULT_OPTIONS, env)
    ensures (forall k | 0 <= k < |s.revisions| :: s.revisions[k].id != id) ==>
              Revert(s, id, defaults, env) == (s, Rejected(NoRevision))
  {
    forall k | 0 <= k < |s.revisions| && s.revisions[k].id == id
      ensures FindRevision(s.revisions, id) == Some(s.revisions[k].config)
    {
      FindsTheRow(s.revisions, k);
    }
    if forall k | 0 <= k < |s.revisions| :: s.revisions[k].id != id {
      FindsNone(s.revisions, id);
    }
  }
}
