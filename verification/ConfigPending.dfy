/**
 * What the configuration protocol promises while a commit waits for its confirmation, and what its
 * revision log says; gateway/sbegw/configd.py.
 */
module ConfigPending {
  import opened Wrappers
  import opened Documents
  import opened ConfigMachine

  // ------------------------------------------------------ a pending commit

  /** The commit was installed and waits for its confirmation. */
  predicate Waits(out: Outcome) {
    out.Installed? && out.confirmPending
  }

  /** The two steps that settle a transaction: its confirmation and its rollback timer. */
  predicate Settles(step: Step, txid: string) {
    match step
    case ConfirmStep(t) => t == txid
    case ExpireStep(t, _) => t == txid
    case _ => false
  }

  predicate NoneSettle(steps: seq<Step>, txid: string) {
    forall i | 0 <= i < |steps| :: !Settles(steps[i], txid)
  }

  /** While a commit is pending nothing else can be installed: only the staged candidate may move. */
  lemma {:induction false} PendingFrozen(s: State, steps: seq<Step>)
    requires AllFit(|s.applied|, steps)
    requires s.pending.Some? && NoneSettle(steps, s.pending.value.txid)
    ensures Run(s, steps) == s.(candidate := Run(s, steps).candidate)
    decreases |steps|
  {
    if steps != [] {
      PendingFrozen(s, steps[..|steps| - 1]);
    }
  }

  /** What a commit that waits for confirmation promises to put back. */
  lemma PendingRecordsPrevious(s: State, o: Options, env: Env)
    requires FitsEnv(|s.applied|, env)
    requires Waits(Commit(s, o, env).1)
    ensures var r := Commit(s, o, env).0;
            && r.pending.Some? && r.pending.value.txid == env.txid
            && r.pending.value.revision == Commit(s, o, env).1.revision
            && r.pending.value.previous == s.running && r.running == env.validated.value
            && r.timer == Some(env.txid) && r.pending.value.deadline == env.now + o.rollbackSeconds
            && o.rollbackSeconds > 0
  {
    InstallResult(s, o, env, Diff(s.running, s.candidate, []) != []);
  }

  /**
   * From a commit that waits for confirmation, through any steps that do not settle it: expiry brings
   * back exactly the document that ran before it, confirmation keeps exactly the one it installed.
   */
  lemma ExpiryRestoresConfirmKeeps(s: State, o: Options, env: Env, steps: seq<Step>, restores: seq<Option<Config>>)
    requires FitsEnv(|s.applied|, env)
    requires Waits(Commit(s, o, env).1)
    requires AllFit(|s.applied|, steps) && NoneSettle(steps, env.txid)
    requires |restores| == |s.applied| && AllMatch(restores, s.running)
    ensures var held := Run(Commit(s, o, env).0, steps);
            var expired, kept := Expire(held, env.txid, restores), Confirm(held, env.txid);
            && held.pending.Some? && held.running == held.runningFile == env.validated.value
            && AllMatch(held.applied, held.running)
            && expired.running == expired.candidate == s.running && InSync(expired) && expired.pending.None?
            && kept.running == env.validated.value && InSync(kept) && kept.pending.None?
  {
    PendingRecordsPrevious(s, o, env);
    InstallResult(s, o, env, Diff(s.running, s.candidate, []) != []);
    PendingFrozen(Commit(s, o, env).0, steps);
  }

  // ------------------------------------- at most one of confirm and expiry

  predicate TakesEffect(s: State, step: Step, txid: string) {
    IsPending(s, txid) && Settles(step, txid)
  }

  /** How many steps of a run confirm or expire the transaction to any effect. */
  function Effects(s: State, steps: seq<Step>, txid: string): nat
    requires AllFit(|s.applied|, steps)
    decreases |steps|
  {
    if steps == [] then 0
    else
      var before := steps[..|steps| - 1];
      Effects(s, before, txid) + (if TakesEffect(Run(s, before), steps[|steps| - 1], txid) then 1 else 0)
  }

  predicate Uses(step: Step, txid: string) {
    match step
    case CommitStep(_, env) => env.txid == txid
    case RevertStep(_, _, env) => env.txid == txid
    case _ => false
  }

  /** How many commits of a run carry the transaction id. */
  function Commits(steps: seq<Step>, txid: string): nat {
    if steps == [] then 0
    else Commits(steps[..|steps| - 1], txid) + (if Uses(steps[|steps| - 1], txid) then 1 else 0)
  }

  function Held(s: State, txid: string): nat {
    if IsPending(s, txid) then 1 else 0
  }

  lemma CommitArmsOnlyItsOwn(s: State, o: Options, env: Env, txid: string)
    requires FitsEnv(|s.applied|, env)
    ensures Held(Commit(s, o, env).0, txid) <= if env.txid == txid then 1 else Held(s, txid)
  {
    if env.validated.Some? {
      InstallResult(s, o, env, Diff(s.running, s.candidate, []) != []);
    }
  }

  /**
   * Over every run: a transaction is settled at most as often as it was committed. Ids being fresh for
   * each commit, at most one of confirmation and expiry ever takes effect.
   */
  lemma {:induction false} SettledAtMostOncePerCommit(s: State, steps: seq<Step>, txid: string)
    requires AllFit(|s.applied|, steps)
    ensures Effects(s, steps, txid) + Held(Run(s, steps), txid) <= Commits(steps, txid) + Held(s, txid)
    decreases |steps|
  {
    if steps != [] {
      var before := steps[..|steps| - 1];
      SettledAtMostOncePerCommit(s, before, txid);
      match steps[|steps| - 1]
      case CommitStep(o, env) => CommitArmsOnlyItsOwn(Run(s, before), o, env, txid);
      case RevertStep(id, defaults, env) =>
        var row := FindRevision(Run(s, before).revisions, id);
        if row.Some? {
          CommitArmsOnlyItsOwn(Run(s, before).(candidate := Migrate(row.value, defaults)), DEFAULT_OPTIONS, env, txid);
        }
      case _ =>
    }
  }

  /**
   * Once settled, a transaction that is not committed again stays settled: late timers and confirmations do
   * nothing.
   */
  lemma StaleTimersDoNothing(s: State, steps: seq<Step>, txid: string, restores: seq<Option<Config>>)
    requires AllFit(|s.applied|, steps) && |restores| == |s.applied|
    requires !IsPending(s, txid) && Commits(steps, txid) == 0
    ensures Expire(Run(s, steps), txid, restores) == Run(s, steps) == Confirm(Run(s, steps), txid)
  {
    SettledAtMostOncePerCommit(s, steps, txid);
  }

  // ---------------------------------------------------------- revision log

  /** Revision ids only grow, and at most the newest sixty are kept. */
  predicate LogOk(s: State) {
    && |s.revisions| <= KEPT_REVISIONS
    && (forall i | 0 <= i < |s.revisions| :: s.revisions[i].id <= s.lastId)
    && (forall i, j | 0 <= i < j < |s.revisions| :: s.revisions[i].id < s.revisions[j].id)
  }

  lemma SaveKeepsLogOk(s: State, txid: string, source: Source, config: Config)
    requires LogOk(s)
    ensures var r := SaveRevision(s, txid, source, config);
            && LogOk(r) && r.revisions != []
            && r.revisions[|r.revisions| - 1] == Revision(s.lastId + 1, txid, source, config)
            && (s.revisions != [] ==> |r.revisions| >= 2
                                      && r.revisions[|r.revisions| - 2] == s.revisions[|s.revisions| - 1])
  {
  }

  /** The revision log of a commit that passed its gates: a checkpoint, and a commit once installed. */
  lemma InstallLog(s: State, o: Options, env: Env, record: bool)
    requires FitsEnv(|s.applied|, env) && env.validated.Some?
    ensures var (r, out) := Install(s, o, env, record);
            var saved := if record then SaveRevision(s, env.txid, Checkpoint, s.running) else s;
            var both := if record && out.Installed? then SaveRevision(saved, env.txid, Committed, env.validated.value)
                        else saved;
            && r.revisions == both.revisions && r.lastId == both.lastId
            && (out.Installed? ==> out.revision == if record then r.lastId else LatestRevision(s))
  {
  }

  lemma CommitKeepsLogOk(s: State, o: Options, env: Env)
    requires FitsEnv(|s.applied|, env) && LogOk(s)
    ensures LogOk(Commit(s, o, env).0)
  {
    var record := Diff(s.running, s.candidate, []) != [];
    if env.validated.Some? {
      InstallLog(s, o, env, record);
      SaveKeepsLogOk(s, env.txid, Checkpoint, s.running);
      SaveKeepsLogOk(SaveRevision(s, env.txid, Checkpoint, s.running), env.txid, Committed, env.validated.value);
      assert LogOk(Install(s, o, env, record).0);
    }
  }

  lemma {:induction false} RunKeepsLogOk(s: State, steps: seq<Step>)
    requires AllFit(|s.applied|, steps) && LogOk(s)
    ensures LogOk(Run(s, steps))
    decreases |steps|
  {
    if steps != [] {
      var t := Run(s, steps[..|steps| - 1]);
      RunKeepsLogOk(s, steps[..|steps| - 1]);
      match steps[|steps| - 1]
      case CommitStep(o, env) => CommitKeepsLogOk(t, o, env);
      case RevertStep(id, defaults, env) =>
        var row := FindRevision(t.revisions, id);
        if row.Some? {
          CommitKeepsLogOk(t.(candidate := Migrate(row.value, defaults)), DEFAULT_OPTIONS, env);
        }
      case _ =>
    }
  }

  /** The two newest revisions are the checkpoint and the commit of one transaction. */
  predicate NewestPairIs(s: State, txid: string, was: Config, next: Config) {
    var n := |s.revisions|;
    && n >= 2
    && s.revisions[n - 2].txid == s.revisions[n - 1].txid == txid
    && s.revisions[n - 2].config == was && s.revisions[n - 1].config == next
    && s.revisions[n - 2].source == Checkpoint && s.revisions[n - 1].source == Committed
  }

  /**
   * An installed commit is in the log as its previous and its new document exactly when the candidate
   * differed from `running` before validation; otherwise the log is as it was.
   */
  lemma InstalledIsRecordedIff(s: State, o: Options, env: Env)
    requires FitsEnv(|s.applied|, env) && LogOk(s)
    requires Commit(s, o, env).1.Installed?
    requires forall i | 0 <= i < |s.revisions| :: s.revisions[i].txid != env.txid
    ensures NewestPairIs(Commit(s, o, env).0, env.txid, s.running, env.validated.value) <==> s.candidate != s.running
    ensures s.candidate == s.running ==> Commit(s, o, env).0.revisions == s.revisions && o.force
    ensures Commit(s, o, env).1.revision == LatestRevision(Commit(s, o, env).0)
  {
    DiffEmptyIffEqual(s.running, s.candidate, []);
    InstallLog(s, o, env, s.candidate != s.running);
    if s.candidate != s.running {
      RecordedPair(s, o, env);
    }
  }

  lemma CommitIsInstall(s: State, o: Options, env: Env)
    requires FitsEnv(|s.applied|, env) && Commit(s, o, env).1.Installed?
    ensures env.validated.Some? && Commit(s, o, env) == Install(s, o, env, s.candidate != s.running)
  {
    DiffEmptyIffEqual(s.running, s.candidate, []);
  }

  /** Saving a checkpoint and then the new document makes them the newest pair. */
  lemma SavedPair(s: State, txid: string, next: Config)
    requires LogOk(s)
    ensures var both := SaveRevision(SaveRevision(s, txid, Checkpoint, s.running), txid, Committed, next);
            NewestPairIs(both, txid, s.running, next) && LatestRevision(both) == both.lastId
  {
    SaveKeepsLogOk(s, txid, Checkpoint, s.running);
    SaveKeepsLogOk(SaveRevision(s, txid, Checkpoint, s.running), txid, Committed, next);
  }

  lemma RecordedPair(s: State, o: Options, env: Env)
    requires FitsEnv(|s.applied|, env) && LogOk(s)
    requires Commit(s, o, env).1.Installed? && s.candidate != s.running
    ensures NewestPairIs(Commit(s, o, env).0, env.txid, s.running, env.validated.value)
    ensures LatestRevision(Commit(s, o, env).0) == Commit(s, o, env).0.lastId
  {
    CommitIsInstall(s, o, env);
    InstallLog(s, o, env, true);
    SavedPair(s, env.txid, env.validated.value);
  }

  /** So the pair is in the log, unmoved, for as long as the commit that recorded it is pending. */
  lemma PendingPairStaysNewest(s: State, o: Options, env: Env, steps: seq<Step>)
    requires FitsEnv(|s.applied|, env) && LogOk(s)
    requires Waits(Commit(s, o, env).1) && s.candidate != s.running
    requires AllFit(|s.applied|, steps) && NoneSettle(steps, env.txid)
    ensures NewestPairIs(Run(Commit(s, o, env).0, steps), env.txid, s.running, env.validated.value)
    ensures Run(Commit(s, o, env).0, steps).running == env.validated.value
  {
    RecordedPair(s, o, env);
    PendingRecordsPrevious(s, o, env);
    FrozenKeepsPair(Commit(s, o, env).0, steps, env.txid, s.running, env.validated.value);
  }

  lemma FrozenKeepsPair(s: State, steps: seq<Step>, txid: string, was: Config, next: Config)
    requires IsPending(s, txid) && AllFit(|s.applied|, steps) && NoneSettle(steps, txid)
    requires NewestPairIs(s, txid, was, next) && s.running == next
    ensures NewestPairIs(Run(s, steps), txid, was, next) && Run(s, steps).running == next
  {
    PendingFrozen(s, steps);
  }

  /**
   * A forced commit of an unchanged candidate that the validator still completes changes `running`
   * without a revision: nothing in the log can bring the previous document back.
   */
  lemma ForcedCommitCanChangeUnrecorded(was: Config, filled: Config)
    requires was != filled
    ensures var s := State(was, was, was, None, None, [], 0, [], []);
            var env := Env("boot", 0, Some(filled), [], [], [], []);
            var (r, out) := Commit(s, Options(true, Some(false), 0), env);
            out.Installed? && r.running == filled && r.revisions == []
  {
    DiffEmptyIffEqual(was, was, []);
  }

  // ------------------------------------------- the timeout in its two parts

  /** The timer's first lock region: the pending record is taken out, the previous document noted. */
  function ExpireClaim(s: State, txid: string): (State, Option<Config>) {
    if IsPending(s, txid) then (s.(pending := None, timer := None), Some(s.pending.value.previous))
    else (s, None)
  }

  /** With nothing in between, the two parts are the atomic step. */
  lemma AtomicTimeoutIsBothParts(s: State, txid: string, restores: seq<Option<Config>>)
    requires |restores| == |s.applied|
    ensures var (s1, previous) := ExpireClaim(s, txid);
            Expire(s, txid, restores) == if previous.Some? then RollbackTo(s1, previous.value, restores) else s1
  {
  }

  /** The document a step makes run: the one a commit or a revision rollback installs, or an expiry restores. */
  function Ran(s: State, step: Step): Option<Config>
    requires Fits(|s.applied|, step)
  {
    match step
    case CommitStep(o, env) => if Commit(s, o, env).1.Installed? then env.validated else None
    case RevertStep(id, defaults, env) => if Revert(s, id, defaults, env).1.Installed? then env.validated else None
    case ExpireStep(txid, _) => if IsPending(s, txid) then Some(s.pending.value.previous) else None
    case _ => None
  }

  /** The document the steps last made run, if any of them did. */
  function LastRan(s: State, steps: seq<Step>): Option<Config>
    requires AllFit(|s.applied|, steps)
    decreases |steps|
  {
    if steps == [] then None
    else
      var before := steps[..|steps| - 1];
      var ran := Ran(Run(s, before), steps[|steps| - 1]);
      if ran.Some? then ran else LastRan(s, before)
  }

  lemma CommitRan(s: State, o: Options, env: Env)
    requires FitsEnv(|s.applied|, env)
    ensures var (r, out) := Commit(s, o, env);
            && (out.Installed? ==> env.validated.Some? && r.running == env.validated.value)
            && (!out.Installed? ==> r.running == s.running && r.pending == s.pending)
  {
    if env.validated.Some? {
      InstallResult(s, o, env, Diff(s.running, s.candidate, []) != []);
    }
  }

  lemma StepRan(s: State, step: Step)
    requires Fits(|s.applied|, step)
    ensures Next(s, step).running == if Ran(s, step).Some? then Ran(s, step).value else s.running
    ensures Ran(s, step).None? && Next(s, step).pending.Some? ==> s.pending.Some?
  {
    match step
    case CommitStep(o, env) => CommitRan(s, o, env);
    case RevertStep(id, defaults, env) =>
      var row := FindRevision(s.revisions, id);
      if row.Some? {
        CommitRan(s.(candidate := Migrate(row.value, defaults)), DEFAULT_OPTIONS, env);
      }
    case _ =>
  }

  /** What runs after any steps is what they last made run; and a commit they leave pending is among them. */
  lemma {:induction false} RunningIsLastRan(s: State, steps: seq<Step>)
    requires AllFit(|s.applied|, steps)
    ensures Run(s, steps).running == if LastRan(s, steps).Some? then LastRan(s, steps).value else s.running
    ensures s.pending.None? && Run(s, steps).pending.Some? ==> LastRan(s, steps).Some?
    decreases |steps|
  {
    if steps != [] {
      var before := steps[..|steps| - 1];
      RunningIsLastRan(s, before);
      StepRan(Run(s, before), steps[|steps| - 1]);
    }
  }

  /**
   * Over every gap between the two parts: what the gap last made run survives the second part exactly when
   * the gap made nothing run, or last made the very document run that is being restored. A commit the gap
   * left pending stays pending, and the log stays as the gap left it, whether it survives or not. With
   * nothing in the gap the two parts are the one step.
   */
  lemma SplitTimeoutExact(s: State, txid: string, gap: seq<Step>, restores: seq<Option<Config>>)
    requires IsPending(s, txid)
    requires AllFit(|s.applied|, gap) && |restores| == |s.applied|
    ensures var (s1, previous) := ExpireClaim(s, txid);
            var s2, last := Run(s1, gap), LastRan(s1, gap);
            && previous.Some?
            && s2.running == (if last.Some? then last.value else s.running)
            && var s3 := RollbackTo(s2, previous.value, restores);
            && ((last.Some? ==> s3.running == s2.running) <==> last.None? || last.value == s.pending.value.previous)
            && s3.pending == s2.pending && s3.revisions == s2.revisions
            && (s3.pending.Some? ==> last.Some?)
            && (gap == [] ==> s3 == Expire(s, txid, restores))
  {
    RunningIsLastRan(ExpireClaim(s, txid).0, gap);
    AtomicTimeoutIsBothParts(s, txid, restores);
  }

  /** A commit that asks for no confirmation where nothing is applied or checked, on an empty log. */
  lemma PlainCommit(s: State, o: Options, env: Env)
    requires s.applied == [] && s.revisions == [] && s.pending.None? && s.candidate != s.running
    requires env.validated.Some? && env.preflight == env.health == [] && env.applies == [] && env.restores == []
    requires o.confirmRequired == Some(false)
    ensures var (r, out) := Commit(s, o, env);
            && out == Installed(s.lastId + 2, false)
            && r.running == env.validated.value && r.pending.None? && r.applied == []
            && |r.revisions| == 2 && r.revisions[1].id == s.lastId + 2 && r.revisions[1].config == r.running
  {
    DiffEmptyIffEqual(s.running, s.candidate, []);
  }

  /** And one that does ask. */
  lemma PlainWaitingCommit(s: State, o: Options, env: Env)
    requires s.applied == [] && s.revisions == [] && s.pending.None? && s.candidate != s.running
    requires env.validated.Some? && env.preflight == env.health == [] && env.applies == [] && env.restores == []
    requires o.confirmRequired == Some(true) && o.rollbackSeconds > 0
    ensures var (r, out) := Commit(s, o, env);
            && out.Installed? && r.running == env.validated.value && r.applied == []
            && IsPending(r, env.txid) && r.pending.value.previous == s.running
  {
    DiffEmptyIffEqual(s.running, s.candidate, []);
  }

  /**
   * A trace that breaks it. `b` waits for confirmation over `a`; its timer fires, and before the timer
   * restores `a` another commit installs `c`. Then `a` runs while `c` is reported pending, and when
   * that commit is not confirmed either, `b`, which nobody confirmed, is what stays.
   */
  lemma SplitTimeoutBreaksPending(a: Config, b: Config, c: Config)
    requires a != b && b != c && a != c
    ensures var s := State(b, c, b, Some(Pending("t1", a, 2, 120)), Some("t1"), [], 2, [], []);
            var (claimed, previous) := ExpireClaim(s, "t1");
            var env := Env("t2", 200, Some(c), [], [], [], []);
            var (gapped, out) := Commit(claimed, Options(false, Some(true), 120), env);
            var resumed := RollbackTo(gapped, a, []);
            && previous == Some(a) && out.Installed? && gapped.running == c
            && IsPending(resumed, "t2") && resumed.running == a
            && Expire(resumed, "t2", []).running == b && Expire(resumed, "t2", []).pending.None?
  {
    var s := State(b, c, b, Some(Pending("t1", a, 2, 120)), Some("t1"), [], 2, [], []);
    var env := Env("t2", 200, Some(c), [], [], [], []);
    PlainWaitingCommit(ExpireClaim(s, "t1").0, Options(false, Some(true), 120), env);
  }

  /**
   * A worse one: the commit of the gap asks for no confirmation. It is reported installed, and then `a`
   * runs with nothing pending, while the newest revision still says `c`.
   */
  lemma SplitTimeoutOverwritesSettledCommit(a: Config, b: Config, c: Config)
    requires a != b && b != c && a != c
    ensures var s := State(b, c, b, Some(Pending("t1", a, 2, 120)), Some("t1"), [], 2, [], []);
            var (claimed, previous) := ExpireClaim(s, "t1");
            var env := Env("t2", 200, Some(c), [], [], [], []);
            var (gapped, out) := Commit(claimed, Options(false, Some(false), 120), env);
            var resumed := RollbackTo(gapped, a, []);
            && previous == Some(a) && out == Installed(4, false) && gapped.running == c
            && resumed.running == a && resumed.pending.None?
            && |resumed.revisions| == 2 && resumed.revisions[1].id == 4 && resumed.revisions[1].config == c
  {
    var s := State(b, c, b, Some(Pending("t1", a, 2, 120)), Some("t1"), [], 2, [], []);
    PlainCommit(ExpireClaim(s, "t1").0, Options(false, Some(false), 120), Env("t2", 200, Some(c), [], [], [], []));
  }
}
