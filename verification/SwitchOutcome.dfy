/** What the switch record says, and what has to go well before the embedded host runs. */
module SwitchOutcome {
  import opened ServiceSwitch
  import opened DaemonMemory

  // ---- The record ----

  predicate Stopped(app: App) {
    app.StopReread? || app.StopRemove? || app.StopUnregister? || app.Poll? || app.Probe? || app.ProbeHeld? || app.FinalFetch?
    || app.Snapshot? || app.Validating? || app.WriteComplete? || app.AttemptFailed? || app.Restoring? || app.Relaunching?
  }

  /** While an attempt is under way the record says so, and `rolledBack` stands only beside an enabled daemon. */
  predicate RecordTrue(s: State) {
    && (Stopped(s.app) ==> s.record.StoppingLegacy?)
    && (s.app.Relaunching? || s.record.RolledBack? ==> s.enabled)
  }

  lemma StepKeepsRecord(t: Trust, s: State, step: Step)
    requires RecordTrue(s) && Enabled(t, s, step)
    ensures RecordTrue(Next(t, s, step))
  {
    match step
    case BySup(p, act) => SupLeavesRecord(t, s, p, act);
    case ByDesktop(act) => AppKeepsRecord(t, s, act);
    case ChildExit(_) =>
    case ConfigRewrite(_) =>
  }

  lemma SupLeavesRecord(t: Trust, s: State, p: Pid, act: SupAction)
    requires SupEnabled(t, s, p, act)
    ensures var s' := SupNext(t, s, p, act); s'.record == s.record && s'.config == s.config && s'.app == s.app && s'.enabled == s.enabled
  {
  }

  lemma AppKeepsRecord(t: Trust, s: State, act: AppAction)
    requires RecordTrue(s) && AppEnabled(t, s, act)
    ensures RecordTrue(AppNext(t, s, act))
  {
  }

  lemma {:induction false} RunKeepsRecord(t: Trust, s: State, steps: seq<Step>)
    requires RecordTrue(s) && ValidRun(t, s, steps)
    ensures RecordTrue(Final(t, s, steps))
    decreases |steps|
  {
    if steps == [] {
    } else {
      StepKeepsRecord(t, s, steps[0]);
      RunKeepsRecord(t, Next(t, s, steps[0]), steps[1..]);
    }
  }

  /** Whatever the environment does, a record of a completed roll-back means that the daemon is enabled again. */
  lemma RolledBackMeansEnabled(t: Trust, s: State)
    requires Reachable(t, s)
    ensures s.record.RolledBack? ==> s.enabled
    ensures Stopped(s.app) ==> s.record.StoppingLegacy?
  {
    var start, steps :| Init(start) && ValidRun(t, start, steps) && Final(t, start, steps) == s;
    RunKeepsRecord(t, start, steps);
  }

  /** Only a daemon that was relaunched is recorded as rolled back. */
  lemma {:induction false} RolledBackOnlyRelaunched(t: Trust, s: State, steps: seq<Step>)
    requires !s.record.RolledBack? && ValidRun(t, s, steps)
    requires forall i :: 0 <= i < |steps| ==> steps[i] != ByDesktop(Relaunched(true))
    ensures !Final(t, s, steps).record.RolledBack?
    decreases |steps|
  {
    if steps == [] {
    } else {
      if steps[0].BySup? {
        SupLeavesRecord(t, s, steps[0].p, steps[0].act);
      }
      assert !Next(t, s, steps[0]).record.RolledBack?;
      RolledBackOnlyRelaunched(t, Next(t, s, steps[0]), steps[1..]);
    }
  }

  // ---- A supervisor of an earlier configuration ----

  /** It has read an id that is not the configured one, and has not got as far as launching. */
  predicate Stale(s: State, p: Pid, id: string) {
    && p in s.sups && p !in s.alive && s.config != Readable(id)
    && s.sups[p] in {Locking(id), CheckEnabled(id), CheckConfig(id), Backoff(id), Exiting, Exited}
  }

  lemma StepStaysStale(t: Trust, s: State, step: Step, p: Pid, id: string)
    requires Stale(s, p, id) && Enabled(t, s, step) && step != ConfigRewrite(Readable(id))
    ensures Stale(Next(t, s, step), p, id)
  {
    match step
    case BySup(q, act) =>
      SupLeavesRecord(t, s, q, act);
      if p != q {
        SupTouchesOwn(t, s, q, act, p);
      }
    case ByDesktop(act) => AppLeavesSups(t, s, act);
    case ChildExit(_) =>
    case ConfigRewrite(_) =>
  }

  lemma SupTouchesOwn(t: Trust, s: State, q: Pid, act: SupAction, p: Pid)
    requires SupEnabled(t, s, q, act) && p != q && p in s.sups
    ensures var s' := SupNext(t, s, q, act); p in s'.sups && s'.sups[p] == s.sups[p] && (p in s'.alive <==> p in s.alive)
  {
  }

  /** As long as the configuration does not name it again, such a supervisor launches no service. */
  lemma {:induction false} StaleNeverLaunches(t: Trust, s: State, steps: seq<Step>, p: Pid, id: string)
    requires Stale(s, p, id) && ValidRun(t, s, steps)
    requires forall i :: 0 <= i < |steps| ==> steps[i] != ConfigRewrite(Readable(id))
    ensures Stale(Final(t, s, steps), p, id)
    decreases |steps|
  {
    if steps == [] {
    } else {
      StepStaysStale(t, s, steps[0], p, id);
      StaleNeverLaunches(t, Next(t, s, steps[0]), steps[1..], p, id);
    }
  }

  // ---- The attempt ----

  /** A report after which the attempt must not go on. */
  predicate Fails(step: Step) {
    step.ByDesktop? &&
    var act := step.appAct;
    || act == Unregister(false) || act == Fetch(true) || act == TakeSnapshot(false) || act == RecordComplete(false)
    || (act.Validate? && !act.outcome.HostOk?)
  }

  predicate Ends(step: Step) {
    step.ByDesktop? && (step.appAct.GiveUp? || step.appAct.Crash?)
  }

  lemma {:induction false} FailedStaysFailed(t: Trust, s: State, steps: seq<Step>)
    requires s.app.AttemptFailed? && ValidRun(t, s, steps) && forall i :: 0 <= i < |steps| ==> !Ends(steps[i])
    ensures Final(t, s, steps).app == s.app
    decreases |steps|
  {
    if steps == [] {
    } else {
      if steps[0].BySup? {
        SupLeavesApp(t, s, steps[0].p, steps[0].act);
      }
      assert Next(t, s, steps[0]).app == s.app;
      FailedStaysFailed(t, Next(t, s, steps[0]), steps[1..]);
    }
  }

  /** However the processes interleave, one failing report ends the attempt: only giving up or a crash leads on. */
  lemma {:induction false} OneFailureFails(t: Trust, s: State, steps: seq<Step>, i: nat)
    requires ValidRun(t, s, steps) && i < |steps| && Fails(steps[i]) && forall j :: 0 <= j < |steps| ==> !Ends(steps[j])
    ensures Final(t, s, steps).app.AttemptFailed?
    decreases |steps|
  {
    var rest := steps[1..];
    if i == 0 {
      assert Next(t, s, steps[0]).app.AttemptFailed?;
      FailedStaysFailed(t, Next(t, s, steps[0]), rest);
    } else {
      assert rest[i - 1] == steps[i];
      OneFailureFails(t, Next(t, s, steps[0]), rest, i - 1);
    }
  }

  // ---- Before the embedded host ----

  predicate Unvalidated(s: State) {
    !s.record.Complete? && !s.config.Missing? && !s.app.WriteComplete? && !s.app.Granted? && !s.app.Running?
  }

  predicate Validates(step: Step) {
    step == ByDesktop(Validate(HostOk)) || step == ConfigRewrite(Missing)
  }

  lemma StepStaysUnvalidated(t: Trust, s: State, step: Step)
    requires Unvalidated(s) && Enabled(t, s, step) && !Validates(step)
    ensures Unvalidated(Next(t, s, step))
  {
    match step
    case BySup(p, act) => SupLeavesRecord(t, s, p, act);
    case ByDesktop(act) =>
    case ChildExit(_) =>
    case ConfigRewrite(_) =>
  }

  /** Beside a retained daemon the embedded host runs, and the switch is recorded, only after a validation succeeded. */
  lemma {:induction false} NoHostUnvalidated(t: Trust, s: State, steps: seq<Step>)
    requires Unvalidated(s) && ValidRun(t, s, steps) && forall i :: 0 <= i < |steps| ==> !Validates(steps[i])
    ensures Unvalidated(Final(t, s, steps))
    decreases |steps|
  {
    if steps == [] {
    } else {
      StepStaysUnvalidated(t, s, steps[0]);
      NoHostUnvalidated(t, Next(t, s, steps[0]), steps[1..]);
    }
  }
}
