/** When a switch that fails can bring the daemon back. */
module DaemonMemory {
  import opened ServiceSwitch

  /** The attempt under way knows that the daemon was enabled and may still give up on its own. */
  predicate Remembers(app: App) {
    || (app.MarkStopping? && app.prev) || app.StopReread? || app.StopRemove? || app.StopUnregister?
    || (app.Poll? && app.prev) || (app.Probe? && app.prev) || (app.ProbeHeld? && app.prev)
    || (app.FinalFetch? && app.prev) || (app.Snapshot? && app.prev) || (app.Validating? && app.prev)
    || (app.WriteComplete? && app.prev) || (app.AttemptFailed? && app.prev) || app.Restoring?
  }

  /** A run of the processes from `s` ends with the daemon enabled. */
  ghost predicate ComesBack(t: Trust, s: State) {
    exists steps :: ValidRun(t, s, steps) && Final(t, s, steps).enabled
  }

  // ---- Forgotten for good ----

  lemma SupLeavesApp(t: Trust, s: State, p: Pid, act: SupAction)
    requires SupEnabled(t, s, p, act)
    ensures SupNext(t, s, p, act).enabled == s.enabled && SupNext(t, s, p, act).app == s.app
  {
  }

  lemma AppStaysForgotten(t: Trust, s: State, act: AppAction)
    requires !s.enabled && !Remembers(s.app) && AppEnabled(t, s, act)
    ensures !AppNext(t, s, act).enabled && !Remembers(AppNext(t, s, act).app)
  {
  }

  lemma StepStaysForgotten(t: Trust, s: State, step: Step)
    requires !s.enabled && !Remembers(s.app) && Enabled(t, s, step)
    ensures !Next(t, s, step).enabled && !Remembers(Next(t, s, step).app)
  {
    match step
    case BySup(p, act) => SupLeavesApp(t, s, p, act);
    case ByDesktop(act) => AppStaysForgotten(t, s, act);
    case ChildExit(_) =>
    case ConfigRewrite(_) =>
  }

  lemma {:induction false} RunStaysForgotten(t: Trust, s: State, steps: seq<Step>)
    requires !s.enabled && !Remembers(s.app) && ValidRun(t, s, steps)
    ensures !Final(t, s, steps).enabled && !Remembers(Final(t, s, steps).app)
    decreases |steps|
  {
    if steps == [] {
    } else {
      StepStaysForgotten(t, s, steps[0]);
      RunStaysForgotten(t, Next(t, s, steps[0]), steps[1..]);
    }
  }

  /** A crash of the application once `enabled` is removed forgets the daemon: no later attempt ever restores it. */
  lemma CrashForgets(t: Trust, s: State, recordLost: bool)
    requires !s.enabled
    ensures !ComesBack(t, Next(t, s, ByDesktop(Crash(recordLost))))
  {
    var s' := Next(t, s, ByDesktop(Crash(recordLost)));
    forall steps | ValidRun(t, s', steps)
      ensures !Final(t, s', steps).enabled
    {
      RunStaysForgotten(t, s', steps);
    }
  }

  // ---- Remembered to the end ----

  lemma Prepend(t: Trust, s: State, step: Step)
    requires Enabled(t, s, step) && ComesBack(t, Next(t, s, step))
    ensures ComesBack(t, s)
  {
    var steps :| ValidRun(t, Next(t, s, step), steps) && Final(t, Next(t, s, step), steps).enabled;
    var longer := [step] + steps;
    assert longer[0] == step && longer[1..] == steps;
    assert ValidRun(t, s, longer) && Final(t, s, longer).enabled;
  }

  lemma AlreadyThere(t: Trust, s: State)
    requires s.enabled
    ensures ComesBack(t, s)
  {
    assert ValidRun(t, s, []) && Final(t, s, []).enabled;
  }

  lemma GivesUp(t: Trust, s: State)
    requires s.app == AttemptFailed(true)
    ensures ComesBack(t, s)
  {
    var s1 := Next(t, s, ByDesktop(GiveUp(true)));
    AlreadyThere(t, Next(t, s1, ByDesktop(Restore(true))));
    Prepend(t, s1, ByDesktop(Restore(true)));
    Prepend(t, s, ByDesktop(GiveUp(true)));
  }

  /** How the attempt can fail next, and how far that is from giving up. */
  function WayOut(s: State): (AppAction, nat)
    requires Remembers(s.app) && !s.app.AttemptFailed? && !s.app.Restoring?
  {
    match s.app
    case MarkStopping(_) => (Mark(true), 10)
    case StopReread => (Reread, 9)
    case StopRemove => (RemoveEnabled(false), 8)
    case StopUnregister => (Unregister(false), 7)
    case Probe(_, false) => (TryLock, 6)
    case ProbeHeld(_, false) => (Unlock, 5)
    case Poll(_) => (PollEnd, 4)
    case FinalFetch(_) => (Fetch(false), 3)
    case Probe(_, true) => (TryLock, 2)
    case ProbeHeld(_, true) => (Unlock, 1)
    case Snapshot(_) => (TakeSnapshot(false), 0)
    case Validating(_) => (Validate(HostFailed), 0)
    case _ => (RecordComplete(false), 0)
  }

  lemma WayOutLeads(t: Trust, s: State)
    requires Remembers(s.app) && !s.app.AttemptFailed? && !s.app.Restoring?
    ensures var (act, distance) := WayOut(s);
      && Enabled(t, s, ByDesktop(act))
      && var app := Next(t, s, ByDesktop(act)).app;
      Remembers(app) && (app.AttemptFailed? || (!app.Restoring? && WayOut(Next(t, s, ByDesktop(act))).1 < distance))
  {
  }

  lemma {:induction false} RememberedComesBack(t: Trust, s: State)
    requires Remembers(s.app)
    ensures ComesBack(t, s)
    decreases if s.app.AttemptFailed? || s.app.Restoring? then 0 else 1 + WayOut(s).1
  {
    if s.app.Restoring? {
      AlreadyThere(t, Next(t, s, ByDesktop(Restore(true))));
      Prepend(t, s, ByDesktop(Restore(true)));
    } else if s.app.AttemptFailed? {
      GivesUp(t, s);
    } else {
      WayOutLeads(t, s);
      var act := WayOut(s).0;
      RememberedComesBack(t, Next(t, s, ByDesktop(act)));
      Prepend(t, s, ByDesktop(act));
    }
  }

  /** The daemon can come back exactly while it is still enabled or the attempt under way remembers that it was. */
  lemma ComesBackExactly(t: Trust, s: State)
    ensures ComesBack(t, s) <==> s.enabled || Remembers(s.app)
  {
    if s.enabled {
      AlreadyThere(t, s);
    } else if Remembers(s.app) {
      RememberedComesBack(t, s);
    } else if ComesBack(t, s) {
      var steps :| ValidRun(t, s, steps) && Final(t, s, steps).enabled;
      RunStaysForgotten(t, s, steps);
    }
  }

  // ---- Only over an intact database ----

  /** Giving up brings a stopped daemon back if and only if it was enabled before and the database is intact. */
  lemma GiveUpRestoresExactly(t: Trust, s: State, dataIntact: bool)
    requires !s.enabled && s.app.AttemptFailed?
    ensures ComesBack(t, Next(t, s, ByDesktop(GiveUp(dataIntact)))) <==> s.app.prev && dataIntact
  {
    ComesBackExactly(t, Next(t, s, ByDesktop(GiveUp(dataIntact))));
  }

  /** A run that never finds the database intact leaves a stopped daemon stopped, whatever else fails in it. */
  lemma {:induction false} RestoredOnlyIntact(t: Trust, s: State, steps: seq<Step>)
    requires !s.enabled && !s.app.Restoring? && ValidRun(t, s, steps)
    requires forall i :: 0 <= i < |steps| ==> steps[i] != ByDesktop(GiveUp(true))
    ensures !Final(t, s, steps).enabled && !Final(t, s, steps).app.Restoring?
    decreases |steps|
  {
    if steps == [] {
    } else {
      if steps[0].BySup? {
        SupLeavesApp(t, s, steps[0].p, steps[0].act);
      }
      RestoredOnlyIntact(t, Next(t, s, steps[0]), steps[1..]);
    }
  }
}
