/**
The hand-over of one data directory from the retained daemon to the embedded host.

Any number of supervisor processes, the service children they spawn and one desktop
application interleave freely.  They share the `enabled` file, the exclusive lock on
`supervisor.lock`, `daemon.json` and `embedded-switch.json`.  Every constructor of
`Step` is one atomic action of one of them.
*/
module ServiceSwitch {

  type Pid = nat

  /** The `state` field of `embedded-switch.json`. */
  datatype Record = NoRecord | StoppingLegacy | Complete | RolledBack | Failed

  /** `daemon.json` as `is_file`, `read_config` and `validate_managed_config` see it. */
  datatype Config = Missing | Unreadable | Readable(supervisorId: string)

  datatype Holder = Nobody | BySupervisor(pid: Pid) | ByApp

  /** Where a supervisor process stands; `id` is the supervisor id it read at start. */
  datatype Supervisor =
    | Booting
    | Locking(id: string)
    | CheckEnabled(id: string)
    | CheckConfig(id: string)
    | Launching(id: string)
    | Watching(id: string)
    | Backoff(id: string)
    | Stopping
    | Exiting
    | Exited

  /** Where the application stands; `prev` is `previous_enabled`. */
  datatype App =
    | Idle
    | ReadRecord
    | ReadConfig
    | ReadEnabled
    | MarkStopping(prev: bool)
    | StopReread
    | StopRemove
    | StopUnregister
    | Poll(prev: bool)
    | Probe(prev: bool, final: bool)
    | ProbeHeld(prev: bool, final: bool)
    | FinalFetch(prev: bool)
    | Snapshot(prev: bool)
    | Validating(prev: bool)
    | WriteComplete(prev: bool)
    | AttemptFailed(prev: bool)
    | Restoring
    | Relaunching
    | Granted
    | Running

  /**
  `alive` holds the supervisors whose service child is alive: a legacy writer each.
  `writer` says that the embedded host has the data directory open.
  */
  datatype State = State(
    enabled: bool,
    config: Config,
    lock: Holder,
    record: Record,
    sups: map<Pid, Supervisor>,
    alive: set<Pid>,
    app: App,
    writer: bool)

  /**
  What the environment is trusted with: `daemon.json` stays readable, no supervisor is
  killed, waiting for a child does not fail, stopping a child stops it, and the embedded
  host used for validation really stops.
  */
  datatype Trust = Trust(
    configStaysReadable: bool, neverKilled: bool, waitsSucceed: bool, stopsSucceed: bool, hostStops: bool)

  datatype HostOutcome = HostOk | HostFailed | HostStuck

  datatype SupAction =
    | Start
    | Read
    | TakeLock
    | SeeEnabled
    | SeeConfig
    | Launch(ok: bool)
    | NoticeStop
    | ChildGone
    | BackoffStop
    | BackoffEnd
    | Reap(gone: bool)
    | Leave
    | WaitFailed
    | Killed

  datatype AppAction =
    | Enter
    | SeeRecord
    | SeeDaemonConfig
    | SeeEnabledFile(ok: bool)
    | Mark(ok: bool)
    | Reread
    | RemoveEnabled(ok: bool)
    | Unregister(ok: bool)
    | PollProbe
    | PollEnd
    | Fetch(answered: bool)
    | TryLock
    | Unlock
    | TakeSnapshot(ok: bool)
    | Validate(outcome: HostOutcome)
    | RecordComplete(ok: bool)
    | GiveUp(dataIntact: bool)
    | Restore(ok: bool)
    | Relaunched(ok: bool)
    | Open
    | Crash(recordLost: bool)

  datatype Step =
    | BySup(p: Pid, act: SupAction)
    | ChildExit(p: Pid)
    | ConfigRewrite(next: Config)
    | ByDesktop(appAct: AppAction)

  predicate Current(s: State, id: string) {
    s.config.Readable? && id != "" && s.config.supervisorId == id
  }

  predicate Init(s: State) {
    && s.lock == Nobody && s.record == NoRecord && s.sups == map[] && s.alive == {}
    && s.app == Idle && !s.writer
  }

  predicate SupEnabled(t: Trust, s: State, p: Pid, act: SupAction) {
    if act.Start? then p !in s.sups else
      && p in s.sups
      && var pc := s.sups[p];
      match act
      case Start => false
      case Read => pc.Booting?
      case TakeLock => pc.Locking?
      case SeeEnabled => pc.CheckEnabled?
      case SeeConfig => pc.CheckConfig?
      case Launch(_) => pc.Launching?
      case NoticeStop => pc.Watching? && (!s.enabled || !Current(s, pc.id))
      case ChildGone => pc.Watching? && p !in s.alive
      case BackoffStop => pc.Backoff? && (!s.enabled || !Current(s, pc.id))
      case BackoffEnd => pc.Backoff?
      case Reap(gone) => pc.Stopping? && (gone || !t.stopsSucceed)
      case Leave => pc.Exiting?
      case WaitFailed => pc.Watching? && !t.waitsSucceed
      case Killed => !t.neverKilled
  }

  predicate AppEnabled(t: Trust, s: State, act: AppAction) {
    match act
    case Enter => s.app.Idle?
    case SeeRecord => s.app.ReadRecord?
    case SeeDaemonConfig => s.app.ReadConfig?
    case SeeEnabledFile(_) => s.app.ReadEnabled?
    case Mark(_) => s.app.MarkStopping?
    case Reread => s.app.StopReread?
    case RemoveEnabled(_) => s.app.StopRemove?
    case Unregister(_) => s.app.StopUnregister?
    case PollProbe => s.app.Poll?
    case PollEnd => s.app.Poll?
    case Fetch(answered) => s.app.FinalFetch? && (answered ==> s.alive != {})
    case TryLock => s.app.Probe?
    case Unlock => s.app.ProbeHeld?
    case TakeSnapshot(_) => s.app.Snapshot?
    case Validate(outcome) => s.app.Validating? && (outcome.HostStuck? ==> !t.hostStops)
    case RecordComplete(_) => s.app.WriteComplete?
    case GiveUp(_) => s.app.AttemptFailed?
    case Restore(_) => s.app.Restoring?
    case Relaunched(_) => s.app.Relaunching?
    case Open => s.app.Granted?
    case Crash(_) => true
  }

  predicate Enabled(t: Trust, s: State, step: Step) {
    match step
    case BySup(p, act) => SupEnabled(t, s, p, act)
    case ChildExit(p) => p in s.alive
    case ConfigRewrite(next) => !t.configStaysReadable || (s.config.Readable? && next.Readable?)
    case ByDesktop(act) => AppEnabled(t, s, act)
  }

  function Released(s: State, holder: Holder): Holder {
    if s.lock == holder then Nobody else s.lock
  }

  function At(s: State, p: Pid, pc: Supervisor): State {
    s.(sups := s.sups[p := pc])
  }

  /** `run_daemon_from_args`, one action of supervisor `p`. */
  function SupNext(t: Trust, s: State, p: Pid, act: SupAction): State
    requires SupEnabled(t, s, p, act)
  {
    match act
    case Start => At(s, p, Booting)
    case Read => At(s, p, if s.config.Readable? then Locking(s.config.supervisorId) else Exited)
    case TakeLock =>
      if s.lock.Nobody? then At(s, p, CheckEnabled(s.sups[p].id)).(lock := BySupervisor(p)) else At(s, p, Exited)
    case SeeEnabled => At(s, p, if s.enabled then CheckConfig(s.sups[p].id) else Exiting)
    case SeeConfig => At(s, p, if Current(s, s.sups[p].id) then Launching(s.sups[p].id) else Exiting)
    case Launch(ok) =>
      if ok then At(s, p, Watching(s.sups[p].id)).(alive := s.alive + {p}) else At(s, p, Backoff(s.sups[p].id))
    case NoticeStop => At(s, p, Stopping)
    case ChildGone => At(s, p, Backoff(s.sups[p].id))
    case BackoffStop => At(s, p, Exiting)
    case BackoffEnd => At(s, p, CheckEnabled(s.sups[p].id))
    case Reap(gone) => At(s, p, Exiting).(alive := if gone then s.alive - {p} else s.alive)
    case Leave => At(s, p, Exited).(lock := Released(s, BySupervisor(p)))
    case WaitFailed => At(s, p, Exiting)
    case Killed => At(s, p, Exited).(lock := Released(s, BySupervisor(p)))
  }

  /** `ensure_runtime_allowed`, `prepare_embedded_switch` and the functions it awaits, one action. */
  function AppNext(t: Trust, s: State, act: AppAction): State
    requires AppEnabled(t, s, act)
  {
    match act
    case Enter => s.(app := ReadRecord)
    case SeeRecord => s.(app := if s.record.Complete? || s.config.Missing? then Granted else ReadConfig)
    case SeeDaemonConfig => s.(app := if s.config.Readable? then ReadEnabled else Idle)
    case SeeEnabledFile(ok) => s.(app := if ok then MarkStopping(s.enabled) else Idle)
    case Mark(ok) =>
      if !ok then s.(app := Idle, record := NoRecord)
      else s.(record := StoppingLegacy, app := if s.app.prev then StopReread else Poll(false))
    case Reread => s.(app := if s.config.Readable? then StopRemove else Snapshot(true))
    case RemoveEnabled(ok) =>
      if ok || !s.enabled then s.(enabled := false, app := StopUnregister) else s.(app := AttemptFailed(true))
    case Unregister(ok) => s.(app := if ok then Poll(true) else AttemptFailed(true))
    case PollProbe => s.(app := Probe(s.app.prev, false))
    case PollEnd => s.(app := FinalFetch(s.app.prev))
    case Fetch(answered) => s.(app := if answered then AttemptFailed(s.app.prev) else Probe(s.app.prev, true))
    case TryLock =>
      if s.lock.Nobody? then s.(lock := ByApp, app := ProbeHeld(s.app.prev, s.app.final))
      else s.(app := if s.app.final then AttemptFailed(s.app.prev) else Poll(s.app.prev))
    case Unlock => s.(lock := Nobody, app := if s.app.final then Snapshot(s.app.prev) else Poll(s.app.prev))
    case TakeSnapshot(ok) =>
      if ok then s.(app := Validating(s.app.prev), writer := true) else s.(app := AttemptFailed(s.app.prev))
    case Validate(outcome) =>
      if outcome.HostOk? then s.(app := WriteComplete(s.app.prev), writer := false)
      else s.(app := AttemptFailed(s.app.prev), writer := outcome.HostStuck?)
    case RecordComplete(ok) =>
      if ok then s.(app := Granted, record := Complete) else s.(app := AttemptFailed(s.app.prev))
    case GiveUp(dataIntact) =>
      if s.app.prev && dataIntact then s.(app := Restoring) else s.(app := Idle, record := Failed)
    case Restore(ok) => if ok then s.(enabled := true, app := Relaunching) else s.(app := Idle, record := Failed)
    case Relaunched(ok) => s.(app := Idle, record := if ok then RolledBack else Failed)
    case Open => if s.enabled then s else s.(app := Running, writer := true)
    case Crash(recordLost) =>
      s.(app := Idle, writer := false, lock := Released(s, ByApp),
         record := if recordLost then NoRecord else s.record)
  }

  function Next(t: Trust, s: State, step: Step): State
    requires Enabled(t, s, step)
  {
    match step
    case BySup(p, act) => SupNext(t, s, p, act)
    case ChildExit(p) => s.(alive := s.alive - {p})
    case ConfigRewrite(next) => s.(config := next)
    case ByDesktop(act) => AppNext(t, s, act)
  }

  ghost predicate ValidRun(t: Trust, s: State, steps: seq<Step>)
    decreases |steps|
  {
    steps == [] || (Enabled(t, s, steps[0]) && ValidRun(t, Next(t, s, steps[0]), steps[1..]))
  }

  ghost function Final(t: Trust, s: State, steps: seq<Step>): State
    requires ValidRun(t, s, steps)
    decreases |steps|
  {
    if steps == [] then s else Final(t, Next(t, s, steps[0]), steps[1..])
  }

  /** Some run from start-up ends in `s`. */
  ghost predicate Reachable(t: Trust, s: State) {
    exists start, steps :: Init(start) && ValidRun(t, start, steps) && Final(t, start, steps) == s
  }

  /** At most one process writes the data directory. */
  ghost predicate OneWriter(s: State) {
    && (s.writer ==> s.alive == {})
    && (forall p, q :: p in s.alive && q in s.alive ==> p == q)
  }

  predicate HoldsLock(pc: Supervisor) {
    pc.CheckEnabled? || pc.CheckConfig? || pc.Launching? || pc.Watching? || pc.Backoff? || pc.Stopping? || pc.Exiting?
  }

  /** A supervisor from which a child runs or can still be spawned without a new look at `enabled`. */
  predicate Hot(pc: Supervisor) {
    pc.CheckConfig? || pc.Launching? || pc.Watching? || pc.Stopping?
  }

  /** No service child runs, and none can be spawned while nobody re-creates `enabled`. */
  ghost predicate Sealed(s: State) {
    && s.alive == {}
    && (forall p :: p in s.sups ==> !Hot(s.sups[p]))
    && (s.enabled ==> s.config.Missing? && forall p :: p in s.sups ==> !HoldsLock(s.sups[p]) && !s.sups[p].Locking?)
  }

  predicate ReEnables(step: Step) {
    step.ByDesktop? && step.appAct == Restore(true)
  }

  /** A supervisor holds the lock exactly from its acquisition to its exit. */
  ghost predicate LockHolders(s: State) {
    && (forall p :: p in s.sups ==> (HoldsLock(s.sups[p]) <==> s.lock == BySupervisor(p)))
    && (s.lock.BySupervisor? ==> s.lock.pid in s.sups)
    && (s.lock.ByApp? <==> s.app.ProbeHeld?)
  }

  /** A service child lives only under a supervisor that watches or stops it. */
  ghost predicate ChildrenWatched(s: State) {
    forall p :: p in s.alive ==> p in s.sups && (s.sups[p].Watching? || s.sups[p].Stopping?)
  }

  ghost predicate Phases(s: State) {
    && (!s.config.Readable? ==> forall p :: p in s.sups ==> s.sups[p].Booting? || s.sups[p].Exited?)
    && (PastRemoval(s.app) ==> !s.enabled)
    && (NeedsConfig(s.app) ==> s.config.Readable?)
    && (s.writer ==> s.app.Validating? || s.app.Running?)
  }

  predicate PastRemoval(app: App) {
    || app.StopUnregister? || app.Poll? || app.Probe? || app.ProbeHeld? || app.FinalFetch?
    || (app.MarkStopping? && !app.prev)
  }

  predicate MustBeSealed(app: App) {
    app.ProbeHeld? || app.Snapshot? || app.Validating? || app.WriteComplete? || app.Granted? || app.Running?
  }

  predicate MidAttempt(app: App) {
    app.ReadConfig? || app.ReadEnabled? || app.MarkStopping? || app.StopReread? || app.StopRemove? ||
    app.StopUnregister? || app.Poll? || app.Probe? || app.ProbeHeld? || app.FinalFetch? || app.Snapshot? ||
    app.Validating? || app.WriteComplete? || app.AttemptFailed? || app.Restoring? || app.Relaunching?
  }

  predicate NeedsConfig(app: App) {
    MidAttempt(app) && !app.ReadConfig?
  }

  ghost predicate Invariant(s: State) {
    && LockHolders(s)
    && ChildrenWatched(s)
    && Phases(s)
    && (MustBeSealed(s.app) ==> Sealed(s))
    && (s.record.Complete? ==> Sealed(s) && !MidAttempt(s.app))
  }

  predicate Trusting(t: Trust) {
    t.configStaysReadable && t.neverKilled && t.waitsSucceed && t.stopsSucceed && t.hostStops
  }

  lemma SupKeepsSeal(t: Trust, s: State, p: Pid, act: SupAction)
    requires Trusting(t) && Invariant(s) && SupEnabled(t, s, p, act) && Sealed(s)
    ensures Sealed(SupNext(t, s, p, act))
  {
  }

  /** Once sealed, every step of every process other than the switch's own restore keeps it sealed. */
  lemma SealedPersists(t: Trust, s: State, step: Step)
    requires Trusting(t) && Invariant(s) && Enabled(t, s, step) && Sealed(s) && !ReEnables(step)
    ensures Sealed(Next(t, s, step))
  {
    if step.BySup? {
      SupKeepsSeal(t, s, step.p, step.act);
    }
  }

  lemma SupKeepsLocks(t: Trust, s: State, p: Pid, act: SupAction)
    requires Trusting(t) && Invariant(s) && SupEnabled(t, s, p, act)
    ensures LockHolders(SupNext(t, s, p, act)) && ChildrenWatched(SupNext(t, s, p, act))
  {
  }

  lemma SupKeepsInvariant(t: Trust, s: State, p: Pid, act: SupAction)
    requires Trusting(t) && Invariant(s) && SupEnabled(t, s, p, act)
    ensures Invariant(SupNext(t, s, p, act))
  {
    SupKeepsLocks(t, s, p, act);
    if Sealed(s) {
      SupKeepsSeal(t, s, p, act);
    }
  }

  /** The probe wins the lock only when no supervisor is past its own lock acquisition. */
  lemma FreeLockSeals(s: State)
    requires Invariant(s) && s.lock.Nobody? && !s.enabled
    ensures Sealed(s)
  {
  }

  lemma NoConfigSeals(s: State)
    requires Invariant(s) && s.config.Missing?
    ensures Sealed(s)
  {
  }

  /** What a seal depends on. */
  lemma SealFrame(s: State, s': State)
    requires s'.sups == s.sups && s'.alive == s.alive && s'.config == s.config && (s'.enabled ==> s.enabled)
    ensures Sealed(s) ==> Sealed(s')
  {
  }

  /** Before the step the hand-over was sealed, or the step is the one that seals it. */
  lemma AppKeepsSeal(t: Trust, s: State, act: AppAction)
    requires Trusting(t) && Invariant(s) && AppEnabled(t, s, act)
    ensures var s' := AppNext(t, s, act);
      MustBeSealed(s'.app) || s'.record.Complete? ==> Sealed(s')
  {
    var s' := AppNext(t, s, act);
    if !act.Restore? {
      if act.TryLock? && s.lock.Nobody? {
        FreeLockSeals(s);
      } else if act.SeeRecord? && s.config.Missing? {
        NoConfigSeals(s);
      }
      SealFrame(s, s');
    }
  }

  lemma AppLeavesSups(t: Trust, s: State, act: AppAction)
    requires AppEnabled(t, s, act)
    ensures var s' := AppNext(t, s, act); s'.sups == s.sups && s'.alive == s.alive && s'.config == s.config
  {
  }

  lemma AppKeepsPhases(t: Trust, s: State, act: AppAction)
    requires Trusting(t) && Invariant(s) && AppEnabled(t, s, act)
    ensures Phases(AppNext(t, s, act))
    ensures var s' := AppNext(t, s, act); s'.record.Complete? ==> !MidAttempt(s'.app)
  {
    AppLeavesSups(t, s, act);
  }

  lemma AppKeepsLock(t: Trust, s: State, act: AppAction)
    requires LockHolders(s) && AppEnabled(t, s, act)
    ensures LockHolders(AppNext(t, s, act))
  {
    AppLeavesSups(t, s, act);
  }

  lemma AppKeepsInvariant(t: Trust, s: State, act: AppAction)
    requires Trusting(t) && Invariant(s) && AppEnabled(t, s, act)
    ensures Invariant(AppNext(t, s, act))
  {
    AppLeavesSups(t, s, act);
    AppKeepsSeal(t, s, act);
    AppKeepsPhases(t, s, act);
    AppKeepsLock(t, s, act);
  }

  /** Every step of every process keeps the invariant. */
  lemma StepKeepsInvariant(t: Trust, s: State, step: Step)
    requires Trusting(t) && Invariant(s) && Enabled(t, s, step)
    ensures Invariant(Next(t, s, step))
  {
    match step
    case BySup(p, act) => SupKeepsInvariant(t, s, p, act);
    case ByDesktop(act) => AppKeepsInvariant(t, s, act);
    case ChildExit(_) =>
    case ConfigRewrite(_) =>
  }

  lemma {:induction false} RunKeepsInvariant(t: Trust, s: State, steps: seq<Step>)
    requires Trusting(t) && Invariant(s) && ValidRun(t, s, steps)
    ensures Invariant(Final(t, s, steps))
    decreases |steps|
  {
    if steps == [] {
    } else {
      StepKeepsInvariant(t, s, steps[0]);
      RunKeepsInvariant(t, Next(t, s, steps[0]), steps[1..]);
    }
  }

  /**
  After the final probe has seen the lock free, no run in which the switch does not itself
  restore the daemon brings a service child back.
  */
  lemma {:induction false} SealedUntilRestored(t: Trust, s: State, steps: seq<Step>)
    requires Trusting(t) && Invariant(s) && Sealed(s) && ValidRun(t, s, steps)
    requires forall i :: 0 <= i < |steps| ==> !ReEnables(steps[i])
    ensures Sealed(Final(t, s, steps)) && Final(t, s, steps).alive == {}
    decreases |steps|
  {
    if steps == [] {
    } else {
      SealedPersists(t, s, steps[0]);
      StepKeepsInvariant(t, s, steps[0]);
      SealedUntilRestored(t, Next(t, s, steps[0]), steps[1..]);
    }
  }

  lemma ReachableInvariant(t: Trust, s: State)
    requires Trusting(t) && Reachable(t, s)
    ensures Invariant(s)
  {
    var start, steps :| Init(start) && ValidRun(t, start, steps) && Final(t, start, steps) == s;
    RunKeepsInvariant(t, start, steps);
  }

  /** The probe that finds the lock free seals the hand-over, whatever interleaved before it. */
  lemma ProbeSeals(t: Trust, s: State)
    requires Trusting(t) && Reachable(t, s) && s.app.ProbeHeld?
    ensures Sealed(s) && !s.enabled
  {
    ReachableInvariant(t, s);
  }

  // ---- The five assumptions are needed: one run for each that breaks the promise. ----

  lemma {:induction false} Append(t: Trust, start: State, steps: seq<Step>, step: Step)
    requires ValidRun(t, start, steps) && Enabled(t, Final(t, start, steps), step)
    ensures ValidRun(t, start, steps + [step])
    ensures Final(t, start, steps + [step]) == Next(t, Final(t, start, steps), step)
    decreases |steps|
  {
    var longer := steps + [step];
    if steps == [] {
      assert longer[1..] == [];
    } else {
      Append(t, Next(t, start, steps[0]), steps[1..], step);
      assert longer[1..] == steps[1..] + [step];
    }
  }

  lemma Go(t: Trust, s: State, step: Step, s': State)
    requires Reachable(t, s) && Enabled(t, s, step) && s' == Next(t, s, step)
    ensures Reachable(t, s')
  {
    var start, steps :| Init(start) && ValidRun(t, start, steps) && Final(t, start, steps) == s;
    Append(t, start, steps, step);
  }

  function Fresh(): State {
    State(true, Readable("a"), Nobody, NoRecord, map[], {}, Idle, false)
  }

  lemma FreshReachable(t: Trust)
    ensures Reachable(t, Fresh())
  {
    assert Init(Fresh()) && ValidRun(t, Fresh(), []) && Final(t, Fresh(), []) == Fresh();
  }

  /** A fresh supervisor brings the service up. */
  lemma BringUp(t: Trust, s: State) returns (s': State)
    requires Reachable(t, s) && s.enabled && s.config == Readable("a") && s.lock.Nobody? && s.sups == map[]
    ensures Reachable(t, s')
    ensures s' == s.(sups := map[0 := Watching("a")], alive := s.alive + {0}, lock := BySupervisor(0))
  {
    var s1 := At(s, 0, Booting);
    Go(t, s, BySup(0, Start), s1);
    var s2 := At(s1, 0, Locking("a"));
    Go(t, s1, BySup(0, Read), s2);
    var s3 := At(s2, 0, CheckEnabled("a")).(lock := BySupervisor(0));
    Go(t, s2, BySup(0, TakeLock), s3);
    s' := Launched(t, s3);
    assert s'.sups == map[0 := Watching("a")];
  }

  lemma Launched(t: Trust, s: State) returns (s': State)
    requires Reachable(t, s) && s.enabled && s.config == Readable("a") && 0 in s.sups && s.sups[0] == CheckEnabled("a")
    ensures Reachable(t, s') && s' == At(s, 0, Watching("a")).(alive := s.alive + {0})
  {
    var s1 := At(s, 0, CheckConfig("a"));
    Go(t, s, BySup(0, SeeEnabled), s1);
    var s2 := At(s1, 0, Launching("a"));
    Go(t, s1, BySup(0, SeeConfig), s2);
    s' := At(s2, 0, Watching("a")).(alive := s.alive + {0});
    Go(t, s2, BySup(0, Launch(true)), s');
    assert s'.sups == s.sups[0 := Watching("a")];
  }

  /** The application enters the switch and gets as far as re-reading the configuration. */
  lemma EnterSwitch(t: Trust, s: State) returns (s': State)
    requires Reachable(t, s) && s.enabled && s.config.Readable? && s.app.Idle? && !s.record.Complete?
    ensures Reachable(t, s') && s' == s.(app := StopReread, record := StoppingLegacy)
  {
    Go(t, s, ByDesktop(Enter), s.(app := ReadRecord));
    Go(t, s.(app := ReadRecord), ByDesktop(SeeRecord), s.(app := ReadConfig));
    Go(t, s.(app := ReadConfig), ByDesktop(SeeDaemonConfig), s.(app := ReadEnabled));
    Go(t, s.(app := ReadEnabled), ByDesktop(SeeEnabledFile(true)), s.(app := MarkStopping(true)));
    s' := s.(app := StopReread, record := StoppingLegacy);
    Go(t, s.(app := MarkStopping(true)), ByDesktop(Mark(true)), s');
  }

  lemma ReachProbe(t: Trust, s: State) returns (s': State)
    requires Reachable(t, s) && s.config.Readable? && s.app.StopReread?
    ensures Reachable(t, s') && s' == s.(app := Probe(true, true), enabled := false)
  {
    Go(t, s, ByDesktop(Reread), s.(app := StopRemove));
    var off := s.(app := StopUnregister, enabled := false);
    Go(t, s.(app := StopRemove), ByDesktop(RemoveEnabled(true)), off);
    Go(t, off, ByDesktop(Unregister(true)), off.(app := Poll(true)));
    Go(t, off.(app := Poll(true)), ByDesktop(PollEnd), off.(app := FinalFetch(true)));
    s' := off.(app := Probe(true, true));
    Go(t, off.(app := FinalFetch(true)), ByDesktop(Fetch(false)), s');
  }

  /** With the lock free and nothing answering, the switch reaches validation. */
  lemma ReachValidation(t: Trust, s: State) returns (s': State)
    requires Reachable(t, s) && s.config.Readable? && s.app.StopReread? && s.lock.Nobody?
    ensures Reachable(t, s') && s' == s.(app := Validating(true), enabled := false, writer := true)
  {
    var off := ReachProbe(t, s);
    s' := PassProbe(t, off);
  }

  lemma PassProbe(t: Trust, s: State) returns (s': State)
    requires Reachable(t, s) && s.app == Probe(true, true) && s.lock.Nobody?
    ensures Reachable(t, s') && s' == s.(app := Validating(true), writer := true)
  {
    Go(t, s, ByDesktop(TryLock), s.(app := ProbeHeld(true, true), lock := ByApp));
    Go(t, s.(app := ProbeHeld(true, true), lock := ByApp), ByDesktop(Unlock), s.(app := Snapshot(true)));
    s' := s.(app := Validating(true), writer := true);
    Go(t, s.(app := Snapshot(true)), ByDesktop(TakeSnapshot(true)), s');
  }

  /** A supervisor that finds `enabled` gone stops its child and lets go of the lock. */
  lemma WindDown(t: Trust, s: State) returns (s': State)
    requires Reachable(t, s) && !s.enabled && s.sups == map[0 := Watching("a")] && s.lock == BySupervisor(0)
    ensures Reachable(t, s') && s' == s.(sups := map[0 := Exited], alive := s.alive - {0}, lock := Nobody)
  {
    var s1 := At(s, 0, Stopping);
    Go(t, s, BySup(0, NoticeStop), s1);
    var s2 := At(s1, 0, Exiting).(alive := s.alive - {0});
    Go(t, s1, BySup(0, Reap(true)), s2);
    s' := At(s2, 0, Exited).(lock := Nobody);
    Go(t, s2, BySup(0, Leave), s');
    assert s'.sups == map[0 := Exited];
  }

  /** The hand-over does happen: from a daemon that serves to a running embedded host. */
  lemma HandOverPossible(t: Trust) returns (before: State, after: State)
    ensures Reachable(t, before) && before.alive == {0} && before.enabled
    ensures Reachable(t, after) && after.app.Running? && after.writer && after.record.Complete? && OneWriter(after)
  {
    FreshReachable(t);
    before := BringUp(t, Fresh());
    var s := EnterSwitch(t, before);
    s := ReachProbe(t, s);
    s := WindDown(t, s);
    s := PassProbe(t, s);
    after := OpenHost(t, s);
  }

  lemma OpenHost(t: Trust, s: State) returns (s': State)
    requires Reachable(t, s) && s.app == Validating(true) && !s.enabled
    ensures Reachable(t, s') && s' == s.(app := Running, record := Complete, writer := true)
  {
    var checked := s.(app := WriteComplete(true), writer := false);
    Go(t, s, ByDesktop(Validate(HostOk)), checked);
    var granted := checked.(app := Granted, record := Complete);
    Go(t, checked, ByDesktop(RecordComplete(true)), granted);
    s' := granted.(app := Running, writer := true);
    Go(t, granted, ByDesktop(Open), s');
  }

  /** `stop_legacy_service` reports success without stopping anything when its own read of `daemon.json` fails. */
  lemma UnreadableConfigBreaksIt(t: Trust) returns (s: State)
    requires !t.configStaysReadable
    ensures Reachable(t, s) && !OneWriter(s)
  {
    FreshReachable(t);
    s := BringUp(t, Fresh());
    s := EnterSwitch(t, s);
    var lost := s.(config := Unreadable);
    Go(t, s, ConfigRewrite(Unreadable), lost);
    Go(t, lost, ByDesktop(Reread), lost.(app := Snapshot(true)));
    s := lost.(app := Validating(true), writer := true);
    Go(t, lost.(app := Snapshot(true)), ByDesktop(TakeSnapshot(true)), s);
    assert 0 in s.alive;
  }

  /** With the lock free again and a silent child still alive, the switch opens the data directory beside it. */
  lemma OrphanBreaksIt(t: Trust, orphaned: State) returns (s: State)
    requires Reachable(t, orphaned) && orphaned.alive != {} && orphaned.lock.Nobody?
    requires orphaned.enabled && orphaned.config.Readable? && orphaned.app.Idle? && !orphaned.record.Complete?
    ensures Reachable(t, s) && !OneWriter(s)
  {
    s := EnterSwitch(t, orphaned);
    s := ReachValidation(t, s);
  }

  /** A killed supervisor frees the lock while its child lives on. */
  lemma KilledBreaksIt(t: Trust) returns (s: State)
    requires !t.neverKilled
    ensures Reachable(t, s) && !OneWriter(s)
  {
    FreshReachable(t);
    s := BringUp(t, Fresh());
    var orphaned := s.(sups := map[0 := Exited], lock := Nobody);
    Go(t, s, BySup(0, Killed), orphaned);
    assert 0 in orphaned.alive;
    s := OrphanBreaksIt(t, orphaned);
  }

  /** So does a supervisor that gives up because it cannot wait for its child. */
  lemma FailedWaitBreaksIt(t: Trust) returns (s: State)
    requires !t.waitsSucceed
    ensures Reachable(t, s) && !OneWriter(s)
  {
    FreshReachable(t);
    s := BringUp(t, Fresh());
    var leaving := s.(sups := map[0 := Exiting]);
    Go(t, s, BySup(0, WaitFailed), leaving);
    var orphaned := leaving.(sups := map[0 := Exited], lock := Nobody);
    Go(t, leaving, BySup(0, Leave), orphaned);
    assert 0 in orphaned.alive;
    s := OrphanBreaksIt(t, orphaned);
  }

  /** And one that ignores that it could not stop its child. */
  lemma FailedStopBreaksIt(t: Trust) returns (s: State)
    requires !t.stopsSucceed
    ensures Reachable(t, s) && !OneWriter(s)
  {
    FreshReachable(t);
    s := BringUp(t, Fresh());
    s := EnterSwitch(t, s);
    s := ReachProbe(t, s);
    s := LeaveChild(t, s);
    s := PassProbe(t, s);
    assert 0 in s.alive;
  }

  lemma LeaveChild(t: Trust, s: State) returns (s': State)
    requires !t.stopsSucceed && Reachable(t, s) && !s.enabled && s.sups == map[0 := Watching("a")]
    requires s.lock == BySupervisor(0)
    ensures Reachable(t, s') && s' == s.(sups := map[0 := Exited], lock := Nobody)
  {
    var s1 := At(s, 0, Stopping);
    Go(t, s, BySup(0, NoticeStop), s1);
    var s2 := At(s1, 0, Exiting);
    Go(t, s1, BySup(0, Reap(false)), s2);
    s' := At(s2, 0, Exited).(lock := Nobody);
    Go(t, s2, BySup(0, Leave), s');
    assert s'.sups == map[0 := Exited];
  }

  /** A validation host that does not shut down is still open when the daemon is restored. */
  lemma StuckHostBreaksIt(t: Trust) returns (s: State)
    requires !t.hostStops
    ensures Reachable(t, s) && !OneWriter(s)
  {
    FreshReachable(t);
    s := EnterSwitch(t, Fresh());
    s := ReachValidation(t, s);
    Go(t, s, ByDesktop(Validate(HostStuck)), s.(app := AttemptFailed(true)));
    Go(t, s.(app := AttemptFailed(true)), ByDesktop(GiveUp(true)), s.(app := Restoring));
    var back := s.(app := Relaunching, enabled := true);
    Go(t, s.(app := Restoring), ByDesktop(Restore(true)), back);
    s := BringUp(t, back);
    assert 0 in s.alive;
  }

  /** The one-writer promise holds in every reachable state exactly when all five assumptions do. */
  lemma OneWriterExactly(t: Trust)
    ensures (forall s :: Reachable(t, s) ==> OneWriter(s)) <==> Trusting(t)
  {
    if Trusting(t) {
      forall s | Reachable(t, s)
        ensures OneWriter(s)
      {
        ReachableInvariant(t, s);
      }
    } else if !t.configStaysReadable {
      var s := UnreadableConfigBreaksIt(t);
    } else if !t.neverKilled {
      var s := KilledBreaksIt(t);
    } else if !t.waitsSucceed {
      var s := FailedWaitBreaksIt(t);
    } else if !t.stopsSucceed {
      var s := FailedStopBreaksIt(t);
    } else {
      var s := StuckHostBreaksIt(t);
    }
  }
}
