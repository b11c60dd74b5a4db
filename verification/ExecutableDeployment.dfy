/**
Replacing the service executable: stage, activate, then commit or roll back.

Every file operation may fail, and the machine may stop after any of them or in the
middle of a copy.  `Disk.history` records every content of the directory at which the
run may be cut; each operation promises something about all of them.
*/
module ExecutableDeployment {
  import opened Options

  type Path = string
  type Content = seq<nat>
  type Files = map<Path, Content>

  function Get(files: Files, p: Path): Option<Content> {
    if p in files then Some(files[p]) else None
  }

  function Staged(target: Path): Path { target + ".stage" }

  function Backup(target: Path): Path { target + ".rollback" }

  lemma SiblingsDiffer(target: Path)
    ensures Staged(target) != target && Backup(target) != target && Staged(target) != Backup(target)
  {
    assert |Staged(target)| == |target| + 6 && |Backup(target)| == |target| + 9;
  }

  /** Whoever writes the three deployment files never writes `source`. */
  predicate Apart(source: Path, target: Path) {
    source != target && source != Staged(target) && source != Backup(target)
  }

  /**
  What a cut run may leave: either the target is settled on the old or the new binary and
  there is no rollback file, or the rollback file is the complete old binary and the target is
  missing or the complete new binary.
  */
  predicate Recoverable(files: Files, target: Path, old': Option<Content>, new': Content) {
    var t, b := Get(files, target), Get(files, Backup(target));
    || (b.None? && (t == old' || t == Some(new')))
    || (old'.Some? && b == old' && (t.None? || t == Some(new')))
  }

  ghost predicate AllRecoverable(h: seq<Files>, target: Path, old': Option<Content>, new': Content) {
    forall i :: 0 <= i < |h| ==> Recoverable(h[i], target, old', new')
  }

  lemma JoinRecoverable(h: seq<Files>, i: nat, j: nat, target: Path, old': Option<Content>, new': Content)
    requires i <= j <= |h|
    requires AllRecoverable(h[i..j], target, old', new') && AllRecoverable(h[j..], target, old', new')
    ensures AllRecoverable(h[i..], target, old', new')
  {
    assert h[i..] == h[i..j] + h[j..];
  }

  /** The binary the recovery at the head of `stage_executable` settles on. */
  function Recovered(files: Files, source: Path, target: Path): Option<Content> {
    if Backup(target) !in files then Get(files, target)
    else if target in files && Get(files, target) == Get(files, source) then Get(files, target)
    else Get(files, Backup(target))
  }

  lemma RecoveredIsOldOrNew(files: Files, source: Path, target: Path, old': Option<Content>, new': Content)
    requires Recoverable(files, target, old', new')
    ensures Recovered(files, source, target) in {old', Some(new')}
    ensures old'.Some? ==> Recovered(files, source, target).Some?
  {
  }

  /** The binary `c`, if there is one, is complete at the target or in the rollback file. */
  predicate Keeps(files: Files, target: Path, c: Option<Content>) {
    c.Some? ==> Get(files, target) == c || Get(files, Backup(target)) == c
  }

  ghost predicate AllKeep(h: seq<Files>, target: Path, c: Option<Content>) {
    forall i :: 0 <= i < |h| ==> Keeps(h[i], target, c)
  }

  lemma JoinKeep(h: seq<Files>, i: nat, j: nat, target: Path, c: Option<Content>)
    requires i <= j <= |h| && AllKeep(h[i..j], target, c) && AllKeep(h[j..], target, c)
    ensures AllKeep(h[i..], target, c)
  {
    assert h[i..] == h[i..j] + h[j..];
  }

  /** The target is never the binary `c`. */
  ghost predicate NeverAt(h: seq<Files>, target: Path, c: Content) {
    forall i :: 0 <= i < |h| ==> Get(h[i], target) != Some(c)
  }

  lemma JoinNever(h: seq<Files>, i: nat, j: nat, target: Path, c: Content)
    requires i <= j <= |h| && NeverAt(h[i..j], target, c) && NeverAt(h[j..], target, c)
    ensures NeverAt(h[i..], target, c)
  {
    assert h[i..] == h[i..j] + h[j..];
  }

  /** The two directories differ at most at `p`. */
  ghost predicate DifferOnlyAt(p: Path, before: Files, after: Files) {
    forall q :: q != p ==> Get(before, q) == Get(after, q)
  }

  class Disk {
    var files: Files
    var history: seq<Files>

    constructor (initial: Files)
      ensures files == initial && history == []
    {
      files := initial;
      history := [];
    }

    method Rename(from: Path, to: Path) returns (ok: bool)
      requires from != to
      modifies this
      ensures ok ==> from in old(files) && files == old(files)[to := old(files)[from]] - {from}
      ensures !ok ==> files == old(files)
      ensures history == old(history) + [files]
    {
      ok := *;
      ok := ok && from in files;
      if ok {
        files := files[to := files[from]] - {from};
      }
      history := history + [files];
    }

    method Remove(p: Path) returns (ok: bool)
      modifies this
      ensures ok ==> files == old(files) - {p}
      ensures DifferOnlyAt(p, old(files), files)
      ensures !ok ==> files == old(files)
      ensures history == old(history) + [files]
    {
      ok := *;
      ok := ok && p in files;
      if ok {
        files := files - {p};
      }
      history := history + [files];
    }

    /** A copy may stop anywhere and may leave anything in `to`, whatever it reports. */
    method Copy(from: Path, to: Path) returns (ok: bool)
      requires from != to
      modifies this
      ensures DifferOnlyAt(to, old(files), files)
      ensures ok ==> to in files
      ensures |old(history)| <= |history| && history[..|old(history)|] == old(history)
      ensures forall i :: |old(history)| <= i < |history| ==> DifferOnlyAt(to, old(files), history[i])
    {
      ok := *;
      ok := ok && from in files;
      var started: bool := *;
      if ok || started {
        var partial: Content := *;
        files := files[to := partial];
        history := history + [files];
        var written: Content := *;
        files := files[to := written];
      }
      history := history + [files];
    }

    method FilesEqual(left: Path, right: Path) returns (r: Option<bool>)
      ensures r.Some? ==> left in files && right in files && r.value == (files[left] == files[right])
    {
      var readable: bool := *;
      if readable && left in files && right in files {
        r := Some(files[left] == files[right]);
      } else {
        r := None;
      }
    }
  }

  datatype StageResult = StageFailed | UpToDate | Ready(deployment: Deployment)

  /** The recovery at the head of `stage_executable`. */
  method Recover(disk: Disk, source: Path, target: Path, ghost old': Option<Content>, ghost new': Content)
    returns (ok: bool)
    requires Apart(source, target)
    requires Recoverable(disk.files, target, old', new')
    modifies disk
    ensures Get(disk.files, source) == old(Get(disk.files, source))
    ensures Recoverable(disk.files, target, old', new')
    ensures |old(disk.history)| <= |disk.history| && disk.history[..|old(disk.history)|] == old(disk.history)
    ensures AllRecoverable(disk.history[|old(disk.history)|..], target, old', new')
    ensures ok ==> Backup(target) !in disk.files
    ensures ok ==> Get(disk.files, target) == Recovered(old(disk.files), source, target)
    ensures AllKeep(disk.history[|old(disk.history)|..], target, Recovered(old(disk.files), source, target))
    ensures Keeps(disk.files, target, Recovered(old(disk.files), source, target))
  {
    SiblingsDiffer(target);
    ok := true;
    if Backup(target) in disk.files {
      if target !in disk.files {
        ok := disk.Rename(Backup(target), target);
      } else {
        var same := disk.FilesEqual(source, target);
        if same.None? {
          ok := false;
        } else if same.value {
          ok := disk.Remove(Backup(target));
        } else {
          ok := disk.Remove(target);
          if ok {
            ok := disk.Rename(Backup(target), target);
          }
        }
      }
    }
  }

  method StageExecutable(disk: Disk, source: Path, target: Path, ghost old': Option<Content>, ghost new': Content)
    returns (r: StageResult)
    requires Apart(source, target)
    requires Recoverable(disk.files, target, old', new')
    modifies disk
    ensures Get(disk.files, source) == old(Get(disk.files, source))
    ensures Recoverable(disk.files, target, old', new')
    ensures |old(disk.history)| <= |disk.history| && disk.history[..|old(disk.history)|] == old(disk.history)
    ensures AllRecoverable(disk.history[|old(disk.history)|..], target, old', new')
    ensures !r.StageFailed? ==> Backup(target) !in disk.files && source in disk.files
    ensures !r.StageFailed? ==> Get(disk.files, target) == Recovered(old(disk.files), source, target)
    ensures AllKeep(disk.history[|old(disk.history)|..], target, Recovered(old(disk.files), source, target))
    ensures Keeps(disk.files, target, Recovered(old(disk.files), source, target))
    ensures r.UpToDate? ==> Get(disk.files, target) == Get(disk.files, source)
    ensures r.Ready? ==> Get(disk.files, target) != Get(disk.files, source)
    ensures r.Ready? ==> fresh(r.deployment) && r.deployment.disk == disk && r.deployment.target == target
    ensures r.Ready? ==> !r.deployment.activated && r.deployment.hadTarget == (target in disk.files)
    ensures r.Ready? ==> Get(disk.files, Staged(target)) == Get(disk.files, source)
  {
    SiblingsDiffer(target);
    r := StageFailed;
    var ok := Recover(disk, source, target, old', new');
    if !ok {
      return;
    }
    if target in disk.files {
      var same := disk.FilesEqual(source, target);
      if same.None? {
        return;
      }
      if same.value {
        return UpToDate;
      }
    }
    ghost var before, middle := old(disk.history), disk.history;
    ok := CopyToStage(disk, source, target, old', new', Recovered(old(disk.files), source, target));
    assert disk.history[|before|..|middle|] == middle[|before|..];
    JoinRecoverable(disk.history, |before|, |middle|, target, old', new');
    JoinKeep(disk.history, |before|, |middle|, target, Recovered(old(disk.files), source, target));
    if ok {
      var d := new Deployment(disk, target, target in disk.files);
      r := Ready(d);
    }
  }

  /** The second half of `stage_executable`: succeeds only with a complete staged copy. */
  method CopyToStage(disk: Disk, source: Path, target: Path, ghost old': Option<Content>, ghost new': Content,
                     ghost kept: Option<Content>)
    returns (ok: bool)
    requires Apart(source, target)
    requires Recoverable(disk.files, target, old', new') && Keeps(disk.files, target, kept)
    modifies disk
    ensures DifferOnlyAt(Staged(target), old(disk.files), disk.files)
    ensures |old(disk.history)| <= |disk.history| && disk.history[..|old(disk.history)|] == old(disk.history)
    ensures AllRecoverable(disk.history[|old(disk.history)|..], target, old', new')
    ensures AllKeep(disk.history[|old(disk.history)|..], target, kept) && Keeps(disk.files, target, kept)
    ensures ok ==> source in disk.files && Get(disk.files, Staged(target)) == Get(disk.files, source)
  {
    SiblingsDiffer(target);
    ok := WriteStage(disk, source, target);
    StagedOnlyRecoverable(disk.history, |old(disk.history)|, old(disk.files), target, old', new');
    StagedOnlyKeeps(disk.history, |old(disk.history)|, old(disk.files), target, kept);
  }

  /** Every directory of the history from `n` on differs from `files` at most at `p`. */
  ghost predicate StaysElsewhere(h: seq<Files>, n: nat, p: Path, files: Files) {
    forall i :: n <= i < |h| ==> DifferOnlyAt(p, files, h[i])
  }

  lemma StagedOnlyRecoverable(h: seq<Files>, n: nat, files: Files, target: Path, old': Option<Content>, new': Content)
    requires n <= |h| && StaysElsewhere(h, n, Staged(target), files) && Recoverable(files, target, old', new')
    ensures AllRecoverable(h[n..], target, old', new')
  {
    SiblingsDiffer(target);
    forall i | 0 <= i < |h[n..]|
      ensures Recoverable(h[n..][i], target, old', new')
    {
      assert DifferOnlyAt(Staged(target), files, h[n + i]);
    }
  }

  lemma StagedOnlyKeeps(h: seq<Files>, n: nat, files: Files, target: Path, c: Option<Content>)
    requires n <= |h| && StaysElsewhere(h, n, Staged(target), files) && Keeps(files, target, c)
    ensures AllKeep(h[n..], target, c)
  {
    SiblingsDiffer(target);
    forall i | 0 <= i < |h[n..]|
      ensures Keeps(h[n..][i], target, c)
    {
      assert DifferOnlyAt(Staged(target), files, h[n + i]);
    }
  }

  method WriteStage(disk: Disk, source: Path, target: Path) returns (ok: bool)
    requires Apart(source, target)
    modifies disk
    ensures DifferOnlyAt(Staged(target), old(disk.files), disk.files)
    ensures |old(disk.history)| <= |disk.history| && disk.history[..|old(disk.history)|] == old(disk.history)
    ensures StaysElsewhere(disk.history, |old(disk.history)|, Staged(target), old(disk.files))
    ensures ok ==> source in disk.files && Get(disk.files, Staged(target)) == Get(disk.files, source)
  {
    if Staged(target) in disk.files {
      ok := disk.Remove(Staged(target));
      if !ok {
        return;
      }
    }
    ok := disk.Copy(source, Staged(target));
    if !ok {
      return;
    }
    var same := disk.FilesEqual(source, Staged(target));
    ok := same == Some(true);
    if !ok {
      var _ := disk.Remove(Staged(target));
    }
  }

  class Deployment {
    const disk: Disk
    const target: Path
    const hadTarget: bool
    var activated: bool

    constructor (disk: Disk, target: Path, hadTarget: bool)
      ensures this.disk == disk && this.target == target && this.hadTarget == hadTarget && !activated
    {
      this.disk, this.target, this.hadTarget, this.activated := disk, target, hadTarget, false;
    }

    /** The target is `old'`, the staged file `new'`. */
    ghost predicate Prepared(old': Option<Content>, new': Content)
      reads this, disk
    {
      && !activated
      && hadTarget == old'.Some?
      && Get(disk.files, target) == old'
      && Get(disk.files, Staged(target)) == Some(new')
    }

    /** `new'` is in place (or already removed again) and `old'` is kept beside it. */
    ghost predicate Switched(old': Option<Content>, new': Content)
      reads this, disk
    {
      && hadTarget == old'.Some?
      && Get(disk.files, Backup(target)) == old'
      && Get(disk.files, target) in {None, Some(new')}
    }

    method Activate(ghost old': Option<Content>, ghost new': Content) returns (ok: bool)
      requires Prepared(old', new')
      modifies this, disk
      ensures |old(disk.history)| <= |disk.history| && disk.history[..|old(disk.history)|] == old(disk.history)
      ensures AllRecoverable(disk.history[|old(disk.history)|..], target, old', new')
      ensures old(Backup(target) in disk.files) ==> !ok && disk.files == old(disk.files)
      ensures old(Backup(target) !in disk.files) ==> Recoverable(disk.files, target, old', new')
      ensures ok == activated
      ensures ok ==> Switched(old', new') && Get(disk.files, target) == Some(new')
      ensures !ok ==> Get(disk.files, target) == old' || (old'.Some? && Get(disk.files, Backup(target)) == old')
      ensures AllKeep(disk.history[|old(disk.history)|..], target, old')
      ensures !ok && old' != Some(new') ==> NeverAt(disk.history[|old(disk.history)|..], target, new')
      ensures !ok && old' != Some(new') ==> Get(disk.files, target) != Some(new')
      ensures DifferAtMost(target, old(disk.files), disk.files)
    {
      SiblingsDiffer(target);
      ok := Backup(target) !in disk.files;
      if ok && hadTarget {
        ok := disk.Rename(target, Backup(target));
      }
      if ok {
        ok := disk.Rename(Staged(target), target);
        if ok {
          activated := true;
        } else if hadTarget {
          var _ := disk.Rename(Backup(target), target);
        }
      }
    }

    method Rollback(ghost old': Option<Content>, ghost new': Content) returns (ok: bool)
      requires Recoverable(disk.files, target, old', new')
      requires activated ==> Switched(old', new')
      modifies this, disk
      ensures |old(disk.history)| <= |disk.history| && disk.history[..|old(disk.history)|] == old(disk.history)
      ensures AllRecoverable(disk.history[|old(disk.history)|..], target, old', new')
      ensures Recoverable(disk.files, target, old', new')
      ensures activated == (old(activated) && !ok)
      ensures activated ==> Switched(old', new')
      ensures ok && old(activated) ==> Get(disk.files, target) == old' && Backup(target) !in disk.files
      ensures !old(activated) ==> DifferOnlyAt(Staged(target), old(disk.files), disk.files)
      ensures ok && !old(activated) ==> Staged(target) !in disk.files
      ensures old(Keeps(disk.files, target, old')) ==>
        AllKeep(disk.history[|old(disk.history)|..], target, old') && Keeps(disk.files, target, old')
      ensures !old(activated) && old(Get(disk.files, target)) != Some(new') ==>
        NeverAt(disk.history[|old(disk.history)|..], target, new')
      ensures DifferAtMost(target, old(disk.files), disk.files)
    {
      SiblingsDiffer(target);
      ok := true;
      if !activated {
        if Staged(target) in disk.files {
          ok := disk.Remove(Staged(target));
        }
        return;
      }
      if target in disk.files {
        ok := disk.Remove(target);
      }
      if ok && hadTarget {
        ok := disk.Rename(Backup(target), target);
      }
      if ok {
        activated := false;
      }
    }

    method Commit(ghost old': Option<Content>, ghost new': Content) returns (ok: bool)
      requires Switched(old', new') && Get(disk.files, target) == Some(new')
      modifies this, disk
      ensures |old(disk.history)| <= |disk.history| && disk.history[..|old(disk.history)|] == old(disk.history)
      ensures AllRecoverable(disk.history[|old(disk.history)|..], target, old', new')
      ensures Recoverable(disk.files, target, old', new') && Get(disk.files, target) == Some(new')
      ensures ok ==> Backup(target) !in disk.files && Staged(target) !in disk.files && !activated
      ensures DifferAtMost(target, old(disk.files), disk.files)
    {
      SiblingsDiffer(target);
      ok := true;
      if Staged(target) in disk.files {
        ok := disk.Remove(Staged(target));
      }
      if ok && Backup(target) in disk.files {
        ok := disk.Remove(Backup(target));
      }
      if ok {
        activated := false;
      }
    }
  }

  /** Nothing but the three deployment files is touched. */
  ghost predicate DifferAtMost(target: Path, before: Files, after: Files) {
    forall q :: q != target && q != Staged(target) && q != Backup(target) ==> Get(before, q) == Get(after, q)
  }

  /** Both binaries of a deployment are complete known ones; `had` demands that there is an old one. */
  ghost predicate Known(old': Option<Content>, new': Content, known: set<Content>, had: bool) {
    new' in known && (had ==> old'.Some?) && (old'.Some? ==> old'.value in known)
  }

  /** The directory is in a state some cut run between two known binaries may leave. */
  ghost predicate Held(files: Files, target: Path, known: set<Content>, had: bool) {
    exists old': Option<Content>, new': Content ::
      Known(old', new', known, had) && Recoverable(files, target, old', new')
  }

  ghost predicate AllHeld(h: seq<Files>, target: Path, known: set<Content>, had: bool) {
    forall i :: 0 <= i < |h| ==> Held(h[i], target, known, had)
  }

  /** Whatever later source is staged, recovery settles on a complete known binary and loses none. */
  lemma HeldRecovers(files: Files, source: Path, target: Path, known: set<Content>, had: bool)
    requires Held(files, target, known, had)
    ensures var r := Recovered(files, source, target); (had ==> r.Some?) && (r.Some? ==> r.value in known)
  {
    var old': Option<Content>, new': Content :|
      Known(old', new', known, had) && Recoverable(files, target, old', new');
    RecoveredIsOldOrNew(files, source, target, old', new');
  }

  lemma RecoverableHeld(h: seq<Files>, target: Path, old': Option<Content>, new': Content, known: set<Content>, had: bool)
    requires AllRecoverable(h, target, old', new') && Known(old', new', known, had)
    ensures AllHeld(h, target, known, had)
  {
  }

  /** How an update attempt ends. */
  datatype Outcome = NotStaged | AlreadyCurrent | NotActivated | Updated | RolledBack | Unsettled

  /** What the caller of a prepared deployment may rely on. */
  ghost predicate Settled(r: Outcome, healthy: bool, files: Files, h: seq<Files>, target: Path, old': Option<Content>, new': Content)
  {
    && !r.NotStaged? && !r.AlreadyCurrent?
    && (r.Updated? ==> healthy && Get(files, target) == Some(new'))
    && (r.RolledBack? ==> !healthy && Get(files, target) == old' && Backup(target) !in files)
    && (r.Unsettled? ==> !healthy)
    && (r.NotActivated? && old' != Some(new') ==> NeverAt(h, target, new') && Get(files, target) != Some(new'))
    && (!r.Updated? ==> AllKeep(h, target, old') && Keeps(files, target, old'))
  }

  /** After the activation: commit once the service answers; otherwise roll back, but only when its supervisor has stopped. */
  method Finish(d: Deployment, healthy: bool, stopped: bool, ghost old': Option<Content>, ghost new': Content,
                ghost known: set<Content>, ghost had: bool)
    returns (r: Outcome)
    requires d.Prepared(old', new') && Backup(d.target) !in d.disk.files && Known(old', new', known, had)
    modifies d, d.disk
    ensures |old(d.disk.history)| <= |d.disk.history| && d.disk.history[..|old(d.disk.history)|] == old(d.disk.history)
    ensures AllHeld(d.disk.history[|old(d.disk.history)|..], d.target, known, had)
    ensures Held(d.disk.files, d.target, known, had)
    ensures Settled(r, healthy, d.disk.files, d.disk.history[|old(d.disk.history)|..], d.target, old', new')
    ensures DifferAtMost(d.target, old(d.disk.files), d.disk.files)
  {
    ghost var start := |d.disk.history|;
    var active := d.Activate(old', new');
    ghost var middle := |d.disk.history|;
    ghost var atMiddle := d.disk.history;
    if active && healthy {
      var _ := d.Commit(old', new');
      r := Updated;
    } else {
      r := if active then Unsettled else NotActivated;
      if stopped {
        var ok := d.Rollback(old', new');
        assert d.disk.history[start..middle] == atMiddle[start..];
        JoinKeep(d.disk.history, start, middle, d.target, old');
        if active && ok {
          r := RolledBack;
        } else if !active && old' != Some(new') {
          JoinNever(d.disk.history, start, middle, d.target, new');
        }
      }
    }
    RecoverableHeld(d.disk.history[start..], d.target, old', new', known, had);
  }

  /**
  One update attempt as `local_service_enable` drives it.  `healthy` says that everything after the activation went
  well and the service answered in time, `stopped` that its supervisor could be stopped for a rollback.
  */
  method Deploy(disk: Disk, source: Path, target: Path, healthy: bool, stopped: bool, ghost known: set<Content>, ghost had: bool)
    returns (r: Outcome)
    requires Apart(source, target)
    requires Held(disk.files, target, known, had)
    requires source in disk.files ==> disk.files[source] in known
    modifies disk
    ensures |old(disk.history)| <= |disk.history| && disk.history[..|old(disk.history)|] == old(disk.history)
    ensures AllHeld(disk.history[|old(disk.history)|..], target, known, had)
    ensures Held(disk.files, target, known, had)
    ensures r.Updated? ==> healthy
    ensures r.Updated? || r.AlreadyCurrent? ==> source in old(disk.files) && Get(disk.files, target) == old(Get(disk.files, source))
    ensures r.RolledBack? ==> !healthy && Backup(target) !in disk.files
    ensures r.RolledBack? ==> Get(disk.files, target) == Recovered(old(disk.files), source, target)
    ensures r.Unsettled? ==> !healthy
    ensures r.NotActivated? ==> Get(disk.files, target) != old(Get(disk.files, source))
    ensures !r.Updated? ==> AllKeep(disk.history[|old(disk.history)|..], target, Recovered(old(disk.files), source, target))
    ensures !r.Updated? ==> Keeps(disk.files, target, Recovered(old(disk.files), source, target))
  {
    ghost var start := |disk.history|;
    ghost var old': Option<Content>, new': Content :|
      Known(old', new', known, had) && Recoverable(disk.files, target, old', new');
    ghost var before := disk.files;
    var staged := StageExecutable(disk, source, target, old', new');
    RecoverableHeld(disk.history[start..], target, old', new', known, had);
    r := if staged.UpToDate? then AlreadyCurrent else NotStaged;
    if staged.Ready? {
      HeldRecovers(before, source, target, known, had);
      ghost var atStage, middle := disk.history, |disk.history|;
      r := Finish(staged.deployment, healthy, stopped, Get(disk.files, target), disk.files[source], known, had);
      assert disk.history[start..middle] == atStage[start..];
      JoinHeld(disk.history, start, middle, target, known, had);
      if !r.Updated? {
        JoinKeep(disk.history, start, middle, target, Recovered(before, source, target));
      }
    }
  }

  lemma JoinHeld(h: seq<Files>, i: nat, j: nat, target: Path, known: set<Content>, had: bool)
    requires i <= j <= |h| && AllHeld(h[i..j], target, known, had) && AllHeld(h[j..], target, known, had)
    ensures AllHeld(h[i..], target, known, had)
  {
    assert h[i..] == h[i..j] + h[j..];
  }

  /**
  Any number of update attempts, each with its own bundled binary, each cut at an arbitrary point of
  its history or left to finish: no attempt leaves the states from which recovery restores a known
  binary, so a binary that was once installed is never lost.
  */
  method Sessions(disk: Disk, bundles: seq<(Path, Content)>, target: Path, ghost known: set<Content>, ghost had: bool)
    requires forall i :: 0 <= i < |bundles| ==> Apart(bundles[i].0, target) && bundles[i].1 in known
    requires Held(disk.files, target, known, had)
    modifies disk
    ensures Held(disk.files, target, known, had)
    ensures forall source :: var r := Recovered(disk.files, source, target); (had ==> r.Some?) && (r.Some? ==> r.value in known)
  {
    for i := 0 to |bundles|
      invariant Held(disk.files, target, known, had)
    {
      var source, binary := bundles[i].0, bundles[i].1;
      InstallKeepsHeld(disk.files, source, binary, target, known, had);
      disk.files := disk.files[source := binary];
      var mark, healthy: bool, stopped: bool := |disk.history|, *, *;
      var _ := Deploy(disk, source, target, healthy, stopped, known, had);
      var cut: bool := *;
      if cut && mark < |disk.history| {
        var at :| mark <= at < |disk.history|;
        assert disk.history[at] == disk.history[mark..][at - mark];
        disk.files := disk.history[at];
      }
    }
    forall source
      ensures var r := Recovered(disk.files, source, target); (had ==> r.Some?) && (r.Some? ==> r.value in known)
    {
      HeldRecovers(disk.files, source, target, known, had);
    }
  }

  lemma InstallKeepsHeld(files: Files, source: Path, binary: Content, target: Path, known: set<Content>, had: bool)
    requires Apart(source, target) && Held(files, target, known, had)
    ensures Held(files[source := binary], target, known, had)
  {
    var old': Option<Content>, new': Content :|
      Known(old', new', known, had) && Recoverable(files, target, old', new');
    assert Recoverable(files[source := binary], target, old', new');
  }
}
