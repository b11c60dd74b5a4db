/** Writes to one attachment cache at the same time: each sweeps, stages its two files and renames them. */
module OverlappingWrites {
  import opened AttachmentCache
  import opened Eviction
  import opened Sums

  datatype Phase = Swept | ContentStaged | BothStaged | ContentCommitted

  datatype Writer = Writer(key: string, suffix: string, a: Attachment, phase: Phase)

  datatype State = State(dir: Directory, writers: map<nat, Writer>)

  /**
  One step of one writer: a sweep is one step and always succeeds, every other operation may fail.  That ends the
  write, except that a failed rename onto an existing file keeps that file and goes on, as `Keep` does.  `Lose` is a
  deletion by somebody else.
  */
  datatype Step =
    | Sweep(w: nat, key: string, suffix: string, a: Attachment, listing: seq<Listed>, now: int)
    | StageContent(w: nat, written: nat, now: int)
    | StageMetadata(w: nat, bytes: seq<bv8>, now: int)
    | RenameContent(w: nat)
    | RenameMetadata(w: nat)
    | Keep(w: nat, removed: bool)
    | Abandon(w: nat)
    | Lose(p: Path)

  function Kept(d: Directory, gone: set<Stem>): Directory {
    map p | p in d && p.stem !in gone :: d[p]
  }

  function Temp(writer: Writer): Stem {
    Temporary(writer.key, writer.suffix)
  }

  /** The file the next rename of a write goes to. */
  function Target(writer: Writer): Path {
    if writer.phase.ContentCommitted? then Json(Entry(writer.key)) else Bin(Entry(writer.key))
  }

  function Source(writer: Writer): Path {
    if writer.phase.ContentCommitted? then Json(Temp(writer)) else Bin(Temp(writer))
  }

  ghost predicate Enabled(s: State, step: Step) {
    match step
    case Sweep(w, _, _, a, listing, _) =>
      w !in s.writers && |a.content| <= MAX_RFC822_BYTES && Reports(listing, s.dir) && ReportsAll(listing, s.dir)
    case StageContent(w, written, _) =>
      w in s.writers && s.writers[w].phase.Swept? && written <= |s.writers[w].a.content|
    case StageMetadata(w, _, _) => w in s.writers && s.writers[w].phase.ContentStaged?
    case RenameContent(w) => w in s.writers && s.writers[w].phase.BothStaged? && Bin(Temp(s.writers[w])) in s.dir
    case RenameMetadata(w) => w in s.writers && s.writers[w].phase.ContentCommitted? && Json(Temp(s.writers[w])) in s.dir
    case Keep(w, _) =>
      w in s.writers && (s.writers[w].phase.BothStaged? || s.writers[w].phase.ContentCommitted?) && Target(s.writers[w]) in s.dir
    case Abandon(w) => w in s.writers
    case Lose(_) => true
  }

  function At(s: State, w: nat, phase: Phase): map<nat, Writer>
    requires w in s.writers
  {
    s.writers[w := s.writers[w].(phase := phase)]
  }

  /** Staging less than everything is a failed write that leaves a part behind. */
  ghost function Next(s: State, step: Step): State
    requires Enabled(s, step)
  {
    match step
    case Sweep(w, key, suffix, a, listing, now) =>
      State(Kept(s.dir, GivenUp(listing, now, |a.content|)), s.writers[w := Writer(key, suffix, a, Swept)])
    case StageContent(w, written, now) =>
      var writer := s.writers[w];
      State(s.dir[Bin(Temp(writer)) := File(writer.a.content[..written], now)],
            if written == |writer.a.content| then At(s, w, ContentStaged) else s.writers - {w})
    case StageMetadata(w, bytes, now) =>
      State(s.dir[Json(Temp(s.writers[w])) := File(bytes, now)], At(s, w, BothStaged))
    case RenameContent(w) =>
      var from, to := Bin(Temp(s.writers[w])), Bin(Entry(s.writers[w].key));
      State((s.dir - {from})[to := s.dir[from]], At(s, w, ContentCommitted))
    case RenameMetadata(w) =>
      var from, to := Json(Temp(s.writers[w])), Json(Entry(s.writers[w].key));
      State((s.dir - {from})[to := s.dir[from]], s.writers - {w})
    case Keep(w, removed) =>
      State(if removed then s.dir - {Source(s.writers[w])} else s.dir,
            if s.writers[w].phase.BothStaged? then At(s, w, ContentCommitted) else s.writers - {w})
    case Abandon(w) => s.(writers := s.writers - {w})
    case Lose(p) => s.(dir := s.dir - {p})
  }

  // ---- What is about to be staged ----

  function Unstaged(writers: map<nat, Writer>): map<nat, nat> {
    map w | w in writers && writers[w].phase.Swept? :: |writers[w].a.content|
  }

  /** Bytes that writers who have swept will still add. */
  ghost function Pending(writers: map<nat, Writer>): nat {
    Sum(Unstaged(writers))
  }

  ghost predicate Sized(writers: map<nat, Writer>) {
    forall w :: w in writers ==> |writers[w].a.content| <= MAX_RFC822_BYTES
  }

  /** What `n` overlapping writes may come to. */
  function Limit(n: nat): int {
    MAX_USER_CACHE_BYTES + (n - 1) * MAX_RFC822_BYTES
  }

  ghost predicate Bounded(s: State, n: nat) {
    Sized(s.writers) && Stored(s.dir) + Pending(s.writers) <= Limit(n)
  }

  lemma PendingStarted(writers: map<nat, Writer>, w: nat, writer: Writer)
    requires w !in writers && writer.phase.Swept?
    ensures Pending(writers[w := writer]) == Pending(writers) + |writer.a.content|
  {
    SumInsert(Unstaged(writers), w, |writer.a.content|);
    assert Unstaged(writers[w := writer]) == Unstaged(writers)[w := |writer.a.content|];
  }

  /** A writer that stages, ends or only moves on takes its content out of what is pending. */
  lemma PendingDropped(writers: map<nat, Writer>, after: map<nat, Writer>, w: nat)
    requires w in writers && (after == writers - {w} || (exists v :: after == writers[w := v] && !v.phase.Swept?))
    ensures Pending(after) + (if writers[w].phase.Swept? then |writers[w].a.content| else 0) == Pending(writers)
  {
    assert Unstaged(after) == Unstaged(writers) - {w};
    if writers[w].phase.Swept? {
      SumWithout(Unstaged(writers), w);
    } else {
      assert Unstaged(writers) - {w} == Unstaged(writers);
    }
  }

  lemma PendingBounded(writers: map<nat, Writer>)
    requires Sized(writers)
    ensures Pending(writers) <= |writers| * MAX_RFC822_BYTES
  {
    SumBounded(Unstaged(writers), MAX_RFC822_BYTES);
    assert Unstaged(writers).Keys <= writers.Keys;
    FewerKeys(Unstaged(writers).Keys, writers.Keys);
  }

  lemma FewerKeys(a: set<nat>, b: set<nat>)
    requires a <= b
    ensures |a| <= |b|
  {
    assert b == a + (b - a);
  }

  // ---- Every step keeps the bound ----

  lemma SweepBounded(s: State, w: nat, key: string, suffix: string, a: Attachment, listing: seq<Listed>, now: int, n: nat)
    requires Enabled(s, Sweep(w, key, suffix, a, listing, now)) && Sized(s.writers) && |s.writers| < n
    ensures Bounded(Next(s, Sweep(w, key, suffix, a, listing, now)), n)
  {
    var gone := GivenUp(listing, now, |a.content|);
    assert LostOnly(s.dir, gone, Kept(s.dir, gone)) && AllGone(gone, Kept(s.dir, gone));
    SweptHasRoom(s.dir, listing, now, |a.content|, Kept(s.dir, gone));
    PendingStarted(s.writers, w, Writer(key, suffix, a, Swept));
    PendingBounded(s.writers);
    assert |s.writers| * MAX_RFC822_BYTES <= (n - 1) * MAX_RFC822_BYTES;
  }

  lemma StageBounded(s: State, w: nat, written: nat, now: int, n: nat)
    requires Enabled(s, StageContent(w, written, now)) && Bounded(s, n)
    ensures Bounded(Next(s, StageContent(w, written, now)), n)
  {
    var writer := s.writers[w];
    PutStores(s.dir, Bin(Temp(writer)), File(writer.a.content[..written], now));
    PendingDropped(s.writers, Next(s, StageContent(w, written, now)).writers, w);
  }

  lemma RenameBounded(s: State, from: Path, to: Path, after: map<nat, Writer>, w: nat, n: nat)
    requires from in s.dir && from.Bin? == to.Bin? && Bounded(s, n) && w in s.writers && Sized(after)
    requires after == s.writers - {w} || (exists v :: after == s.writers[w := v] && !v.phase.Swept?)
    ensures Bounded(State((s.dir - {from})[to := s.dir[from]], after), n)
  {
    RenameStores(s.dir, from, to);
    PendingDropped(s.writers, after, w);
  }

  lemma MetadataBounded(s: State, w: nat, bytes: seq<bv8>, now: int, n: nat)
    requires Enabled(s, StageMetadata(w, bytes, now)) && Bounded(s, n)
    ensures Bounded(Next(s, StageMetadata(w, bytes, now)), n)
  {
    PutStores(s.dir, Json(Temp(s.writers[w])), File(bytes, now));
    PendingDropped(s.writers, At(s, w, BothStaged), w);
  }

  lemma PublishBounded(s: State, step: Step, n: nat)
    requires (step.RenameContent? || step.RenameMetadata?) && Enabled(s, step) && Bounded(s, n)
    ensures Bounded(Next(s, step), n)
  {
    var w := step.w;
    if step.RenameContent? {
      RenameBounded(s, Bin(Temp(s.writers[w])), Bin(Entry(s.writers[w].key)), At(s, w, ContentCommitted), w, n);
    } else {
      RenameBounded(s, Json(Temp(s.writers[w])), Json(Entry(s.writers[w].key)), s.writers - {w}, w, n);
    }
  }

  lemma StartBounded(s: State, step: Step, n: nat)
    requires step.Sweep? && Enabled(s, step) && Bounded(s, n) && |Next(s, step).writers| <= n
    ensures Bounded(Next(s, step), n)
  {
    assert Next(s, step).writers - {step.w} == s.writers;
    SizeWithout(Next(s, step).writers, step.w);
    SweepBounded(s, step.w, step.key, step.suffix, step.a, step.listing, step.now, n);
  }

  lemma KeepBounded(s: State, w: nat, removed: bool, n: nat)
    requires Enabled(s, Keep(w, removed)) && Bounded(s, n)
    ensures Bounded(Next(s, Keep(w, removed)), n)
  {
    var after := Next(s, Keep(w, removed));
    SmallerStores(after.dir, s.dir);
    PendingDropped(s.writers, after.writers, w);
  }

  lemma EndBounded(s: State, step: Step, n: nat)
    requires (step.Abandon? || step.Lose?) && Enabled(s, step) && Bounded(s, n)
    ensures Bounded(Next(s, step), n)
  {
    if step.Abandon? {
      PendingDropped(s.writers, s.writers - {step.w}, step.w);
    } else {
      SmallerStores(s.dir - {step.p}, s.dir);
    }
  }

  lemma StepBounded(s: State, step: Step, n: nat)
    requires Enabled(s, step) && Bounded(s, n) && |Next(s, step).writers| <= n
    ensures Bounded(Next(s, step), n)
  {
    match step
    case Sweep(_, _, _, _, _, _) => StartBounded(s, step, n);
    case StageContent(w, written, now) => StageBounded(s, w, written, now, n);
    case StageMetadata(w, bytes, now) => MetadataBounded(s, w, bytes, now, n);
    case RenameContent(_) => PublishBounded(s, step, n);
    case RenameMetadata(_) => PublishBounded(s, step, n);
    case Keep(w, removed) => KeepBounded(s, w, removed, n);
    case Abandon(_) => EndBounded(s, step, n);
    case Lose(_) => EndBounded(s, step, n);
  }

  // ---- Runs ----

  /** The steps are possible one after the other, and at no time are more than `n` writes under way. */
  ghost predicate Run(s: State, steps: seq<Step>, n: nat)
    decreases |steps|
  {
    |s.writers| <= n && (steps == [] || (Enabled(s, steps[0]) && Run(Next(s, steps[0]), steps[1..], n)))
  }

  ghost function Final(s: State, steps: seq<Step>, n: nat): State
    requires Run(s, steps, n)
    decreases |steps|
  {
    if steps == [] then s else Final(Next(s, steps[0]), steps[1..], n)
  }

  /** Nobody is writing, and the cache is within its quota. */
  ghost predicate Quiet(s: State) {
    s.writers == map[] && Stored(s.dir) <= MAX_USER_CACHE_BYTES
  }

  lemma {:induction false} RunBounded(s: State, steps: seq<Step>, n: nat)
    requires Bounded(s, n) && Run(s, steps, n)
    ensures Bounded(Final(s, steps, n), n)
    decreases |steps|
  {
    if steps == [] {
    } else {
      StepBounded(s, steps[0], n);
      RunBounded(Next(s, steps[0]), steps[1..], n);
    }
  }

  /** With at most `n` writes under way, every instant stores at most the quota and `n - 1` largest attachments more. */
  lemma OverlapBounded(s: State, steps: seq<Step>, n: nat)
    requires n >= 1 && Quiet(s) && Run(s, steps, n)
    ensures Stored(Final(s, steps, n).dir) <= Limit(n)
  {
    QuietBounded(s, n);
    RunBounded(s, steps, n);
  }

  lemma QuietBounded(s: State, n: nat)
    requires n >= 1 && Quiet(s)
    ensures Bounded(s, n)
  {
    assert Unstaged(s.writers) == map[];
  }

  // ---- Two writes that both fit, but not together ----

  /** A sweep that finds room without deleting deletes nothing. */
  lemma NothingGivenUp(d: Directory, listing: seq<Listed>, now: int, incoming: nat)
    requires Reports(listing, d) && ReportsAll(listing, d) && forall e :: e in listing ==> !Expired(e, now)
    requires Stored(d) + incoming <= MAX_USER_CACHE_BYTES
    ensures GivenUp(listing, now, incoming) == {} && Kept(d, {}) == d
  {
    var ordered := Ordered(listing, now);
    OrderedMembers(listing, now);
    OrderedDistinct(listing, now);
    ReportedBytes(ordered, d);
    assert Survivors(listing, now, incoming) == ordered;
    assert Stems(ordered) == Stems(listing);
  }

  lemma PutNew(d: Directory, p: Path, f: File)
    requires p.Bin? && p !in d
    ensures Stored(d[p := f]) == Stored(d) + |f.bytes|
  {
    SumInsert(Sizes(d), p, |f.bytes|);
    assert Sizes(d[p := f]) == Sizes(d)[p := |f.bytes|];
  }

  /** The second sweep comes before the first content is staged. */
  function Clash(a: Attachment, b: Attachment, listing: seq<Listed>, now: int): seq<Step> {
    [Sweep(0, "a", "", a, listing, now), Sweep(1, "b", "", b, listing, now),
     StageContent(0, |a.content|, now), StageContent(1, |b.content|, now)]
  }

  function Writing(d: Directory, a: Attachment, pa: Phase, b: Attachment, pb: Phase): State {
    State(d, map[0 := Writer("a", "", a, pa), 1 := Writer("b", "", b, pb)])
  }

  lemma ClashSweeps(d: Directory, a: Attachment, b: Attachment, listing: seq<Listed>, now: int)
    requires |a.content| <= MAX_RFC822_BYTES && |b.content| <= MAX_RFC822_BYTES
    requires Reports(listing, d) && ReportsAll(listing, d) && forall e :: e in listing ==> !Expired(e, now)
    requires Stored(d) + |a.content| <= MAX_USER_CACHE_BYTES && Stored(d) + |b.content| <= MAX_USER_CACHE_BYTES
    ensures var s, first := State(d, map[]), Sweep(0, "a", "", a, listing, now);
      && Enabled(s, first) && Next(s, first) == State(d, map[0 := Writer("a", "", a, Swept)])
      && Enabled(Next(s, first), Sweep(1, "b", "", b, listing, now))
      && Next(Next(s, first), Sweep(1, "b", "", b, listing, now)) == Writing(d, a, Swept, b, Swept)
  {
    NothingGivenUp(d, listing, now, |a.content|);
    NothingGivenUp(d, listing, now, |b.content|);
  }

  lemma StageWhole(s: State, w: nat, now: int)
    requires w in s.writers && s.writers[w].phase.Swept?
    ensures var writer := s.writers[w];
      var step := StageContent(w, |writer.a.content|, now);
      && Enabled(s, step)
      && Next(s, step) == State(s.dir[Bin(Temp(writer)) := File(writer.a.content, now)], At(s, w, ContentStaged))
  {
    var content := s.writers[w].a.content;
    assert content[..|content|] == content;
  }

  lemma ClashStages(d: Directory, a: Attachment, b: Attachment, now: int)
    requires Bin(Temporary("a", "")) !in d && Bin(Temporary("b", "")) !in d
    ensures var s, one := Writing(d, a, Swept, b, Swept), StageContent(0, |a.content|, now);
      var two := StageContent(1, |b.content|, now);
      && Enabled(s, one) && Enabled(Next(s, one), two)
      && |Next(s, one).writers| == 2 && |Next(Next(s, one), two).writers| == 2
      && Stored(Next(Next(s, one), two).dir) == Stored(d) + |a.content| + |b.content|
  {
    var pa, fa := Bin(Temporary("a", "")), File(a.content, now);
    var s := Writing(d, a, Swept, b, Swept);
    StageWhole(s, 0, now);
    var s1 := Writing(d[pa := fa], a, ContentStaged, b, Swept);
    assert Next(s, StageContent(0, |a.content|, now)) == s1;
    assert "a"[0] != "b"[0];
    PutNew(d, pa, fa);
    SecondStage(d[pa := fa], a, b, now);
  }

  lemma SecondStage(d: Directory, a: Attachment, b: Attachment, now: int)
    requires Bin(Temporary("b", "")) !in d
    ensures var s, two := Writing(d, a, ContentStaged, b, Swept), StageContent(1, |b.content|, now);
      && Enabled(s, two) && |s.writers| == 2 && |Next(s, two).writers| == 2
      && Stored(Next(s, two).dir) == Stored(d) + |b.content|
  {
    var s, pb, fb := Writing(d, a, ContentStaged, b, Swept), Bin(Temporary("b", "")), File(b.content, now);
    StageWhole(s, 1, now);
    assert At(s, 1, ContentStaged).Keys == s.writers.Keys == {0, 1};
    PutNew(d, pb, fb);
  }

  lemma FourSteps(s: State, w: Step, x: Step, y: Step, z: Step, n: nat)
    requires n >= 2 && |s.writers| <= n && Enabled(s, w)
    requires var s1 := Next(s, w); |s1.writers| <= n && Enabled(s1, x)
    requires var s2 := Next(Next(s, w), x); |s2.writers| <= n && Enabled(s2, y)
    requires var s3 := Next(Next(Next(s, w), x), y); |s3.writers| <= n && Enabled(s3, z) && |Next(s3, z).writers| <= n
    ensures Run(s, [w, x, y, z], n) && Final(s, [w, x, y, z], n) == Next(Next(Next(Next(s, w), x), y), z)
  {
    var s1 := Next(s, w);
    var s2 := Next(s1, x);
    var s3 := Next(s2, y);
    assert [w, x, y, z][1..] == [x, y, z] && [x, y, z][1..] == [y, z] && [y, z][1..] == [z] && [z][1..] == [];
    assert Run(s3, [z], n) && Final(s3, [z], n) == Next(s3, z);
    assert Run(s2, [y, z], n) && Final(s2, [y, z], n) == Final(s3, [z], n);
    assert Run(s1, [x, y, z], n) && Final(s1, [x, y, z], n) == Final(s2, [y, z], n);
  }

  /** From every directory that has room for either of two attachments, overlapping writes store both. */
  lemma ClashStoresBoth(d: Directory, a: Attachment, b: Attachment, listing: seq<Listed>, now: int, n: nat)
    requires n >= 2 && |a.content| <= MAX_RFC822_BYTES && |b.content| <= MAX_RFC822_BYTES
    requires Reports(listing, d) && ReportsAll(listing, d) && forall e :: e in listing ==> !Expired(e, now)
    requires Stored(d) + |a.content| <= MAX_USER_CACHE_BYTES && Stored(d) + |b.content| <= MAX_USER_CACHE_BYTES
    requires Bin(Temporary("a", "")) !in d && Bin(Temporary("b", "")) !in d
    ensures var s, steps := State(d, map[]), Clash(a, b, listing, now);
      Run(s, steps, n) && Stored(Final(s, steps, n).dir) == Stored(d) + |a.content| + |b.content|
  {
    ClashSweeps(d, a, b, listing, now);
    ClashStages(d, a, b, now);
    assert |map[0 := Writer("a", "", a, Swept)]| == 1;
    assert |Writing(d, a, Swept, b, Swept).writers| == 2;
    FourSteps(State(d, map[]), Sweep(0, "a", "", a, listing, now), Sweep(1, "b", "", b, listing, now),
              StageContent(0, |a.content|, now), StageContent(1, |b.content|, now), n);
  }
}
