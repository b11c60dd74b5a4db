/** The most that overlapping writes can store: the bound on them is reached, for every number of writes. */
module OverlapLimit {
  import opened AttachmentCache
  import opened Eviction
  import opened OverlappingWrites
  import opened Sums

  function Zeros(n: nat): seq<bv8> {
    seq(n, _ => 0)
  }

  function Key(k: nat): string {
    seq(k, _ => 'x')
  }

  lemma KeysDiffer(i: nat, k: nat)
    requires i != k
    ensures Key(i) != Key(k)
  {
    assert |Key(i)| == i && |Key(k)| == k;
  }

  // ---- A cache with room for exactly one largest attachment ----

  /** Eleven files of this size leave room for one largest attachment. */
  const PART: nat := 42 * 1024 * 1024

  function Part(): File {
    File(Zeros(PART), 0)
  }

  function Filled(k: nat): Directory {
    if k == 0 then map[] else Filled(k - 1)[Bin(Entry(Key(k - 1))) := Part()]
  }

  function FilledListing(k: nat): seq<Listed> {
    if k == 0 then [] else FilledListing(k - 1) + [Describe(Entry(Key(k - 1)), Part())]
  }

  lemma {:induction false} FilledIs(k: nat)
    ensures forall p :: p in Filled(k) <==> exists i: nat :: i < k && p == Bin(Entry(Key(i)))
    ensures forall p :: p in Filled(k) ==> Filled(k)[p] == Part()
    decreases k
  {
    if k == 0 {
    } else {
      FilledIs(k - 1);
    }
  }

  lemma NewName(k: nat)
    ensures Bin(Entry(Key(k))) !in Filled(k)
  {
    FilledIs(k);
    if Bin(Entry(Key(k))) in Filled(k) {
      var i: nat :| i < k && Bin(Entry(Key(k))) == Bin(Entry(Key(i)));
      KeysDiffer(i, k);
    }
  }

  lemma {:induction false} FilledStores(k: nat)
    ensures Stored(Filled(k)) == k * PART
    decreases k
  {
    if k == 0 {
      assert Sizes(Filled(0)) == map[];
    } else {
      FilledStores(k - 1);
      NewName(k - 1);
      PutNew(Filled(k - 1), Bin(Entry(Key(k - 1))), Part());
    }
  }

  lemma {:induction false} FilledListed(k: nat)
    ensures |FilledListing(k)| == k
    ensures forall i :: 0 <= i < k ==> FilledListing(k)[i] == Describe(Entry(Key(i)), Part())
    decreases k
  {
    if k == 0 {
    } else {
      FilledListed(k - 1);
    }
  }

  lemma FilledReports(k: nat)
    ensures Reports(FilledListing(k), Filled(k)) && ReportsAll(FilledListing(k), Filled(k))
    ensures forall e :: e in FilledListing(k) ==> !Expired(e, 0)
  {
    var listing := FilledListing(k);
    FilledIs(k);
    FilledListed(k);
    forall i, j | 0 <= i < j < |listing|
      ensures listing[i] != listing[j]
    {
      KeysDiffer(i, j);
    }
    forall s | Bin(s) in Filled(k)
      ensures Describe(s, Filled(k)[Bin(s)]) in listing
    {
      var i: nat :| i < k && Bin(s) == Bin(Entry(Key(i)));
      assert listing[i] == Describe(s, Part());
    }
  }

  // ---- Everybody sweeps, then everybody stages ----

  /** `k` writers of which the first `staged` have staged their content. */
  function Group(a: Attachment, k: nat, staged: nat): map<nat, Writer> {
    map w: nat | w < k :: Writer(Key(w), "", a, if w < staged then ContentStaged else Swept)
  }

  function Staging(w: nat): Path {
    Bin(Temporary(Key(w), ""))
  }

  function Piled(d: Directory, a: Attachment, k: nat): Directory {
    if k == 0 then d else Piled(d, a, k - 1)[Staging(k - 1) := File(a.content, 0)]
  }

  function Stages(a: Attachment, i: nat, n: nat): seq<Step>
    requires i <= n
    decreases n - i
  {
    if i == n then [] else [StageContent(i, |a.content|, 0)] + Stages(a, i + 1, n)
  }

  function Sweeps(a: Attachment, listing: seq<Listed>, i: nat, n: nat): seq<Step>
    requires i <= n
    decreases n - i
  {
    if i == n then Stages(a, 0, n) else [Sweep(i, Key(i), "", a, listing, 0)] + Sweeps(a, listing, i + 1, n)
  }

  ghost predicate NoneStaged(d: Directory) {
    forall w: nat :: Staging(w) !in d
  }

  lemma {:induction false} GroupSize(a: Attachment, k: nat, staged: nat)
    ensures |Group(a, k, staged)| == k
    decreases k
  {
    if k == 0 {
      assert Group(a, 0, staged) == map[];
    } else {
      GroupSize(a, k - 1, staged);
      var group := Group(a, k, staged);
      assert group.Keys == Group(a, k - 1, staged).Keys + {k - 1};
    }
  }

  lemma {:induction false} PiledKeys(d: Directory, a: Attachment, k: nat, w: nat)
    requires NoneStaged(d) && k <= w
    ensures Staging(w) !in Piled(d, a, k)
    decreases k
  {
    if k == 0 {
    } else {
      PiledKeys(d, a, k - 1, w);
      KeysDiffer(k - 1, w);
    }
  }

  lemma {:induction false} PiledStores(d: Directory, a: Attachment, k: nat)
    requires NoneStaged(d)
    ensures Stored(Piled(d, a, k)) == Stored(d) + k * |a.content|
    decreases k
  {
    if k == 0 {
    } else {
      PiledStores(d, a, k - 1);
      PiledKeys(d, a, k - 1, k - 1);
      PutNew(Piled(d, a, k - 1), Staging(k - 1), File(a.content, 0));
      OneMore(k - 1, |a.content|);
    }
  }

  lemma StageOne(d: Directory, a: Attachment, i: nat, n: nat)
    requires i < n
    ensures var s, step := State(Piled(d, a, i), Group(a, n, i)), StageContent(i, |a.content|, 0);
      Enabled(s, step) && Next(s, step) == State(Piled(d, a, i + 1), Group(a, n, i + 1))
  {
    var s := State(Piled(d, a, i), Group(a, n, i));
    StageWhole(s, i, 0);
    assert At(s, i, ContentStaged) == Group(a, n, i + 1);
  }

  lemma {:induction false} StagesRun(d: Directory, a: Attachment, i: nat, n: nat)
    requires i <= n
    ensures var s, steps := State(Piled(d, a, i), Group(a, n, i)), Stages(a, i, n);
      Run(s, steps, n) && Final(s, steps, n).dir == Piled(d, a, n)
    decreases n - i
  {
    GroupSize(a, n, i);
    if i == n {
    } else {
      StageOne(d, a, i, n);
      StagesRun(d, a, i + 1, n);
      FirstStep(State(Piled(d, a, i), Group(a, n, i)), StageContent(i, |a.content|, 0), Stages(a, i + 1, n), n);
    }
  }

  lemma FirstStep(s: State, step: Step, rest: seq<Step>, n: nat)
    requires |s.writers| <= n && Enabled(s, step) && Run(Next(s, step), rest, n)
    ensures Run(s, [step] + rest, n) && Final(s, [step] + rest, n) == Final(Next(s, step), rest, n)
  {
    assert ([step] + rest)[1..] == rest;
  }

  ghost predicate RoomFor(d: Directory, a: Attachment, listing: seq<Listed>) {
    && Reports(listing, d) && ReportsAll(listing, d) && (forall e :: e in listing ==> !Expired(e, 0))
    && Stored(d) + |a.content| <= MAX_USER_CACHE_BYTES && |a.content| <= MAX_RFC822_BYTES
  }

  lemma SweepOne(d: Directory, a: Attachment, listing: seq<Listed>, i: nat)
    requires RoomFor(d, a, listing)
    ensures var s, step := State(d, Group(a, i, 0)), Sweep(i, Key(i), "", a, listing, 0);
      Enabled(s, step) && Next(s, step) == State(d, Group(a, i + 1, 0))
  {
    NothingGivenUp(d, listing, 0, |a.content|);
    assert Group(a, i, 0)[i := Writer(Key(i), "", a, Swept)] == Group(a, i + 1, 0);
  }

  lemma {:induction false} SweepsRun(d: Directory, a: Attachment, listing: seq<Listed>, i: nat, n: nat)
    requires RoomFor(d, a, listing) && i <= n
    ensures var s, steps := State(d, Group(a, i, 0)), Sweeps(a, listing, i, n);
      Run(s, steps, n) && Final(s, steps, n).dir == Piled(d, a, n)
    decreases n - i
  {
    GroupSize(a, i, 0);
    if i == n {
      StagesRun(d, a, 0, n);
    } else {
      SweepOne(d, a, listing, i);
      SweepsRun(d, a, listing, i + 1, n);
      FirstStep(State(d, Group(a, i, 0)), Sweep(i, Key(i), "", a, listing, 0), Sweeps(a, listing, i + 1, n), n);
    }
  }

  /** From every directory with room for an attachment, `n` overlapping writes of that size store it `n` times. */
  lemma OverlapStoresAll(d: Directory, a: Attachment, listing: seq<Listed>, n: nat)
    requires RoomFor(d, a, listing) && NoneStaged(d)
    ensures var s, steps := State(d, map[]), Sweeps(a, listing, 0, n);
      Run(s, steps, n) && Stored(Final(s, steps, n).dir) == Stored(d) + n * |a.content|
  {
    assert Group(a, 0, 0) == map[];
    SweepsRun(d, a, listing, 0, n);
    PiledStores(d, a, n);
  }

  /** For every number of writes a run stores as much as the bound allows. */
  lemma LimitReached(n: nat) returns (s: State, steps: seq<Step>)
    requires n >= 1
    ensures Quiet(s) && Run(s, steps, n) && Stored(Final(s, steps, n).dir) == Limit(n)
  {
    var a := Attachment(Zeros(MAX_RFC822_BYTES), "", "");
    FilledIs(11);
    FilledStores(11);
    FilledReports(11);
    s, steps := State(Filled(11), map[]), Sweeps(a, FilledListing(11), 0, n);
    OverlapStoresAll(Filled(11), a, FilledListing(11), n);
  }

  ghost predicate NeverMore(bound: int, n: nat) {
    forall s, steps :: Quiet(s) && Run(s, steps, n) ==> Stored(Final(s, steps, n).dir) <= bound
  }

  /** No run with up to `n` writes under way stores more than a bound if and only if the bound is at least the limit. */
  lemma LimitExactly(bound: int, n: nat)
    requires n >= 1
    ensures NeverMore(bound, n) <==> Limit(n) <= bound
  {
    if Limit(n) <= bound {
      forall s, steps | Quiet(s) && Run(s, steps, n)
        ensures Stored(Final(s, steps, n).dir) <= bound
      {
        OverlapBounded(s, steps, n);
      }
    } else {
      var s, steps := LimitReached(n);
    }
  }

  /** So every run stays within the quota if and only if writes do not overlap. */
  lemma QuotaHoldsExactly(n: nat)
    requires n >= 1
    ensures NeverMore(MAX_USER_CACHE_BYTES, n) <==> n == 1
  {
    LimitExactly(MAX_USER_CACHE_BYTES, n);
  }
}
