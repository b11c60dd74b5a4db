/** Which files the attachment cache gives up to make room: the expired ones, then the oldest. */
module Eviction {
  import opened Ordering

  const SECOND: nat := 1_000_000_000
  const CACHE_TTL: nat := 30 * 24 * 60 * 60 * SECOND
  const MAX_USER_CACHE_BYTES: nat := 512 * 1024 * 1024

  /** A content file of one user: the attachment kept under a key, or a temporary copy on its way there. */
  datatype Stem = Entry(key: string) | Temporary(key: string, suffix: string)

  /** What a directory scan reports; times are nanoseconds since the epoch. */
  datatype Listed = Listed(stem: Stem, size: nat, modified: int)

  /** A time in the future counts as age zero. */
  function Age(now: int, modified: int): nat {
    if modified <= now then now - modified else 0
  }

  predicate Expired(e: Listed, now: int) {
    Age(now, e.modified) > CACHE_TTL
  }

  function Fresh(listing: seq<Listed>, now: int): seq<Listed>
    decreases |listing|
  {
    if listing == [] then []
    else
      var front, last := listing[..|listing| - 1], listing[|listing| - 1];
      Fresh(front, now) + if Expired(last, now) then [] else [last]
  }

  predicate NotNewer(a: Listed, b: Listed) {
    a.modified <= b.modified
  }

  function Bytes(s: seq<Listed>): nat
    decreases |s|
  {
    if s == [] then 0 else s[0].size + Bytes(s[1..])
  }

  predicate Fits(s: seq<Listed>, incoming: nat) {
    Bytes(s) + incoming <= MAX_USER_CACHE_BYTES
  }

  /** Give up files from the front until the rest fits. */
  function Evict(s: seq<Listed>, incoming: nat): seq<Listed>
    decreases |s|
  {
    if s == [] || Fits(s, incoming) then s else Evict(s[1..], incoming)
  }

  function Ordered(listing: seq<Listed>, now: int): seq<Listed> {
    SortBy(NotNewer, Fresh(listing, now))
  }

  function Survivors(listing: seq<Listed>, now: int, incoming: nat): seq<Listed> {
    Evict(Ordered(listing, now), incoming)
  }

  // ---- What the sweep keeps ----

  lemma {:induction false} FreshMembers(listing: seq<Listed>, now: int)
    ensures forall e :: e in Fresh(listing, now) <==> e in listing && !Expired(e, now)
    decreases |listing|
  {
    if listing == [] {
    } else {
      var front, last := listing[..|listing| - 1], listing[|listing| - 1];
      FreshMembers(front, now);
      assert listing == front + [last];
    }
  }

  lemma {:induction false} EvictIsShortest(s: seq<Listed>, incoming: nat) returns (k: nat)
    ensures k <= |s| && Evict(s, incoming) == s[k..]
    ensures k == |s| || Fits(s[k..], incoming)
    ensures forall j :: 0 <= j < k ==> !Fits(s[j..], incoming)
    decreases |s|
  {
    if s == [] || Fits(s, incoming) {
      k := 0;
    } else {
      var rest := EvictIsShortest(s[1..], incoming);
      k := rest + 1;
      assert s[1..][rest..] == s[k..];
      forall j | 0 <= j < k
        ensures !Fits(s[j..], incoming)
      {
        if j > 0 {
          assert s[1..][j - 1..] == s[j..];
        } else {
          assert s[0..] == s;
        }
      }
    }
  }

  lemma OrderedIsSorted(listing: seq<Listed>, now: int)
    ensures Sorted(NotNewer, Ordered(listing, now)) && multiset(Ordered(listing, now)) == multiset(Fresh(listing, now))
  {
    SortSorted(NotNewer, Fresh(listing, now));
  }

  lemma OrderedMembers(listing: seq<Listed>, now: int)
    ensures forall e :: e in Ordered(listing, now) <==> e in listing && !Expired(e, now)
  {
    OrderedIsSorted(listing, now);
    FreshMembers(listing, now);
    forall e
      ensures e in Ordered(listing, now) <==> e in Fresh(listing, now)
    {
      assert e in multiset(Ordered(listing, now)) <==> e in multiset(Fresh(listing, now));
    }
  }

  /**
  The expired files go, then the shortest oldest-first prefix of the others after which the rest leaves room
  for the incoming file, or all of them; and no file given up is newer than one kept.
  */
  lemma SweepIsMinimal(listing: seq<Listed>, now: int, incoming: nat) returns (k: nat)
    ensures var ordered, kept := Ordered(listing, now), Survivors(listing, now, incoming);
      && k <= |ordered| && kept == ordered[k..]
      && (kept == [] || Fits(kept, incoming))
      && (forall j :: 0 <= j < k ==> !Fits(ordered[j..], incoming))
      && (forall i, j :: 0 <= i < k <= j < |ordered| ==> NotNewer(ordered[i], ordered[j]))
      && (forall e :: e in ordered <==> e in listing && !Expired(e, now))
  {
    k := EvictIsShortest(Ordered(listing, now), incoming);
    OrderedIsSorted(listing, now);
    OrderedMembers(listing, now);
  }

  // ---- Without reference to any order ----

  /** Bytes of the files modified at `cutoff` or later. */
  function BytesSince(s: seq<Listed>, cutoff: int): nat
    decreases |s|
  {
    if s == [] then 0
    else
      var front, last := s[..|s| - 1], s[|s| - 1];
      BytesSince(front, cutoff) + if last.modified >= cutoff then last.size else 0
  }

  lemma {:induction false} BytesSinceAppend(a: seq<Listed>, b: seq<Listed>, cutoff: int)
    ensures BytesSince(a + b, cutoff) == BytesSince(a, cutoff) + BytesSince(b, cutoff)
    decreases |b|
  {
    if b == [] {
      assert a + b == a;
    } else {
      assert (a + b)[..|a + b| - 1] == a + b[..|b| - 1];
      BytesSinceAppend(a, b[..|b| - 1], cutoff);
    }
  }

  lemma {:induction false} BytesSincePermute(a: seq<Listed>, b: seq<Listed>, cutoff: int)
    requires multiset(a) == multiset(b)
    ensures BytesSince(a, cutoff) == BytesSince(b, cutoff)
    decreases |a|
  {
    if a == [] {
      assert |multiset(b)| == |b|;
    } else {
      var left, right := PullOut(a, b);
      BytesSincePermute(a[..|a| - 1], left + right, cutoff);
      BytesSinceAppend(left + [a[|a| - 1]], right, cutoff);
      BytesSinceAppend(left, [a[|a| - 1]], cutoff);
      BytesSinceAppend(left, right, cutoff);
      assert [a[|a| - 1]][..0] == [];
    }
  }

  lemma {:induction false} BytesOfTail(s: seq<Listed>, cutoff: int)
    requires forall e :: e in s ==> e.modified >= cutoff
    ensures Bytes(s) == BytesSince(s, cutoff)
    decreases |s|
  {
    if s == [] {
    } else {
      BytesOfTail(s[1..], cutoff);
      BytesSinceAppend([s[0]], s[1..], cutoff);
      assert s == [s[0]] + s[1..] && [s[0]][..0] == [];
    }
  }

  lemma {:induction false} NothingSince(s: seq<Listed>, cutoff: int)
    requires forall e :: e in s ==> e.modified < cutoff
    ensures BytesSince(s, cutoff) == 0
    decreases |s|
  {
    if s == [] {
    } else {
      NothingSince(s[..|s| - 1], cutoff);
    }
  }

  /** Where the files of a sorted list that are at least as new as `cutoff` begin. */
  lemma {:induction false} Boundary(s: seq<Listed>, cutoff: int) returns (b: nat)
    requires Sorted(NotNewer, s)
    ensures b <= |s| && (forall e :: e in s[..b] ==> e.modified < cutoff) && forall e :: e in s[b..] ==> e.modified >= cutoff
    decreases |s|
  {
    if s == [] || s[0].modified >= cutoff {
      b := 0;
      forall e | e in s
        ensures e.modified >= cutoff
      {
        var i :| 0 <= i < |s| && s[i] == e;
        assert i == 0 || NotNewer(s[0], s[i]);
      }
    } else {
      var rest := Boundary(s[1..], cutoff);
      b := rest + 1;
      assert s[b..] == s[1..][rest..] && s[..b] == [s[0]] + s[1..][..rest];
    }
  }

  lemma BytesFromBoundary(s: seq<Listed>, cutoff: int) returns (b: nat)
    requires Sorted(NotNewer, s)
    ensures b <= |s| && Bytes(s[b..]) == BytesSince(s, cutoff) && forall e :: e in s[..b] ==> e.modified < cutoff
  {
    b := Boundary(s, cutoff);
    assert s == s[..b] + s[b..];
    BytesSinceAppend(s[..b], s[b..], cutoff);
    NothingSince(s[..b], cutoff);
    BytesOfTail(s[b..], cutoff);
  }

  lemma InLongerTail(s: seq<Listed>, k: nat, b: nat, e: Listed)
    requires k <= b <= |s| && e in s && forall f :: f in s[..b] ==> f != e
    ensures e in s[k..]
  {
    assert s == s[..b] + s[b..];
    assert s[b..] == s[k..][b - k..];
  }

  /** If everything unexpired from some moment on fits beside the incoming file, all of it survives. */
  lemma NewestSurvive(listing: seq<Listed>, now: int, incoming: nat, cutoff: int)
    requires BytesSince(Fresh(listing, now), cutoff) + incoming <= MAX_USER_CACHE_BYTES
    ensures forall e :: e in listing && !Expired(e, now) && e.modified >= cutoff ==> e in Survivors(listing, now, incoming)
  {
    var ordered := Ordered(listing, now);
    OrderedIsSorted(listing, now);
    OrderedMembers(listing, now);
    BytesSincePermute(ordered, Fresh(listing, now), cutoff);
    var b := BytesFromBoundary(ordered, cutoff);
    var k := EvictIsShortest(ordered, incoming);
    forall e | e in listing && !Expired(e, now) && e.modified >= cutoff
      ensures e in ordered[k..]
    {
      InLongerTail(ordered, k, b, e);
    }
  }
}
