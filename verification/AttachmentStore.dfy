/** The file operations of the attachment cache, any of which may fail, with every directory they pass through. */
module AttachmentStore {
  import opened Options
  import opened AttachmentCache
  import opened Eviction
  import opened Ordering

  /** The directories added to a history satisfy a bound on the bytes they store. */
  ghost predicate Bounded(before: seq<Directory>, after: seq<Directory>, limit: nat) {
    before <= after && forall i :: |before| <= i < |after| ==> Stored(after[i]) <= limit
  }

  /** Outside the stems given up and the stems being worked on, nothing is lost, and outside the latter nothing new. */
  ghost predicate Elsewhere(before: Directory, gone: set<Stem>, busy: set<Stem>, after: Directory) {
    && (forall p :: p in after && p.stem !in busy ==> p in before && after[p] == before[p])
    && (forall p :: p in before && p.stem !in busy && p.stem !in gone ==> p in after)
  }

  class UserCache {
    const codec: Codec
    /** Scanning and deleting never fail. */
    const reliable: bool
    var dir: Directory
    /** Every attachment handed to `Write`, with its key. */
    ghost var written: set<(string, Attachment)>
    /** Every directory so far, one per file operation. */
    ghost var history: seq<Directory>

    ghost predicate Valid()
      reads this
    {
      && Sound(codec)
      && history != [] && history[|history| - 1] == dir
      && forall d :: d in history ==> Traceable(codec, d, written)
    }

    constructor (codec: Codec, reliable: bool)
      requires Sound(codec)
      ensures Valid() && dir == map[] && written == {} && this.codec == codec && this.reliable == reliable
    {
      this.codec, this.reliable := codec, reliable;
      dir, written, history := map[], {}, [map[]];
    }

    /** One atomic change of the directory. */
    method Become(next: Directory)
      requires Valid() && Traceable(codec, next, written)
      modifies this`dir, this`history
      ensures Valid() && dir == next && history == old(history) + [next]
    {
      dir := next;
      history := history + [next];
    }

    /** `remove_file`, its error ignored. */
    method Remove(p: Path)
      requires Valid()
      modifies this`dir, this`history
      ensures Valid() && (dir == old(dir) || dir == old(dir) - {p}) && (reliable ==> p !in dir)
      ensures Bounded(old(history), history, Stored(old(dir)))
    {
      var fails: bool := *;
      if p in dir && (reliable || !fails) {
        SmallerStores(dir - {p}, dir);
        assert dir in history;
        Become(dir - {p});
      }
    }

    method RemovePair(s: Stem)
      requires Valid()
      modifies this`dir, this`history
      ensures Valid() && LostOnly(old(dir), {s}, dir) && (reliable ==> AllGone({s}, dir))
      ensures Bounded(old(history), history, Stored(old(dir)))
    {
      Remove(Bin(s));
      SmallerStores(dir, old(dir));
      Remove(Json(s));
    }

    /** `read_dir`: content files in any order; unreadable entries are skipped. */
    method Scan() returns (listing: seq<Listed>)
      ensures Reports(listing, dir) && (reliable ==> ReportsAll(listing, dir))
    {
      listing := [];
      var todo := dir.Keys;
      while todo != {}
        invariant todo <= dir.Keys && Reports(listing, dir)
        invariant forall e :: e in listing ==> Bin(e.stem) !in todo
        invariant reliable ==> forall s :: Bin(s) in dir ==> Bin(s) in todo || Describe(s, dir[Bin(s)]) in listing
        decreases |todo|
      {
        var p :| p in todo;
        var skipped: bool := *;
        if p.Bin? && (reliable || !skipped) {
          listing := listing + [Describe(p.stem, dir[p])];
        }
        todo := todo - {p};
      }
    }

    /** The stems of the expired files among the first ones of a scan. */
    ghost function ExpiredStems(listing: seq<Listed>, now: int): set<Stem> {
      set e | e in listing && Expired(e, now) :: e.stem
    }

    method DropExpired(listing: seq<Listed>, now: int)
      requires Valid() && Reports(listing, dir)
      modifies this`dir, this`history
      ensures Valid() && Bounded(old(history), history, Stored(old(dir)))
      ensures var gone := ExpiredStems(listing, now); LostOnly(old(dir), gone, dir) && (reliable ==> AllGone(gone, dir))
    {
      for i := 0 to |listing|
        invariant Valid() && Bounded(old(history), history, Stored(old(dir)))
        invariant LostOnly(old(dir), ExpiredStems(listing[..i], now), dir)
        invariant reliable ==> AllGone(ExpiredStems(listing[..i], now), dir)
      {
        SmallerStores(dir, old(dir));
        assert listing[..i + 1] == listing[..i] + [listing[i]];
        if Expired(listing[i], now) {
          RemovePair(listing[i].stem);
          assert ExpiredStems(listing[..i + 1], now) == ExpiredStems(listing[..i], now) + {listing[i].stem};
        } else {
          assert ExpiredStems(listing[..i + 1], now) == ExpiredStems(listing[..i], now);
        }
      }
      assert listing[..|listing|] == listing;
    }

    /** `retain`: what still exists and has not expired. */
    method Retain(listing: seq<Listed>, now: int) returns (entries: seq<Listed>)
      requires forall e :: e in listing && !Expired(e, now) ==> Bin(e.stem) in dir
      ensures entries == Fresh(listing, now)
    {
      entries := [];
      for i := 0 to |listing|
        invariant entries == Fresh(listing[..i], now)
      {
        assert listing[..i + 1][..i] == listing[..i] && listing[..i + 1][i] == listing[i];
        if Bin(listing[i].stem) in dir && !Expired(listing[i], now) {
          entries := entries + [listing[i]];
        }
      }
      assert listing[..|listing|] == listing;
    }

    /** Delete from the front while the running total leaves no room. */
    method EvictOldest(entries: seq<Listed>, incoming: nat) returns (ghost k: nat)
      requires Valid()
      modifies this`dir, this`history
      ensures Valid() && Bounded(old(history), history, Stored(old(dir)))
      ensures k <= |entries| && Evict(entries, incoming) == entries[k..]
      ensures LostOnly(old(dir), Stems(entries[..k]), dir) && (reliable ==> AllGone(Stems(entries[..k]), dir))
    {
      var total := Bytes(entries);
      var i := 0;
      assert entries[0..] == entries;
      while i < |entries| && total + incoming > MAX_USER_CACHE_BYTES
        invariant i <= |entries| && Valid() && Bounded(old(history), history, Stored(old(dir)))
        invariant total == Bytes(entries[i..]) && Evict(entries, incoming) == Evict(entries[i..], incoming)
        invariant LostOnly(old(dir), Stems(entries[..i]), dir)
        invariant reliable ==> AllGone(Stems(entries[..i]), dir)
      {
        SmallerStores(dir, old(dir));
        RemovePair(entries[i].stem);
        assert entries[..i + 1] == entries[..i] + [entries[i]];
        assert Stems(entries[..i + 1]) == Stems(entries[..i]) + {entries[i].stem};
        assert entries[i..][1..] == entries[i + 1..];
        total := if total >= entries[i].size then total - entries[i].size else 0;
        i := i + 1;
      }
      k := i;
    }

    /** Make room for a file of `incoming` bytes. */
    method Cleanup(now: int, incoming: nat) returns (ghost listing: seq<Listed>)
      requires Valid()
      modifies this`dir, this`history
      ensures Valid() && Bounded(old(history), history, Stored(old(dir)))
      ensures Reports(listing, old(dir)) && (reliable ==> ReportsAll(listing, old(dir)))
      ensures LostOnly(old(dir), GivenUp(listing, now, incoming), dir)
      ensures reliable ==> AllGone(GivenUp(listing, now, incoming), dir)
    {
      var scanned := Scan();
      listing := scanned;
      DropExpired(scanned, now);
      StillThere(listing, now, old(dir), dir);
      SmallerStores(dir, old(dir));
      var entries := Retain(scanned, now);
      ghost var k := EvictOldest(SortBy(NotNewer, entries), incoming);
      GivenUpSplits(listing, now, incoming, old(dir), k);
    }

    lemma StillThere(listing: seq<Listed>, now: int, before: Directory, after: Directory)
      requires Reports(listing, before) && LostOnly(before, ExpiredStems(listing, now), after)
      ensures forall e :: e in listing && !Expired(e, now) ==> Bin(e.stem) in after
    {
    }

    lemma GivenUpSplits(listing: seq<Listed>, now: int, incoming: nat, before: Directory, k: nat)
      requires Reports(listing, before) && k <= |Ordered(listing, now)|
      requires Survivors(listing, now, incoming) == Ordered(listing, now)[k..]
      ensures GivenUp(listing, now, incoming) == ExpiredStems(listing, now) + Stems(Ordered(listing, now)[..k])
    {
      var ordered := Ordered(listing, now);
      OrderedMembers(listing, now);
      OrderedDistinct(listing, now);
      assert ordered == ordered[..k] + ordered[k..];
      assert forall e :: e in ordered[..k] ==> e !in ordered[k..];
    }

    // ---- Writing ----

    /** `write` to a temporary file; a failure may leave nothing or a part of it. */
    method WriteTemporary(p: Path, bytes: seq<bv8>, now: int) returns (ok: bool)
      requires Valid() && p.stem.Temporary?
      modifies this`dir, this`history
      ensures Valid() && Bounded(old(history), history, Stored(old(dir)) + if p.Bin? then |bytes| else 0)
      ensures ok ==> dir == old(dir)[p := File(bytes, now)]
      ensures dir == old(dir) || (p in dir && dir == old(dir)[p := dir[p]])
      ensures Stored(dir) <= Stored(old(dir)) + if p.Bin? then |bytes| else 0
    {
      var reached: int := *;
      assert dir in history;
      if 0 <= reached < |bytes| {
        PutStores(dir, p, File(bytes[..reached], now));
        Become(dir[p := File(bytes[..reached], now)]);
        return false;
      }
      ok := reached >= 0;
      if ok {
        PutStores(dir, p, File(bytes, now));
        Become(dir[p := File(bytes, now)]);
      }
    }

    /** Rename over the target; a target that cannot be replaced but exists is taken as success. */
    method Commit(from: Path, to: Path) returns (ok: bool, ghost renamed: bool)
      requires Valid() && from in dir && from.Bin? == to.Bin? && from.stem.Temporary? && to.stem.Entry?
      requires to.Json? ==> FromWrite(codec, to.stem.key, dir[from].bytes, written)
      modifies this`dir, this`history
      ensures Valid() && Bounded(old(history), history, Stored(old(dir))) && Stored(dir) <= Stored(old(dir))
      ensures renamed ==> ok && dir == (old(dir) - {from})[to := old(dir)[from]]
      ensures !renamed ==> (ok <==> to in old(dir)) && (dir == old(dir) || dir == old(dir) - {from})
    {
      var fails: bool := *;
      if !fails {
        RenameStores(dir, from, to);
        assert dir in history;
        Become((dir - {from})[to := dir[from]]);
        return true, true;
      }
      ok, renamed := to in dir, false;
      Remove(from);
      SmallerStores(dir, old(dir));
    }

    /**
    Keep an attachment. With a reliable sweep no directory on the way stores more than the quota, whichever
    operation fails; and when both renames happen, the two files are the attachment's.
    */
    method Write(key: string, suffix: string, a: Attachment, now: int)
      returns (ok: bool, ghost replaced: bool, ghost listing: seq<Listed>)
      requires Valid()
      modifies this`dir, this`written, this`history
      ensures Valid() && written == old(written) + {(key, a)}
      ensures |a.content| > MAX_RFC822_BYTES ==> !ok && dir == old(dir)
      ensures Reports(listing, old(dir))
      ensures Elsewhere(old(dir), GivenUp(listing, now, |a.content|), {Entry(key), Temporary(key, suffix)}, dir)
      ensures reliable && Stored(old(dir)) <= MAX_USER_CACHE_BYTES ==> Bounded(old(history), history, MAX_USER_CACHE_BYTES)
      ensures reliable && ok ==> Stored(dir) <= MAX_USER_CACHE_BYTES
      ensures replaced ==> ok && Bin(Entry(key)) in dir && dir[Bin(Entry(key))] == File(a.content, now)
      ensures replaced ==> Json(Entry(key)) in dir && dir[Json(Entry(key))] == File(codec.encode(MetadataOf(codec, a)), now)
    {
      written := written + {(key, a)};
      assert forall d :: d in history ==> Traceable(codec, d, written) by { MoreWritten(old(written), written); }
      ok, replaced, listing := false, false, [];
      if |a.content| > MAX_RFC822_BYTES {
        return;
      }
      var directoryFails: bool := *;
      if directoryFails {
        return;
      }
      listing := Cleanup(now, |a.content|);
      if reliable {
        SweptHasRoom(old(dir), listing, now, |a.content|, dir);
      }
      ok, replaced := Install(key, suffix, a, now);
    }

    lemma MoreWritten(less: set<(string, Attachment)>, more: set<(string, Attachment)>)
      requires less <= more && forall d :: d in history ==> Traceable(codec, d, less)
      ensures forall d :: d in history ==> Traceable(codec, d, more)
    {
      forall d: Directory, k | d in history && Json(Entry(k)) in d
        ensures FromWrite(codec, k, d[Json(Entry(k))].bytes, more)
      {
        assert Traceable(codec, d, less);
        assert FromWrite(codec, k, d[Json(Entry(k))].bytes, less);
      }
    }

    /** The part of a write that follows the sweep. */
    method Install(key: string, suffix: string, a: Attachment, now: int) returns (ok: bool, ghost replaced: bool)
      requires Valid() && (key, a) in written
      modifies this`dir, this`history
      ensures Valid() && Bounded(old(history), history, Stored(old(dir)) + |a.content|)
      ensures Stored(dir) <= Stored(old(dir)) + |a.content|
      ensures Elsewhere(old(dir), {}, {Entry(key), Temporary(key, suffix)}, dir)
      ensures replaced ==> ok && Bin(Entry(key)) in dir && dir[Bin(Entry(key))] == File(a.content, now)
      ensures replaced ==> Json(Entry(key)) in dir && dir[Json(Entry(key))] == File(codec.encode(MetadataOf(codec, a)), now)
    {
      ok, replaced := false, false;
      var staged := Stage(Temporary(key, suffix), a, now);
      if staged {
        ok, replaced := Publish(key, suffix, a);
      }
    }

    method Stage(s: Stem, a: Attachment, now: int) returns (ok: bool)
      requires Valid() && s.Temporary?
      modifies this`dir, this`history
      ensures Valid() && Bounded(old(history), history, Stored(old(dir)) + |a.content|)
      ensures Stored(dir) <= Stored(old(dir)) + |a.content|
      ensures Elsewhere(old(dir), {}, {s}, dir)
      ensures ok ==> Bin(s) in dir && dir[Bin(s)] == File(a.content, now)
      ensures ok ==> Json(s) in dir && dir[Json(s)] == File(codec.encode(MetadataOf(codec, a)), now)
    {
      ok := WriteTemporary(Bin(s), a.content, now);
      if !ok {
        return;
      }
      ok := WriteTemporary(Json(s), codec.encode(MetadataOf(codec, a)), now);
      var permissionsFail: bool := *;
      if permissionsFail {
        ok := false;
      }
    }

    /** First the content, then the metadata. */
    method Publish(key: string, suffix: string, a: Attachment) returns (ok: bool, ghost replaced: bool)
      requires Valid() && (key, a) in written
      requires Bin(Temporary(key, suffix)) in dir && Json(Temporary(key, suffix)) in dir
      requires dir[Json(Temporary(key, suffix))].bytes == codec.encode(MetadataOf(codec, a))
      modifies this`dir, this`history
      ensures Valid() && Bounded(old(history), history, Stored(old(dir))) && Stored(dir) <= Stored(old(dir))
      ensures Elsewhere(old(dir), {}, {Entry(key), Temporary(key, suffix)}, dir)
      ensures replaced ==> ok && Bin(Entry(key)) in dir && dir[Bin(Entry(key))] == old(dir)[Bin(Temporary(key, suffix))]
      ensures replaced ==> Json(Entry(key)) in dir && dir[Json(Entry(key))] == old(dir)[Json(Temporary(key, suffix))]
    {
      replaced := false;
      ghost var first, second := false, false;
      ok, first := Commit(Bin(Temporary(key, suffix)), Bin(Entry(key)));
      if !ok {
        return;
      }
      ok, second := Commit(Json(Temporary(key, suffix)), Json(Entry(key)));
      replaced := first && second;
    }

    // ---- Reading ----

    /** A read that finds nothing usable deletes what is there. */
    method Read(key: string, now: int) returns (r: Option<Attachment>)
      requires Valid()
      modifies this`dir, this`history
      ensures Valid() && Bounded(old(history), history, Stored(old(dir)))
      ensures r == Lookup(codec, old(dir), key, now)
      ensures r.Some? ==> dir == old(dir) && (key, r.value) in written
      ensures r.None? ==> LostOnly(old(dir), {Entry(key)}, dir) && (reliable ==> AllGone({Entry(key)}, dir))
    {
      r := Lookup(codec, dir, key, now);
      ghost var last := |history| - 1;
      ReadsAreWhole(codec, history, written, key, last, last, last, last, now);
      if r.None? && (Json(Entry(key)) in dir || Bin(Entry(key)) in dir) {
        Remove(Json(Entry(key)));
        SmallerStores(dir, old(dir));
        Remove(Bin(Entry(key)));
      }
    }
  }
}
