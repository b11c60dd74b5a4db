/** Downloaded attachments of one user, kept on disk as a content file and a metadata file each. */
module AttachmentCache {
  import opened Options
  import opened Eviction
  import opened Ordering
  import opened Sums

  const CACHE_SCHEMA_VERSION: nat := 1
  const MAX_METADATA_BYTES: nat := 16 * 1024
  const MAX_RFC822_BYTES: nat := 50 * 1024 * 1024

  datatype Attachment = Attachment(content: seq<bv8>, filename: string, contentType: string)

  datatype Metadata = Metadata(schemaVersion: nat, filename: string, contentType: string, size: nat, sha256: string)

  datatype File = File(bytes: seq<bv8>, modified: int)

  datatype Path = Bin(stem: Stem) | Json(stem: Stem)

  type Directory = map<Path, File>

  /** SHA-256 and the JSON codec. */
  datatype Codec = Codec(digest: seq<bv8> -> string, encode: Metadata -> seq<bv8>, decode: seq<bv8> -> Option<Metadata>)

  ghost predicate Sound(c: Codec) {
    && (forall x, y :: c.digest(x) == c.digest(y) ==> x == y)
    && (forall m :: c.decode(c.encode(m)) == Some(m))
  }

  function MetadataOf(c: Codec, a: Attachment): Metadata {
    Metadata(CACHE_SCHEMA_VERSION, a.filename, a.contentType, |a.content|, c.digest(a.content))
  }

  // ---- Reading ----

  function Look(d: Directory, p: Path): Option<File> {
    if p in d then Some(d[p]) else None
  }

  predicate Usable(f: Option<File>, limit: nat, now: int) {
    f.Some? && |f.value.bytes| <= limit && Age(now, f.value.modified) <= CACHE_TTL
  }

  /** What a read makes of four looks at the directory: both sizes and ages, then both contents. */
  function ReadValid(c: Codec, metadataInfo: Option<File>, contentInfo: Option<File>, metadataFile: Option<File>,
                     contentFile: Option<File>, now: int): Option<Attachment>
  {
    if !Usable(metadataInfo, MAX_METADATA_BYTES, now) || !Usable(contentInfo, MAX_RFC822_BYTES, now)
       || metadataFile.None? || contentFile.None? then None
    else match c.decode(metadataFile.value.bytes)
      case None => None
      case Some(m) =>
        if m.schemaVersion != CACHE_SCHEMA_VERSION || m.size != |contentInfo.value.bytes| then None
        else if c.digest(contentFile.value.bytes) != m.sha256 then None
        else Some(Attachment(contentFile.value.bytes, m.filename, m.contentType))
  }

  /** A read that nothing interrupts. */
  function Lookup(c: Codec, d: Directory, key: string, now: int): Option<Attachment> {
    var metadata, content := Look(d, Json(Entry(key))), Look(d, Bin(Entry(key)));
    ReadValid(c, metadata, content, metadata, content, now)
  }

  /** Whatever the other three looks saw, metadata written for an attachment yields that attachment or nothing. */
  lemma WholeOrNothing(c: Codec, metadataInfo: Option<File>, contentInfo: Option<File>, metadataFile: Option<File>,
                       contentFile: Option<File>, now: int, a: Attachment)
    requires Sound(c) && metadataFile.Some? && metadataFile.value.bytes == c.encode(MetadataOf(c, a))
    ensures var r := ReadValid(c, metadataInfo, contentInfo, metadataFile, contentFile, now);
      r.Some? ==> r.value == a && contentInfo.Some? && |contentInfo.value.bytes| == |a.content| <= MAX_RFC822_BYTES
  {
    assert c.decode(metadataFile.value.bytes) == Some(MetadataOf(c, a));
  }

  /** The pair a write leaves reads back exactly when neither file is too large or too old. */
  lemma RoundTripExactly(c: Codec, d: Directory, key: string, a: Attachment, now: int)
    requires Sound(c) && Json(Entry(key)) in d && Bin(Entry(key)) in d
    requires d[Json(Entry(key))].bytes == c.encode(MetadataOf(c, a)) && d[Bin(Entry(key))].bytes == a.content
    ensures var m, b := d[Json(Entry(key))], d[Bin(Entry(key))];
      Lookup(c, d, key, now) == Some(a)
      <==> |m.bytes| <= MAX_METADATA_BYTES && |a.content| <= MAX_RFC822_BYTES
           && Age(now, m.modified) <= CACHE_TTL && Age(now, b.modified) <= CACHE_TTL
  {
    assert c.decode(d[Json(Entry(key))].bytes) == Some(MetadataOf(c, a));
  }

  /** Every committed metadata file was written for an attachment of its key. */
  ghost predicate Traceable(c: Codec, d: Directory, written: set<(string, Attachment)>) {
    forall key :: Json(Entry(key)) in d ==> FromWrite(c, key, d[Json(Entry(key))].bytes, written)
  }

  ghost predicate FromWrite(c: Codec, key: string, bytes: seq<bv8>, written: set<(string, Attachment)>) {
    exists a :: (key, a) in written && bytes == c.encode(MetadataOf(c, a))
  }

  /**
  A read whose four looks fall at any instants of a history, with writes, sweeps and other reads in between,
  returns an attachment that was written whole under its key, or nothing.
  */
  lemma ReadsAreWhole(c: Codec, history: seq<Directory>, written: set<(string, Attachment)>, key: string,
                      i: nat, j: nat, k: nat, l: nat, now: int)
    requires Sound(c) && i < |history| && j < |history| && k < |history| && l < |history|
    requires forall d :: d in history ==> Traceable(c, d, written)
    ensures var r := ReadValid(c, Look(history[i], Json(Entry(key))), Look(history[j], Bin(Entry(key))),
                               Look(history[k], Json(Entry(key))), Look(history[l], Bin(Entry(key))), now);
      r.Some? ==> (key, r.value) in written
  {
    if Json(Entry(key)) in history[k] {
      assert Traceable(c, history[k], written);
      var a :| (key, a) in written && history[k][Json(Entry(key))].bytes == c.encode(MetadataOf(c, a));
      WholeOrNothing(c, Look(history[i], Json(Entry(key))), Look(history[j], Bin(Entry(key))),
                     Look(history[k], Json(Entry(key))), Look(history[l], Bin(Entry(key))), now, a);
    }
  }

  // ---- Bytes stored ----

  function Sizes(d: Directory): map<Path, nat> {
    map p | p in d && p.Bin? :: |d[p].bytes|
  }

  /** Bytes of all content files, temporary ones included. */
  ghost function Stored(d: Directory): nat {
    Sum(Sizes(d))
  }

  /** `after` is `before` without some of its files. */
  ghost predicate Smaller(after: Directory, before: Directory) {
    after.Keys <= before.Keys && forall p :: p in after ==> after[p] == before[p]
  }

  lemma SmallerStores(after: Directory, before: Directory)
    requires Smaller(after, before)
    ensures Stored(after) <= Stored(before)
  {
    SumFewer(Sizes(after), Sizes(before));
  }

  lemma PutStores(d: Directory, p: Path, f: File)
    ensures Stored(d[p := f]) <= Stored(d) + if p.Bin? then |f.bytes| else 0
  {
    if p.Bin? {
      SumInsert(Sizes(d), p, |f.bytes|);
      assert Sizes(d[p := f]) == Sizes(d)[p := |f.bytes|];
    } else {
      assert Sizes(d[p := f]) == Sizes(d);
    }
  }

  lemma RenameStores(d: Directory, from: Path, to: Path)
    requires from in d && from.Bin? == to.Bin?
    ensures Stored((d - {from})[to := d[from]]) <= Stored(d)
  {
    PutStores(d - {from}, to, d[from]);
    if from.Bin? {
      StoredWithout(d, from);
    } else {
      assert Sizes(d - {from}) == Sizes(d);
    }
  }

  // ---- Scanning ----

  function Describe(s: Stem, f: File): Listed {
    Listed(s, |f.bytes|, f.modified)
  }

  /** What a scan may report: content files, each at most once. */
  ghost predicate Reports(listing: seq<Listed>, d: Directory) {
    Distinct(listing) && forall e :: e in listing ==> Bin(e.stem) in d && e == Describe(e.stem, d[Bin(e.stem)])
  }

  ghost predicate ReportsAll(listing: seq<Listed>, d: Directory) {
    forall s :: Bin(s) in d ==> Describe(s, d[Bin(s)]) in listing
  }

  lemma {:induction false} ReportedBytes(listing: seq<Listed>, d: Directory)
    requires Reports(listing, d) && ReportsAll(listing, d)
    ensures Bytes(listing) == Stored(d)
    decreases |listing|
  {
    if listing == [] {
      assert Sizes(d) == map[];
    } else {
      var p := Bin(listing[0].stem);
      RestReported(listing, d);
      StoredWithout(d, p);
      ReportedBytes(listing[1..], d - {p});
    }
  }

  lemma StoredWithout(d: Directory, p: Path)
    requires p.Bin? && p in d
    ensures Stored(d) == |d[p].bytes| + Stored(d - {p})
  {
    SumWithout(Sizes(d), p);
    assert Sizes(d - {p}) == Sizes(d) - {p};
  }

  lemma RestReported(listing: seq<Listed>, d: Directory)
    requires listing != [] && Reports(listing, d) && ReportsAll(listing, d)
    ensures var p := Bin(listing[0].stem);
      && p in d && listing[0] == Describe(listing[0].stem, d[p])
      && Reports(listing[1..], d - {p}) && ReportsAll(listing[1..], d - {p})
  {
    var first, rest := listing[0], listing[1..];
    assert listing == [first] + rest && first in listing;
    forall e | e in rest
      ensures e in listing && e.stem != first.stem
    {
      var i :| 0 <= i < |rest| && rest[i] == e;
      assert listing[i + 1] == e;
    }
  }

  lemma {:induction false} FreshDistinct(listing: seq<Listed>, now: int)
    requires Distinct(listing)
    ensures Distinct(Fresh(listing, now))
    decreases |listing|
  {
    if listing == [] {
    } else {
      var front, last := listing[..|listing| - 1], listing[|listing| - 1];
      FreshDistinct(front, now);
      FreshMembers(front, now);
      assert listing == front + [last];
      assert last !in front;
    }
  }

  lemma OrderedDistinct(listing: seq<Listed>, now: int)
    requires Distinct(listing)
    ensures Distinct(Ordered(listing, now))
  {
    FreshDistinct(listing, now);
    OrderedIsSorted(listing, now);
    DistinctArranged(Fresh(listing, now), Ordered(listing, now));
  }

  // ---- Sweeping ----

  /** No file outside the stems given up is lost, and no file changes. */
  ghost predicate LostOnly(before: Directory, gone: set<Stem>, after: Directory) {
    Smaller(after, before) && forall p :: p in before && p.stem !in gone ==> p in after
  }

  ghost predicate AllGone(gone: set<Stem>, d: Directory) {
    forall p :: p in d ==> p.stem !in gone
  }

  function Stems(s: seq<Listed>): set<Stem> {
    set e | e in s :: e.stem
  }

  /** The stems a sweep gives up. */
  function GivenUp(listing: seq<Listed>, now: int, incoming: nat): set<Stem> {
    Stems(listing) - Stems(Survivors(listing, now, incoming))
  }

  /** After a complete sweep the incoming file has room, unless it is too large for an empty cache. */
  lemma SweptHasRoom(before: Directory, listing: seq<Listed>, now: int, incoming: nat, after: Directory)
    requires Reports(listing, before) && ReportsAll(listing, before)
    requires var gone := GivenUp(listing, now, incoming); LostOnly(before, gone, after) && AllGone(gone, after)
    requires incoming <= MAX_USER_CACHE_BYTES
    ensures Stored(after) + incoming <= MAX_USER_CACHE_BYTES
  {
    var kept := Survivors(listing, now, incoming);
    var k := SweepIsMinimal(listing, now, incoming);
    OrderedDistinct(listing, now);
    assert forall e :: e in kept ==> e in Ordered(listing, now);
    SurvivorsReported(before, listing, now, incoming, after);
    ReportedBytes(kept, after);
  }

  lemma SurvivorsReported(before: Directory, listing: seq<Listed>, now: int, incoming: nat, after: Directory)
    requires Reports(listing, before) && ReportsAll(listing, before)
    requires var gone := GivenUp(listing, now, incoming); LostOnly(before, gone, after) && AllGone(gone, after)
    ensures Reports(Survivors(listing, now, incoming), after) && ReportsAll(Survivors(listing, now, incoming), after)
  {
    var kept := Survivors(listing, now, incoming);
    var k := SweepIsMinimal(listing, now, incoming);
    OrderedDistinct(listing, now);
    forall e | e in kept
      ensures Bin(e.stem) in after && e == Describe(e.stem, after[Bin(e.stem)])
    {
      assert e in Ordered(listing, now) && e in listing;
      assert e.stem in Stems(kept);
    }
    forall s | Bin(s) in after
      ensures Describe(s, after[Bin(s)]) in kept
    {
      assert Describe(s, before[Bin(s)]) in listing;
      assert s in Stems(kept);
      var e :| e in kept && e.stem == s;
      assert e in Ordered(listing, now) && e in listing;
    }
  }
}
