/** Attachment previews held in memory: quotas, expiry and ownership. */
module PreviewQuota {
  import opened Options
  import opened Sums

  const SECOND: nat := 1_000_000_000
  const PREVIEW_TTL: nat := 20 * 60 * SECOND
  const MAX_CACHE_BYTES: nat := 256 * 1024 * 1024
  const MAX_USER_CACHE_BYTES: nat := 100 * 1024 * 1024
  const USIZE_MAX: nat := 0xffff_ffff_ffff_ffff

  datatype Descriptor = Descriptor(archive: bool, filename: string, contentType: string)

  /** `createdAt` is a reading of the monotonic clock, in nanoseconds. */
  datatype Record = Record(owner: string, content: seq<bv8>, descriptor: Descriptor, createdAt: nat)

  type Records = map<string, Record>

  datatype Resource = Resource(bytes: seq<bv8>, filename: string, contentType: string)

  datatype Served = Ready(resource: Resource) | Missing | Unreadable

  predicate Young(r: Record, now: nat) {
    now - r.createdAt < PREVIEW_TTL
  }

  function SaturatingAdd(a: nat, b: nat): nat {
    if a + b <= USIZE_MAX then a + b else USIZE_MAX
  }

  // ---- Stored bytes ----

  /** What a record weighs for one owner, or for everybody. */
  function Weight(r: Record, owner: Option<string>): nat {
    if owner == None || owner == Some(r.owner) then |r.content| else 0
  }

  function Weights(records: Records, owner: Option<string>): map<string, nat> {
    map id | id in records :: Weight(records[id], owner)
  }

  ghost function Total(records: Records, owner: Option<string>): nat {
    Sum(Weights(records, owner))
  }

  lemma TotalWithout(records: Records, owner: Option<string>, id: string)
    requires id in records
    ensures Total(records, owner) == Weight(records[id], owner) + Total(records - {id}, owner)
  {
    SumWithout(Weights(records, owner), id);
    assert Weights(records - {id}, owner) == Weights(records, owner) - {id};
  }

  function OwnedBy(records: Records, owner: string): Records {
    map id | id in records && records[id].owner == owner :: records[id]
  }

  /** What counts for one owner is all that this owner's records hold, and nothing of the others'. */
  lemma {:induction false} OwnersShare(records: Records, owner: string)
    ensures Total(records, Some(owner)) == Total(OwnedBy(records, owner), None)
    decreases |records|
  {
    if records == map[] {
      assert OwnedBy(records, owner) == map[];
      assert Weights(records, Some(owner)) == Weights(OwnedBy(records, owner), None);
    } else {
      var id :| id in records;
      SizeWithout(records, id);
      OwnersShare(records - {id}, owner);
      TotalWithout(records, Some(owner), id);
      if records[id].owner == owner {
        TotalWithout(OwnedBy(records, owner), None, id);
        assert OwnedBy(records - {id}, owner) == OwnedBy(records, owner) - {id};
      } else {
        assert OwnedBy(records - {id}, owner) == OwnedBy(records, owner);
      }
    }
  }

  lemma OneWeighs(id: string, r: Record)
    ensures Total(map[id := r], None) == |r.content|
  {
    TotalWithout(map[id := r], None, id);
    assert map[id := r] - {id} == map[];
    assert Weights(map[], None) == map[];
  }

  lemma FewerWeighLess(some: Records, all: Records, owner: Option<string>)
    requires some.Keys <= all.Keys && forall id :: id in some ==> some[id] == all[id]
    ensures Total(some, owner) <= Total(all, owner)
  {
    SumFewer(Weights(some, owner), Weights(all, owner));
  }

  lemma TotalInsert(records: Records, owner: Option<string>, id: string, r: Record)
    ensures Total(records[id := r], owner) <= Total(records, owner) + Weight(r, owner)
  {
    SumInsert(Weights(records, owner), id, Weight(r, owner));
    assert Weights(records[id := r], owner) == Weights(records, owner)[id := Weight(r, owner)];
  }

  ghost predicate WithinQuotas(records: Records) {
    && Total(records, None) <= MAX_CACHE_BYTES
    && forall owner :: Total(records, Some(owner)) <= MAX_USER_CACHE_BYTES
  }

  lemma FewerWithinQuotas(some: Records, all: Records)
    requires WithinQuotas(all) && some.Keys <= all.Keys && forall id :: id in some ==> some[id] == all[id]
    ensures WithinQuotas(some)
  {
    FewerWeighLess(some, all, None);
    forall owner
      ensures Total(some, Some(owner)) <= MAX_USER_CACHE_BYTES
    {
      FewerWeighLess(some, all, Some(owner));
    }
  }

  lemma InsertWithinQuotas(records: Records, id: string, r: Record)
    requires WithinQuotas(records)
    requires Total(records, None) + |r.content| <= MAX_CACHE_BYTES
    requires Total(records, Some(r.owner)) + |r.content| <= MAX_USER_CACHE_BYTES
    ensures WithinQuotas(records[id := r])
  {
    TotalInsert(records, None, id, r);
    forall owner
      ensures Total(records[id := r], Some(owner)) <= MAX_USER_CACHE_BYTES
    {
      TotalInsert(records, Some(owner), id, r);
    }
  }

  /** The sums of the creation request, record by record in any order. */
  method Bytes(records: Records, owner: Option<string>) returns (n: nat)
    ensures n == Total(records, owner)
  {
    n := 0;
    var rest := records;
    while rest != map[]
      invariant n + Total(rest, owner) == Total(records, owner)
      decreases |rest|
    {
      var id :| id in rest;
      TotalWithout(rest, owner, id);
      n := n + Weight(rest[id], owner);
      rest := rest - {id};
    }
  }

  // ---- Expiry ----

  /**
  A sweep between two readings of the clock: it keeps records as they are, it keeps every record still
  young at the end, and what it keeps was young at the start.
  */
  ghost predicate Swept(before: Records, after: Records, start: nat, end: nat) {
    && after.Keys <= before.Keys
    && (forall id :: id in after ==> after[id] == before[id] && Young(after[id], start))
    && (forall id :: id in before && Young(before[id], end) ==> id in after)
  }

  // ---- The state ----

  class PreviewState {
    var records: Records
    var clock: nat
    const readEntry: (seq<bv8>, string) -> Option<Resource>
    /** Every preview created and not removed, however old. */
    ghost var live: Records

    ghost predicate Valid()
      reads this
    {
      && WithinQuotas(records)
      && records.Keys <= live.Keys
      && (forall id :: id in records ==> records[id] == live[id])
      && (forall id :: id in live && Young(live[id], clock) ==> id in records)
    }

    /** The caller created this preview and it has not expired at time `t`. */
    ghost predicate Entitled(owner: string, id: string, t: nat)
      reads this
    {
      id in live && live[id].owner == owner && Young(live[id], t)
    }

    constructor (readEntry: (seq<bv8>, string) -> Option<Resource>)
      ensures Valid() && live == map[]
    {
      this.readEntry := readEntry;
      records, clock, live := map[], 0, map[];
    }

    /** Time passes. */
    method Tick()
      requires Valid()
      modifies this`clock
      ensures Valid() && clock >= old(clock)
    {
      var reading: int := *;
      clock := if reading > clock then reading else clock;
    }

    /** Drop what has outlived its time; the clock is read again for each record. */
    method Cleanup()
      requires Valid()
      modifies this`records, this`clock
      ensures Valid() && clock >= old(clock)
      ensures Swept(old(records), records, old(clock), clock)
    {
      var todo := records.Keys;
      while todo != {}
        invariant Valid()
        invariant todo <= records.Keys <= old(records).Keys && clock >= old(clock)
        invariant forall id :: id in records ==> records[id] == old(records)[id]
        invariant forall id :: id in records - todo ==> Young(records[id], old(clock))
        invariant forall id :: id in old(records) && Young(old(records)[id], clock) ==> id in records
        decreases |todo|
      {
        var id :| id in todo;
        Tick();
        if !Young(records[id], clock) {
          FewerWithinQuotas(records - {id}, records);
          records := records - {id};
        }
        todo := todo - {id};
      }
    }

    /**
    Keep a new preview under `id` if both quotas allow. The record was stamped before the lock was taken.
    A repeated identifier would replace the older preview; the quotas hold even then.
    */
    method Create(id: string, record: Record) returns (ok: bool, ghost kept: Records)
      requires Valid() && record.createdAt <= clock
      modifies this
      ensures Valid() && clock >= old(clock)
      ensures Swept(old(records), kept, old(clock), clock)
      ensures ok <==> Total(kept, None) + |record.content| <= MAX_CACHE_BYTES
                      && Total(kept, Some(record.owner)) + |record.content| <= MAX_USER_CACHE_BYTES
      ensures records == if ok then kept[id := record] else kept
      ensures live == if ok then old(live)[id := record] else old(live)
    {
      Cleanup();
      kept := records;
      var globalBytes := Bytes(records, None);
      var userBytes := Bytes(records, Some(record.owner));
      if SaturatingAdd(globalBytes, |record.content|) > MAX_CACHE_BYTES
         || SaturatingAdd(userBytes, |record.content|) > MAX_USER_CACHE_BYTES {
        return false, kept;
      }
      InsertWithinQuotas(records, id, record);
      records := records[id := record];
      live := live[id := record];
      ok := true;
    }

    method RemoveFor(owner: string, id: string) returns (ok: bool)
      requires Valid()
      modifies this
      ensures Valid() && clock >= old(clock)
      ensures id in old(live) && old(live)[id].owner == owner && Young(old(live)[id], clock) ==> ok
      ensures ok ==> old(Entitled(owner, id, clock))
      ensures live == if ok then old(live) - {id} else old(live)
      ensures ok ==> id !in records
    {
      Cleanup();
      ok := id in records && records[id].owner == owner;
      if ok {
        FewerWithinQuotas(records - {id}, records);
        records, live := records - {id}, live - {id};
      }
    }

    /** What the creator of a record is served. */
    function Serve(r: Record, entry: Option<string>): Served {
      match entry
      case None => Ready(Resource(r.content, r.descriptor.filename, r.descriptor.contentType))
      case Some(e) =>
        if !r.descriptor.archive then Missing
        else match readEntry(r.content, e)
          case None => Unreadable
          case Some(found) => Ready(found)
    }

    /**
    The bytes stored at creation, to their creator, while they are young: refused if they were not at the start,
    served if they still are at the end.
    */
    method ResourceFor(owner: string, id: string, entry: Option<string>) returns (r: Served)
      requires Valid()
      modifies this`records, this`clock
      ensures Valid() && clock >= old(clock) && Swept(old(records), records, old(clock), clock)
      ensures Entitled(owner, id, clock) ==> r == Serve(live[id], entry)
      ensures !Entitled(owner, id, old(clock)) ==> r == Missing
      ensures r != Missing ==> id in live && r == Serve(live[id], entry)
    {
      Cleanup();
      if id !in records || records[id].owner != owner {
        return Missing;
      }
      r := Serve(records[id], entry);
    }
  }
}
