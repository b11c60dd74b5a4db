/** Rebuilding the contact list from all messages and the logos of the previous list. */
module Contacts {
  import opened Options
  import opened Text
  import opened Ordering

  datatype Logo = Logo(key: string, contentType: Option<string>, sourceUrl: Option<string>, fetchedAt: Option<string>)

  /** A contact; the three logo details count only together with a logo key. */
  datatype Contact = Contact(
    ownerId: string, address: string, name: string, messageCount: nat, lastContactAt: string, logo: Option<Logo>)

  /** A sender or recipient as the stored JSON gives it. */
  datatype Party = Party(address: Option<string>, name: Option<string>)

  datatype Message = Message(date: string, from: Party, to: Option<seq<Party>>)

  datatype Participant = Participant(name: string, address: string)

  datatype Domain = Domain(hostname: string, registrable: string)

  datatype LogoKeys = LogoKeys(exact: string, root: string)

  /** Lower-casing and the public suffix list. */
  datatype Env = Env(lower: string -> string, registrable: string -> Option<string>)

  // ---- Logo keys ----

  /** The index behind the last `@`, or none. */
  function AfterAt(address: string): Option<string>
    decreases |address|
  {
    if address == "" then None
    else if address[|address| - 1] == '@' then Some("")
    else match AfterAt(address[..|address| - 1])
      case None => None
      case Some(host) => Some(host + [address[|address| - 1]])
  }

  function TrimDots(s: string): string
    decreases |s|
  {
    if s != "" && s[|s| - 1] == '.' then TrimDots(s[..|s| - 1]) else s
  }

  /** `contact_domain`: a host the suffix list does not know stands for itself. */
  function DomainOf(env: Env, address: string): Option<Domain> {
    match AfterAt(address)
    case None => None
    case Some(host) =>
      var hostname := env.lower(TrimDots(Trim(host)));
      if hostname == "" || exists i :: 0 <= i < |hostname| && !AsciiAlnum(hostname[i]) && hostname[i] != '.' && hostname[i] != '-'
      then None
      else
        var known := env.registrable(hostname);
        Some(Domain(hostname, if known.Some? then known.value else hostname))
  }

  /** `contact_logo_keys`. */
  function KeysOf(env: Env, address: string): Option<LogoKeys> {
    match DomainOf(env, address)
    case None => None
    case Some(domain) => Some(KeysFor(domain))
  }

  function KeysFor(domain: Domain): LogoKeys {
    LogoKeys("domain:" + domain.hostname, "domain:" + domain.registrable)
  }

  // ---- Participants ----

  function PartyOf(p: Party): seq<Participant> {
    if p.address.Some? then [Participant(if p.name.Some? then p.name.value else "", p.address.value)] else []
  }

  function PartiesOf(ps: seq<Party>): seq<Participant>
    decreases |ps|
  {
    if ps == [] then [] else PartyOf(ps[0]) + PartiesOf(ps[1..])
  }

  function Participants(m: Message): seq<Participant> {
    PartyOf(m.from) + if m.to.Some? then PartiesOf(m.to.value) else []
  }

  // ---- One reconciliation ----

  /** What one run looks things up in. */
  datatype Context = Context(
    env: Env, userId: string, own: set<string>, previous: map<string, Contact>, logos: map<string, Logo>)

  /** `previous_by_address`: the last entry of an address wins. */
  function ByAddress(env: Env, previous: seq<Contact>): map<string, Contact>
    decreases |previous|
  {
    if previous == [] then map[]
    else
      var last := previous[|previous| - 1];
      ByAddress(env, previous[..|previous| - 1])[env.lower(last.address) := last]
  }

  /** `logo_by_key`: the last entry of a key wins. */
  function ByLogoKey(previous: seq<Contact>): map<string, Logo>
    decreases |previous|
  {
    if previous == [] then map[]
    else
      var last, rest := previous[|previous| - 1].logo, ByLogoKey(previous[..|previous| - 1]);
      if last.Some? then rest[last.value.key := last.value] else rest
  }

  function ContextOf(env: Env, userId: string, ownAddresses: seq<string>, previous: seq<Contact>): Context {
    Context(env, userId, set a | a in ownAddresses :: env.lower(Trim(a)), ByAddress(env, previous), ByLogoKey(previous))
  }

  function SelectLogo(logos: map<string, Logo>, keys: Option<LogoKeys>, prior: Option<Logo>): Option<Logo> {
    if keys.None? then prior
    else if keys.value.exact in logos then Some(logos[keys.value.exact])
    else if prior.Some? && prior.value.key == keys.value.exact then prior
    else if keys.value.root in logos then Some(logos[keys.value.root])
    else prior
  }

  function Previous(ctx: Context, key: string): Option<Contact> {
    if key in ctx.previous then Some(ctx.previous[key]) else None
  }

  function LogoOf(c: Option<Contact>): Option<Logo> {
    if c.Some? then c.value.logo else None
  }

  /** The contact of one key after one more message. */
  function Update(ctx: Context, key: string, current: Option<Contact>, date: string, name: string, address: string): Contact {
    var before := Previous(ctx, key);
    var latest := current.None? || Less(current.value.lastContactAt, date);
    var prior := if LogoOf(current).Some? then LogoOf(current) else LogoOf(before);
    Contact(
      ctx.userId,
      if latest then address else current.value.address,
      if !latest then current.value.name
      else if Trim(name) != "" then Trim(name)
      else if current.Some? then current.value.name
      else if before.Some? then before.value.name
      else "",
      if current.Some? then current.value.messageCount + 1 else 1,
      if current.Some? && Less(date, current.value.lastContactAt) then current.value.lastContactAt else date,
      SelectLogo(ctx.logos, KeysOf(ctx.env, address), prior))
  }

  type Book = map<string, Contact>

  function At(book: Book, key: string): Option<Contact> {
    if key in book then Some(book[key]) else None
  }

  function KeyOf(env: Env, p: Participant): string {
    env.lower(Trim(p.address))
  }

  predicate Skipped(ctx: Context, p: Participant, seen: set<string>) {
    Trim(p.address) == "" || KeyOf(ctx.env, p) in ctx.own || KeyOf(ctx.env, p) in seen
  }

  function Visit(ctx: Context, book: Book, date: string, p: Participant): Book {
    var key := KeyOf(ctx.env, p);
    book[key := Update(ctx, key, At(book, key), date, p.name, Trim(p.address))]
  }

  /** The participants of one message, each address once. */
  function VisitAll(ctx: Context, book: Book, date: string, ps: seq<Participant>, seen: set<string>): Book
    decreases |ps|
  {
    if ps == [] then book
    else if Skipped(ctx, ps[0], seen) then VisitAll(ctx, book, date, ps[1..], seen)
    else VisitAll(ctx, Visit(ctx, book, date, ps[0]), date, ps[1..], seen + {KeyOf(ctx.env, ps[0])})
  }

  /** All messages, in order. */
  function Fold(ctx: Context, messages: seq<Message>): Book
    decreases |messages|
  {
    if messages == [] then map[]
    else
      var last := messages[|messages| - 1];
      VisitAll(ctx, Fold(ctx, messages[..|messages| - 1]), last.date, Participants(last), {})
  }

  // ---- The order of the result ----

  /** Most recent first, then most messages, then by address. */
  predicate Before(a: Contact, b: Contact) {
    || Less(b.lastContactAt, a.lastContactAt)
    || (a.lastContactAt == b.lastContactAt &&
        (a.messageCount > b.messageCount || (a.messageCount == b.messageCount && Less(a.address, b.address))))
  }

  /** The contacts of the book, in whatever order. */
  ghost predicate Holds(book: Book, s: seq<Contact>) {
    (forall key :: key in book ==> book[key] in s) && (forall c :: c in s ==> exists key :: key in book && book[key] == c)
  }

  /** The contacts of the book, strictly ordered. */
  ghost predicate Lists(book: Book, s: seq<Contact>) {
    InOrder(Before, s) && Holds(book, s)
  }

  lemma BeforeTransitive(a: Contact, b: Contact, c: Contact)
    requires Before(a, b) && Before(b, c)
    ensures Before(a, c)
  {
    if Less(b.lastContactAt, a.lastContactAt) && Less(c.lastContactAt, b.lastContactAt) {
      LessTransitive(c.lastContactAt, b.lastContactAt, a.lastContactAt);
    } else if a.lastContactAt == b.lastContactAt == c.lastContactAt && a.messageCount == b.messageCount == c.messageCount {
      LessTransitive(a.address, b.address, c.address);
    }
  }

  lemma BeforeTotal(a: Contact, b: Contact)
    ensures Before(a, b) || Before(b, a) ||
      (a.lastContactAt == b.lastContactAt && a.messageCount == b.messageCount && a.address == b.address)
    ensures !(Before(a, b) && Before(b, a))
  {
    LessTotal(a.lastContactAt, b.lastContactAt);
    LessTotal(a.address, b.address);
  }

  lemma BeforeIsWeakOrder()
    ensures WeakOrder(Before)
  {
    forall x, y
      ensures Before(x, y) ==> !Before(y, x)
    {
      BeforeTotal(x, y);
    }
    forall x, y, z | !Before(y, x) && !Before(z, y)
      ensures !Before(z, x)
    {
      NotAfterStep(x, y, z);
    }
  }

  lemma NotAfterStep(x: Contact, y: Contact, z: Contact)
    requires !Before(y, x) && !Before(z, y)
    ensures !Before(z, x)
  {
    BeforeTotal(x, y);
    BeforeTotal(y, z);
    if Before(z, x) {
      if Before(x, y) {
        BeforeTransitive(z, x, y);
      } else if Before(y, z) {
        BeforeTransitive(y, z, x);
      }
    }
  }

  /** Whatever order the hash map yields its values in, there is only one result. */
  lemma ListingUnique(book: Book, s: seq<Contact>, s': seq<Contact>)
    requires Lists(book, s) && Lists(book, s')
    ensures s == s'
  {
    BeforeIsWeakOrder();
    InOrderUnique(Before, s, s');
  }

  // ---- The book holds each contact under its own address ----

  ghost predicate Keyed(env: Env, book: Book) {
    forall key :: key in book ==> env.lower(book[key].address) == key
  }

  lemma {:induction false} VisitAllKeyed(ctx: Context, book: Book, date: string, ps: seq<Participant>, seen: set<string>)
    requires Keyed(ctx.env, book)
    ensures Keyed(ctx.env, VisitAll(ctx, book, date, ps, seen))
    decreases |ps|
  {
    if ps == [] {
    } else {
      if Skipped(ctx, ps[0], seen) {
        VisitAllKeyed(ctx, book, date, ps[1..], seen);
      } else {
        VisitAllKeyed(ctx, Visit(ctx, book, date, ps[0]), date, ps[1..], seen + {KeyOf(ctx.env, ps[0])});
      }
    }
  }

  lemma {:induction false} FoldKeyed(ctx: Context, messages: seq<Message>)
    ensures Keyed(ctx.env, Fold(ctx, messages))
    decreases |messages|
  {
    if messages == [] {
    } else {
      var front, last := messages[..|messages| - 1], messages[|messages| - 1];
      FoldKeyed(ctx, front);
      VisitAllKeyed(ctx, Fold(ctx, front), last.date, Participants(last), {});
    }
  }

  // ---- reconcile_contacts_for_addresses ----

  method Reconcile(env: Env, userId: string, ownAddresses: seq<string>, messages: seq<Message>, previous: seq<Contact>)
    returns (values: seq<Contact>)
    ensures Lists(Fold(ContextOf(env, userId, ownAddresses, previous), messages), values)
  {
    var ctx := ContextOf(env, userId, ownAddresses, previous);
    var contacts: Book := map[];
    for i := 0 to |messages|
      invariant contacts == Fold(ctx, messages[..i])
    {
      var message := messages[i];
      assert messages[..i + 1][..i] == messages[..i];
      ghost var start := contacts;
      var seen: set<string> := {};
      var ps := Participants(message);
      for j := 0 to |ps|
        invariant VisitAll(ctx, start, message.date, ps, {}) == VisitAll(ctx, contacts, message.date, ps[j..], seen)
      {
        var p := ps[j];
        assert ps[j..][0] == p && ps[j..][1..] == ps[j + 1..];
        if !Skipped(ctx, p, seen) {
          seen := seen + {KeyOf(env, p)};
          contacts := Visit(ctx, contacts, message.date, p);
        }
      }
    }
    assert messages[..|messages|] == messages;
    FoldKeyed(ctx, messages);
    values := SortedValues(env, contacts);
  }

  /** Collect the values in whatever order the map yields its keys, then sort. */
  method SortedValues(ghost env: Env, book: Book) returns (values: seq<Contact>)
    requires Keyed(env, book)
    ensures Lists(book, values)
  {
    var keys, unsorted := book.Keys, [];
    ghost var taken: seq<string> := [];
    while keys != {}
      invariant keys <= book.Keys && (forall k :: k in book <==> k in keys || k in taken)
      invariant (forall k :: k in taken ==> k !in keys) && Distinct(taken) && |taken| == |unsorted|
      invariant forall i :: 0 <= i < |taken| ==> taken[i] in book && unsorted[i] == book[taken[i]]
      decreases keys
    {
      var k :| k in keys;
      keys := keys - {k};
      taken := taken + [k];
      unsorted := unsorted + [book[k]];
    }
    values := SortBy(NotAfter(Before), unsorted);
    SortedLists(env, book, taken, unsorted);
  }

  lemma SortedLists(env: Env, book: Book, keys: seq<string>, unsorted: seq<Contact>)
    requires Keyed(env, book) && Distinct(keys) && |keys| == |unsorted| && (forall k :: k in book <==> k in keys)
    requires forall i :: 0 <= i < |keys| ==> keys[i] in book && unsorted[i] == book[keys[i]]
    ensures Lists(book, SortBy(NotAfter(Before), unsorted))
  {
    AddressesDiffer(env, book, keys, unsorted);
    ContactsInOrder(unsorted);
    SameMembers(SortBy(NotAfter(Before), unsorted), unsorted);
    ValuesCovered(book, keys, unsorted);
  }

  lemma ContactsInOrder(unsorted: seq<Contact>)
    requires AddressesTell(unsorted) && Distinct(unsorted)
    ensures var s := SortBy(NotAfter(Before), unsorted); InOrder(Before, s) && multiset(s) == multiset(unsorted)
  {
    BeforeIsWeakOrder();
    forall a, b | a in unsorted && b in unsorted && a != b
      ensures Before(a, b) || Before(b, a)
    {
      OrderedPair(unsorted, a, b);
    }
    SortInOrder(Before, unsorted);
  }

  lemma ValuesCovered(book: Book, keys: seq<string>, unsorted: seq<Contact>)
    requires |keys| == |unsorted| && (forall k :: k in book <==> k in keys)
    requires forall i :: 0 <= i < |keys| ==> keys[i] in book && unsorted[i] == book[keys[i]]
    ensures forall key :: key in book ==> book[key] in unsorted
    ensures forall c :: c in unsorted ==> exists key :: key in book && book[key] == c
  {
    forall key | key in book
      ensures book[key] in unsorted
    {
      var i :| 0 <= i < |keys| && keys[i] == key;
      assert unsorted[i] in unsorted;
    }
    forall c | c in unsorted
      ensures exists key :: key in book && book[key] == c
    {
      var i :| 0 <= i < |unsorted| && unsorted[i] == c;
      assert keys[i] in book && book[keys[i]] == c;
    }
  }

  ghost predicate AddressesTell(s: seq<Contact>) {
    forall i, j :: 0 <= i < |s| && 0 <= j < |s| && s[i].address == s[j].address ==> i == j
  }

  lemma AddressesDiffer(env: Env, book: Book, keys: seq<string>, unsorted: seq<Contact>)
    requires Keyed(env, book) && Distinct(keys) && |keys| == |unsorted|
    requires forall i :: 0 <= i < |keys| ==> keys[i] in book && unsorted[i] == book[keys[i]]
    ensures AddressesTell(unsorted) && Distinct(unsorted)
  {
    forall i, j | 0 <= i < |unsorted| && 0 <= j < |unsorted| && unsorted[i].address == unsorted[j].address
      ensures i == j
    {
      assert keys[i] == env.lower(unsorted[i].address) == keys[j];
    }
  }

  lemma OrderedPair(unsorted: seq<Contact>, a: Contact, b: Contact)
    requires AddressesTell(unsorted) && a in unsorted && b in unsorted && a != b
    ensures Before(a, b) || Before(b, a)
  {
    BeforeTotal(a, b);
    var i :| 0 <= i < |unsorted| && unsorted[i] == a;
    var j :| 0 <= j < |unsorted| && unsorted[j] == b;
  }
}
