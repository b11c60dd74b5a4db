/** A run of the program that stores a list which reconciling changes once more the second time. */
module LogoRun {
  import opened Options
  import opened Text
  import opened Ordering
  import opened Contacts
  import opened ContactFacts
  import opened ContactLogos

  /** The hosts `k`, `m` and `z` share the registrable domain `r`. */
  function SiblingEnv(): Env {
    Env((s: string) => s, (s: string) => Some("r"))
  }

  /** A logo found at the host `k`. */
  function SharedLogo(url: string): Logo {
    Logo("domain:k", None, Some(url), None)
  }

  /** A message from `k` to `m`, and to `z` unless that one has been deleted. */
  function Mail(withZ: bool): Message {
    Message("d", Party(Some("@k"), None), Some([Party(Some("@m"), None)] + if withZ then [Party(Some("@z"), None)] else []))
  }

  function Someone(address: string, logo: Option<Logo>): Contact {
    Contact("u", address, "", 1, "d", logo)
  }

  function Three(k: Option<Logo>, m: Option<Logo>, z: Option<Logo>): seq<Contact> {
    [Someone("@k", k), Someone("@m", m), Someone("@z", z)]
  }

  function Two(k: Option<Logo>, m: Option<Logo>): seq<Contact> {
    [Someone("@k", k), Someone("@m", m)]
  }

  // ---- Keys and sites ----

  predicate Sibling(host: char) {
    host == 'k' || host == 'm' || host == 'z'
  }

  lemma HostBehindAt(before: string, host: char)
    requires host != '@'
    ensures AfterAt(before + "@" + [host]) == Some([host])
  {
    var s := before + "@" + [host];
    assert s[..|s| - 1] == before + "@";
    assert AfterAt(before + "@") == Some("");
    assert "" + [host] == [host];
  }

  lemma Domains(before: string, host: char)
    requires Sibling(host)
    ensures DomainOf(SiblingEnv(), before + "@" + [host]) == Some(Domain([host], "r"))
  {
    HostBehindAt(before, host);
    assert !IsSpace('k') && !IsSpace('m') && !IsSpace('z');
    TrimFixed([host]);
    var hostname := SiblingEnv().lower(TrimDots(Trim([host])));
    assert hostname == [host] && AsciiAlnum(hostname[0]);
  }

  lemma Keys(address: string)
    requires address == "@k" || address == "@m" || address == "@z"
    ensures KeysOf(SiblingEnv(), address) == Some(KeysFor(Domain([address[1]], "r")))
  {
    Domains("", address[1]);
    assert "" + "@" + [address[1]] == address;
  }

  /** The exact key of `k` is the key of the shared logo; those of `m` and `z` and the root key are not. */
  lemma KeysCompared(host: char)
    requires Sibling(host)
    ensures var keys := KeysFor(Domain([host], "r")); keys.root != "domain:k" && (keys.exact == "domain:k" <==> host == 'k')
  {
    var keys := KeysFor(Domain([host], "r"));
    assert keys.exact[7] == host && keys.root[7] == 'r' && "domain:k"[7] == 'k';
    assert host == 'k' ==> keys.exact == "domain:k";
  }

  /** Each contact can have its logo from the site `k`, as a host linked in its mail or as its own. */
  lemma FoundAtSibling(host: char, url: string)
    requires Sibling(host)
    ensures Discovered(SiblingEnv(), Domain([host], "r"), SharedLogo(url))
  {
    Domains("x", 'k');
    assert "x" + "@" + ['k'] == "x@" + "k";
    assert "domain:" + "k" == "domain:k";
    assert FoundAt(SiblingEnv(), Domain([host], "r"), SharedLogo(url), "k");
  }

  // ---- What one message makes of a context ----

  ghost predicate Plain(ctx: Context) {
    ctx.env == SiblingEnv() && ctx.own == {} && ctx.userId == "u"
  }

  lemma PlainContext(previous: seq<Contact>)
    ensures Plain(ContextOf(SiblingEnv(), "u", [], previous))
  {
  }

  function Addressed(withZ: bool): seq<Participant> {
    [Participant("", "@k"), Participant("", "@m")] + if withZ then [Participant("", "@z")] else []
  }

  lemma MailParticipants(withZ: bool)
    ensures Participants(Mail(withZ)) == Addressed(withZ)
  {
    var m, z := Party(Some("@m"), None), Party(Some("@z"), None);
    assert [z][1..] == [] && PartiesOf([z]) == [Participant("", "@z")];
    assert ([m] + [z])[1..] == [z] && ([m] + [])[1..] == [];
    assert [m] + [] == [m];
  }

  predicate Named(withZ: bool, key: string) {
    key == "@k" || key == "@m" || (withZ && key == "@z")
  }

  lemma MailNames(ctx: Context, withZ: bool, key: string)
    requires Plain(ctx)
    ensures FirstNamed(ctx, key, Addressed(withZ)) == if Named(withZ, key) then Some(Participant("", key)) else None
  {
    TrimFixed("@k");
    TrimFixed("@m");
    TrimFixed("@z");
    var ps := Addressed(withZ);
    var last := if withZ then [Participant("", "@z")] else [];
    assert ps[1..] == [Participant("", "@m")] + last && ps[1..][1..] == last;
    assert FirstNamed(ctx, key, last) == if withZ && key == "@z" then Some(Participant("", key)) else None;
  }

  lemma MailMentions(ctx: Context, withZ: bool, key: string)
    requires Plain(ctx)
    ensures Mentions(ctx, key, [Mail(withZ)]) == if Named(withZ, key) then [Mention("d", "", key)] else []
  {
    MentionsOne(ctx, key, Mail(withZ));
    MailParticipants(withZ);
    MailNames(ctx, withZ, key);
    assert !IsSpace('@') && !IsSpace('k') && !IsSpace('m') && !IsSpace('z');
    if Named(withZ, key) {
      TrimFixed(key);
    }
  }

  lemma OnceIs(ctx: Context, key: string, logo: Option<Logo>)
    requires Plain(ctx) && Unnamed(Previous(ctx, key)) && FinalLogo(ctx, key, key) == logo
    ensures Grow(ctx, key, [Mention("d", "", key)]) == Some(Someone(key, logo))
  {
    TrimFixed("");
    GrowPush(ctx, key, [], Mention("d", "", key));
    assert [] + [Mention("d", "", key)] == [Mention("d", "", key)];
  }

  /** The contact of a single first mention. */
  lemma FoldMail(ctx: Context, withZ: bool, key: string, logo: Option<Logo>)
    requires Plain(ctx) && (Named(withZ, key) ==> Unnamed(Previous(ctx, key)) && FinalLogo(ctx, key, key) == logo)
    ensures At(Fold(ctx, [Mail(withZ)]), key) == if Named(withZ, key) then Some(Someone(key, logo)) else None
  {
    FoldAt(ctx, [Mail(withZ)], key);
    MailMentions(ctx, withZ, key);
    if Named(withZ, key) {
      OnceIs(ctx, key, logo);
    }
  }

  predicate Unnamed(c: Option<Contact>) {
    c.Some? ==> c.value.name == ""
  }

  // ---- The run ----

  lemma InAddressOrder()
    ensures Less("@k", "@m") && Less("@m", "@z") && Less("@k", "@z")
  {
  }

  lemma StartListed()
    ensures Lists(Fold(ContextOf(SiblingEnv(), "u", [], []), [Mail(true)]), Three(None, None, None))
  {
    var ctx := ContextOf(SiblingEnv(), "u", [], []);
    PlainContext([]);
    Keys("@k");
    Keys("@m");
    Keys("@z");
    FoldMail(ctx, true, "@k", None);
    FoldMail(ctx, true, "@m", None);
    FoldMail(ctx, true, "@z", None);
    OnlyNamed(ctx, true);
    InAddressOrder();
    ThreeListed(Fold(ctx, [Mail(true)]), Three(None, None, None));
  }

  lemma ThreeListed(book: Book, list: seq<Contact>)
    requires |list| == 3 && Before(list[0], list[1]) && Before(list[1], list[2]) && Before(list[0], list[2])
    requires At(book, "@k") == Some(list[0]) && At(book, "@m") == Some(list[1]) && At(book, "@z") == Some(list[2])
    requires forall key :: key in book ==> Named(true, key)
    ensures Lists(book, list)
  {
    assert book["@k"] == list[0] && book["@m"] == list[1] && book["@z"] == list[2];
  }

  lemma TwoListed(book: Book, list: seq<Contact>)
    requires |list| == 2 && Before(list[0], list[1])
    requires At(book, "@k") == Some(list[0]) && At(book, "@m") == Some(list[1])
    requires forall key :: key in book ==> Named(false, key)
    ensures Lists(book, list)
  {
    assert book["@k"] == list[0] && book["@m"] == list[1];
  }

  lemma Chosen(key: string, last: Logo, keys: LogoKeys, prior: Option<Logo>)
    requires keys.root != key
    ensures SelectLogo(map[key := last], Some(keys), prior) == if keys.exact == key then Some(last) else prior
  {
  }

  /** A context with one shared logo gives it to `k`; the others keep theirs. */
  lemma LogosChosen(ctx: Context, address: string, last: Logo)
    requires Plain(ctx) && ctx.logos == map["domain:k" := last] && (address == "@k" || address == "@m")
    ensures FinalLogo(ctx, address, address) == if address == "@k" then Some(last) else LogoOf(Previous(ctx, address))
  {
    var keys := KeysFor(Domain([address[1]], "r"));
    Keys(address);
    KeysCompared(address[1]);
    Chosen("domain:k", last, keys, LogoOf(Previous(ctx, address)));
  }

  lemma OnlyNamed(ctx: Context, withZ: bool)
    requires Plain(ctx)
    ensures forall key :: key in Fold(ctx, [Mail(withZ)]) ==> Named(withZ, key)
  {
    forall key | key in Fold(ctx, [Mail(withZ)])
      ensures Named(withZ, key)
    {
      if !Named(withZ, key) {
        FoldMail(ctx, withZ, key, None);
      }
    }
  }

  /** Without `z`, the contact `k` takes the shared logo of the context and `m` keeps its previous one. */
  lemma Reconciling(ctx: Context, last: Logo, m: Logo)
    requires Plain(ctx) && ctx.logos == map["domain:k" := last] && m.key == "domain:k"
    requires Unnamed(Previous(ctx, "@k")) && Unnamed(Previous(ctx, "@m")) && LogoOf(Previous(ctx, "@m")) == Some(m)
    ensures Lists(Fold(ctx, [Mail(false)]), Two(Some(last), Some(m)))
  {
    var book, list := Fold(ctx, [Mail(false)]), Two(Some(last), Some(m));
    LogosChosen(ctx, "@k", last);
    LogosChosen(ctx, "@m", last);
    FoldMail(ctx, false, "@k", Some(last));
    FoldMail(ctx, false, "@m", Some(m));
    OnlyNamed(ctx, false);
    InAddressOrder();
    TwoListed(book, list);
  }

  lemma ThreeTables(m: Logo, z: Logo)
    requires m.key == z.key == "domain:k"
    ensures var list := Three(None, Some(m), Some(z));
      && ByLogoKey(list) == map["domain:k" := z]
      && ByAddress(SiblingEnv(), list) == map["@k" := list[0], "@m" := list[1], "@z" := list[2]]
  {
    var list := Three(None, Some(m), Some(z));
    assert list[..2][..1] == list[..1] && list[..1][..0] == [];
    assert ByLogoKey(list[..1]) == map[] && ByLogoKey(list[..2]) == map["domain:k" := m];
    assert ByAddress(SiblingEnv(), list[..1]) == map["@k" := list[0]];
    assert ByAddress(SiblingEnv(), list[..2]) == map["@k" := list[0], "@m" := list[1]];
  }

  lemma TwoTables(k: Logo, m: Logo)
    requires k.key == m.key == "domain:k"
    ensures var list := Two(Some(k), Some(m));
      && ByLogoKey(list) == map["domain:k" := m]
      && ByAddress(SiblingEnv(), list) == map["@k" := list[0], "@m" := list[1]]
  {
    var list := Two(Some(k), Some(m));
    assert list[..1][..0] == [];
    assert ByLogoKey(list[..1]) == map["domain:k" := k];
    assert ByAddress(SiblingEnv(), list[..1]) == map["@k" := list[0]];
  }

  function Run(): seq<seq<Contact>> {
    var one, two := Some(SharedLogo("1")), Some(SharedLogo("2"));
    [[], Three(None, None, None), Three(None, one, None), Three(None, one, two)]
  }

  function RunChanges(): seq<Change> {
    [Reconciled([], [Mail(true)]), Remembered("@m", SharedLogo("1")), Remembered("@z", SharedLogo("2"))]
  }

  lemma RememberSent(c: Contact, host: char, url: string)
    requires c.address == "@k" || c.address == "@m" || c.address == "@z"
    requires Sibling(host)
    ensures Remember(SiblingEnv(), c, KeysFor(Domain([host], "r")), SharedLogo(url)) ==
      if c.address[1] == host then c.(logo := Some(SharedLogo(url))) else c
  {
    Keys(c.address);
    KeysCompared(host);
    SameDomain(Domain([c.address[1]], "r"), Domain([host], "r"));
  }

  lemma Remembering(address: string, host: char, url: string, before: seq<Contact>, after: seq<Contact>)
    requires Sibling(host) && address == "@" + [host] && |before| == |after| == 3
    requires before[0].address == "@k" && before[1].address == "@m" && before[2].address == "@z"
    requires forall i :: 0 <= i < 3 ==>
      after[i] == if before[i].address[1] == host then before[i].(logo := Some(SharedLogo(url))) else before[i]
    ensures Changes(SiblingEnv(), "u", before, Remembered(address, SharedLogo(url)), after)
  {
    Domains("", host);
    assert "" + "@" + [host] == address;
    FoundAtSibling(host, url);
    forall i | 0 <= i < |before|
      ensures RememberedAt(SiblingEnv(), before[i], Domain([host], "r"), SharedLogo(url), after[i])
    {
      RememberSent(before[i], host, url);
    }
  }

  lemma FirstFound(one: Option<Logo>)
    requires one == Some(SharedLogo("1"))
    ensures Changes(SiblingEnv(), "u", Three(None, None, None), Remembered("@m", SharedLogo("1")), Three(None, one, None))
  {
    Remembering("@m", 'm', "1", Three(None, None, None), Three(None, one, None));
  }

  lemma SecondFound(one: Option<Logo>, two: Option<Logo>)
    requires two == Some(SharedLogo("2"))
    ensures Changes(SiblingEnv(), "u", Three(None, one, None), Remembered("@z", SharedLogo("2")), Three(None, one, two))
  {
    Remembering("@z", 'z', "2", Three(None, one, None), Three(None, one, two));
  }

  lemma ThreeChanges(env: Env, a: seq<Contact>, b: seq<Contact>, c: seq<Contact>, d: seq<Contact>, x: Change, y: Change, z: Change)
    requires a == [] && Changes(env, "u", a, x, b) && Changes(env, "u", b, y, c) && Changes(env, "u", c, z, d)
    ensures Stored(env, "u", [a, b, c, d], [x, y, z])
  {
  }

  lemma RunStored()
    ensures Stored(SiblingEnv(), "u", Run(), RunChanges())
  {
    var one, two := Some(SharedLogo("1")), Some(SharedLogo("2"));
    StartListed();
    FirstFound(one);
    SecondFound(one, two);
    ThreeChanges(SiblingEnv(), [], Three(None, None, None), Three(None, one, None), Three(None, one, two),
                 Reconciled([], [Mail(true)]), Remembered("@m", SharedLogo("1")), Remembered("@z", SharedLogo("2")));
  }

  /** Reading a list back by recency or by address makes no difference. */
  ghost predicate InBothOrders(list: seq<Contact>) {
    InOrder(Before, list) && forall i, j :: 0 <= i < j < |list| ==> Less(list[i].address, list[j].address)
  }

  lemma BothResults()
    ensures var one, two := SharedLogo("1"), SharedLogo("2");
      && Lists(Fold(ContextOf(SiblingEnv(), "u", [], Run()[3]), [Mail(false)]), Two(Some(two), Some(one)))
      && Lists(Fold(ContextOf(SiblingEnv(), "u", [], Two(Some(two), Some(one))), [Mail(false)]), Two(Some(one), Some(one)))
  {
    var one, two := SharedLogo("1"), SharedLogo("2");
    PlainContext(Run()[3]);
    ThreeTables(one, two);
    Reconciling(ContextOf(SiblingEnv(), "u", [], Run()[3]), two, one);
    PlainContext(Two(Some(two), Some(one)));
    TwoTables(two, one);
    Reconciling(ContextOf(SiblingEnv(), "u", [], Two(Some(two), Some(one))), one, one);
  }

  /**
  From a list the program stored, the second reconciliation gives a contact another logo than the first: `m` and `z`
  have logos found at `k`, the mail of `z` is deleted, `k` takes the logo of `z` at first and then that of `m`.
  */
  lemma StoredListChanges()
    ensures Stored(SiblingEnv(), "u", Run(), RunChanges())
    ensures var previous, messages := Run()[3], [Mail(false)];
      var first := Two(Some(SharedLogo("2")), Some(SharedLogo("1")));
      var second := Two(Some(SharedLogo("1")), Some(SharedLogo("1")));
      && InBothOrders(previous) && InBothOrders(first)
      && Lists(Fold(ContextOf(SiblingEnv(), "u", [], previous), messages), first)
      && Lists(Fold(ContextOf(SiblingEnv(), "u", [], first), messages), second)
      && second != first && !LogosAgree(previous) && !OwnLogos(SiblingEnv(), previous)
  {
    RunStored();
    BothResults();
    Ordered();
    NotAgreeing();
    NotOwned();
  }

  lemma Ordered()
    ensures InBothOrders(Run()[3]) && InBothOrders(Two(Some(SharedLogo("2")), Some(SharedLogo("1"))))
  {
    InAddressOrder();
  }

  lemma NotAgreeing()
    ensures SharedLogo("1") != SharedLogo("2") && !LogosAgree(Run()[3])
  {
    var previous := Run()[3];
    assert "1"[0] != "2"[0];
    assert previous[1].logo != previous[2].logo;
  }

  lemma NotOwned()
    ensures !OwnLogos(SiblingEnv(), Run()[3])
  {
    var c := Run()[3][1];
    Keys("@m");
    KeysCompared('m');
    assert !OwnLogo(SiblingEnv(), c);
    assert c in Run()[3];
  }
}
