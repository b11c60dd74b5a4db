/** Discovered logos: which lists of contacts the program stores, and when reconciling them again changes nothing. */
module ContactLogos {
  import opened Options
  import opened Contacts
  import opened ContactFacts

  /** The logo was stored under the exact or the root key of the contact's own address. */
  ghost predicate OwnLogo(env: Env, c: Contact) {
    c.logo.Some? ==>
      var keys := KeysOf(env, c.address);
      keys.Some? && (c.logo.value.key == keys.value.exact || c.logo.value.key == keys.value.root)
  }

  ghost predicate OwnLogos(env: Env, contacts: seq<Contact>) {
    forall c :: c in contacts ==> OwnLogo(env, c)
  }

  // ---- Where a logo may come from ----

  /** `site_candidates`: the sender's own three hosts, and every linked host of the same registrable domain. */
  predicate Site(env: Env, sender: Domain, host: string) {
    || host == sender.hostname || host == sender.registrable || host == "www." + sender.registrable
    || Related(env, sender, host)
  }

  predicate Related(env: Env, sender: Domain, host: string) {
    var domain := DomainOf(env, "x@" + host);
    domain.Some? && domain.value.registrable == sender.registrable
  }

  ghost predicate Discovered(env: Env, sender: Domain, logo: Logo) {
    exists host :: FoundAt(env, sender, logo, host)
  }

  predicate FoundAt(env: Env, sender: Domain, logo: Logo, host: string) {
    Site(env, sender, host) && logo.key == "domain:" + host
  }

  /** The logo was found on a site of the contact's own domain. */
  ghost predicate SiteLogo(env: Env, c: Contact) {
    c.logo.Some? ==>
      var domain := DomainOf(env, c.address);
      domain.Some? && Discovered(env, domain.value, c.logo.value)
  }

  ghost predicate SiteLogos(env: Env, contacts: seq<Contact>) {
    forall c :: c in contacts ==> SiteLogo(env, c)
  }

  lemma SameDomain(d: Domain, e: Domain)
    ensures KeysFor(d).exact == KeysFor(e).exact ==> d.hostname == e.hostname
    ensures KeysFor(d).root == KeysFor(e).root ==> d.registrable == e.registrable
  {
    assert KeysFor(d).exact[7..] == d.hostname && KeysFor(e).exact[7..] == e.hostname;
    assert KeysFor(d).root[7..] == d.registrable && KeysFor(e).root[7..] == e.registrable;
  }

  lemma OwnKeyFound(env: Env, d: Domain, logo: Logo)
    requires logo.key == KeysFor(d).exact || logo.key == KeysFor(d).root
    ensures Discovered(env, d, logo)
  {
    assert logo.key == KeysFor(d).exact ==> FoundAt(env, d, logo, d.hostname);
    assert logo.key == KeysFor(d).root ==> FoundAt(env, d, logo, d.registrable);
  }

  // ---- remember_logo ----

  function Remember(env: Env, c: Contact, lookup: LogoKeys, logo: Logo): Contact {
    var keys := KeysOf(env, c.address);
    if keys.None? || (logo.key == lookup.root && keys.value.root != lookup.root)
       || (logo.key != lookup.root && keys.value.exact != lookup.exact) then c
    else c.(logo := Some(logo))
  }

  /** Remembering what was found for one sender leaves every contact with a logo from its own sites. */
  lemma RememberKeepsSites(env: Env, c: Contact, address: string, sender: Domain, logo: Logo)
    requires SiteLogo(env, c) && DomainOf(env, address) == Some(sender) && Discovered(env, sender, logo)
    ensures SiteLogo(env, Remember(env, c, KeysFor(sender), logo))
  {
    var domain := DomainOf(env, c.address);
    if domain.Some? && Remember(env, c, KeysFor(sender), logo) != c {
      SameDomain(domain.value, sender);
      if logo.key == KeysFor(sender).root {
        OwnKeyFound(env, domain.value, logo);
      } else {
        assert domain.value == sender;
      }
    }
  }

  /** It leaves each with an own logo when the key is the sender's exact or root key. */
  lemma RememberKeepsOwn(env: Env, c: Contact, lookup: LogoKeys, logo: Logo)
    requires OwnLogo(env, c) && (logo.key == lookup.exact || logo.key == lookup.root)
    ensures OwnLogo(env, Remember(env, c, lookup, logo))
  {
  }

  /** A discovered logo goes to every contact whose exact or root key it was found for, and to no other. */
  method RememberLogo(env: Env, contacts: seq<Contact>, lookup: LogoKeys, logo: Logo) returns (updated: seq<Contact>)
    ensures |updated| == |contacts| && forall i :: 0 <= i < |contacts| ==> updated[i] == Remember(env, contacts[i], lookup, logo)
  {
    updated := [];
    for i := 0 to |contacts|
      invariant |updated| == i && forall j :: 0 <= j < i ==> updated[j] == Remember(env, contacts[j], lookup, logo)
    {
      updated := updated + [Remember(env, contacts[i], lookup, logo)];
    }
  }

  // ---- Reconciling ----

  /** With own logos a contact gets the table's entry for its exact key, else for its root key, else none. */
  function TableLogo(logos: map<string, Logo>, keys: Option<LogoKeys>): Option<Logo> {
    if keys.None? then None
    else if keys.value.exact in logos then Some(logos[keys.value.exact])
    else if keys.value.root in logos then Some(logos[keys.value.root])
    else None
  }

  lemma PreviousOwn(ctx: Context, previous: seq<Contact>, key: string, address: string)
    requires CaseBlind(ctx.env) && OwnLogos(ctx.env, previous) && ctx.env.lower(address) == key
    requires ctx.previous == ByAddress(ctx.env, previous) && ctx.logos == ByLogoKey(previous)
    ensures FinalLogo(ctx, key, address) == TableLogo(ctx.logos, KeysOf(ctx.env, address))
  {
    if key in ctx.previous {
      ByAddressIs(ctx.env, previous, key);
      var i :| 0 <= i < |previous| && previous[i] == ctx.previous[key] && ctx.env.lower(previous[i].address) == key;
      assert previous[i] in previous && KeysOf(ctx.env, previous[i].address) == KeysOf(ctx.env, address);
      ByLogoKeyIs(previous);
    }
  }

  lemma ResultFromTable(ctx: Context, previous: seq<Contact>, messages: seq<Message>, listed: seq<Contact>, c: Contact)
    requires CaseBlind(ctx.env) && OwnLogos(ctx.env, previous) && Holds(Fold(ctx, messages), listed) && c in listed
    requires ctx.previous == ByAddress(ctx.env, previous) && ctx.logos == ByLogoKey(previous)
    ensures c.logo == TableLogo(ctx.logos, KeysOf(ctx.env, c.address)) && OwnKeys(ctx.logos)
  {
    var key :| key in Fold(ctx, messages) && Fold(ctx, messages)[key] == c;
    FoldAt(ctx, messages, key);
    FoldKeyed(ctx, messages);
    MentionsNamed(ctx, key, messages);
    ByLogoKeyIs(previous);
    GrowLogo(ctx, key, Mentions(ctx, key, messages), c.address);
    PreviousOwn(ctx, previous, key, c.address);
  }

  /** A reconciled list has own logos again. */
  lemma ReconcileKeepsOwn(ctx: Context, previous: seq<Contact>, messages: seq<Message>, listed: seq<Contact>)
    requires CaseBlind(ctx.env) && OwnLogos(ctx.env, previous) && Holds(Fold(ctx, messages), listed)
    requires ctx.previous == ByAddress(ctx.env, previous) && ctx.logos == ByLogoKey(previous)
    ensures OwnLogos(ctx.env, listed)
  {
    forall c | c in listed
      ensures OwnLogo(ctx.env, c)
    {
      ResultFromTable(ctx, previous, messages, listed, c);
    }
  }

  /** Each logo of the result is an entry of the first table, so the second table is part of the first. */
  lemma SecondTablePart(ctx: Context, previous: seq<Contact>, messages: seq<Message>, listed: seq<Contact>, k: string)
    requires CaseBlind(ctx.env) && OwnLogos(ctx.env, previous) && Holds(Fold(ctx, messages), listed)
    requires ctx.previous == ByAddress(ctx.env, previous) && ctx.logos == ByLogoKey(previous)
    requires k in ByLogoKey(listed)
    ensures k in ctx.logos && ByLogoKey(listed)[k] == ctx.logos[k]
  {
    LookedUpIsCarried(listed, k);
    var i :| 0 <= i < |listed| && listed[i].logo == Some(ByLogoKey(listed)[k]);
    ResultFromTable(ctx, previous, messages, listed, listed[i]);
  }

  lemma OwnKeepsLogos(ctx: Context, previous: seq<Contact>, messages: seq<Message>, listed: seq<Contact>)
    requires CaseBlind(ctx.env) && OwnLogos(ctx.env, previous) && Holds(Fold(ctx, messages), listed)
    requires ctx.previous == ByAddress(ctx.env, previous) && ctx.logos == ByLogoKey(previous)
    ensures AllKeepLogos(ctx.env, listed)
  {
    forall k | k in ByLogoKey(listed)
      ensures k in ctx.logos && ByLogoKey(listed)[k] == ctx.logos[k]
    {
      SecondTablePart(ctx, previous, messages, listed, k);
    }
    forall c | c in listed
      ensures KeepsLogo(ctx.env, listed, c)
    {
      ResultFromTable(ctx, previous, messages, listed, c);
      ByLogoKeyIs(listed);
      var i :| 0 <= i < |listed| && listed[i] == c;
      assert c.logo.Some? ==> c.logo.value.key in ByLogoKey(listed);
    }
  }

  /** On every list with own logos, agreeing or not, reconciling twice is reconciling once. */
  lemma OwnLogosIdempotent(env: Env, userId: string, own: seq<string>, messages: seq<Message>, previous: seq<Contact>,
                           first: seq<Contact>, stored: seq<Contact>, second: seq<Contact>)
    requires CaseBlind(env) && OwnLogos(env, previous) && ReadBack(stored, first)
    requires Lists(Fold(ContextOf(env, userId, own, previous), messages), first)
    requires Lists(Fold(ContextOf(env, userId, own, stored), messages), second)
    ensures second == first && OwnLogos(env, first)
  {
    var ctx := ContextOf(env, userId, own, previous);
    ReadBackHolds(Fold(ctx, messages), stored, first);
    OwnKeepsLogos(ctx, previous, messages, stored);
    ReconcileKeepsOwn(ctx, previous, messages, first);
    ReconcileIdempotentExactly(env, userId, own, messages, previous, first, stored, second);
  }

  // ---- Every list the program stores ----

  lemma CaseBlindDomains(env: Env, a: string, b: string)
    requires CaseBlind(env) && env.lower(a) == env.lower(b)
    ensures DomainOf(env, a) == DomainOf(env, b)
  {
    assert KeysOf(env, a) == KeysOf(env, b);
    if DomainOf(env, a).Some? {
      SameDomain(DomainOf(env, a).value, DomainOf(env, b).value);
    }
  }

  lemma PreviousSite(ctx: Context, previous: seq<Contact>, key: string, address: string)
    requires CaseBlind(ctx.env) && SiteLogos(ctx.env, previous) && ctx.env.lower(address) == key
    requires ctx.previous == ByAddress(ctx.env, previous) && LogoOf(Previous(ctx, key)).Some?
    ensures var domain := DomainOf(ctx.env, address);
      domain.Some? && Discovered(ctx.env, domain.value, LogoOf(Previous(ctx, key)).value)
  {
    ByAddressIs(ctx.env, previous, key);
    var i :| 0 <= i < |previous| && previous[i] == ctx.previous[key] && ctx.env.lower(previous[i].address) == key;
    assert previous[i] in previous;
    CaseBlindDomains(ctx.env, previous[i].address, address);
  }

  lemma FinalSite(ctx: Context, previous: seq<Contact>, key: string, c: Contact)
    requires CaseBlind(ctx.env) && SiteLogos(ctx.env, previous) && ctx.env.lower(c.address) == key
    requires ctx.previous == ByAddress(ctx.env, previous) && OwnKeys(ctx.logos)
    requires c.logo == FinalLogo(ctx, key, c.address)
    ensures SiteLogo(ctx.env, c)
  {
    var domain := DomainOf(ctx.env, c.address);
    if c.logo.Some? {
      if c.logo == LogoOf(Previous(ctx, key)) {
        PreviousSite(ctx, previous, key, c.address);
      } else {
        OwnKeyFound(ctx.env, domain.value, c.logo.value);
      }
    }
  }

  lemma ReconcileKeepsSites(ctx: Context, previous: seq<Contact>, messages: seq<Message>, listed: seq<Contact>)
    requires CaseBlind(ctx.env) && SiteLogos(ctx.env, previous) && Holds(Fold(ctx, messages), listed)
    requires ctx.previous == ByAddress(ctx.env, previous) && ctx.logos == ByLogoKey(previous)
    ensures SiteLogos(ctx.env, listed)
  {
    forall c | c in listed
      ensures SiteLogo(ctx.env, c)
    {
      var key :| key in Fold(ctx, messages) && Fold(ctx, messages)[key] == c;
      FoldAt(ctx, messages, key);
      FoldKeyed(ctx, messages);
      MentionsNamed(ctx, key, messages);
      ByLogoKeyIs(previous);
      GrowLogo(ctx, key, Mentions(ctx, key, messages), c.address);
      FinalSite(ctx, previous, key, c);
    }
  }

  /** A logo is found for the sender `address`; listing a stored table orders it by recency or by address. */
  datatype Change =
    | Reconciled(own: seq<string>, messages: seq<Message>)
    | Remembered(address: string, logo: Logo)
    | Reordered

  /** Each contact is remembered, or left as it was where storing it failed. */
  ghost predicate RememberedAt(env: Env, before: Contact, sender: Domain, logo: Logo, after: Contact) {
    after == before || after == Remember(env, before, KeysFor(sender), logo)
  }

  /** One change of the stored contacts. */
  ghost predicate Changes(env: Env, userId: string, before: seq<Contact>, change: Change, after: seq<Contact>) {
    match change
    case Reconciled(own, messages) => Lists(Fold(ContextOf(env, userId, own, before), messages), after)
    case Remembered(address, logo) =>
      var sender := DomainOf(env, address);
      && sender.Some? && Discovered(env, sender.value, logo)
      && |after| == |before| && forall i :: 0 <= i < |before| ==> RememberedAt(env, before[i], sender.value, logo, after[i])
    case Reordered => ReadBack(after, before)
  }

  ghost predicate Stored(env: Env, userId: string, lists: seq<seq<Contact>>, changes: seq<Change>) {
    && |lists| == |changes| + 1 && lists[0] == []
    && forall i :: 0 <= i < |changes| ==> Changes(env, userId, lists[i], changes[i], lists[i + 1])
  }

  lemma ChangeKeepsSites(env: Env, userId: string, before: seq<Contact>, change: Change, after: seq<Contact>)
    requires CaseBlind(env) && SiteLogos(env, before) && Changes(env, userId, before, change, after)
    ensures SiteLogos(env, after)
  {
    match change
    case Reconciled(own, messages) => ReconcileKeepsSites(ContextOf(env, userId, own, before), before, messages, after);
    case Remembered(address, logo) =>
      forall c | c in after
        ensures SiteLogo(env, c)
      {
        var i :| 0 <= i < |after| && after[i] == c;
        assert before[i] in before && RememberedAt(env, before[i], DomainOf(env, address).value, logo, c);
        RememberKeepsSites(env, before[i], address, DomainOf(env, address).value, logo);
      }
    case Reordered =>
      forall c | c in after
        ensures SiteLogo(env, c)
      {
        ReadBackMember(after, before, c);
      }
  }

  /** Every logo that any run stores with a contact was found on a site of that contact's domain. */
  lemma {:induction false} StoredSites(env: Env, userId: string, lists: seq<seq<Contact>>, changes: seq<Change>, i: nat)
    requires CaseBlind(env) && Stored(env, userId, lists, changes) && i < |lists|
    ensures SiteLogos(env, lists[i])
    decreases i
  {
    if i == 0 {
    } else {
      StoredSites(env, userId, lists, changes, i - 1);
      ChangeKeepsSites(env, userId, lists[i - 1], changes[i - 1], lists[i]);
    }
  }

  /** A registrable domain is registrable itself, and so are the sender's host and the `www` host below it. */
  ghost predicate RootsStay(env: Env) {
    forall address :: DomainOf(env, address).Some? ==> OwnHostsRelated(env, DomainOf(env, address).value)
  }

  predicate OwnHostsRelated(env: Env, d: Domain) {
    Related(env, d, d.hostname) && Related(env, d, d.registrable) && Related(env, d, "www." + d.registrable)
  }

  /** With such a suffix list the host in a stored logo key has the contact's own root key. */
  lemma StoredRoots(env: Env, userId: string, lists: seq<seq<Contact>>, changes: seq<Change>, i: nat, c: Contact)
    returns (host: string)
    requires CaseBlind(env) && RootsStay(env) && Stored(env, userId, lists, changes) && i < |lists|
    requires c in lists[i] && c.logo.Some?
    ensures c.logo.value.key == "domain:" + host
    ensures KeysOf(env, "x@" + host).Some? && KeysOf(env, c.address).Some?
    ensures KeysOf(env, "x@" + host).value.root == KeysOf(env, c.address).value.root
  {
    StoredSites(env, userId, lists, changes, i);
    assert SiteLogo(env, c);
    var domain := DomainOf(env, c.address).value;
    host :| FoundAt(env, domain, c.logo.value, host);
    assert OwnHostsRelated(env, domain);
  }

  // ---- Runs whose logos were found at the exact or the root key ----

  ghost predicate OwnDiscovery(env: Env, change: Change) {
    change.Remembered? && KeysOf(env, change.address).Some? ==>
      var keys := KeysOf(env, change.address).value;
      change.logo.key == keys.exact || change.logo.key == keys.root
  }

  lemma ChangeKeepsOwn(env: Env, userId: string, before: seq<Contact>, change: Change, after: seq<Contact>)
    requires CaseBlind(env) && OwnLogos(env, before) && Changes(env, userId, before, change, after)
    requires OwnDiscovery(env, change)
    ensures OwnLogos(env, after)
  {
    match change
    case Reconciled(own, messages) => ReconcileKeepsOwn(ContextOf(env, userId, own, before), before, messages, after);
    case Remembered(address, logo) =>
      forall c | c in after
        ensures OwnLogo(env, c)
      {
        var i :| 0 <= i < |after| && after[i] == c;
        assert before[i] in before && RememberedAt(env, before[i], DomainOf(env, address).value, logo, c);
        RememberKeepsOwn(env, before[i], KeysOf(env, address).value, logo);
      }
    case Reordered =>
      forall c | c in after
        ensures OwnLogo(env, c)
      {
        ReadBackMember(after, before, c);
      }
  }

  lemma {:induction false} StoredOwn(env: Env, userId: string, lists: seq<seq<Contact>>, changes: seq<Change>, i: nat)
    requires CaseBlind(env) && Stored(env, userId, lists, changes) && i < |lists|
    requires forall j :: 0 <= j < i ==> OwnDiscovery(env, changes[j])
    ensures OwnLogos(env, lists[i])
    decreases i
  {
    if i == 0 {
    } else {
      StoredOwn(env, userId, lists, changes, i - 1);
      ChangeKeepsOwn(env, userId, lists[i - 1], changes[i - 1], lists[i]);
    }
  }

  /** From every list such a run stores, reconciling any messages twice is reconciling them once. */
  lemma StoredIdempotent(env: Env, userId: string, lists: seq<seq<Contact>>, changes: seq<Change>, i: nat, own: seq<string>,
                         messages: seq<Message>, first: seq<Contact>, stored: seq<Contact>, second: seq<Contact>)
    requires CaseBlind(env) && Stored(env, userId, lists, changes) && i < |lists| && ReadBack(stored, first)
    requires forall j :: 0 <= j < i ==> OwnDiscovery(env, changes[j])
    requires Lists(Fold(ContextOf(env, userId, own, lists[i]), messages), first)
    requires Lists(Fold(ContextOf(env, userId, own, stored), messages), second)
    ensures second == first
  {
    StoredOwn(env, userId, lists, changes, i);
    OwnLogosIdempotent(env, userId, own, messages, lists[i], first, stored, second);
  }
}
