/** What a reconciliation computes, contact by contact, and why repeating it changes nothing. */
module ContactFacts {
  import opened Options
  import opened Text
  import opened Ordering
  import opened Contacts

  // ---- Each contact depends only on the messages it takes part in ----

  datatype Mention = Mention(date: string, name: string, address: string)

  /** Is this participant the contact `key`? */
  predicate Names(ctx: Context, key: string, p: Participant) {
    Trim(p.address) != "" && KeyOf(ctx.env, p) !in ctx.own && KeyOf(ctx.env, p) == key
  }

  /** The first participant that is the contact, if any. */
  function FirstNamed(ctx: Context, key: string, ps: seq<Participant>): Option<Participant>
    decreases |ps|
  {
    if ps == [] then None else if Names(ctx, key, ps[0]) then Some(ps[0]) else FirstNamed(ctx, key, ps[1..])
  }

  function MentionIn(ctx: Context, key: string, m: Message): seq<Mention> {
    match FirstNamed(ctx, key, Participants(m))
    case None => []
    case Some(p) => [Mention(m.date, p.name, Trim(p.address))]
  }

  /** The messages the contact takes part in, each once. */
  function Mentions(ctx: Context, key: string, messages: seq<Message>): seq<Mention>
    decreases |messages|
  {
    if messages == [] then []
    else Mentions(ctx, key, messages[..|messages| - 1]) + MentionIn(ctx, key, messages[|messages| - 1])
  }

  function Apply(ctx: Context, key: string, current: Option<Contact>, m: Mention): Contact {
    Update(ctx, key, current, m.date, m.name, m.address)
  }

  /** The contact after its mentions, one after the other. */
  function Grow(ctx: Context, key: string, mentions: seq<Mention>): Option<Contact>
    decreases |mentions|
  {
    if mentions == [] then None
    else Some(Apply(ctx, key, Grow(ctx, key, mentions[..|mentions| - 1]), mentions[|mentions| - 1]))
  }

  lemma {:induction false} VisitAllAt(ctx: Context, book: Book, date: string, ps: seq<Participant>, seen: set<string>, key: string)
    ensures At(VisitAll(ctx, book, date, ps, seen), key) ==
      (var p := FirstNamed(ctx, key, ps);
       if key in seen || p.None? then At(book, key)
       else Some(Update(ctx, key, At(book, key), date, p.value.name, Trim(p.value.address))))
    decreases |ps|
  {
    if ps == [] {
    } else {
      if Skipped(ctx, ps[0], seen) {
        VisitAllAt(ctx, book, date, ps[1..], seen, key);
      } else {
        VisitAllAt(ctx, Visit(ctx, book, date, ps[0]), date, ps[1..], seen + {KeyOf(ctx.env, ps[0])}, key);
      }
    }
  }

  lemma GrowPush(ctx: Context, key: string, mentions: seq<Mention>, m: Mention)
    ensures Grow(ctx, key, mentions + [m]) == Some(Apply(ctx, key, Grow(ctx, key, mentions), m))
  {
    assert (mentions + [m])[..|mentions|] == mentions;
  }

  lemma {:induction false} FoldAt(ctx: Context, messages: seq<Message>, key: string)
    ensures At(Fold(ctx, messages), key) == Grow(ctx, key, Mentions(ctx, key, messages))
    decreases |messages|
  {
    if messages == [] {
    } else {
      var front, last := messages[..|messages| - 1], messages[|messages| - 1];
      FoldAt(ctx, front, key);
      VisitAllAt(ctx, Fold(ctx, front), last.date, Participants(last), {}, key);
      var before := Mentions(ctx, key, front);
      match FirstNamed(ctx, key, Participants(last)) {
        case None =>
          assert before + [] == before;
        case Some(p) =>
          GrowPush(ctx, key, before, Mention(last.date, p.name, Trim(p.address)));
      }
    }
  }

  // ---- Count and date, said without the loop ----

  /** `date` is the latest of the mentions. */
  ghost predicate Latest(date: string, mentions: seq<Mention>) {
    (exists i :: 0 <= i < |mentions| && mentions[i].date == date) &&
    (forall i :: 0 <= i < |mentions| ==> !Less(date, mentions[i].date))
  }

  lemma {:induction false} GrowCounts(ctx: Context, key: string, mentions: seq<Mention>)
    requires mentions != []
    ensures var c := Grow(ctx, key, mentions).value;
      c.ownerId == ctx.userId && c.messageCount == |mentions| && Latest(c.lastContactAt, mentions)
    decreases |mentions|
  {
    var front, last := mentions[..|mentions| - 1], mentions[|mentions| - 1];
    var c := Grow(ctx, key, mentions).value;
    LessTotal(last.date, last.date);
    if front != [] {
      GrowCounts(ctx, key, front);
      var before := Grow(ctx, key, front).value.lastContactAt;
      LessTotal(before, last.date);
      forall i | 0 <= i < |mentions|
        ensures !Less(c.lastContactAt, mentions[i].date)
      {
        if i < |front| {
          assert mentions[i] == front[i] && !Less(before, front[i].date);
          if Less(c.lastContactAt, front[i].date) {
            NotLessThrough(before, last.date, front[i].date);
          }
        }
      }
      var k :| 0 <= k < |front| && front[k].date == before;
      assert mentions[k] == front[k] && mentions[|front|] == last;
    } else {
      assert mentions[0] == last;
    }
  }

  lemma NotLessThrough(a: string, b: string, c: string)
    requires !Less(a, c)
    ensures !Less(b, a) ==> !Less(b, c)
  {
    LessTotal(a, b);
    LessTotal(a, c);
    if Less(b, c) && Less(a, b) {
      LessTransitive(a, b, c);
    }
  }

  /** A contact is listed exactly when some message mentions it; it counts those messages and carries the latest date. */
  lemma FoldMeetsSpec(ctx: Context, messages: seq<Message>, key: string)
    ensures var mentions := Mentions(ctx, key, messages);
      && (key in Fold(ctx, messages) <==> mentions != [])
      && (mentions != [] ==>
            var c := Fold(ctx, messages)[key];
            && c.ownerId == ctx.userId && ctx.env.lower(c.address) == key
            && c.messageCount == |mentions| && Latest(c.lastContactAt, mentions))
  {
    FoldAt(ctx, messages, key);
    FoldKeyed(ctx, messages);
    if Mentions(ctx, key, messages) != [] {
      GrowCounts(ctx, key, Mentions(ctx, key, messages));
    }
  }

  // ---- Name and address, said without the loop ----

  /** Mention `k` is later than every mention before it. */
  ghost predicate Leads(mentions: seq<Mention>, k: int) {
    0 <= k < |mentions| && forall j :: 0 <= j < k ==> Less(mentions[j].date, mentions[k].date)
  }

  lemma LeadsFront(mentions: seq<Mention>, k: int)
    requires mentions != [] && k < |mentions| - 1
    ensures Leads(mentions, k) <==> Leads(mentions[..|mentions| - 1], k)
  {
    var front := mentions[..|mentions| - 1];
    assert forall j :: 0 <= j < |front| ==> front[j] == mentions[j];
  }

  /** The last mention leads exactly when it is later than the latest date so far. */
  lemma LeadsLast(mentions: seq<Mention>, date: string)
    requires |mentions| > 1 && Latest(date, mentions[..|mentions| - 1])
    ensures Leads(mentions, |mentions| - 1) <==> Less(date, mentions[|mentions| - 1].date)
  {
    var front, last := mentions[..|mentions| - 1], mentions[|mentions| - 1];
    var i :| 0 <= i < |front| && front[i].date == date;
    assert mentions[i] == front[i];
    if Less(date, last.date) {
      forall j | 0 <= j < |front|
        ensures Less(mentions[j].date, last.date)
      {
        assert mentions[j] == front[j] && !Less(date, front[j].date);
        LessTotal(date, front[j].date);
        if front[j].date != date {
          LessTransitive(front[j].date, date, last.date);
        }
      }
    }
  }

  function PreviousName(ctx: Context, key: string): string {
    var before := Previous(ctx, key);
    if before.Some? then before.value.name else ""
  }

  /** `k` is the last mention that leads. */
  ghost predicate LastLead(mentions: seq<Mention>, k: int) {
    Leads(mentions, k) && forall j :: k < j ==> !Leads(mentions, j)
  }

  predicate Nameless(m: Mention) {
    Trim(m.name) == ""
  }

  ghost predicate NamesLast(mentions: seq<Mention>, n: int) {
    Leads(mentions, n) && !Nameless(mentions[n]) && forall j :: n < j && Leads(mentions, j) ==> Nameless(mentions[j])
  }

  ghost predicate NobodyNamed(mentions: seq<Mention>) {
    forall j :: Leads(mentions, j) ==> Nameless(mentions[j])
  }

  /** The name is that of the last leading mention with one, or else what the previous contact was called. */
  ghost predicate NamedBy(ctx: Context, key: string, mentions: seq<Mention>, name: string) {
    || (exists n :: NamesLast(mentions, n) && name == Trim(mentions[n].name))
    || (NobodyNamed(mentions) && name == PreviousName(ctx, key))
  }

  lemma {:induction false} GrowAddress(ctx: Context, key: string, mentions: seq<Mention>) returns (k: nat)
    requires mentions != []
    ensures LastLead(mentions, k) && Grow(ctx, key, mentions).value.address == mentions[k].address
    decreases |mentions|
  {
    var front, last := mentions[..|mentions| - 1], |mentions| - 1;
    k := last;
    if front == [] {
    } else {
      GrowCounts(ctx, key, front);
      LeadsLast(mentions, Grow(ctx, key, front).value.lastContactAt);
      if !Leads(mentions, last) {
        k := GrowAddress(ctx, key, front);
        LastLeadKept(mentions, k);
      }
    }
  }

  lemma LastLeadKept(mentions: seq<Mention>, k: int)
    requires mentions != [] && LastLead(mentions[..|mentions| - 1], k) && !Leads(mentions, |mentions| - 1)
    ensures LastLead(mentions, k)
  {
    LeadsFront(mentions, k);
    forall j | k < j
      ensures !Leads(mentions, j)
    {
      if j < |mentions| - 1 {
        LeadsFront(mentions, j);
      }
    }
  }

  /** The last mention does not lead, or has no name. */
  ghost predicate AddsNoName(mentions: seq<Mention>) {
    mentions != [] && (Leads(mentions, |mentions| - 1) ==> Nameless(mentions[|mentions| - 1]))
  }

  lemma StillNames(mentions: seq<Mention>, n: int)
    requires AddsNoName(mentions) && NamesLast(mentions[..|mentions| - 1], n)
    ensures NamesLast(mentions, n) && mentions[n] == mentions[..|mentions| - 1][n]
  {
    var front := mentions[..|mentions| - 1];
    LeadsFront(mentions, n);
    forall j | n < j && Leads(mentions, j)
      ensures Nameless(mentions[j])
    {
      if j < |front| {
        LeadsFront(mentions, j);
        assert mentions[j] == front[j];
      }
    }
  }

  lemma StillNameless(mentions: seq<Mention>)
    requires AddsNoName(mentions) && NobodyNamed(mentions[..|mentions| - 1])
    ensures NobodyNamed(mentions)
  {
    var front := mentions[..|mentions| - 1];
    forall j | Leads(mentions, j)
      ensures Nameless(mentions[j])
    {
      if j < |front| {
        LeadsFront(mentions, j);
        assert mentions[j] == front[j];
      }
    }
  }

  /** One more mention leaves the name as it was unless it leads and has one. */
  lemma NamedByKept(ctx: Context, key: string, mentions: seq<Mention>, name: string)
    requires AddsNoName(mentions) && NamedBy(ctx, key, mentions[..|mentions| - 1], name)
    ensures NamedBy(ctx, key, mentions, name)
  {
    var front := mentions[..|mentions| - 1];
    if n :| NamesLast(front, n) && name == Trim(front[n].name) {
      StillNames(mentions, n);
    } else {
      StillNameless(mentions);
    }
  }

  lemma {:induction false} GrowName(ctx: Context, key: string, mentions: seq<Mention>)
    requires mentions != []
    ensures NamedBy(ctx, key, mentions, Grow(ctx, key, mentions).value.name)
    decreases |mentions|
  {
    var front, last := mentions[..|mentions| - 1], |mentions| - 1;
    if front == [] {
      FirstName(ctx, key, mentions);
    } else {
      GrowName(ctx, key, front);
      GrowCounts(ctx, key, front);
      NextName(ctx, key, mentions, Grow(ctx, key, front).value);
    }
  }

  lemma FirstName(ctx: Context, key: string, mentions: seq<Mention>)
    requires |mentions| == 1
    ensures NamedBy(ctx, key, mentions, Apply(ctx, key, None, mentions[0]).name)
  {
    assert Leads(mentions, 0);
    if !Nameless(mentions[0]) {
      assert NamesLast(mentions, 0);
    }
  }

  lemma NextName(ctx: Context, key: string, mentions: seq<Mention>, before: Contact)
    requires |mentions| > 1 && Latest(before.lastContactAt, mentions[..|mentions| - 1])
    requires NamedBy(ctx, key, mentions[..|mentions| - 1], before.name)
    ensures NamedBy(ctx, key, mentions, Apply(ctx, key, Some(before), mentions[|mentions| - 1]).name)
  {
    var last := |mentions| - 1;
    LeadsLast(mentions, before.lastContactAt);
    if Leads(mentions, last) && !Nameless(mentions[last]) {
      assert NamesLast(mentions, last);
    } else {
      NamedByKept(ctx, key, mentions, before.name);
    }
  }

  /**
  A contact carries the address of the first mention with the latest date, and the name of the last mention that
  was later than all before it and had a name, or else the name it had before.
  */
  lemma FoldNames(ctx: Context, messages: seq<Message>, key: string) returns (k: nat)
    requires key in Fold(ctx, messages)
    ensures var c, mentions := Fold(ctx, messages)[key], Mentions(ctx, key, messages);
      && LastLead(mentions, k) && c.address == mentions[k].address
      && NamedBy(ctx, key, mentions, c.name)
  {
    FoldAt(ctx, messages, key);
    k := GrowAddress(ctx, key, Mentions(ctx, key, messages));
    GrowName(ctx, key, Mentions(ctx, key, messages));
  }

  /** A message takes part when one of its participants is the contact: not blank, not one's own. */
  lemma {:induction false} FirstNamedExactly(ctx: Context, key: string, ps: seq<Participant>)
    ensures FirstNamed(ctx, key, ps).Some? <==> exists i :: 0 <= i < |ps| && Names(ctx, key, ps[i])
    decreases |ps|
  {
    if ps != [] && !Names(ctx, key, ps[0]) {
      FirstNamedExactly(ctx, key, ps[1..]);
      forall i | 0 <= i < |ps| && Names(ctx, key, ps[i])
        ensures exists j :: 0 <= j < |ps[1..]| && Names(ctx, key, ps[1..][j])
      {
        assert ps[1..][i - 1] == ps[i];
      }
    }
  }

  // ---- The order of the messages does not matter for them ----

  lemma MentionsPush(ctx: Context, key: string, messages: seq<Message>, m: Message)
    ensures Mentions(ctx, key, messages + [m]) == Mentions(ctx, key, messages) + MentionIn(ctx, key, m)
  {
    var longer := messages + [m];
    assert longer[..|longer| - 1] == messages && longer[|longer| - 1] == m;
  }

  lemma {:induction false} MentionsAppend(ctx: Context, key: string, a: seq<Message>, b: seq<Message>)
    ensures Mentions(ctx, key, a + b) == Mentions(ctx, key, a) + Mentions(ctx, key, b)
    decreases |b|
  {
    if b == [] {
      assert a + b == a;
    } else {
      var front, last := b[..|b| - 1], b[|b| - 1];
      assert b == front + [last];
      Associative(a, front, [last]);
      MentionsAppend(ctx, key, a, front);
      MentionsPush(ctx, key, a + front, last);
      MentionsPush(ctx, key, front, last);
      Associative(Mentions(ctx, key, a), Mentions(ctx, key, front), MentionIn(ctx, key, last));
    }
  }

  lemma MentionsOne(ctx: Context, key: string, m: Message)
    ensures Mentions(ctx, key, [m]) == MentionIn(ctx, key, m)
  {
    assert [m][..0] == [];
  }

  lemma {:induction false} MentionsPermute(ctx: Context, key: string, a: seq<Message>, b: seq<Message>)
    requires multiset(a) == multiset(b)
    ensures multiset(Mentions(ctx, key, a)) == multiset(Mentions(ctx, key, b))
    decreases |a|
  {
    if a == [] {
      assert |multiset(b)| == |b|;
    } else {
      var front, last := a[..|a| - 1], a[|a| - 1];
      var left, right := PullOut(a, b);
      MentionsPermute(ctx, key, front, left + right);
      MentionsAround(ctx, key, left, last, right);
    }
  }

  lemma MentionsAround(ctx: Context, key: string, left: seq<Message>, m: Message, right: seq<Message>)
    ensures multiset(Mentions(ctx, key, left + [m] + right))
         == multiset(Mentions(ctx, key, left + right)) + multiset(MentionIn(ctx, key, m))
  {
    MentionsAppend(ctx, key, left, right);
    MentionsAppend(ctx, key, left + [m], right);
    MentionsAppend(ctx, key, left, [m]);
    MentionsOne(ctx, key, m);
  }

  lemma LatestUnique(d: string, e: string, mentions: seq<Mention>, mentions': seq<Mention>)
    requires Latest(d, mentions) && Latest(e, mentions') && multiset(mentions) == multiset(mentions')
    ensures d == e
  {
    LatestMonotone(d, e, mentions, mentions');
    LatestMonotone(e, d, mentions', mentions);
    LessTotal(d, e);
  }

  lemma LatestMonotone(d: string, e: string, mentions: seq<Mention>, mentions': seq<Mention>)
    requires Latest(d, mentions) && Latest(e, mentions') && multiset(mentions) == multiset(mentions')
    ensures !Less(e, d)
  {
    var i :| 0 <= i < |mentions| && mentions[i].date == d;
    assert mentions[i] in multiset(mentions');
    var j :| 0 <= j < |mentions'| && mentions'[j] == mentions[i];
  }

  /** Who is listed, with which count and which date, is the same for every order of the messages. */
  lemma OrderIrrelevant(ctx: Context, messages: seq<Message>, messages': seq<Message>, key: string)
    requires multiset(messages) == multiset(messages')
    ensures var book, book' := Fold(ctx, messages), Fold(ctx, messages');
      && (key in book <==> key in book')
      && (key in book ==>
            book[key].messageCount == book'[key].messageCount && book[key].lastContactAt == book'[key].lastContactAt)
  {
    var a, b := Mentions(ctx, key, messages), Mentions(ctx, key, messages');
    MentionsPermute(ctx, key, messages, messages');
    FoldMeetsSpec(ctx, messages, key);
    FoldMeetsSpec(ctx, messages', key);
    assert |a| == |multiset(a)| == |multiset(b)| == |b|;
    if a != [] {
      LatestUnique(Fold(ctx, messages)[key].lastContactAt, Fold(ctx, messages')[key].lastContactAt, a, b);
    }
  }

  // ---- Reconciling again changes nothing ----

  /** The logo keys of an address do not depend on its letter case. */
  ghost predicate CaseBlind(env: Env) {
    forall a, b :: env.lower(a) == env.lower(b) ==> KeysOf(env, a) == KeysOf(env, b)
  }

  /** Previous contacts with the same logo key carry the same logo. */
  ghost predicate LogosAgree(previous: seq<Contact>) {
    forall i, j :: 0 <= i < |previous| && 0 <= j < |previous|
      && previous[i].logo.Some? && previous[j].logo.Some? && previous[i].logo.value.key == previous[j].logo.value.key
      ==> previous[i].logo == previous[j].logo
  }

  ghost predicate Carried(previous: seq<Contact>, logo: Logo) {
    exists i :: 0 <= i < |previous| && previous[i].logo == Some(logo)
  }

  lemma CarriedLonger(previous: seq<Contact>, logo: Logo)
    requires previous != [] && Carried(previous[..|previous| - 1], logo)
    ensures Carried(previous, logo)
  {
    var front := previous[..|previous| - 1];
    var i :| 0 <= i < |front| && front[i].logo == Some(logo);
    assert previous[i] == front[i];
  }

  lemma {:induction false} LookedUpIsCarried(previous: seq<Contact>, k: string)
    requires k in ByLogoKey(previous)
    ensures ByLogoKey(previous)[k].key == k && Carried(previous, ByLogoKey(previous)[k])
    decreases |previous|
  {
    var front, last := previous[..|previous| - 1], previous[|previous| - 1].logo;
    if last.Some? && last.value.key == k {
      assert previous[|previous| - 1].logo == Some(ByLogoKey(previous)[k]);
    } else {
      LookedUpIsCarried(front, k);
      CarriedLonger(previous, ByLogoKey(front)[k]);
    }
  }

  lemma {:induction false} ByLogoKeyIs(previous: seq<Contact>)
    ensures var logos := ByLogoKey(previous);
      && (forall k :: k in logos ==> logos[k].key == k && Carried(previous, logos[k]))
      && (forall i :: 0 <= i < |previous| && previous[i].logo.Some? ==> previous[i].logo.value.key in logos)
    decreases |previous|
  {
    if previous == [] {
    } else {
      ByLogoKeyIs(previous[..|previous| - 1]);
      forall k | k in ByLogoKey(previous)
        ensures ByLogoKey(previous)[k].key == k && Carried(previous, ByLogoKey(previous)[k])
      {
        LookedUpIsCarried(previous, k);
      }
    }
  }

  /** A logo of the list is the one its key is looked up to. */
  ghost predicate Canonical(logos: map<string, Logo>, logo: Option<Logo>) {
    logo.Some? ==> logo.value.key in logos && logos[logo.value.key] == logo.value
  }

  lemma ListIsCanonical(previous: seq<Contact>, i: nat)
    requires LogosAgree(previous) && i < |previous|
    ensures Canonical(ByLogoKey(previous), previous[i].logo)
  {
    ByLogoKeyIs(previous);
    if previous[i].logo.Some? {
      var k := previous[i].logo.value.key;
      var j :| 0 <= j < |previous| && previous[j].logo == Some(ByLogoKey(previous)[k]);
    }
  }

  lemma {:induction false} ByAddressIs(env: Env, previous: seq<Contact>, key: string)
    ensures key in ByAddress(env, previous) ==>
      exists i :: 0 <= i < |previous| && previous[i] == ByAddress(env, previous)[key] && env.lower(previous[i].address) == key
    ensures (exists i :: 0 <= i < |previous| && env.lower(previous[i].address) == key) ==> key in ByAddress(env, previous)
    decreases |previous|
  {
    if previous == [] {
    } else {
      var front, last := previous[..|previous| - 1], previous[|previous| - 1];
      ByAddressIs(env, front, key);
      if env.lower(last.address) == key {
        assert previous[|front|] == last;
      } else if key in ByAddress(env, previous) {
        var i :| 0 <= i < |front| && front[i] == ByAddress(env, front)[key] && env.lower(front[i].address) == key;
        assert previous[i] == front[i];
      }
      forall i | 0 <= i < |previous| && env.lower(previous[i].address) == key
        ensures key in ByAddress(env, previous)
      {
        if i < |front| {
          assert front[i] == previous[i];
        }
      }
    }
  }

  /** Looked up by address, the listed result is the book it lists. */
  lemma ListedByAddress(env: Env, book: Book, listed: seq<Contact>)
    requires Keyed(env, book) && Holds(book, listed)
    ensures ByAddress(env, listed) == book
  {
    forall key
      ensures At(ByAddress(env, listed), key) == At(book, key)
    {
      ByAddressIs(env, listed, key);
      if key in ByAddress(env, listed) {
        var i :| 0 <= i < |listed| && listed[i] == ByAddress(env, listed)[key] && env.lower(listed[i].address) == key;
        assert listed[i] in listed;
        var k :| k in book && book[k] == listed[i];
      }
    }
    SameAt(ByAddress(env, listed), book);
  }

  lemma SameAt(a: Book, b: Book)
    requires forall key :: At(a, key) == At(b, key)
    ensures a == b
  {
    forall key
      ensures key in a <==> key in b
      ensures key in a ==> a[key] == b[key]
    {
      assert At(a, key) == At(b, key);
    }
  }

  /** The logo a contact ends up with: chosen once, it is chosen again every time. */
  function FinalLogo(ctx: Context, key: string, address: string): Option<Logo> {
    SelectLogo(ctx.logos, KeysOf(ctx.env, address), LogoOf(Previous(ctx, key)))
  }

  ghost predicate OwnKeys(logos: map<string, Logo>) {
    forall k :: k in logos ==> logos[k].key == k
  }

  lemma {:induction false} GrowLogo(ctx: Context, key: string, mentions: seq<Mention>, address: string)
    requires mentions != [] && CaseBlind(ctx.env) && OwnKeys(ctx.logos) && ctx.env.lower(address) == key
    requires forall i :: 0 <= i < |mentions| ==> ctx.env.lower(mentions[i].address) == key
    ensures Grow(ctx, key, mentions).value.logo == FinalLogo(ctx, key, address)
    decreases |mentions|
  {
    var front, last := mentions[..|mentions| - 1], mentions[|mentions| - 1];
    assert KeysOf(ctx.env, last.address) == KeysOf(ctx.env, address);
    if front == [] {
    } else {
      GrowLogo(ctx, key, front, address);
    }
  }

  lemma {:induction false} MentionsNamed(ctx: Context, key: string, messages: seq<Message>)
    ensures forall i :: 0 <= i < |Mentions(ctx, key, messages)| ==> ctx.env.lower(Mentions(ctx, key, messages)[i].address) == key
    decreases |messages|
  {
    if messages == [] {
    } else {
      MentionsNamed(ctx, key, messages[..|messages| - 1]);
      FirstNamedIs(ctx, key, Participants(messages[|messages| - 1]));
    }
  }

  lemma {:induction false} FirstNamedIs(ctx: Context, key: string, ps: seq<Participant>)
    ensures FirstNamed(ctx, key, ps).Some? ==> Names(ctx, key, FirstNamed(ctx, key, ps).value)
    decreases |ps|
  {
    if ps != [] && !Names(ctx, key, ps[0]) {
      FirstNamedIs(ctx, key, ps[1..]);
    }
  }

  /** The two runs agree on everything but the name, and on the name unless it was never set. */
  lemma {:induction false} GrowTwice(ctx: Context, ctx': Context, key: string, mentions: seq<Mention>, name: string)
    requires ctx.userId == ctx'.userId && mentions != [] && key in ctx'.previous && ctx'.previous[key].name == name
    ensures var c, c' := Grow(ctx, key, mentions).value, Grow(ctx', key, mentions).value;
      && c.ownerId == c'.ownerId && c.address == c'.address
      && c.messageCount == c'.messageCount && c.lastContactAt == c'.lastContactAt
      && (c.name == c'.name || c'.name == name)
    decreases |mentions|
  {
    var front := mentions[..|mentions| - 1];
    if front == [] {
    } else {
      GrowTwice(ctx, ctx', key, front, name);
    }
  }

  /** The second lookup table knows exactly the logos that are still in use. */
  lemma SecondChoice(logos: map<string, Logo>, logos': map<string, Logo>, keys: Option<LogoKeys>, prior: Option<Logo>)
    requires OwnKeys(logos) && Canonical(logos, prior)
    requires forall k :: k in logos' ==> k in logos && logos'[k] == logos[k]
    requires Canonical(logos', SelectLogo(logos, keys, prior))
    ensures SelectLogo(logos', keys, SelectLogo(logos, keys, prior)) == SelectLogo(logos, keys, prior)
  {
  }

  lemma SelectCanonical(logos: map<string, Logo>, keys: Option<LogoKeys>, prior: Option<Logo>)
    requires OwnKeys(logos) && Canonical(logos, prior)
    ensures Canonical(logos, SelectLogo(logos, keys, prior))
  {
  }

  lemma PreviousCanonical(ctx: Context, previous: seq<Contact>, key: string)
    requires LogosAgree(previous) && ctx.previous == ByAddress(ctx.env, previous) && ctx.logos == ByLogoKey(previous)
    ensures OwnKeys(ctx.logos) && Canonical(ctx.logos, LogoOf(Previous(ctx, key)))
  {
    ByLogoKeyIs(previous);
    if key in ctx.previous {
      ByAddressIs(ctx.env, previous, key);
      var i :| 0 <= i < |previous| && previous[i] == ctx.previous[key];
      ListIsCanonical(previous, i);
    }
  }

  /** Every logo of the first result is the canonical one of its key. */
  lemma ResultCanonical(ctx: Context, previous: seq<Contact>, messages: seq<Message>, key: string)
    requires CaseBlind(ctx.env) && LogosAgree(previous)
    requires ctx.previous == ByAddress(ctx.env, previous) && ctx.logos == ByLogoKey(previous)
    requires key in Fold(ctx, messages)
    ensures var c := Fold(ctx, messages)[key];
      c.logo == FinalLogo(ctx, key, c.address) && Canonical(ctx.logos, c.logo)
  {
    var mentions := Mentions(ctx, key, messages);
    FoldAt(ctx, messages, key);
    FoldKeyed(ctx, messages);
    MentionsNamed(ctx, key, messages);
    PreviousCanonical(ctx, previous, key);
    var c := Fold(ctx, messages)[key];
    GrowLogo(ctx, key, mentions, c.address);
    SelectCanonical(ctx.logos, KeysOf(ctx.env, c.address), LogoOf(Previous(ctx, key)));
  }

  /** The logo table built from the first result is part of the one it was built with. */
  lemma SecondTable(ctx: Context, previous: seq<Contact>, messages: seq<Message>, listed: seq<Contact>)
    requires CaseBlind(ctx.env) && LogosAgree(previous)
    requires ctx.previous == ByAddress(ctx.env, previous) && ctx.logos == ByLogoKey(previous)
    requires Holds(Fold(ctx, messages), listed)
    ensures LogosAgree(listed)
    ensures forall k :: k in ByLogoKey(listed) ==> k in ctx.logos && ByLogoKey(listed)[k] == ctx.logos[k]
  {
    forall i | 0 <= i < |listed|
      ensures Canonical(ctx.logos, listed[i].logo)
    {
      assert listed[i] in listed;
      var key :| key in Fold(ctx, messages) && Fold(ctx, messages)[key] == listed[i];
      ResultCanonical(ctx, previous, messages, key);
    }
    ByLogoKeyIs(listed);
    forall k | k in ByLogoKey(listed)
      ensures k in ctx.logos && ByLogoKey(listed)[k] == ctx.logos[k]
    {
      LookedUpIsCarried(listed, k);
      var i :| 0 <= i < |listed| && listed[i].logo == Some(ByLogoKey(listed)[k]);
      assert Canonical(ctx.logos, listed[i].logo);
    }
  }

  lemma SameMentions(ctx: Context, ctx': Context, key: string, messages: seq<Message>)
    requires ctx.env == ctx'.env && ctx.own == ctx'.own
    ensures Mentions(ctx, key, messages) == Mentions(ctx', key, messages)
    decreases |messages|
  {
    if messages != [] {
      SameMentions(ctx, ctx', key, messages[..|messages| - 1]);
      SameNamed(ctx, ctx', key, Participants(messages[|messages| - 1]));
    }
  }

  lemma SameNamed(ctx: Context, ctx': Context, key: string, ps: seq<Participant>)
    requires ctx.env == ctx'.env && ctx.own == ctx'.own
    ensures FirstNamed(ctx, key, ps) == FirstNamed(ctx', key, ps)
    decreases |ps|
  {
    if ps != [] {
      SameNamed(ctx, ctx', key, ps[1..]);
    }
  }

  /** Looked up again in its own list, the contact keeps its logo. */
  ghost predicate KeepsLogo(env: Env, listed: seq<Contact>, c: Contact) {
    SelectLogo(ByLogoKey(listed), KeysOf(env, c.address), c.logo) == c.logo
  }

  ghost predicate AllKeepLogos(env: Env, listed: seq<Contact>) {
    forall c :: c in listed ==> KeepsLogo(env, listed, c)
  }

  /** On top of the first result, everything but the logo is the same again, and the logo exactly if it is kept. */
  lemma SecondContactExactly(ctx: Context, ctx': Context, messages: seq<Message>, listed: seq<Contact>, key: string)
    requires CaseBlind(ctx.env) && Holds(Fold(ctx, messages), listed)
    requires ctx' == ctx.(previous := ByAddress(ctx.env, listed), logos := ByLogoKey(listed))
    ensures key in Fold(ctx', messages) <==> key in Fold(ctx, messages)
    ensures key in Fold(ctx, messages) ==>
      (Fold(ctx', messages)[key] == Fold(ctx, messages)[key] <==> KeepsLogo(ctx.env, listed, Fold(ctx, messages)[key]))
  {
    var mentions := Mentions(ctx, key, messages);
    FoldAt(ctx, messages, key);
    FoldAt(ctx', messages, key);
    SameMentions(ctx, ctx', key, messages);
    if mentions != [] {
      FoldKeyed(ctx, messages);
      ListedByAddress(ctx.env, Fold(ctx, messages), listed);
      var c := Fold(ctx, messages)[key];
      assert ctx'.previous[key] == c;
      GrowTwice(ctx, ctx', key, mentions, c.name);
      ByLogoKeyIs(listed);
      MentionsNamed(ctx, key, messages);
      GrowLogo(ctx', key, mentions, c.address);
    }
  }

  lemma SameBooksExactly(env: Env, book: Book, book': Book, first: seq<Contact>)
    requires Holds(book, first)
    requires forall key :: key in book' <==> key in book
    requires forall key :: key in book ==> (book'[key] == book[key] <==> KeepsLogo(env, first, book[key]))
    ensures book' == book <==> AllKeepLogos(env, first)
  {
    if book' == book {
      forall c | c in first
        ensures KeepsLogo(env, first, c)
      {
        var key :| key in book && book[key] == c;
      }
    } else {
      var key :| key in book && book'[key] != book[key];
      assert book[key] in first;
    }
  }

  lemma SecondBookExactly(ctx: Context, ctx': Context, messages: seq<Message>, first: seq<Contact>)
    requires CaseBlind(ctx.env) && Holds(Fold(ctx, messages), first)
    requires ctx' == ctx.(previous := ByAddress(ctx.env, first), logos := ByLogoKey(first))
    ensures Fold(ctx', messages) == Fold(ctx, messages) <==> AllKeepLogos(ctx.env, first)
  {
    var book, book' := Fold(ctx, messages), Fold(ctx', messages);
    forall key
      ensures key in book' <==> key in book
      ensures key in book ==> (book'[key] == book[key] <==> KeepsLogo(ctx.env, first, book[key]))
    {
      SecondContactExactly(ctx, ctx', messages, first, key);
    }
    SameBooksExactly(ctx.env, book, book', first);
  }

  /** Two books are the same exactly when their lists are. */
  lemma SameListsExactly(env: Env, book: Book, book': Book, first: seq<Contact>, second: seq<Contact>)
    requires Keyed(env, book) && Keyed(env, book') && Lists(book, first) && Lists(book', second)
    ensures second == first <==> book' == book
  {
    if second == first {
      ListedByAddress(env, book, first);
      ListedByAddress(env, book', second);
    } else if book' == book {
      ListingUnique(book, first, second);
    }
  }

  /** A stored list read back, by recency or by address. */
  ghost predicate ReadBack(stored: seq<Contact>, listed: seq<Contact>) {
    multiset(stored) == multiset(listed)
  }

  lemma ReadBackMember(stored: seq<Contact>, listed: seq<Contact>, c: Contact)
    requires ReadBack(stored, listed)
    ensures c in stored <==> c in listed
  {
    assert c in multiset(stored) <==> c in multiset(listed);
  }

  lemma ReadBackHolds(book: Book, stored: seq<Contact>, listed: seq<Contact>)
    requires ReadBack(stored, listed) && Holds(book, listed)
    ensures Holds(book, stored)
  {
    forall c
      ensures c in stored <==> c in listed
    {
      ReadBackMember(stored, listed, c);
    }
  }

  /**
  Reconciling the same messages again on top of the first result, in whatever order that is read back, returns exactly
  that result, order, counts, dates, names and logos, if and only if every contact keeps its logo when looked up in it.
  */
  lemma ReconcileIdempotentExactly(env: Env, userId: string, own: seq<string>, messages: seq<Message>, previous: seq<Contact>,
                                   first: seq<Contact>, stored: seq<Contact>, second: seq<Contact>)
    requires CaseBlind(env) && ReadBack(stored, first)
    requires Lists(Fold(ContextOf(env, userId, own, previous), messages), first)
    requires Lists(Fold(ContextOf(env, userId, own, stored), messages), second)
    ensures second == first <==> AllKeepLogos(env, stored)
  {
    var ctx, ctx' := ContextOf(env, userId, own, previous), ContextOf(env, userId, own, stored);
    ReadBackHolds(Fold(ctx, messages), stored, first);
    SecondBookExactly(ctx, ctx', messages, stored);
    FoldKeyed(ctx, messages);
    FoldKeyed(ctx', messages);
    SameListsExactly(env, Fold(ctx, messages), Fold(ctx', messages), first, second);
  }

  /** Agreement of the previous logos per key is enough. */
  lemma AgreementKeepsLogos(ctx: Context, previous: seq<Contact>, messages: seq<Message>, listed: seq<Contact>)
    requires CaseBlind(ctx.env) && LogosAgree(previous) && Holds(Fold(ctx, messages), listed)
    requires ctx.previous == ByAddress(ctx.env, previous) && ctx.logos == ByLogoKey(previous)
    ensures AllKeepLogos(ctx.env, listed)
  {
    SecondTable(ctx, previous, messages, listed);
    ByLogoKeyIs(previous);
    forall c | c in listed
      ensures KeepsLogo(ctx.env, listed, c)
    {
      var key :| key in Fold(ctx, messages) && Fold(ctx, messages)[key] == c;
      ResultCanonical(ctx, previous, messages, key);
      PreviousCanonical(ctx, previous, key);
      var i :| 0 <= i < |listed| && listed[i] == c;
      ListIsCanonical(listed, i);
      SecondChoice(ctx.logos, ByLogoKey(listed), KeysOf(ctx.env, c.address), LogoOf(Previous(ctx, key)));
    }
  }

  lemma ReconcileIdempotent(env: Env, userId: string, own: seq<string>, messages: seq<Message>, previous: seq<Contact>,
                            first: seq<Contact>, stored: seq<Contact>, second: seq<Contact>)
    requires CaseBlind(env) && LogosAgree(previous) && ReadBack(stored, first)
    requires Lists(Fold(ContextOf(env, userId, own, previous), messages), first)
    requires Lists(Fold(ContextOf(env, userId, own, stored), messages), second)
    ensures second == first
  {
    var ctx := ContextOf(env, userId, own, previous);
    ReadBackHolds(Fold(ctx, messages), stored, first);
    AgreementKeepsLogos(ctx, previous, messages, stored);
    ReconcileIdempotentExactly(env, userId, own, messages, previous, first, stored, second);
  }
}
