/** What a reconciled contact is made of, said over the senders and recipients of the messages and the previous list. */
module ContactParties {
  import opened Options
  import opened Text
  import opened Ordering
  import opened Contacts
  import opened ContactFacts

  /** The sender and then the recipients, in order. */
  function Parties(m: Message): seq<Party> {
    [m.from] + if m.to.Some? then m.to.value else []
  }

  predicate IsContact(env: Env, key: string, p: Party) {
    p.address.Some? && Trim(p.address.value) != "" && env.lower(Trim(p.address.value)) == key
  }

  ghost predicate FirstParty(env: Env, key: string, ps: seq<Party>, i: int) {
    0 <= i < |ps| && IsContact(env, key, ps[i]) && forall j :: 0 <= j < i ==> !IsContact(env, key, ps[j])
  }

  ghost predicate TakesPart(env: Env, key: string, m: Message) {
    exists i :: 0 <= i < |Parties(m)| && IsContact(env, key, Parties(m)[i])
  }

  ghost predicate IsOwn(env: Env, own: seq<string>, key: string) {
    exists i :: 0 <= i < |own| && env.lower(Trim(own[i])) == key
  }

  function NameOf(p: Party): string {
    if p.name.Some? then p.name.value else ""
  }

  /** The first party with the contact's address gives it this name. */
  ghost predicate Says(env: Env, key: string, m: Message, name: string) {
    exists i :: FirstParty(env, key, Parties(m), i) && name == Trim(NameOf(Parties(m)[i]))
  }

  // ---- One message ----

  lemma {:induction false} FirstOfParties(ctx: Context, key: string, ps: seq<Party>) returns (i: int)
    requires key !in ctx.own
    ensures i == -1 ==> FirstNamed(ctx, key, PartiesOf(ps)).None? && forall j :: 0 <= j < |ps| ==> !IsContact(ctx.env, key, ps[j])
    ensures i != -1 ==> FirstParty(ctx.env, key, ps, i)
    ensures i != -1 ==> FirstNamed(ctx, key, PartiesOf(ps)) == Some(Participant(NameOf(ps[i]), ps[i].address.value))
    decreases |ps|
  {
    if ps == [] {
      i := -1;
    } else {
      var head, rest := PartyOf(ps[0]), PartiesOf(ps[1..]);
      if ps[0].address.Some? {
        assert head + rest == [head[0]] + rest && (head + rest)[1..] == rest;
      } else {
        assert head + rest == rest;
      }
      if IsContact(ctx.env, key, ps[0]) {
        i := 0;
      } else {
        i := FirstOfParties(ctx, key, ps[1..]);
        if i != -1 {
          i := i + 1;
          assert ps[1..][i - 1] == ps[i];
          assert forall j :: 1 <= j < i ==> ps[j] == ps[1..][j - 1];
        } else {
          assert forall j :: 1 <= j < |ps| ==> ps[j] == ps[1..][j - 1];
        }
      }
    }
  }

  /** Which party of a message stands for the contact, and what it contributes. */
  lemma MentionOfParty(ctx: Context, key: string, m: Message) returns (i: int)
    requires key !in ctx.own
    ensures i == -1 ==> !TakesPart(ctx.env, key, m) && MentionIn(ctx, key, m) == []
    ensures i != -1 ==> TakesPart(ctx.env, key, m) && FirstParty(ctx.env, key, Parties(m), i)
    ensures i != -1 ==> MentionIn(ctx, key, m) == [Mention(m.date, NameOf(Parties(m)[i]), Trim(Parties(m)[i].address.value))]
  {
    var ps := Parties(m);
    i := FirstOfParties(ctx, key, ps);
    assert ps[1..] == if m.to.Some? then m.to.value else [];
    assert Participants(m) == PartiesOf(ps);
  }

  lemma OwnTakesNoPart(ctx: Context, key: string, ps: seq<Participant>)
    requires key in ctx.own
    ensures FirstNamed(ctx, key, ps).None?
    decreases |ps|
  {
    if ps == [] {
    } else {
      OwnTakesNoPart(ctx, key, ps[1..]);
    }
  }

  // ---- All messages ----

  /** Where the mention of message `n` stands among the mentions. */
  function Place(ctx: Context, key: string, messages: seq<Message>, n: nat): nat
    requires n <= |messages|
  {
    |Mentions(ctx, key, messages[..n])|
  }

  lemma InTheMiddle(a: seq<Mention>, x: seq<Mention>, b: seq<Mention>)
    requires |x| == 1
    ensures |a| < |(a + x) + b| && ((a + x) + b)[|a|] == x[0]
  {
  }

  lemma MentionAt(ctx: Context, key: string, messages: seq<Message>, n: nat)
    requires key !in ctx.own && n < |messages| && TakesPart(ctx.env, key, messages[n])
    ensures |MentionIn(ctx, key, messages[n])| == 1 && Place(ctx, key, messages, n) < |Mentions(ctx, key, messages)|
    ensures Mentions(ctx, key, messages)[Place(ctx, key, messages, n)] == MentionIn(ctx, key, messages[n])[0]
  {
    OneMention(ctx, key, messages[n]);
    Around(messages, n);
    MentionBetween(ctx, key, messages[..n], messages[n], messages[n + 1..], messages);
  }

  lemma Around(messages: seq<Message>, n: nat)
    requires n < |messages|
    ensures messages == (messages[..n] + [messages[n]]) + messages[n + 1..]
  {
  }

  lemma OneMention(ctx: Context, key: string, m: Message)
    requires key !in ctx.own && TakesPart(ctx.env, key, m)
    ensures |MentionIn(ctx, key, m)| == 1
  {
    var i := MentionOfParty(ctx, key, m);
  }

  lemma MentionBetween(ctx: Context, key: string, before: seq<Message>, m: Message, rest: seq<Message>, messages: seq<Message>)
    requires |MentionIn(ctx, key, m)| == 1 && messages == (before + [m]) + rest
    ensures var all, place := Mentions(ctx, key, messages), |Mentions(ctx, key, before)|;
      place < |all| && all[place] == MentionIn(ctx, key, m)[0]
  {
    MentionsAppend(ctx, key, before + [m], rest);
    MentionsPush(ctx, key, before, m);
    InTheMiddle(Mentions(ctx, key, before), MentionIn(ctx, key, m), Mentions(ctx, key, rest));
  }

  lemma PlacesGrow(ctx: Context, key: string, messages: seq<Message>, n: nat, j: nat)
    requires key !in ctx.own && n < j <= |messages| && TakesPart(ctx.env, key, messages[n])
    ensures Place(ctx, key, messages, n) < Place(ctx, key, messages, j)
  {
    assert messages[..j][..n] == messages[..n] && messages[..j][n] == messages[n];
    MentionAt(ctx, key, messages[..j], n);
  }

  lemma {:induction false} MessageOf(ctx: Context, key: string, messages: seq<Message>, k: nat) returns (n: nat)
    requires key !in ctx.own && k < |Mentions(ctx, key, messages)|
    ensures n < |messages| && TakesPart(ctx.env, key, messages[n]) && Place(ctx, key, messages, n) == k
    decreases |messages|
  {
    var front, last := messages[..|messages| - 1], messages[|messages| - 1];
    if k < |Mentions(ctx, key, front)| {
      n := MessageOf(ctx, key, front, k);
      assert front[..n] == messages[..n];
    } else {
      n := |front|;
      var i := MentionOfParty(ctx, key, last);
      assert messages[..n] == front;
    }
  }

  /** The contact takes part in message `n`, which is later than every earlier one it takes part in. */
  ghost predicate LeadsIn(env: Env, key: string, messages: seq<Message>, n: int) {
    && 0 <= n < |messages| && TakesPart(env, key, messages[n])
    && forall j :: 0 <= j < n && TakesPart(env, key, messages[j]) ==> Less(messages[j].date, messages[n].date)
  }

  lemma DateAt(ctx: Context, key: string, messages: seq<Message>, n: nat)
    requires key !in ctx.own && n < |messages| && TakesPart(ctx.env, key, messages[n])
    ensures Place(ctx, key, messages, n) < |Mentions(ctx, key, messages)|
    ensures Mentions(ctx, key, messages)[Place(ctx, key, messages, n)].date == messages[n].date
  {
    var i := MentionOfParty(ctx, key, messages[n]);
    MentionAt(ctx, key, messages, n);
  }

  lemma LeadsAgree(ctx: Context, key: string, messages: seq<Message>, n: nat)
    requires key !in ctx.own && n < |messages| && TakesPart(ctx.env, key, messages[n])
    ensures LeadsIn(ctx.env, key, messages, n) <==> Leads(Mentions(ctx, key, messages), Place(ctx, key, messages, n))
  {
    var mentions, place := Mentions(ctx, key, messages), Place(ctx, key, messages, n);
    DateAt(ctx, key, messages, n);
    if LeadsIn(ctx.env, key, messages, n) {
      forall k | 0 <= k < place
        ensures Less(mentions[k].date, mentions[place].date)
      {
        var j := MessageOf(ctx, key, messages, k);
        DateAt(ctx, key, messages, j);
        if j > n {
          PlacesGrow(ctx, key, messages, n, j);
        }
      }
    }
    if Leads(mentions, place) {
      forall j | 0 <= j < n && TakesPart(ctx.env, key, messages[j])
        ensures Less(messages[j].date, messages[n].date)
      {
        DateAt(ctx, key, messages, j);
        PlacesGrow(ctx, key, messages, j, n);
      }
    }
  }

  lemma SaysAgree(ctx: Context, key: string, messages: seq<Message>, n: nat)
    requires key !in ctx.own && n < |messages| && TakesPart(ctx.env, key, messages[n])
    ensures Place(ctx, key, messages, n) < |Mentions(ctx, key, messages)|
    ensures Says(ctx.env, key, messages[n], Trim(Mentions(ctx, key, messages)[Place(ctx, key, messages, n)].name))
  {
    var i := MentionOfParty(ctx, key, messages[n]);
    MentionAt(ctx, key, messages, n);
  }

  // ---- The result ----

  /** The last message that leads with a name gives the name `name`. */
  ghost predicate NamedIn(env: Env, key: string, messages: seq<Message>, n: int, name: string) {
    && LeadsIn(env, key, messages, n) && name != "" && Says(env, key, messages[n], name)
    && forall j :: n < j && LeadsIn(env, key, messages, j) ==> Says(env, key, messages[j], "")
  }

  ghost predicate NeverNamed(env: Env, key: string, messages: seq<Message>) {
    forall j :: LeadsIn(env, key, messages, j) ==> Says(env, key, messages[j], "")
  }

  lemma NamelessIn(ctx: Context, key: string, messages: seq<Message>, from: int, j: int)
    requires key !in ctx.own && LeadsIn(ctx.env, key, messages, j) && from < j
    requires from >= 0 ==> from < |messages| && TakesPart(ctx.env, key, messages[from])
    requires forall k ::
      (from < 0 || Place(ctx, key, messages, from) < k) && Leads(Mentions(ctx, key, messages), k) ==>
        Nameless(Mentions(ctx, key, messages)[k])
    ensures Says(ctx.env, key, messages[j], "")
  {
    LeadsAgree(ctx, key, messages, j);
    SaysAgree(ctx, key, messages, j);
    if from >= 0 {
      PlacesGrow(ctx, key, messages, from, j);
    }
    assert Nameless(Mentions(ctx, key, messages)[Place(ctx, key, messages, j)]);
  }

  lemma NamedInMessages(ctx: Context, key: string, messages: seq<Message>, k: int) returns (n: nat)
    requires key !in ctx.own && NamesLast(Mentions(ctx, key, messages), k)
    ensures NamedIn(ctx.env, key, messages, n, Trim(Mentions(ctx, key, messages)[k].name))
  {
    n := MessageOf(ctx, key, messages, k);
    LeadsAgree(ctx, key, messages, n);
    SaysAgree(ctx, key, messages, n);
    forall j | n < j && LeadsIn(ctx.env, key, messages, j)
      ensures Says(ctx.env, key, messages[j], "")
    {
      NamelessIn(ctx, key, messages, n, j);
    }
  }

  lemma NeverNamedInMessages(ctx: Context, key: string, messages: seq<Message>)
    requires key !in ctx.own && NobodyNamed(Mentions(ctx, key, messages))
    ensures NeverNamed(ctx.env, key, messages)
  {
    forall j | LeadsIn(ctx.env, key, messages, j)
      ensures Says(ctx.env, key, messages[j], "")
    {
      NamelessIn(ctx, key, messages, -1, j);
    }
  }

  /** The last entry of the previous list with this address. */
  ghost predicate LastEntry(env: Env, previous: seq<Contact>, key: string, i: int) {
    0 <= i < |previous| && env.lower(previous[i].address) == key && forall j :: i < j < |previous| ==> env.lower(previous[j].address) != key
  }

  lemma {:induction false} ByAddressLast(env: Env, previous: seq<Contact>, key: string)
    ensures key !in ByAddress(env, previous) ==> forall i :: 0 <= i < |previous| ==> env.lower(previous[i].address) != key
    ensures key in ByAddress(env, previous) ==> exists i :: LastEntry(env, previous, key, i) && previous[i] == ByAddress(env, previous)[key]
    decreases |previous|
  {
    if previous == [] {
    } else {
      var front, last := previous[..|previous| - 1], |previous| - 1;
      ByAddressLast(env, front, key);
      if env.lower(previous[last].address) == key {
        assert LastEntry(env, previous, key, last);
      } else if key in ByAddress(env, previous) {
        var i :| LastEntry(env, front, key, i) && front[i] == ByAddress(env, front)[key];
        assert LastEntry(env, previous, key, i) && previous[i] == front[i];
      }
    }
  }

  ghost predicate FormerName(env: Env, previous: seq<Contact>, key: string, name: string) {
    || (exists i :: LastEntry(env, previous, key, i) && name == previous[i].name)
    || (name == "" && forall i :: 0 <= i < |previous| ==> env.lower(previous[i].address) != key)
  }

  /** The name a contact gets, from messages and previous list alone. */
  ghost predicate Called(env: Env, messages: seq<Message>, previous: seq<Contact>, key: string, name: string) {
    || (exists n :: NamedIn(env, key, messages, n, name))
    || (NeverNamed(env, key, messages) && FormerName(env, previous, key, name))
  }

  /** The trimmed address of the first party with it in the last message that leads. */
  ghost predicate AddressIn(env: Env, messages: seq<Message>, key: string, n: int, address: string) {
    && LeadsIn(env, key, messages, n) && (forall j :: n < j ==> !LeadsIn(env, key, messages, j))
    && exists i :: FirstParty(env, key, Parties(messages[n]), i) && address == Trim(Parties(messages[n])[i].address.value)
  }

  lemma AddressFrom(ctx: Context, key: string, messages: seq<Message>, k: nat) returns (n: nat)
    requires key !in ctx.own && LastLead(Mentions(ctx, key, messages), k)
    ensures AddressIn(ctx.env, messages, key, n, Mentions(ctx, key, messages)[k].address)
  {
    n := MessageOf(ctx, key, messages, k);
    LeadsAgree(ctx, key, messages, n);
    MentionAt(ctx, key, messages, n);
    var i := MentionOfParty(ctx, key, messages[n]);
    forall j | n < j && LeadsIn(ctx.env, key, messages, j)
      ensures false
    {
      LeadsAgree(ctx, key, messages, j);
      PlacesGrow(ctx, key, messages, n, j);
    }
  }

  /** The messages an address takes part in. */
  ghost function Shared(env: Env, key: string, messages: seq<Message>): set<int> {
    set n | 0 <= n < |messages| && TakesPart(env, key, messages[n])
  }

  lemma SharedMore(env: Env, key: string, messages: seq<Message>)
    requires messages != []
    ensures var last := |messages| - 1;
      var before := Shared(env, key, messages[..last]);
      last !in before && Shared(env, key, messages) == if TakesPart(env, key, messages[last]) then before + {last} else before
  {
    var last := |messages| - 1;
    assert forall n :: 0 <= n < last ==> messages[..last][n] == messages[n];
  }

  lemma {:induction false} SharedCounts(ctx: Context, key: string, messages: seq<Message>)
    requires key !in ctx.own
    ensures |Shared(ctx.env, key, messages)| == |Mentions(ctx, key, messages)|
    decreases |messages|
  {
    if messages == [] {
      assert Shared(ctx.env, key, messages) == {};
    } else {
      var front, last := messages[..|messages| - 1], messages[|messages| - 1];
      SharedCounts(ctx, key, front);
      SharedMore(ctx.env, key, messages);
      var i := MentionOfParty(ctx, key, last);
      assert Mentions(ctx, key, messages) == Mentions(ctx, key, front) + MentionIn(ctx, key, last);
    }
  }

  ghost predicate LatestIn(env: Env, key: string, messages: seq<Message>, date: string) {
    && (exists n :: n in Shared(env, key, messages) && messages[n].date == date)
    && forall n :: n in Shared(env, key, messages) ==> !Less(date, messages[n].date)
  }

  lemma LatestFrom(ctx: Context, key: string, messages: seq<Message>, date: string)
    requires key !in ctx.own && Latest(date, Mentions(ctx, key, messages))
    ensures LatestIn(ctx.env, key, messages, date)
  {
    var mentions := Mentions(ctx, key, messages);
    var k :| 0 <= k < |mentions| && mentions[k].date == date;
    var n := MessageOf(ctx, key, messages, k);
    DateAt(ctx, key, messages, n);
    assert n in Shared(ctx.env, key, messages);
    forall j | j in Shared(ctx.env, key, messages)
      ensures !Less(date, messages[j].date)
    {
      DateAt(ctx, key, messages, j);
    }
  }

  lemma OwnKeysAre(env: Env, userId: string, own: seq<string>, previous: seq<Contact>, key: string)
    ensures key in ContextOf(env, userId, own, previous).own <==> IsOwn(env, own, key)
  {
    if IsOwn(env, own, key) {
      var i :| 0 <= i < |own| && env.lower(Trim(own[i])) == key;
      assert own[i] in own;
    }
  }

  /** A contact as its messages and the previous list make it. */
  ghost predicate MadeOf(env: Env, userId: string, messages: seq<Message>, previous: seq<Contact>, key: string, c: Contact) {
    && c.ownerId == userId && c.messageCount == |Shared(env, key, messages)| && LatestIn(env, key, messages, c.lastContactAt)
    && (exists n :: AddressIn(env, messages, key, n, c.address)) && Called(env, messages, previous, key, c.name)
  }

  lemma FoldListed(env: Env, userId: string, own: seq<string>, messages: seq<Message>, previous: seq<Contact>, key: string)
    ensures key in Fold(ContextOf(env, userId, own, previous), messages) <==> !IsOwn(env, own, key) && Shared(env, key, messages) != {}
  {
    var ctx := ContextOf(env, userId, own, previous);
    OwnKeysAre(env, userId, own, previous, key);
    FoldAt(ctx, messages, key);
    if key in ctx.own {
      OwnNeverMentioned(ctx, key, messages);
    } else {
      SharedCounts(ctx, key, messages);
    }
  }

  lemma {:induction false} OwnNeverMentioned(ctx: Context, key: string, messages: seq<Message>)
    requires key in ctx.own
    ensures Mentions(ctx, key, messages) == []
    decreases |messages|
  {
    if messages == [] {
    } else {
      OwnNeverMentioned(ctx, key, messages[..|messages| - 1]);
      OwnTakesNoPart(ctx, key, Participants(messages[|messages| - 1]));
    }
  }

  lemma CalledFrom(ctx: Context, previous: seq<Contact>, messages: seq<Message>, key: string, name: string)
    requires key !in ctx.own && ctx.previous == ByAddress(ctx.env, previous) && NamedBy(ctx, key, Mentions(ctx, key, messages), name)
    ensures Called(ctx.env, messages, previous, key, name)
  {
    var mentions := Mentions(ctx, key, messages);
    if k :| NamesLast(mentions, k) && name == Trim(mentions[k].name) {
      var n := NamedInMessages(ctx, key, messages, k);
    } else {
      NeverNamedInMessages(ctx, key, messages);
      ByAddressLast(ctx.env, previous, key);
    }
  }

  lemma FoldMade(env: Env, userId: string, own: seq<string>, messages: seq<Message>, previous: seq<Contact>, key: string)
    requires key in Fold(ContextOf(env, userId, own, previous), messages)
    ensures MadeOf(env, userId, messages, previous, key, Fold(ContextOf(env, userId, own, previous), messages)[key])
  {
    var ctx := ContextOf(env, userId, own, previous);
    var c := Fold(ctx, messages)[key];
    FoldListed(env, userId, own, messages, previous, key);
    OwnKeysAre(env, userId, own, previous, key);
    FoldAt(ctx, messages, key);
    GrowCounts(ctx, key, Mentions(ctx, key, messages));
    SharedCounts(ctx, key, messages);
    LatestFrom(ctx, key, messages, c.lastContactAt);
    var k := FoldNames(ctx, messages, key);
    var n := AddressFrom(ctx, key, messages, k);
    CalledFrom(ctx, previous, messages, key, c.name);
  }

  /**
  Every reconciled list, over messages and previous list alone: the addresses that take part in a message and are not
  one's own, each once, with owner, count, latest date, address and name as the messages say.
  */
  lemma ReconciledExactly(env: Env, userId: string, own: seq<string>, messages: seq<Message>, previous: seq<Contact>,
                          listed: seq<Contact>, key: string)
    requires Lists(Fold(ContextOf(env, userId, own, previous), messages), listed)
    ensures (exists c :: c in listed && env.lower(c.address) == key) <==> !IsOwn(env, own, key) && Shared(env, key, messages) != {}
    ensures forall c :: c in listed && env.lower(c.address) == key ==> MadeOf(env, userId, messages, previous, key, c)
    ensures forall c, d :: c in listed && d in listed && env.lower(c.address) == env.lower(d.address) ==> c == d
  {
    var book := Fold(ContextOf(env, userId, own, previous), messages);
    FoldListed(env, userId, own, messages, previous, key);
    FoldKeyed(ContextOf(env, userId, own, previous), messages);
    if key in book {
      FoldMade(env, userId, own, messages, previous, key);
      assert book[key] in listed;
    }
  }

  /** The list: the latest first, then the one with more messages, then by address. */
  lemma ListedOrder(env: Env, userId: string, own: seq<string>, messages: seq<Message>, previous: seq<Contact>,
                    listed: seq<Contact>, i: nat, j: nat)
    requires Lists(Fold(ContextOf(env, userId, own, previous), messages), listed) && i < j < |listed|
    ensures var a, b := listed[i], listed[j];
      && (a.lastContactAt == b.lastContactAt || exists k :: Precedes(b.lastContactAt, a.lastContactAt, k))
      && (a.lastContactAt == b.lastContactAt ==> a.messageCount >= b.messageCount)
      && (a.lastContactAt == b.lastContactAt && a.messageCount == b.messageCount ==> exists k :: Precedes(a.address, b.address, k))
  {
    var a, b := listed[i], listed[j];
    assert Before(a, b);
    LessExactly(b.lastContactAt, a.lastContactAt);
    LessExactly(a.address, b.address);
    LessTotal(a.lastContactAt, a.lastContactAt);
  }

  // ---- The logo ----

  /** The last entry of the previous list whose logo is filed under `k`. */
  ghost predicate LastCarrier(previous: seq<Contact>, k: string, i: int) {
    && 0 <= i < |previous| && previous[i].logo.Some? && previous[i].logo.value.key == k
    && forall j :: i < j < |previous| && previous[j].logo.Some? ==> previous[j].logo.value.key != k
  }

  ghost predicate NoCarrier(previous: seq<Contact>, k: string) {
    forall i :: 0 <= i < |previous| && previous[i].logo.Some? ==> previous[i].logo.value.key != k
  }

  lemma {:induction false} ByLogoKeyLast(previous: seq<Contact>, k: string)
    ensures k !in ByLogoKey(previous) ==> NoCarrier(previous, k)
    ensures k in ByLogoKey(previous) ==> exists i :: LastCarrier(previous, k, i) && previous[i].logo == Some(ByLogoKey(previous)[k])
    decreases |previous|
  {
    if previous == [] {
    } else {
      var front, last := previous[..|previous| - 1], |previous| - 1;
      ByLogoKeyLast(front, k);
      if previous[last].logo.Some? && previous[last].logo.value.key == k {
        assert LastCarrier(previous, k, last);
      } else if k in ByLogoKey(previous) {
        var i :| LastCarrier(front, k, i) && front[i].logo == Some(ByLogoKey(front)[k]);
        assert LastCarrier(previous, k, i) && previous[i] == front[i];
      }
    }
  }

  ghost predicate FiledUnder(previous: seq<Contact>, k: string, logo: Option<Logo>) {
    exists i :: LastCarrier(previous, k, i) && logo == previous[i].logo
  }

  ghost predicate FormerLogo(env: Env, previous: seq<Contact>, key: string, logo: Option<Logo>) {
    || (exists i :: LastEntry(env, previous, key, i) && logo == previous[i].logo)
    || (logo == None && forall i :: 0 <= i < |previous| ==> env.lower(previous[i].address) != key)
  }

  /** A logo of the list under the exact key, else one under the root key, else the one the contact had. */
  ghost predicate LogoFrom(env: Env, previous: seq<Contact>, key: string, address: string, logo: Option<Logo>) {
    var keys := KeysOf(env, address);
    if keys.None? then FormerLogo(env, previous, key, logo)
    else if !NoCarrier(previous, keys.value.exact) then FiledUnder(previous, keys.value.exact, logo)
    else if !NoCarrier(previous, keys.value.root) then FiledUnder(previous, keys.value.root, logo)
    else FormerLogo(env, previous, key, logo)
  }

  lemma FormerLogoIs(ctx: Context, previous: seq<Contact>, key: string)
    requires ctx.previous == ByAddress(ctx.env, previous)
    ensures FormerLogo(ctx.env, previous, key, LogoOf(Previous(ctx, key)))
  {
    ByAddressLast(ctx.env, previous, key);
  }

  lemma FinalLogoFrom(ctx: Context, previous: seq<Contact>, key: string, address: string)
    requires ctx.previous == ByAddress(ctx.env, previous) && ctx.logos == ByLogoKey(previous)
    ensures LogoFrom(ctx.env, previous, key, address, FinalLogo(ctx, key, address))
  {
    FormerLogoIs(ctx, previous, key);
    var keys := KeysOf(ctx.env, address);
    if keys.Some? {
      ByLogoKeyLast(previous, keys.value.exact);
      ByLogoKeyLast(previous, keys.value.root);
      if keys.value.exact !in ctx.logos && key in ctx.previous {
        ByAddressLast(ctx.env, previous, key);
      }
    }
  }

  lemma FoldLogo(ctx: Context, messages: seq<Message>, key: string)
    requires CaseBlind(ctx.env) && OwnKeys(ctx.logos) && key in Fold(ctx, messages)
    ensures var c := Fold(ctx, messages)[key]; c.logo == FinalLogo(ctx, key, c.address)
  {
    FoldAt(ctx, messages, key);
    FoldKeyed(ctx, messages);
    MentionsNamed(ctx, key, messages);
    GrowLogo(ctx, key, Mentions(ctx, key, messages), Fold(ctx, messages)[key].address);
  }

  /** The logo of every listed contact, over the previous list alone. */
  lemma ReconciledLogo(env: Env, userId: string, own: seq<string>, messages: seq<Message>, previous: seq<Contact>,
                       listed: seq<Contact>, c: Contact)
    requires CaseBlind(env) && Lists(Fold(ContextOf(env, userId, own, previous), messages), listed) && c in listed
    ensures LogoFrom(env, previous, env.lower(c.address), c.address, c.logo)
  {
    var ctx := ContextOf(env, userId, own, previous);
    var key :| key in Fold(ctx, messages) && Fold(ctx, messages)[key] == c;
    FoldKeyed(ctx, messages);
    forall k | k in ctx.logos
      ensures ctx.logos[k].key == k
    {
      LookedUpIsCarried(previous, k);
    }
    FoldLogo(ctx, messages, key);
    FinalLogoFrom(ctx, previous, key, c.address);
  }

  // ---- Hosts ----

  lemma DotTrimmed(host: string)
    requires host == "" || !IsSpace(host[|host| - 1])
    ensures TrimDots(Trim(host + ".")) == TrimDots(Trim(host))
  {
    DotBehind(host);
    assert (Trim(host) + ".")[..|Trim(host)|] == Trim(host);
  }

  lemma {:induction false} DotBehind(host: string)
    requires host == "" || !IsSpace(host[|host| - 1])
    ensures Trim(host + ".") == Trim(host) + "."
    decreases |host|
  {
    assert !IsSpace('.');
    if host == "" {
      assert "" + "." == ".";
      TrimFixed(".");
      TrimFixed("");
    } else if IsSpace(host[0]) {
      assert (host + ".")[1..] == host[1..] + ".";
      DotBehind(host[1..]);
      TrimDropFirst(host);
      TrimDropFirst(host + ".");
    } else {
      TrimFixed(host);
      TrimFixed(host + ".");
    }
  }

  /** A dot behind the host makes no difference, and for a host the suffix list does not know both keys are the same. */
  lemma HostsExactly(env: Env, address: string)
    requires address != "" && !IsSpace(address[|address| - 1])
    ensures KeysOf(env, address + ".") == KeysOf(env, address)
    ensures var keys := KeysOf(env, address); keys.Some? && env.registrable(keys.value.exact[7..]) == None ==> keys.value.exact == keys.value.root
  {
    assert (address + ".")[..|address|] == address;
    var host := AfterAt(address);
    if host.Some? {
      HostEnds(address);
      DotTrimmed(host.value);
    }
    var domain := DomainOf(env, address);
    if domain.Some? {
      assert KeysFor(domain.value).exact[7..] == domain.value.hostname;
    }
  }

  lemma HostEnds(address: string)
    requires address != "" && AfterAt(address).Some?
    ensures var host := AfterAt(address).value; host == "" || host[|host| - 1] == address[|address| - 1]
  {
  }
}
