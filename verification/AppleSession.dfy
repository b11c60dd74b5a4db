/** Updating and merging the signed-in state of an Apple account. */
module AppleSession {
  import opened Options
  import opened Text

  datatype Kind = ICloudWeb | AppleAccount

  /** A login state; everything but its kind travels as one value. */
  datatype LoginState = LoginState(kind: Kind, details: string)

  datatype Session = Session(
    appleId: string,
    dsid: Option<string>,
    clientId: Option<string>,
    clientBuildNumber: Option<string>,
    clientMasteringNumber: Option<string>,
    premiumMailBaseUrl: Option<string>,
    mailGatewayBaseUrl: Option<string>,
    mailBaseUrl: Option<string>,
    host: string,
    isICloudPlus: bool,
    canCreateHme: bool,
    loginStates: seq<LoginState>,
    savedAt: nat)

  // ---- Login states ----

  /** The place of the first state of a kind from `i` on, or the length. */
  function PlaceFrom(states: seq<LoginState>, kind: Kind, i: nat): (p: nat)
    requires i <= |states|
    ensures i <= p <= |states| && (p < |states| ==> states[p].kind == kind)
    ensures forall j :: i <= j < p ==> states[j].kind != kind
    decreases |states| - i
  {
    if i == |states| || states[i].kind == kind then i else PlaceFrom(states, kind, i + 1)
  }

  function Place(states: seq<LoginState>, kind: Kind): (p: nat)
    ensures p <= |states| && (p < |states| ==> states[p].kind == kind)
    ensures forall j :: 0 <= j < p ==> states[j].kind != kind
  {
    PlaceFrom(states, kind, 0)
  }

  function Put(states: seq<LoginState>, next: LoginState): seq<LoginState> {
    var i := Place(states, next.kind);
    if i < |states| then states[i := next] else states + [next]
  }

  function PutAll(states: seq<LoginState>, incoming: seq<LoginState>): seq<LoginState>
    decreases |incoming|
  {
    if incoming == [] then states else PutAll(Put(states, incoming[0]), incoming[1..])
  }

  ghost predicate OnePerKind(states: seq<LoginState>) {
    forall i, j :: 0 <= i < j < |states| ==> states[i].kind != states[j].kind
  }

  /** The state of a kind, as `AppleSession::state` finds it. */
  function StateOf(states: seq<LoginState>, kind: Kind): Option<LoginState> {
    var i := Place(states, kind);
    if i < |states| then Some(states[i]) else None
  }

  // ---- Merging, on values ----

  function Newer<T>(old': Option<T>, new': Option<T>): Option<T> {
    if new'.Some? then new' else old'
  }

  function NonBlank(old': string, new': string): string {
    if Trim(new') != "" then new' else old'
  }

  function Merged(a: Session, b: Session, now: nat): Session {
    Session(
      NonBlank(a.appleId, b.appleId),
      Newer(a.dsid, b.dsid),
      Newer(a.clientId, b.clientId),
      Newer(a.clientBuildNumber, b.clientBuildNumber),
      Newer(a.clientMasteringNumber, b.clientMasteringNumber),
      Newer(a.premiumMailBaseUrl, b.premiumMailBaseUrl),
      Newer(a.mailGatewayBaseUrl, b.mailGatewayBaseUrl),
      Newer(a.mailBaseUrl, b.mailBaseUrl),
      NonBlank(a.host, b.host),
      a.isICloudPlus || b.isICloudPlus,
      a.canCreateHme || b.canCreateHme,
      PutAll(a.loginStates, b.loginStates),
      now)
  }

  predicate Blank(s: string) {
    Trim(s) == ""
  }

  /** Whatever the incoming session says wins; where it says nothing the old value stays; abilities only accumulate. */
  lemma MergeTakesIncoming(a: Session, b: Session, now: nat)
    ensures var m := Merged(a, b, now);
      && (!Blank(b.appleId) ==> m.appleId == b.appleId) && (Blank(b.appleId) ==> m.appleId == a.appleId)
      && (!Blank(b.host) ==> m.host == b.host) && (Blank(b.host) ==> m.host == a.host)
      && (b.dsid.Some? ==> m.dsid == b.dsid) && (b.dsid.None? ==> m.dsid == a.dsid)
      && (b.clientId.Some? ==> m.clientId == b.clientId) && (b.clientId.None? ==> m.clientId == a.clientId)
      && (b.clientBuildNumber.Some? ==> m.clientBuildNumber == b.clientBuildNumber)
      && (b.clientBuildNumber.None? ==> m.clientBuildNumber == a.clientBuildNumber)
      && (b.clientMasteringNumber.Some? ==> m.clientMasteringNumber == b.clientMasteringNumber)
      && (b.clientMasteringNumber.None? ==> m.clientMasteringNumber == a.clientMasteringNumber)
      && (b.premiumMailBaseUrl.Some? ==> m.premiumMailBaseUrl == b.premiumMailBaseUrl)
      && (b.premiumMailBaseUrl.None? ==> m.premiumMailBaseUrl == a.premiumMailBaseUrl)
      && (b.mailGatewayBaseUrl.Some? ==> m.mailGatewayBaseUrl == b.mailGatewayBaseUrl)
      && (b.mailGatewayBaseUrl.None? ==> m.mailGatewayBaseUrl == a.mailGatewayBaseUrl)
      && (b.mailBaseUrl.Some? ==> m.mailBaseUrl == b.mailBaseUrl) && (b.mailBaseUrl.None? ==> m.mailBaseUrl == a.mailBaseUrl)
      && (m.isICloudPlus <==> a.isICloudPlus || b.isICloudPlus) && (m.canCreateHme <==> a.canCreateHme || b.canCreateHme)
      && m.savedAt == now
  {
  }

  method ReplaceNonBlank(old': string, new': string) returns (r: string)
    ensures r == NonBlank(old', new')
  {
    r := old';
    if Trim(new') != "" {
      r := new';
    }
  }

  // ---- The object ----

  class AppleSession {
    var appleId: string
    var dsid: Option<string>
    var clientId: Option<string>
    var clientBuildNumber: Option<string>
    var clientMasteringNumber: Option<string>
    var premiumMailBaseUrl: Option<string>
    var mailGatewayBaseUrl: Option<string>
    var mailBaseUrl: Option<string>
    var host: string
    var isICloudPlus: bool
    var canCreateHme: bool
    var loginStates: seq<LoginState>
    var savedAt: nat

    constructor Empty(appleId: string, now: nat)
      ensures View() == Session(appleId, None, None, None, None, None, None, None, "", false, false, [], now)
    {
      this.appleId, dsid, clientId, clientBuildNumber := appleId, None, None, None;
      clientMasteringNumber, premiumMailBaseUrl, mailGatewayBaseUrl, mailBaseUrl := None, None, None, None;
      host, isICloudPlus, canCreateHme, loginStates, savedAt := "", false, false, [], now;
    }

    function View(): Session
      reads this
    {
      Session(appleId, dsid, clientId, clientBuildNumber, clientMasteringNumber, premiumMailBaseUrl,
              mailGatewayBaseUrl, mailBaseUrl, host, isICloudPlus, canCreateHme, loginStates, savedAt)
    }

    method PutState(next: LoginState, now: nat)
      modifies this`loginStates, this`savedAt
      ensures View() == old(View()).(loginStates := Put(old(loginStates), next), savedAt := now)
      ensures StateOf(loginStates, next.kind) == Some(next)
      ensures forall kind :: kind != next.kind ==> StateOf(loginStates, kind) == StateOf(old(loginStates), kind)
      ensures OnePerKind(old(loginStates)) ==> OnePerKind(loginStates)
    {
      PutFinds(loginStates, next);
      if OnePerKind(loginStates) {
        PutKeepsOnePerKind(loginStates, next);
      }
      var i := 0;
      while i < |loginStates| && loginStates[i].kind != next.kind
        invariant i <= |loginStates| && forall j :: 0 <= j < i ==> loginStates[j].kind != next.kind
      {
        i := i + 1;
      }
      PlaceUnique(loginStates, next.kind, i);
      if i < |loginStates| {
        loginStates := loginStates[i := next];
      } else {
        loginStates := loginStates + [next];
      }
      savedAt := now;
    }

    method Merge(incoming: Session, now: nat)
      modifies this
      ensures View() == Merged(old(View()), incoming, now)
      ensures OnePerKind(old(loginStates)) ==> OnePerKind(loginStates)
    {
      MergeFields(incoming);
      MergeStates(incoming.loginStates, now);
      savedAt := now;
    }

    method MergeFields(incoming: Session)
      modifies this`appleId, this`host, this`isICloudPlus, this`canCreateHme
      modifies this`dsid, this`clientId, this`clientBuildNumber, this`clientMasteringNumber
      modifies this`premiumMailBaseUrl, this`mailGatewayBaseUrl, this`mailBaseUrl
      ensures appleId == NonBlank(old(appleId), incoming.appleId) && host == NonBlank(old(host), incoming.host)
      ensures isICloudPlus == (old(isICloudPlus) || incoming.isICloudPlus)
      ensures canCreateHme == (old(canCreateHme) || incoming.canCreateHme)
      ensures dsid == Newer(old(dsid), incoming.dsid) && clientId == Newer(old(clientId), incoming.clientId)
      ensures clientBuildNumber == Newer(old(clientBuildNumber), incoming.clientBuildNumber)
      ensures clientMasteringNumber == Newer(old(clientMasteringNumber), incoming.clientMasteringNumber)
      ensures premiumMailBaseUrl == Newer(old(premiumMailBaseUrl), incoming.premiumMailBaseUrl)
      ensures mailGatewayBaseUrl == Newer(old(mailGatewayBaseUrl), incoming.mailGatewayBaseUrl)
      ensures mailBaseUrl == Newer(old(mailBaseUrl), incoming.mailBaseUrl)
    {
      MergeIdentity(incoming);
      MergeClient(incoming);
      MergeUrls(incoming);
    }

    method MergeIdentity(incoming: Session)
      modifies this`appleId, this`host, this`isICloudPlus, this`canCreateHme
      ensures appleId == NonBlank(old(appleId), incoming.appleId) && host == NonBlank(old(host), incoming.host)
      ensures isICloudPlus == (old(isICloudPlus) || incoming.isICloudPlus)
      ensures canCreateHme == (old(canCreateHme) || incoming.canCreateHme)
    {
      appleId := ReplaceNonBlank(appleId, incoming.appleId);
      host := ReplaceNonBlank(host, incoming.host);
      isICloudPlus := isICloudPlus || incoming.isICloudPlus;
      canCreateHme := canCreateHme || incoming.canCreateHme;
    }

    method MergeClient(incoming: Session)
      modifies this`dsid, this`clientId, this`clientBuildNumber, this`clientMasteringNumber
      ensures dsid == Newer(old(dsid), incoming.dsid) && clientId == Newer(old(clientId), incoming.clientId)
      ensures clientBuildNumber == Newer(old(clientBuildNumber), incoming.clientBuildNumber)
      ensures clientMasteringNumber == Newer(old(clientMasteringNumber), incoming.clientMasteringNumber)
    {
      if incoming.dsid.Some? {
        dsid := incoming.dsid;
      }
      if incoming.clientId.Some? {
        clientId := incoming.clientId;
      }
      if incoming.clientBuildNumber.Some? {
        clientBuildNumber := incoming.clientBuildNumber;
      }
      if incoming.clientMasteringNumber.Some? {
        clientMasteringNumber := incoming.clientMasteringNumber;
      }
    }

    method MergeUrls(incoming: Session)
      modifies this`premiumMailBaseUrl, this`mailGatewayBaseUrl, this`mailBaseUrl
      ensures premiumMailBaseUrl == Newer(old(premiumMailBaseUrl), incoming.premiumMailBaseUrl)
      ensures mailGatewayBaseUrl == Newer(old(mailGatewayBaseUrl), incoming.mailGatewayBaseUrl)
      ensures mailBaseUrl == Newer(old(mailBaseUrl), incoming.mailBaseUrl)
    {
      if incoming.premiumMailBaseUrl.Some? {
        premiumMailBaseUrl := incoming.premiumMailBaseUrl;
      }
      if incoming.mailGatewayBaseUrl.Some? {
        mailGatewayBaseUrl := incoming.mailGatewayBaseUrl;
      }
      if incoming.mailBaseUrl.Some? {
        mailBaseUrl := incoming.mailBaseUrl;
      }
    }

    method MergeStates(incoming: seq<LoginState>, now: nat)
      modifies this`loginStates, this`savedAt
      ensures loginStates == PutAll(old(loginStates), incoming)
      ensures OnePerKind(old(loginStates)) ==> OnePerKind(loginStates)
    {
      for i := 0 to |incoming|
        invariant PutAll(old(loginStates), incoming) == PutAll(loginStates, incoming[i..])
        invariant OnePerKind(old(loginStates)) ==> OnePerKind(loginStates)
      {
        assert incoming[i..][0] == incoming[i] && incoming[i..][1..] == incoming[i + 1..];
        PutState(incoming[i], now);
      }
    }
  }

  // ---- Facts about login states ----

  lemma PlaceUnique(states: seq<LoginState>, kind: Kind, i: nat)
    requires i <= |states| && (i < |states| ==> states[i].kind == kind)
    requires forall j :: 0 <= j < i ==> states[j].kind != kind
    ensures Place(states, kind) == i
  {
    var p := Place(states, kind);
    assert !(p < i) && !(i < p);
  }

  lemma PutKeepsOnePerKind(states: seq<LoginState>, next: LoginState)
    requires OnePerKind(states)
    ensures OnePerKind(Put(states, next))
  {
  }

  lemma PutFinds(states: seq<LoginState>, next: LoginState)
    ensures StateOf(Put(states, next), next.kind) == Some(next)
    ensures forall kind :: kind != next.kind ==> StateOf(Put(states, next), kind) == StateOf(states, kind)
  {
    var i, r := Place(states, next.kind), Put(states, next);
    PlaceUnique(r, next.kind, i);
    forall kind | kind != next.kind
      ensures StateOf(r, kind) == StateOf(states, kind)
    {
      var p := Place(states, kind);
      PlaceUnique(r, kind, if p < |states| then p else |r|);
    }
  }

  /** A later state of the same kind hides an earlier one. */
  lemma PutSameKind(states: seq<LoginState>, x: LoginState, s: LoginState)
    requires x.kind == s.kind
    ensures Put(Put(states, x), s) == Put(states, s)
  {
    var i := Place(states, x.kind);
    PlaceUnique(Put(states, x), s.kind, i);
  }

  /** States of different kinds commute once the second kind is present. */
  lemma PutCommutes(states: seq<LoginState>, y: LoginState, s: LoginState)
    requires y.kind != s.kind && Place(states, s.kind) < |states|
    ensures Put(Put(states, y), s) == Put(Put(states, s), y)
  {
    var i, j := Place(states, s.kind), Place(states, y.kind);
    PutKeepsPlace(states, y, s.kind);
    PutKeepsPlace(states, s, y.kind);
    if j < |states| {
      assert states[j := y][i := s] == states[i := s][j := y];
    } else {
      assert (states + [y])[i := s] == states[i := s] + [y];
    }
  }

  /** Putting another kind moves no state, and a missing one stays missing among the old ones. */
  lemma PutKeepsPlace(states: seq<LoginState>, x: LoginState, kind: Kind)
    requires x.kind != kind
    ensures var p, r := Place(states, kind), Put(states, x);
      Place(r, kind) == if p < |states| then p else |r|
  {
    var p, r := Place(states, kind), Put(states, x);
    PlaceUnique(r, kind, if p < |states| then p else |r|);
  }

  lemma {:induction false} PutAllCommutes(states: seq<LoginState>, incoming: seq<LoginState>, s: LoginState)
    requires Place(states, s.kind) < |states|
    requires forall j :: 0 <= j < |incoming| ==> incoming[j].kind != s.kind
    ensures Put(PutAll(states, incoming), s) == PutAll(Put(states, s), incoming)
    decreases |incoming|
  {
    if incoming == [] {
    } else {
      var y := incoming[0];
      PutCommutes(states, y, s);
      PutFinds(states, y);
      PutAllCommutes(Put(states, y), incoming[1..], s);
    }
  }

  lemma {:induction false} PutAllAppend(states: seq<LoginState>, a: seq<LoginState>, b: seq<LoginState>)
    ensures PutAll(states, a + b) == PutAll(PutAll(states, a), b)
    decreases |a|
  {
    if a == [] {
      assert a + b == b;
    } else {
      assert (a + b)[0] == a[0] && (a + b)[1..] == a[1..] + b;
      PutAllAppend(Put(states, a[0]), a[1..], b);
    }
  }

  lemma PutAllOne(states: seq<LoginState>, s: LoginState)
    ensures PutAll(states, [s]) == Put(states, s)
  {
    assert [s][1..] == [];
  }

  /** Putting into what is merged is putting into the merge. */
  lemma PutAllPut(a: seq<LoginState>, b: seq<LoginState>, s: LoginState)
    requires OnePerKind(b)
    ensures PutAll(a, Put(b, s)) == Put(PutAll(a, b), s)
  {
    var i := Place(b, s.kind);
    if i == |b| {
      PutAllAppend(a, b, [s]);
      PutAllOne(PutAll(a, b), s);
    } else {
      assert b == b[..i] + [b[i]] + b[i + 1..];
      assert Put(b, s) == b[..i] + [s] + b[i + 1..];
      PutAllReplaced(a, b[..i], b[i], b[i + 1..], s);
    }
  }

  lemma PutAllReplaced(a: seq<LoginState>, left: seq<LoginState>, x: LoginState, right: seq<LoginState>, s: LoginState)
    requires x.kind == s.kind && forall j :: 0 <= j < |right| ==> right[j].kind != s.kind
    ensures PutAll(a, left + [s] + right) == Put(PutAll(a, left + [x] + right), s)
  {
    PutAllAround(a, left, x, right);
    PutAllAround(a, left, s, right);
    PutReplaced(PutAll(a, left), x, right, s);
  }

  lemma PutReplaced(l: seq<LoginState>, x: LoginState, right: seq<LoginState>, s: LoginState)
    requires x.kind == s.kind && forall j :: 0 <= j < |right| ==> right[j].kind != s.kind
    ensures PutAll(Put(l, s), right) == Put(PutAll(Put(l, x), right), s)
  {
    PutFinds(l, x);
    PutSameKind(l, x, s);
    PutAllCommutes(Put(l, x), right, s);
  }

  lemma PutAllAround(a: seq<LoginState>, left: seq<LoginState>, x: LoginState, right: seq<LoginState>)
    ensures PutAll(a, left + [x] + right) == PutAll(Put(PutAll(a, left), x), right)
  {
    PutAllAppend(a, left + [x], right);
    PutAllAppend(a, left, [x]);
    PutAllOne(PutAll(a, left), x);
  }

  lemma {:induction false} PutAllAssociative(a: seq<LoginState>, b: seq<LoginState>, c: seq<LoginState>)
    requires OnePerKind(b)
    ensures PutAll(PutAll(a, b), c) == PutAll(a, PutAll(b, c))
    decreases |c|
  {
    if c == [] {
    } else {
      PutAllPut(a, b, c[0]);
      PutKeepsOnePerKind(b, c[0]);
      PutAllAssociative(a, Put(b, c[0]), c[1..]);
    }
  }

  /** Merging is associative up to the time stamp, the order of the login states included. */
  lemma MergeAssociative(a: Session, b: Session, c: Session, t1: nat, t2: nat, now: nat)
    requires OnePerKind(b.loginStates)
    ensures Merged(Merged(a, b, t1), c, now) == Merged(a, Merged(b, c, t2), now)
  {
    PutAllAssociative(a.loginStates, b.loginStates, c.loginStates);
  }

  /** After a merge every kind has the incoming state if there is one, and its own otherwise. */
  lemma {:induction false} MergeOverrides(a: seq<LoginState>, b: seq<LoginState>, kind: Kind)
    requires OnePerKind(b)
    ensures StateOf(PutAll(a, b), kind) == Newer(StateOf(a, kind), StateOf(b, kind))
    decreases |b|
  {
    if b == [] {
    } else {
      PutFinds(a, b[0]);
      MergeOverrides(Put(a, b[0]), b[1..], kind);
      var p := Place(b[1..], kind);
      if b[0].kind == kind {
        PlaceUnique(b[1..], kind, |b[1..]|);
      } else {
        PlaceUnique(b, kind, p + 1);
      }
    }
  }

  // ---- One state per kind is exactly what associativity takes ----

  /** The last state of a kind, if any. */
  function LastOf(states: seq<LoginState>, kind: Kind): Option<LoginState>
    decreases |states|
  {
    if states == [] then None
    else
      var later := LastOf(states[1..], kind);
      if later.Some? then later else if states[0].kind == kind then Some(states[0]) else None
  }

  lemma {:induction false} LastOfIs(states: seq<LoginState>, kind: Kind, p: nat)
    requires p < |states| && states[p].kind == kind && forall q :: p < q < |states| ==> states[q].kind != kind
    ensures LastOf(states, kind) == Some(states[p])
    decreases |states|
  {
    if p == 0 {
      NoneOf(states[1..], kind);
    } else {
      LastOfIs(states[1..], kind, p - 1);
    }
  }

  lemma {:induction false} NoneOf(states: seq<LoginState>, kind: Kind)
    requires forall q :: 0 <= q < |states| ==> states[q].kind != kind
    ensures LastOf(states, kind) == None
    decreases |states|
  {
    if states == [] {
    } else {
      NoneOf(states[1..], kind);
    }
  }

  /** Whatever is merged in, the last incoming state of a kind decides. */
  lemma {:induction false} LastIncomingDecides(a: seq<LoginState>, b: seq<LoginState>, kind: Kind)
    ensures StateOf(PutAll(a, b), kind) == Newer(StateOf(a, kind), LastOf(b, kind))
    decreases |b|
  {
    if b == [] {
    } else {
      PutFinds(a, b[0]);
      LastIncomingDecides(Put(a, b[0]), b[1..], kind);
    }
  }

  lemma LastPlace(states: seq<LoginState>, kind: Kind, j: nat) returns (p: nat)
    requires j < |states| && states[j].kind == kind
    ensures j <= p < |states| && states[p].kind == kind && forall q :: p < q < |states| ==> states[q].kind != kind
    decreases |states| - j
  {
    if next :| j < next < |states| && states[next].kind == kind {
      p := LastPlace(states, kind, next);
    } else {
      p := j;
    }
  }

  /** With two states of one kind in the middle, a third that differs from the last of them tells the two ways apart. */
  lemma DuplicateTellsApart(a: seq<LoginState>, b: seq<LoginState>, i: nat, p: nat, z: LoginState)
    requires i < p < |b| && b[i].kind == b[p].kind == z.kind && b[p] != z
    requires forall q :: p < q < |b| ==> b[q].kind != z.kind
    ensures PutAll(PutAll(a, b), [z]) != PutAll(a, PutAll(b, [z]))
  {
    PutAllOne(PutAll(a, b), z);
    PutFinds(PutAll(a, b), z);
    PutAllOne(b, z);
    LastOfIs(Put(b, z), z.kind, p);
    LastIncomingDecides(a, Put(b, z), z.kind);
  }

  lemma OtherState(s: LoginState) returns (z: LoginState)
    ensures z.kind == s.kind && z != s
  {
    z := LoginState(s.kind, s.details + "x");
    assert |z.details| != |s.details|;
  }

  /** Merging around a list is associative, whatever stands left and right of it, if and only if it has one state per kind. */
  lemma AssociativeExactly(b: seq<LoginState>)
    ensures (forall a, c :: PutAll(PutAll(a, b), c) == PutAll(a, PutAll(b, c))) <==> OnePerKind(b)
  {
    if OnePerKind(b) {
      forall a, c
        ensures PutAll(PutAll(a, b), c) == PutAll(a, PutAll(b, c))
      {
        PutAllAssociative(a, b, c);
      }
    } else {
      var z := DuplicateWitness(b);
      assert PutAll(PutAll([], b), [z]) != PutAll([], PutAll(b, [z]));
    }
  }

  lemma DuplicateWitness(b: seq<LoginState>) returns (z: LoginState)
    requires !OnePerKind(b)
    ensures forall a :: PutAll(PutAll(a, b), [z]) != PutAll(a, PutAll(b, [z]))
  {
    var i, j :| 0 <= i < j < |b| && b[i].kind == b[j].kind;
    var p := LastPlace(b, b[j].kind, j);
    z := OtherState(b[p]);
    forall a
      ensures PutAll(PutAll(a, b), [z]) != PutAll(a, PutAll(b, [z]))
    {
      DuplicateTellsApart(a, b, i, p, z);
    }
  }

  ghost predicate Associates(a: Session, b: Session, c: Session) {
    forall t1, t2, now :: Merged(Merged(a, b, t1), c, now) == Merged(a, Merged(b, c, t2), now)
  }

  /** So it is for whole sessions, up to the time stamps. */
  lemma MergeAssociativeExactly(b: Session)
    ensures (forall a, c :: Associates(a, b, c)) <==> OnePerKind(b.loginStates)
  {
    if OnePerKind(b.loginStates) {
      forall a, c, t1, t2, now
        ensures Merged(Merged(a, b, t1), c, now) == Merged(a, Merged(b, c, t2), now)
      {
        MergeAssociative(a, b, c, t1, t2, now);
      }
    } else {
      var z := DuplicateWitness(b.loginStates);
      var c := b.(loginStates := [z]);
      assert Merged(Merged(b, b, 0), c, 0).loginStates != Merged(b, Merged(b, c, 0), 0).loginStates;
      assert !Associates(b, b, c);
    }
  }

  /** For instance. */
  lemma DuplicateKindsBreakIt(x: LoginState, y: LoginState, z: LoginState)
    requires x.kind == y.kind == z.kind && y != z
    ensures PutAll(PutAll([], [x, y]), [z]) != PutAll([], PutAll([x, y], [z]))
  {
    DuplicateTellsApart([], [x, y], 0, 1, z);
  }
}
