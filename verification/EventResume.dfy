/** Reconnecting to the event stream: what the application receives over all its connections. */
module EventResume {
  import opened Options
  import opened Text

  datatype SyncEvent = SyncEvent(id: nat, account: string, name: string, data: string)

  const BATCH: nat := 100

  ghost predicate Ascending(log: seq<SyncEvent>) {
    forall i, j :: 0 <= i < j < |log| ==> log[i].id < log[j].id
  }

  /** The events of these accounts with ids above `low` and up to `high`, in order. */
  function Window(log: seq<SyncEvent>, accounts: set<string>, low: int, high: int): seq<SyncEvent>
    decreases |log|
  {
    if log == [] then []
    else (if low < log[0].id <= high && log[0].account in accounts then [log[0]] else []) + Window(log[1..], accounts, low, high)
  }

  function LatestId(log: seq<SyncEvent>): nat {
    if log == [] then 0 else log[|log| - 1].id
  }

  // ---- One look at the log ----

  function Later(log: seq<SyncEvent>, cursor: int): seq<SyncEvent>
    decreases |log|
  {
    if log == [] then [] else (if log[0].id > cursor then [log[0]] else []) + Later(log[1..], cursor)
  }

  /** `events`: at most a hundred events above the cursor. */
  function Batch(log: seq<SyncEvent>, cursor: int): seq<SyncEvent> {
    var later := Later(log, cursor);
    if |later| <= BATCH then later else later[..BATCH]
  }

  function LastOf(batch: seq<SyncEvent>, cursor: nat): nat {
    if batch == [] then cursor else batch[|batch| - 1].id
  }

  /** `event_frames`: the cursor passes every event, but only those of the user's accounts are sent. */
  method EventFrames(log: seq<SyncEvent>, accounts: set<string>, cursor: nat) returns (next: nat, sent: seq<SyncEvent>)
    requires Ascending(log)
    ensures cursor <= next && sent == Window(log, accounts, cursor, next)
    ensures next == LastOf(Batch(log, cursor), cursor) && (next == cursor ==> Later(log, cursor) == [])
  {
    var events := Batch(log, cursor);
    next, sent := cursor, [];
    BatchAscends(log, cursor);
    SameWindow([], accounts, cursor, cursor);
    assert events[..0] == [];
    for i := 0 to |events|
      invariant cursor <= next == if i == 0 then cursor else events[i - 1].id
      invariant sent == Window(events[..i], accounts, cursor, next)
    {
      BatchStep(events, cursor, i, next);
      WindowPush(events[..i], events[i], accounts, cursor, next);
      next := events[i].id;
      if events[i].account in accounts {
        sent := sent + [events[i]];
      }
    }
    assert events[..|events|] == events;
    BatchIsWindow(log, accounts, cursor, next);
  }

  lemma PrefixAscends(later: seq<SyncEvent>, n: nat, cursor: int)
    requires n <= |later| && Ascending(later) && forall e :: e in later ==> e.id > cursor
    ensures Ascending(later[..n]) && forall e :: e in later[..n] ==> e.id > cursor
  {
  }

  lemma BatchAscends(log: seq<SyncEvent>, cursor: int)
    requires Ascending(log)
    ensures Ascending(Batch(log, cursor)) && forall e :: e in Batch(log, cursor) ==> e.id > cursor
  {
    var later := Later(log, cursor);
    LaterAscends(log, cursor);
    PrefixAscends(later, if |later| <= BATCH then |later| else BATCH, cursor);
    assert later[..|later|] == later;
  }

  lemma BatchStep(events: seq<SyncEvent>, cursor: nat, i: nat, next: nat)
    requires Ascending(events) && (forall e :: e in events ==> e.id > cursor) && i < |events|
    requires next == if i == 0 then cursor else events[i - 1].id
    ensures events[..i + 1] == events[..i] + [events[i]] && next < events[i].id && forall x :: x in events[..i] ==> x.id <= next
  {
    assert events[i] in events;
  }

  lemma {:induction false} LaterMembers(log: seq<SyncEvent>, cursor: int, e: SyncEvent)
    ensures e in Later(log, cursor) <==> e in log && e.id > cursor
    decreases |log|
  {
    if log == [] {
    } else {
      LaterMembers(log[1..], cursor, e);
      assert log == [log[0]] + log[1..];
    }
  }

  lemma ConsAscends(e: SyncEvent, log: seq<SyncEvent>)
    requires Ascending(log) && forall x :: x in log ==> e.id < x.id
    ensures Ascending([e] + log)
  {
    var all := [e] + log;
    forall i, j | 0 <= i < j < |all|
      ensures all[i].id < all[j].id
    {
      assert all[j] == log[j - 1] && log[j - 1] in log;
    }
  }

  lemma RestAscends(log: seq<SyncEvent>)
    requires Ascending(log) && log != []
    ensures Ascending(log[1..]) && forall x :: x in log[1..] ==> log[0].id < x.id
  {
  }

  lemma {:induction false} LaterAscends(log: seq<SyncEvent>, cursor: int)
    requires Ascending(log)
    ensures Ascending(Later(log, cursor)) && forall e :: e in Later(log, cursor) ==> e in log && e.id > cursor
    decreases |log|
  {
    if log == [] {
    } else {
      RestAscends(log);
      LaterAscends(log[1..], cursor);
      forall e
        ensures e in Later(log, cursor) <==> e in log && e.id > cursor
        ensures e in Later(log[1..], cursor) <==> e in log[1..] && e.id > cursor
      {
        LaterMembers(log, cursor, e);
        LaterMembers(log[1..], cursor, e);
      }
      if log[0].id > cursor {
        ConsAscends(log[0], Later(log[1..], cursor));
      } else {
        assert Later(log, cursor) == Later(log[1..], cursor);
      }
    }
  }

  lemma {:induction false} SameWindow(log: seq<SyncEvent>, accounts: set<string>, low: int, high: int)
    requires high <= low
    ensures Window(log, accounts, low, high) == []
    decreases |log|
  {
    if log == [] {
    } else {
      SameWindow(log[1..], accounts, low, high);
    }
  }

  lemma {:induction false} WindowAppend(a: seq<SyncEvent>, b: seq<SyncEvent>, accounts: set<string>, low: int, high: int)
    ensures Window(a + b, accounts, low, high) == Window(a, accounts, low, high) + Window(b, accounts, low, high)
    decreases |a|
  {
    if a == [] {
      assert a + b == b;
    } else {
      WindowAppend(a[1..], b, accounts, low, high);
      assert (a + b)[1..] == a[1..] + b && (a + b)[0] == a[0];
      var head := if low < a[0].id <= high && a[0].account in accounts then [a[0]] else [];
      Associative(head, Window(a[1..], accounts, low, high), Window(b, accounts, low, high));
    }
  }

  /** Above every id of the log a higher upper end changes nothing. */
  lemma {:induction false} WindowTop(log: seq<SyncEvent>, accounts: set<string>, low: int, high: int, higher: int)
    requires high <= higher && forall e :: e in log ==> e.id <= high
    ensures Window(log, accounts, low, higher) == Window(log, accounts, low, high)
    decreases |log|
  {
    if log == [] {
    } else {
      assert log[0] in log;
      WindowTop(log[1..], accounts, low, high, higher);
    }
  }

  lemma WindowPush(log: seq<SyncEvent>, e: SyncEvent, accounts: set<string>, low: int, high: int)
    requires high < e.id && low < e.id && forall x :: x in log ==> x.id <= high
    ensures Window(log + [e], accounts, low, e.id) == Window(log, accounts, low, high) + if e.account in accounts then [e] else []
  {
    WindowAppend(log, [e], accounts, low, e.id);
    WindowTop(log, accounts, low, high, e.id);
    assert [e][1..] == [];
  }

  lemma {:induction false} LaterWindow(log: seq<SyncEvent>, accounts: set<string>, low: int, high: int)
    ensures Window(Later(log, low), accounts, low, high) == Window(log, accounts, low, high)
    decreases |log|
  {
    if log == [] {
    } else {
      LaterWindow(log[1..], accounts, low, high);
      var head := if log[0].id > low then [log[0]] else [];
      WindowAppend(head, Later(log[1..], low), accounts, low, high);
      assert [log[0]][1..] == [];
    }
  }

  lemma {:induction false} BeyondWindow(log: seq<SyncEvent>, accounts: set<string>, low: int, high: int)
    requires forall e :: e in log ==> high < e.id
    ensures Window(log, accounts, low, high) == []
    decreases |log|
  {
    if log == [] {
    } else {
      assert log[0] in log;
      BeyondWindow(log[1..], accounts, low, high);
    }
  }

  /** The batch holds every event up to its last one. */
  lemma BatchIsWindow(log: seq<SyncEvent>, accounts: set<string>, cursor: int, next: int)
    requires Ascending(log)
    requires var batch := Batch(log, cursor); if batch == [] then next == cursor else next == batch[|batch| - 1].id
    ensures Window(Batch(log, cursor), accounts, cursor, next) == Window(log, accounts, cursor, next)
  {
    var later, batch := Later(log, cursor), Batch(log, cursor);
    LaterAscends(log, cursor);
    LaterWindow(log, accounts, cursor, next);
    var rest := later[|batch|..];
    assert later == batch + rest;
    WindowAppend(batch, rest, accounts, cursor, next);
    BeyondWindow(rest, accounts, cursor, next);
  }

  // ---- The window in two parts ----

  lemma {:induction false} WindowSplit(log: seq<SyncEvent>, accounts: set<string>, low: int, mid: int, high: int)
    requires Ascending(log) && low <= mid <= high
    ensures Window(log, accounts, low, high) == Window(log, accounts, low, mid) + Window(log, accounts, mid, high)
    decreases |log|
  {
    if log == [] {
    } else {
      var rest := log[1..];
      WindowSplit(rest, accounts, low, mid, high);
      if log[0].id > mid {
        assert forall e :: e in rest ==> mid < e.id;
        BeyondWindow(rest, accounts, low, mid);
      }
    }
  }

  lemma {:induction false} WindowMembers(log: seq<SyncEvent>, accounts: set<string>, low: int, high: int)
    ensures forall e :: e in Window(log, accounts, low, high) <==> e in log && low < e.id <= high && e.account in accounts
    decreases |log|
  {
    if log == [] {
    } else {
      WindowMembers(log[1..], accounts, low, high);
      assert log == [log[0]] + log[1..];
    }
  }

  lemma {:induction false} WindowAscends(log: seq<SyncEvent>, accounts: set<string>, low: int, high: int)
    requires Ascending(log)
    ensures Ascending(Window(log, accounts, low, high))
    decreases |log|
  {
    if log == [] {
    } else {
      WindowAscends(log[1..], accounts, low, high);
      WindowMembers(log[1..], accounts, low, high);
      assert forall e :: e in log[1..] ==> log[0].id < e.id;
    }
  }

  lemma SecondLater(a: seq<SyncEvent>)
    requires |a| > 1 && Ascending(a)
    ensures a[1] in a && a[0].id < a[1].id
  {
  }

  lemma OnlyOne(a: seq<SyncEvent>)
    requires a != [] && Ascending(a) && forall e :: e in a ==> e.id <= a[0].id
    ensures a == [a[0]]
  {
    if |a| > 1 {
      SecondLater(a);
    }
  }

  /** Up to its first event a window holds that event alone. */
  lemma FirstOfWindow(log: seq<SyncEvent>, accounts: set<string>, low: int, high: int)
    requires Ascending(log) && Window(log, accounts, low, high) != []
    ensures var w := Window(log, accounts, low, high);
      && low < w[0].id <= high && Window(log, accounts, low, w[0].id) == [w[0]] && Window(log, accounts, w[0].id, high) == w[1..]
  {
    var w := Window(log, accounts, low, high);
    assert w[0] in w;
    WindowMembers(log, accounts, low, high);
    var id := w[0].id;
    WindowSplit(log, accounts, low, id, high);
    var a, b := Window(log, accounts, low, id), Window(log, accounts, id, high);
    WindowMembers(log, accounts, low, id);
    WindowMembers(log, accounts, id, high);
    WindowAscends(log, accounts, low, high);
    assert w == a + b && w[0] in a && a[0] == w[0];
    WindowAscends(log, accounts, low, id);
    OnlyOne(a);
  }

  // ---- Connections ----

  /**
  `low` is where the service started when the application had no cursor yet; `queue` holds what was sent on the open
  connection and has not arrived.
  */
  datatype State = State(
    log: seq<SyncEvent>, received: seq<SyncEvent>, cursor: Option<nat>, low: nat, open: bool, served: nat, queue: seq<SyncEvent>)

  datatype Step = Record(e: SyncEvent) | Connect | Tick | Arrive | Disconnect

  function Reached(s: State): nat {
    if s.cursor.Some? then s.cursor.value else s.low
  }

  predicate Enabled(s: State, step: Step) {
    match step
    case Record(e) => e.id > LatestId(s.log)
    case Connect => !s.open
    case Tick => s.open
    case Arrive => s.open && s.queue != []
    case Disconnect => s.open
  }

  /** What one look at the log sends: the events up to the last of the batch. */
  function Served(s: State): nat {
    LastOf(Batch(s.log, s.served), s.served)
  }

  function Next(s: State, accounts: set<string>, step: Step): State
    requires Enabled(s, step)
  {
    match step
    case Record(e) => s.(log := s.log + [e])
    case Connect =>
      var start := if s.cursor.Some? then s.cursor.value else LatestId(s.log);
      s.(open := true, served := start, queue := [], low := if s.cursor.Some? then s.low else start)
    case Tick => s.(served := Served(s), queue := s.queue + Window(s.log, accounts, s.served, Served(s)))
    case Arrive => s.(received := s.received + [s.queue[0]], cursor := Some(s.queue[0].id), queue := s.queue[1..])
    case Disconnect => s.(open := false, queue := [])
  }

  ghost predicate Invariant(s: State, accounts: set<string>) {
    && Ascending(s.log) && s.low <= Reached(s) <= LatestId(s.log)
    && s.received == Window(s.log, accounts, s.low, Reached(s))
    && (s.open ==> Reached(s) <= s.served <= LatestId(s.log) && s.queue == Window(s.log, accounts, Reached(s), s.served))
  }

  ghost predicate Init(s: State) {
    s.log == [] && s.received == [] && s.cursor == None && s.low == 0 && !s.open
  }

  lemma LogBounded(log: seq<SyncEvent>)
    requires Ascending(log)
    ensures forall e :: e in log ==> e.id <= LatestId(log)
  {
    forall e | e in log
      ensures e.id <= LatestId(log)
    {
      var i :| 0 <= i < |log| && log[i] == e;
    }
  }

  lemma RecordKeeps(s: State, accounts: set<string>, e: SyncEvent)
    requires Invariant(s, accounts) && Enabled(s, Record(e))
    ensures Invariant(Next(s, accounts, Record(e)), accounts)
  {
    LogBounded(s.log);
    WindowAppend(s.log, [e], accounts, s.low, Reached(s));
    BeyondWindow([e], accounts, s.low, Reached(s));
    if s.open {
      WindowAppend(s.log, [e], accounts, Reached(s), s.served);
      BeyondWindow([e], accounts, Reached(s), s.served);
    }
    assert Ascending(s.log + [e]) by {
      assert s.log != [] ==> s.log[|s.log| - 1].id < e.id;
    }
  }

  lemma ServedBounded(s: State)
    requires Ascending(s.log) && s.served <= LatestId(s.log)
    ensures s.served <= Served(s) <= LatestId(s.log)
  {
    var batch := Batch(s.log, s.served);
    LaterAscends(s.log, s.served);
    LogBounded(s.log);
    if batch != [] {
      assert batch[|batch| - 1] in Later(s.log, s.served);
    }
  }

  lemma TickKeeps(s: State, accounts: set<string>)
    requires Invariant(s, accounts) && s.open
    ensures Invariant(Next(s, accounts, Tick), accounts)
  {
    ServedBounded(s);
    WindowSplit(s.log, accounts, Reached(s), s.served, Served(s));
  }

  lemma ArriveKeeps(s: State, accounts: set<string>)
    requires Invariant(s, accounts) && s.open && s.queue != []
    ensures Invariant(Next(s, accounts, Arrive), accounts)
  {
    FirstOfWindow(s.log, accounts, Reached(s), s.served);
    WindowSplit(s.log, accounts, s.low, Reached(s), s.queue[0].id);
  }

  lemma StepKeeps(s: State, accounts: set<string>, step: Step)
    requires Invariant(s, accounts) && Enabled(s, step)
    ensures Invariant(Next(s, accounts, step), accounts)
  {
    match step
    case Record(e) => RecordKeeps(s, accounts, e);
    case Connect =>
      SameWindow(s.log, accounts, s.low, s.low);
      SameWindow(s.log, accounts, LatestId(s.log), LatestId(s.log));
      SameWindow(s.log, accounts, Reached(s), Reached(s));
    case Tick => TickKeeps(s, accounts);
    case Arrive => ArriveKeeps(s, accounts);
    case Disconnect =>
  }

  // ---- Every run ----

  ghost predicate Run(s: State, accounts: set<string>, steps: seq<Step>)
    decreases |steps|
  {
    steps == [] || (Enabled(s, steps[0]) && Run(Next(s, accounts, steps[0]), accounts, steps[1..]))
  }

  ghost function Final(s: State, accounts: set<string>, steps: seq<Step>): State
    requires Run(s, accounts, steps)
    decreases |steps|
  {
    if steps == [] then s else Final(Next(s, accounts, steps[0]), accounts, steps[1..])
  }

  lemma {:induction false} RunKeeps(s: State, accounts: set<string>, steps: seq<Step>)
    requires Invariant(s, accounts) && Run(s, accounts, steps)
    ensures Invariant(Final(s, accounts, steps), accounts)
    ensures s.low <= Final(s, accounts, steps).low
    ensures s.cursor.Some? ==> Final(s, accounts, steps).cursor.Some? && Final(s, accounts, steps).low == s.low
    decreases |steps|
  {
    if steps == [] {
    } else {
      StepKeeps(s, accounts, steps[0]);
      RunKeeps(Next(s, accounts, steps[0]), accounts, steps[1..]);
    }
  }

  lemma InitKeeps(s: State, accounts: set<string>)
    requires Init(s)
    ensures Invariant(s, accounts)
  {
  }

  /**
  Over any number of connections, cut anywhere, the application receives each event of its accounts between the first
  starting point and its cursor exactly once and in order.
  */
  lemma ReceivedExactly(start: State, accounts: set<string>, steps: seq<Step>)
    requires Init(start) && Run(start, accounts, steps)
    ensures var s := Final(start, accounts, steps);
      && Ascending(s.received)
      && forall e :: e in s.received <==> e in s.log && e.account in accounts && s.low < e.id <= Reached(s)
  {
    InitKeeps(start, accounts);
    RunKeeps(start, accounts, steps);
    var s := Final(start, accounts, steps);
    WindowAscends(s.log, accounts, s.low, Reached(s));
    WindowMembers(s.log, accounts, s.low, Reached(s));
  }

  /** Once one event has arrived the starting point stays: from then on nothing is lost. */
  lemma NothingLostLater(start: State, accounts: set<string>, steps: seq<Step>, more: seq<Step>, e: SyncEvent)
    requires Init(start) && Run(start, accounts, steps) && Run(Final(start, accounts, steps), accounts, more)
    requires var s := Final(start, accounts, steps); s.cursor.Some? && e.id > s.cursor.value && e.account in accounts
    ensures var s' := Final(Final(start, accounts, steps), accounts, more);
      e in s'.received <==> e in s'.log && e.id <= Reached(s')
  {
    InitKeeps(start, accounts);
    RunKeeps(start, accounts, steps);
    var s := Final(start, accounts, steps);
    RunKeeps(s, accounts, more);
    var s' := Final(s, accounts, more);
    WindowMembers(s'.log, accounts, s'.low, Reached(s'));
  }

  /** An event at or below the starting point never arrives. */
  lemma MissedForever(s: State, accounts: set<string>, steps: seq<Step>, e: SyncEvent)
    requires Invariant(s, accounts) && Run(s, accounts, steps) && e.id <= s.low
    ensures e !in Final(s, accounts, steps).received
  {
    RunKeeps(s, accounts, steps);
    var s' := Final(s, accounts, steps);
    WindowMembers(s'.log, accounts, s'.low, Reached(s'));
  }

  /** A connection that ends before anything arrived: the next one starts behind what was recorded meanwhile. */
  lemma FirstConnectionLoses(start: State, accounts: set<string>, e: SyncEvent)
    requires Init(start) && e.id > 0
    ensures var steps := [Connect, Record(e), Tick, Disconnect, Connect];
      Run(start, accounts, steps) && e in Final(start, accounts, steps).log && e.id <= Final(start, accounts, steps).low
  {
    var steps := [Connect, Record(e), Tick, Disconnect, Connect];
    var s1 := Next(start, accounts, Connect);
    var s2 := Next(s1, accounts, Record(e));
    var s3 := Next(s2, accounts, Tick);
    var s4 := Next(s3, accounts, Disconnect);
    var s5 := Next(s4, accounts, Connect);
    assert steps[1..] == [Record(e), Tick, Disconnect, Connect] && steps[1..][1..] == [Tick, Disconnect, Connect];
    assert [Tick, Disconnect, Connect][1..] == [Disconnect, Connect] && [Disconnect, Connect][1..] == [Connect];
    assert [Connect][1..] == [];
    assert Run(s4, accounts, [Connect]) && Final(s4, accounts, [Connect]) == s5;
    assert Run(s3, accounts, [Disconnect, Connect]) && Final(s3, accounts, [Disconnect, Connect]) == s5;
    assert Run(s2, accounts, [Tick, Disconnect, Connect]) && Final(s2, accounts, [Tick, Disconnect, Connect]) == s5;
  }
}
