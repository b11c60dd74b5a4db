/** Events as the service writes them, read back by the desktop application. */
module EventRoundTrip {
  import opened Options
  import opened Text
  import opened MessageText
  import opened SseFraming
  import opened EventStream

  /** One event of the service; status frames carry no id. */
  datatype Frame = Frame(id: Option<string>, name: string, data: string)

  function IdLine(f: Frame): seq<string> {
    if f.id.Some? then ["id: " + f.id.value] else []
  }

  function FrameLines(f: Frame): seq<string> {
    IdLine(f) + ["event: " + f.name, "data: " + f.data]
  }

  /** `event_frames` and `status_frame`, without the empty line at the end. */
  function Body(f: Frame): string {
    JoinLines(FrameLines(f))
  }

  /** A line of its own: neither breaks nor space around it. */
  ghost predicate Field(s: string) {
    Plain(s) && Trim(s) == s
  }

  ghost predicate Clean(f: Frame) {
    Field(f.name) && Field(f.data) && (f.id.Some? ==> Field(f.id.value))
  }

  // ---- Parsing one frame ----

  lemma SpaceTrimmed(s: string)
    requires Field(s)
    ensures Trim(" " + s) == s && TrimStart(" " + s) == s
  {
    assert IsSpace(' ') && (" " + s)[1..] == s;
    TrimDropFirst(" " + s);
    TrimShape(s);
    if s != "" {
      TrimStartShape(s);
    }
  }

  lemma PrefixOf(prefix: string, rest: string)
    ensures HasPrefix(prefix + rest, prefix) && (prefix + rest)[|prefix|..] == rest
  {
  }

  lemma IdScan(lines: seq<string>, i: nat, value: string)
    requires i < |lines| && Field(value) && lines[i] == "id: " + value
    ensures Scanned(lines[..i + 1]) == Scanned(lines[..i]).(id := Some(value))
  {
    assert "id: " + value == "id:" + (" " + value);
    PrefixOf("id:", " " + value);
    SpaceTrimmed(value);
    Exclusive(lines[i]);
    ScannedStep(lines, i);
  }

  lemma EventScan(lines: seq<string>, i: nat, value: string)
    requires i < |lines| && Field(value) && lines[i] == "event: " + value
    ensures Scanned(lines[..i + 1]) == Scanned(lines[..i]).(event := value)
  {
    assert "event: " + value == "event:" + (" " + value);
    PrefixOf("event:", " " + value);
    SpaceTrimmed(value);
    ScannedStep(lines, i);
  }

  lemma DataScan(lines: seq<string>, i: nat, value: string)
    requires i < |lines| && Field(value) && lines[i] == "data: " + value
    ensures Scanned(lines[..i + 1]) == Scanned(lines[..i]).(data := Scanned(lines[..i]).data + [value])
  {
    assert "data: " + value == "data:" + (" " + value);
    PrefixOf("data:", " " + value);
    SpaceTrimmed(value);
    Exclusive(lines[i]);
    ScannedStep(lines, i);
  }

  lemma NothingScanned()
    ensures Scanned([]) == Fields("message", [], None)
  {
  }

  /** The event and the data line behind the lines scanned so far. */
  lemma TwoScanned(before: seq<string>, name: string, data: string)
    requires Field(name) && Field(data) && Scanned(before).data == []
    ensures Scanned(before + ["event: " + name, "data: " + data]) == Scanned(before).(event := name, data := [data])
  {
    var lines, k := before + ["event: " + name, "data: " + data], |before|;
    assert lines[..k] == before && lines[..k + 2] == lines;
    EventScan(lines, k, name);
    DataScan(lines, k + 1, data);
    assert [] + [data] == [data];
  }

  lemma IdScanned(id: string)
    requires Field(id)
    ensures Scanned(["id: " + id]) == Fields("message", [], Some(id))
  {
    var lines := ["id: " + id];
    NothingScanned();
    assert lines[..0] == [] && lines[..1] == lines;
    IdScan(lines, 0, id);
  }

  lemma FrameScanned(f: Frame)
    requires Clean(f)
    ensures Scanned(FrameLines(f)) == Fields(f.name, [f.data], f.id)
  {
    NothingScanned();
    if f.id.Some? {
      IdScanned(f.id.value);
    }
    TwoScanned(IdLine(f), f.name, f.data);
  }

  lemma FrameParsed(f: Frame)
    requires Clean(f)
    ensures ParseLines(FrameLines(f)) == Some(Parsed(Event(f.name, f.data), f.id))
  {
    FrameScanned(f);
    var data := Values(FrameLines(f), "data:");
    assert TrimStarts(data) == [f.data];
    assert |data| == 1;
  }

  lemma PlainAppend(a: string, b: string)
    requires Plain(a) && Plain(b)
    ensures Plain(a + b)
  {
  }

  lemma LabelsPlain()
    ensures Plain("id: ") && Plain("event: ") && Plain("data: ")
  {
  }

  lemma LinesPlain(f: Frame)
    requires Clean(f)
    ensures forall l :: l in FrameLines(f) ==> Plain(l) && l != ""
  {
    LabelsPlain();
    PlainAppend("event: ", f.name);
    PlainAppend("data: ", f.data);
    if f.id.Some? {
      PlainAppend("id: ", f.id.value);
    }
  }

  lemma {:induction false} LinesOfJoined(lines: seq<string>)
    requires forall l :: l in lines ==> Plain(l) && l != ""
    ensures Lines(JoinLines(lines)) == lines && '\r' !in JoinLines(lines)
    decreases |lines|
  {
    if lines == [] {
    } else {
      assert lines[0] in lines;
      if |lines| == 1 {
        LinesOfOne(lines[0]);
      } else {
        LinesOfJoined(lines[1..]);
        LinesOfCons(lines[0], JoinLines(lines[1..]));
      }
    }
  }

  lemma BodyParsed(decode: Bytes -> string, f: Frame, block: Bytes)
    requires Clean(f) && decode(block) == Body(f)
    ensures Parse(decode, block) == Some(Parsed(Event(f.name, f.data), f.id))
  {
    LinesPlain(f);
    LinesOfJoined(FrameLines(f));
    ReplaceFixed(Body(f));
    FrameParsed(f);
  }

  // ---- Bytes ----

  function Enc(utf8: char -> Bytes, s: string): Bytes
    decreases |s|
  {
    if s == "" then [] else utf8(s[0]) + Enc(utf8, s[1..])
  }

  /** What UTF-8 does: every character has bytes, line breaks are single bytes nobody else uses, decoding undoes it. */
  ghost predicate Encoding(utf8: char -> Bytes, decode: Bytes -> string) {
    && utf8('\n') == [10] && (forall c :: |utf8(c)| > 0)
    && (forall c :: c != '\n' ==> 10 !in utf8(c)) && (forall c :: c != '\r' ==> 13 !in utf8(c))
    && forall s :: decode(Enc(utf8, s)) == s
  }

  lemma {:induction false} EncAppend(utf8: char -> Bytes, a: string, b: string)
    ensures Enc(utf8, a + b) == Enc(utf8, a) + Enc(utf8, b)
    decreases |a|
  {
    if a == "" {
      assert a + b == b;
    } else {
      EncAppend(utf8, a[1..], b);
      assert (a + b)[1..] == a[1..] + b;
      Associative(utf8(a[0]), Enc(utf8, a[1..]), Enc(utf8, b));
    }
  }

  lemma {:induction false} EncPlain(utf8: char -> Bytes, decode: Bytes -> string, s: string)
    requires Encoding(utf8, decode)
    ensures '\n' !in s ==> 10 !in Enc(utf8, s)
    ensures '\r' !in s ==> 13 !in Enc(utf8, s)
    ensures s != "" ==> Enc(utf8, s) != []
    decreases |s|
  {
    if s == "" {
    } else {
      EncPlain(utf8, decode, s[1..]);
      assert s == [s[0]] + s[1..];
      assert |utf8(s[0])| > 0;
    }
  }

  /** No two line feeds in a row, and none at the end. */
  ghost predicate Tight(b: Bytes) {
    b != [] && b[|b| - 1] != 10 && forall i :: 0 <= i < |b| - 1 ==> b[i] != 10 || b[i + 1] != 10
  }

  lemma TightLine(b: Bytes)
    requires b != [] && 10 !in b
    ensures Tight(b) && b[0] != 10
  {
    assert b[|b| - 1] in b && b[0] in b;
    forall i | 0 <= i < |b| - 1
      ensures b[i] != 10
    {
      assert b[i] in b;
    }
  }

  lemma TightJoin(a: Bytes, b: Bytes)
    requires a != [] && 10 !in a && Tight(b) && b[0] != 10
    ensures Tight(a + [10] + b) && (a + [10] + b)[0] != 10
  {
    var s := a + [10] + b;
    assert s[0] == a[0] && a[0] in a;
    forall i | 0 <= i < |s| - 1
      ensures s[i] != 10 || s[i + 1] != 10
    {
      if i < |a| {
        assert s[i] == a[i] && a[i] in a;
      } else if i > |a| {
        assert s[i] == b[i - |a| - 1] && s[i + 1] == b[i - |a|];
      }
    }
  }

  lemma EncJoin(utf8: char -> Bytes, line: string, rest: string)
    requires utf8('\n') == [10]
    ensures Enc(utf8, line + "\n" + rest) == Enc(utf8, line) + [10] + Enc(utf8, rest)
  {
    EncAppend(utf8, line + "\n", rest);
    EncAppend(utf8, line, "\n");
    assert "\n"[1..] == "" && [10] + [] == [10];
  }

  lemma {:induction false} JoinedTight(utf8: char -> Bytes, decode: Bytes -> string, lines: seq<string>)
    requires Encoding(utf8, decode) && lines != [] && forall l :: l in lines ==> Plain(l) && l != ""
    ensures var b := Enc(utf8, JoinLines(lines)); Tight(b) && b[0] != 10 && 13 !in b
    decreases |lines|
  {
    assert lines[0] in lines;
    EncPlain(utf8, decode, lines[0]);
    TightLine(Enc(utf8, lines[0]));
    if |lines| > 1 {
      JoinedTight(utf8, decode, lines[1..]);
      EncJoin(utf8, lines[0], JoinLines(lines[1..]));
      TightJoin(Enc(utf8, lines[0]), Enc(utf8, JoinLines(lines[1..])));
    }
  }

  // ---- The stream ----

  function Sent(utf8: char -> Bytes, frames: seq<Frame>): Bytes
    decreases |frames|
  {
    if frames == [] then [] else Enc(utf8, Body(frames[0])) + LF2 + Sent(utf8, frames[1..])
  }

  function BlockOf(utf8: char -> Bytes, f: Frame): Block {
    Block(Enc(utf8, Body(f)), LF2)
  }

  function BlocksOf(utf8: char -> Bytes, frames: seq<Frame>): seq<Block> {
    seq(|frames|, i requires 0 <= i < |frames| => BlockOf(utf8, frames[i]))
  }

  ghost predicate AllClean(frames: seq<Frame>) {
    forall f :: f in frames ==> Clean(f)
  }

  lemma PairHasCr(s: Bytes, j: int)
    requires At(CRLF2, s, j)
    ensures 13 in s
  {
    assert s[j..j + 4][0] == 13 && s[j] in s;
  }

  lemma NoCrNoPair(s: Bytes)
    requires 13 !in s
    ensures First(CRLF2, s) == None
  {
    if First(CRLF2, s).Some? {
      PairHasCr(s, First(CRLF2, s).value);
    }
  }

  lemma PairMeansTwo(s: Bytes, j: int)
    requires At(LF2, s, j)
    ensures 0 <= j && j + 1 < |s| && s[j] == 10 && s[j + 1] == 10
  {
    assert s[j..j + 2][0] == 10 && s[j..j + 2][1] == 10;
  }

  lemma TightBefore(body: Bytes, rest: Bytes, j: nat)
    requires Tight(body) && j < |body|
    ensures var s := body + LF2 + rest; s[j] != 10 || s[j + 1] != 10
  {
    var s := body + LF2 + rest;
    assert s[j] == body[j];
    if j + 1 < |body| {
      assert s[j + 1] == body[j + 1];
    }
  }

  lemma CutAfterBody(body: Bytes, rest: Bytes)
    requires Tight(body) && 13 !in body && 13 !in rest
    ensures Cut(body + LF2 + rest) == Some((|body|, LF2))
  {
    var s := body + LF2 + rest;
    NoCrNoPair(s);
    assert s[|body|..|body| + 2] == LF2;
    forall j | 0 <= j < |body|
      ensures !At(LF2, s, j)
    {
      TightBefore(body, rest, j);
      if At(LF2, s, j) {
        PairMeansTwo(s, j);
      }
    }
    FirstUnique(LF2, s, |body|);
  }

  lemma TightWithin(body: Bytes, n: nat, j: nat)
    requires Tight(body) && n < |body| + 2 && j + 1 < n
    ensures var s := (body + LF2)[..n]; s[j] != 10 || s[j + 1] != 10
  {
    var s := (body + LF2)[..n];
    assert s[j] == body[j];
    if j + 1 < |body| {
      assert s[j + 1] == body[j + 1];
    }
  }

  /** A frame cut off before its end is not delivered. */
  lemma NoCutWithin(body: Bytes, n: nat)
    requires Tight(body) && 13 !in body && n < |body| + 2
    ensures Cut((body + LF2)[..n]).None?
  {
    var s := (body + LF2)[..n];
    NoCrNoPair(s);
    forall j: nat | j + 1 < n
      ensures s[j] != 10 || s[j + 1] != 10
    {
      TightWithin(body, n, j);
    }
    if First(LF2, s).Some? {
      PairMeansTwo(s, First(LF2, s).value);
    }
  }

  lemma BodyTight(utf8: char -> Bytes, decode: Bytes -> string, f: Frame)
    requires Encoding(utf8, decode) && Clean(f)
    ensures Tight(Enc(utf8, Body(f))) && 13 !in Enc(utf8, Body(f))
  {
    LinesPlain(f);
    JoinedTight(utf8, decode, FrameLines(f));
  }

  lemma {:induction false} SentHasNoCr(utf8: char -> Bytes, decode: Bytes -> string, frames: seq<Frame>)
    requires Encoding(utf8, decode) && AllClean(frames)
    ensures 13 !in Sent(utf8, frames)
    decreases |frames|
  {
    if frames == [] {
    } else {
      assert frames[0] in frames;
      BodyTight(utf8, decode, frames[0]);
      SentHasNoCr(utf8, decode, frames[1..]);
    }
  }

  /** A part of a frame: the connection ended before its last byte. */
  ghost predicate PartOf(utf8: char -> Bytes, f: Frame, part: Bytes) {
    |part| < |Enc(utf8, Body(f))| + 2 && part == (Enc(utf8, Body(f)) + LF2)[..|part|]
  }

  lemma PartWaits(utf8: char -> Bytes, decode: Bytes -> string, f: Frame, part: Bytes)
    requires Encoding(utf8, decode) && Clean(f) && PartOf(utf8, f, part)
    ensures Cut(part).None? && 13 !in part
  {
    BodyTight(utf8, decode, f);
    NoCutWithin(Enc(utf8, Body(f)), |part|);
  }

  lemma DrainFirst(body: Bytes, tail: Bytes)
    requires Cut(body + LF2 + tail) == Some((|body|, LF2))
    ensures Drain(body + LF2 + tail) == Framed([Block(body, LF2)] + Drain(tail).blocks, Drain(tail).rest)
  {
    var s := body + LF2 + tail;
    var i, d, rest := DrainStep(s);
    assert s[..|body|] == body && rest == tail;
  }

  lemma BlocksCons(utf8: char -> Bytes, f: Frame, rest: seq<Frame>)
    ensures BlocksOf(utf8, [f] + rest) == [BlockOf(utf8, f)] + BlocksOf(utf8, rest)
  {
  }

  /** Whole frames are cut off one by one; a part of the next one waits. */
  lemma {:induction false} DrainSent(utf8: char -> Bytes, decode: Bytes -> string, whole: seq<Frame>, part: Bytes)
    requires Encoding(utf8, decode) && AllClean(whole) && 13 !in part && Cut(part).None?
    ensures Drain(Sent(utf8, whole) + part) == Framed(BlocksOf(utf8, whole), part)
    decreases |whole|
  {
    if whole == [] {
      assert [] + part == part;
    } else {
      var f, rest := whole[0], whole[1..];
      assert f in whole && whole == [f] + rest;
      var body, tail := Enc(utf8, Body(f)), Sent(utf8, rest) + part;
      BodyTight(utf8, decode, f);
      SentHasNoCr(utf8, decode, rest);
      DrainSent(utf8, decode, rest, part);
      Associative(body + LF2, Sent(utf8, rest), part);
      CutAfterBody(body, tail);
      DrainFirst(body, tail);
      BlocksCons(utf8, f, rest);
    }
  }

  lemma SplitPrefix(head: Bytes, more: Bytes, n: nat)
    requires |head| <= n <= |head + more|
    ensures (head + more)[..n] == head + more[..n - |head|]
  {
  }

  /** Wherever the connection ends, some frames have arrived whole and perhaps a part of the next one. */
  lemma {:induction false} EveryPrefix(utf8: char -> Bytes, frames: seq<Frame>, n: nat) returns (k: nat, part: Bytes)
    requires n <= |Sent(utf8, frames)|
    ensures k <= |frames| && Sent(utf8, frames)[..n] == Sent(utf8, frames[..k]) + part
    ensures if k == |frames| then part == [] else PartOf(utf8, frames[k], part)
    decreases |frames|
  {
    if frames == [] {
      k, part := 0, [];
    } else {
      var head, rest := Enc(utf8, Body(frames[0])) + LF2, frames[1..];
      if n < |head| {
        k, part := 0, head[..n];
        assert Sent(utf8, frames)[..n] == head[..n] && [] + part == part && frames[..0] == [];
      } else {
        SplitPrefix(head, Sent(utf8, rest), n);
        k, part := EveryPrefix(utf8, rest, n - |head|);
        Associative(head, Sent(utf8, rest[..k]), part);
        assert frames[..k + 1][1..] == rest[..k] && frames[..k + 1][0] == frames[0];
        k := k + 1;
      }
    }
  }

  // ---- What the reader makes of it ----

  function EventsOf(frames: seq<Frame>): seq<Event> {
    seq(|frames|, i requires 0 <= i < |frames| => Event(frames[i].name, frames[i].data))
  }

  /** `cursor` is the id of the last frame that has one, or what it was before. */
  ghost predicate LastId(frames: seq<Frame>, before: Option<string>, cursor: Option<string>) {
    || (exists i :: 0 <= i < |frames| && frames[i].id.Some? && cursor == frames[i].id && forall j :: i < j < |frames| ==> frames[j].id.None?)
    || (cursor == before && forall i :: 0 <= i < |frames| ==> frames[i].id.None?)
  }

  lemma LastIdCons(f: Frame, frames: seq<Frame>, before: Option<string>, cursor: Option<string>)
    requires LastId(frames, if f.id.Some? then f.id else before, cursor)
    ensures LastId([f] + frames, before, cursor)
  {
    var all := [f] + frames;
    assert forall i :: 0 <= i < |frames| ==> all[i + 1] == frames[i];
    if i :| 0 <= i < |frames| && frames[i].id.Some? && cursor == frames[i].id && forall j :: i < j < |frames| ==> frames[j].id.None? {
      assert forall j :: i + 1 < j < |all| ==> all[j] == frames[j - 1];
      assert all[i + 1].id.Some?;
    } else {
      assert forall i :: 1 <= i < |all| ==> all[i] == frames[i - 1];
      assert all[0] == f;
    }
  }

  /** One frame in front. */
  lemma FrameRead(utf8: char -> Bytes, decode: Bytes -> string, f: Frame, rest: seq<Frame>, cursor: Option<string>)
    requires Encoding(utf8, decode) && Clean(f)
    ensures var next := if f.id.Some? then f.id else cursor;
      && Emitted(decode, BlocksOf(utf8, [f] + rest)) == [Event(f.name, f.data)] + Emitted(decode, BlocksOf(utf8, rest))
      && Resumed(decode, cursor, BlocksOf(utf8, [f] + rest)) == Resumed(decode, next, BlocksOf(utf8, rest))
  {
    var block := BlockOf(utf8, f);
    BodyParsed(decode, f, block.content);
    BlocksCons(utf8, f, rest);
    EmittedStep(decode, cursor, block, BlocksOf(utf8, rest));
  }

  lemma EventsOfCons(f: Frame, rest: seq<Frame>)
    ensures EventsOf([f] + rest) == [Event(f.name, f.data)] + EventsOf(rest)
  {
  }

  lemma {:induction false} BlocksRead(utf8: char -> Bytes, decode: Bytes -> string, frames: seq<Frame>, cursor: Option<string>)
    requires Encoding(utf8, decode) && AllClean(frames)
    ensures Emitted(decode, BlocksOf(utf8, frames)) == EventsOf(frames)
    ensures LastId(frames, cursor, Resumed(decode, cursor, BlocksOf(utf8, frames)))
    decreases |frames|
  {
    if frames == [] {
      assert ParsedOf(decode, BlocksOf(utf8, frames)) == [];
    } else {
      var f, rest := frames[0], frames[1..];
      assert f in frames && frames == [f] + rest;
      var next := if f.id.Some? then f.id else cursor;
      FrameRead(utf8, decode, f, rest, cursor);
      BlocksRead(utf8, decode, rest, next);
      LastIdCons(f, rest, cursor, Resumed(decode, next, BlocksOf(utf8, rest)));
      EventsOfCons(f, rest);
    }
  }

  /**
  However the network chunks the stream, once some frames have arrived whole and a part of the next one, the application
  has emitted those frames, in order and unchanged, and its cursor is the id of the last of them that has one.
  */
  lemma ReadsWhatWasSent(utf8: char -> Bytes, decode: Bytes -> string, whole: seq<Frame>, next: Frame, part: Bytes,
                         chunks: seq<Bytes>, cursor: Option<string>)
    requires Encoding(utf8, decode) && AllClean(whole) && Clean(next) && PartOf(utf8, next, part)
    requires Joined(chunks) == Sent(utf8, whole) + part
    ensures var f := FeedAll([], chunks);
      && Emitted(decode, f.blocks) == EventsOf(whole) && LastId(whole, cursor, Resumed(decode, cursor, f.blocks)) && f.rest == part
  {
    var s := Joined(chunks);
    PartWaits(utf8, decode, next, part);
    SentHasNoCr(utf8, decode, whole);
    NoCrNoPair(s);
    OneDelimiterUnambiguous(s);
    assert [] + s == s && Cut([]).None?;
    FeedIsDrain([], chunks);
    DrainSent(utf8, decode, whole, part);
    BlocksRead(utf8, decode, whole, cursor);
  }
}
