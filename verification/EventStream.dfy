/** Reading events and the resume cursor from the framed stream. */
module EventStream {
  import opened Options
  import opened Text
  import opened MessageText
  import opened SseFraming

  datatype Event = Event(event: string, data: string)

  datatype Parsed = Parsed(event: Event, id: Option<string>)

  // ---- parse_sse_block ----

  predicate HasPrefix(line: string, prefix: string) {
    |prefix| <= |line| && line[..|prefix|] == prefix
  }

  /** What follows the prefix on the lines that have it, in order. */
  function Values(lines: seq<string>, prefix: string): seq<string>
    decreases |lines|
  {
    if lines == [] then []
    else if HasPrefix(lines[|lines| - 1], prefix)
    then Values(lines[..|lines| - 1], prefix) + [lines[|lines| - 1][|prefix|..]]
    else Values(lines[..|lines| - 1], prefix)
  }

  function TrimStarts(values: seq<string>): seq<string> {
    seq(|values|, i requires 0 <= i < |values| => TrimStart(values[i]))
  }

  function LastTrimmed(values: seq<string>): Option<string> {
    if values == [] then None else Some(Trim(values[|values| - 1]))
  }

  /** An event needs a data line; the last event and id lines win. */
  function ParseLines(lines: seq<string>): Option<Parsed> {
    var data := Values(lines, "data:");
    var name := LastTrimmed(Values(lines, "event:"));
    if data == [] then None
    else Some(Parsed(
      Event(if name.Some? then name.value else "message", JoinLines(TrimStarts(data))),
      LastTrimmed(Values(lines, "id:"))))
  }

  function Parse(decode: Bytes -> string, block: Bytes): Option<Parsed> {
    ParseLines(Lines(ReplaceCrLf(decode(block))))
  }

  lemma ValuesStep(lines: seq<string>, i: nat, prefix: string)
    requires i < |lines|
    ensures Values(lines[..i + 1], prefix) ==
      Values(lines[..i], prefix) + if HasPrefix(lines[i], prefix) then [lines[i][|prefix|..]] else []
  {
    var longer := lines[..i + 1];
    assert longer[..|longer| - 1] == lines[..i];
  }

  /** A line has at most one of the three prefixes. */
  lemma Exclusive(line: string)
    ensures HasPrefix(line, "event:") ==> !HasPrefix(line, "data:") && !HasPrefix(line, "id:")
    ensures HasPrefix(line, "data:") ==> !HasPrefix(line, "id:")
  {
    if HasPrefix(line, "event:") {
      assert line[..6][0] == 'e';
    }
    if HasPrefix(line, "data:") {
      assert line[..5][0] == 'd';
    }
    if HasPrefix(line, "id:") {
      assert line[..3][0] == 'i';
    }
  }

  /** What the three variables of the loop hold after some lines. */
  datatype Fields = Fields(event: string, data: seq<string>, id: Option<string>)

  function Scanned(lines: seq<string>): Fields {
    var name := LastTrimmed(Values(lines, "event:"));
    Fields(if name.Some? then name.value else "message", TrimStarts(Values(lines, "data:")),
           LastTrimmed(Values(lines, "id:")))
  }

  lemma ScannedStep(lines: seq<string>, i: nat)
    requires i < |lines|
    ensures var before, after, line := Scanned(lines[..i]), Scanned(lines[..i + 1]), lines[i];
      after ==
        if HasPrefix(line, "event:") then before.(event := Trim(line[6..]))
        else if HasPrefix(line, "data:") then before.(data := before.data + [TrimStart(line[5..])])
        else if HasPrefix(line, "id:") then before.(id := Some(Trim(line[3..])))
        else before
  {
    Exclusive(lines[i]);
    ValuesStep(lines, i, "event:");
    ValuesStep(lines, i, "data:");
    ValuesStep(lines, i, "id:");
  }

  method ParseSseBlock(decode: Bytes -> string, block: Bytes) returns (r: Option<Parsed>)
    ensures r == Parse(decode, block)
  {
    var lines := Lines(ReplaceCrLf(decode(block)));
    var event, data, id: Option<string> := "message", [], None;
    for i := 0 to |lines|
      invariant Fields(event, data, id) == Scanned(lines[..i])
    {
      var line := lines[i];
      ScannedStep(lines, i);
      if HasPrefix(line, "event:") {
        event := Trim(line[6..]);
      } else if HasPrefix(line, "data:") {
        data := data + [TrimStart(line[5..])];
      } else if HasPrefix(line, "id:") {
        id := Some(Trim(line[3..]));
      }
    }
    assert lines[..|lines|] == lines;
    r := if data == [] then None else Some(Parsed(Event(event, JoinLines(data)), id));
  }

  // ---- The reader ----

  function ParsedOf(decode: Bytes -> string, blocks: seq<Block>): seq<Option<Parsed>> {
    seq(|blocks|, i requires 0 <= i < |blocks| => Parse(decode, blocks[i].content))
  }

  function EventOf(p: Option<Parsed>): seq<Event> {
    if p.Some? then [p.value.event] else []
  }

  function Advanced(cursor: Option<string>, p: Option<Parsed>): Option<string> {
    if p.Some? && p.value.id.Some? then p.value.id else cursor
  }

  /** The events, in order. */
  function Events(parsed: seq<Option<Parsed>>): seq<Event>
    decreases |parsed|
  {
    if parsed == [] then [] else EventOf(parsed[0]) + Events(parsed[1..])
  }

  /** The cursor afterwards: the id of the last event that carried one. */
  function Resume(cursor: Option<string>, parsed: seq<Option<Parsed>>): Option<string>
    decreases |parsed|
  {
    if parsed == [] then cursor else Resume(Advanced(cursor, parsed[0]), parsed[1..])
  }

  function Emitted(decode: Bytes -> string, blocks: seq<Block>): seq<Event> {
    Events(ParsedOf(decode, blocks))
  }

  function Resumed(decode: Bytes -> string, cursor: Option<string>, blocks: seq<Block>): Option<string> {
    Resume(cursor, ParsedOf(decode, blocks))
  }

  class EventReader {
    var buffer: Bytes
    var cursor: Option<string>
    var events: seq<Event>

    constructor ()
      ensures buffer == [] && cursor == None && events == []
    {
      buffer, cursor, events := [], None, [];
    }

    /** `take_sse_block`. */
    method TakeBlock() returns (block: Option<Bytes>)
      modifies this`buffer
      ensures block.Some? <==> Cut(old(buffer)).Some?
      ensures block.None? ==> buffer == old(buffer)
      ensures block.Some? ==>
        var (i, d) := Cut(old(buffer)).value;
        block.value == old(buffer)[..i] && buffer == Rest(old(buffer), i, d) && old(buffer) == block.value + d + buffer
    {
      var cut := Cut(buffer);
      if cut.None? {
        return None;
      }
      var (index, delimiter) := cut.value;
      block := Some(buffer[..index]);
      buffer := buffer[index + |delimiter|..];
    }

    /** One turn of the reading loop. */
    method OnChunk(decode: Bytes -> string, chunk: Bytes)
      modifies this
      ensures var f := Drain(old(buffer) + chunk);
        && buffer == f.rest
        && events == old(events) + Emitted(decode, f.blocks)
        && cursor == Resumed(decode, old(cursor), f.blocks)
    {
      buffer := buffer + chunk;
      ghost var all := Drain(buffer);
      var more := true;
      while more
        invariant events + Emitted(decode, Drain(buffer).blocks) == old(events) + Emitted(decode, all.blocks)
        invariant Resumed(decode, cursor, Drain(buffer).blocks) == Resumed(decode, old(cursor), all.blocks)
        invariant Drain(buffer).rest == all.rest
        invariant !more ==> Cut(buffer).None?
        decreases |buffer|, more
      {
        ghost var before := buffer;
        if Cut(before).Some? {
          var i, d, rest := DrainStep(before);
          EmittedStep(decode, cursor, Block(before[..i], d), Drain(rest).blocks);
          Associative(events, EventOf(Parse(decode, before[..i])), Emitted(decode, Drain(rest).blocks));
        }
        var block := TakeBlock();
        more := block.Some?;
        if more {
          var parsed := ParseSseBlock(decode, block.value);
          if parsed.Some? {
            if parsed.value.id.Some? {
              cursor := parsed.value.id;
            }
            events := events + [parsed.value.event];
          } else {
            assert events + [] == events;
          }
        }
      }
      assert events + [] == events;
    }
  }

  lemma EmittedStep(decode: Bytes -> string, cursor: Option<string>, block: Block, blocks: seq<Block>)
    ensures var p := Parse(decode, block.content);
      && Emitted(decode, [block] + blocks) == EventOf(p) + Emitted(decode, blocks)
      && Resumed(decode, cursor, [block] + blocks) == Resumed(decode, Advanced(cursor, p), blocks)
  {
    assert ParsedOf(decode, [block] + blocks) == [Parse(decode, block.content)] + ParsedOf(decode, blocks);
    assert ParsedOf(decode, [block] + blocks)[1..] == ParsedOf(decode, blocks);
  }

  /** A whole response body read chunk by chunk. */
  method ReadStream(reader: EventReader, decode: Bytes -> string, chunks: seq<Bytes>)
    requires reader.buffer == [] && reader.events == []
    modifies reader
    ensures var f := FeedAll([], chunks);
      && reader.buffer == f.rest
      && reader.events == Emitted(decode, f.blocks)
      && reader.cursor == Resumed(decode, old(reader.cursor), f.blocks)
  {
    ghost var start := reader.cursor;
    ghost var all := FeedAll([], chunks);
    ghost var done: seq<Block> := [];
    for i := 0 to |chunks|
      invariant done + FeedAll(reader.buffer, chunks[i..]).blocks == all.blocks
      invariant FeedAll(reader.buffer, chunks[i..]).rest == all.rest
      invariant reader.events == Emitted(decode, done)
      invariant reader.cursor == Resumed(decode, start, done)
    {
      ghost var f := Drain(reader.buffer + chunks[i]);
      assert chunks[i..][0] == chunks[i] && chunks[i..][1..] == chunks[i + 1..];
      Associative(done, f.blocks, FeedAll(f.rest, chunks[i + 1..]).blocks);
      EmittedAppend(decode, start, done, f.blocks);
      reader.OnChunk(decode, chunks[i]);
      done := done + f.blocks;
    }
    assert done + [] == done;
  }

  lemma {:induction false} EventsAppend(cursor: Option<string>, a: seq<Option<Parsed>>, b: seq<Option<Parsed>>)
    ensures Events(a + b) == Events(a) + Events(b)
    ensures Resume(cursor, a + b) == Resume(Resume(cursor, a), b)
    decreases |a|
  {
    if a == [] {
      assert a + b == b;
    } else {
      EventsAppend(Advanced(cursor, a[0]), a[1..], b);
      assert (a + b)[0] == a[0] && (a + b)[1..] == a[1..] + b;
      Associative(EventOf(a[0]), Events(a[1..]), Events(b));
    }
  }

  lemma EmittedAppend(decode: Bytes -> string, cursor: Option<string>, a: seq<Block>, b: seq<Block>)
    ensures Emitted(decode, a + b) == Emitted(decode, a) + Emitted(decode, b)
    ensures Resumed(decode, cursor, a + b) == Resumed(decode, Resumed(decode, cursor, a), b)
  {
    assert ParsedOf(decode, a + b) == ParsedOf(decode, a) + ParsedOf(decode, b);
    EventsAppend(cursor, ParsedOf(decode, a), ParsedOf(decode, b));
  }

  /** So on an unambiguous stream neither the events nor the cursor depend on the chunks. */
  lemma EventsIgnoreChunking(decode: Bytes -> string, cursor: Option<string>, chunks: seq<Bytes>, chunks': seq<Bytes>)
    requires Joined(chunks) == Joined(chunks') && Unambiguous(Joined(chunks))
    ensures var f, g := FeedAll([], chunks), FeedAll([], chunks');
      && Emitted(decode, f.blocks) == Emitted(decode, g.blocks)
      && Resumed(decode, cursor, f.blocks) == Resumed(decode, cursor, g.blocks)
      && f.rest == g.rest
  {
    ChunkingIrrelevantExactly(Joined(chunks));
  }
}
