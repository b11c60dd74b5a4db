/** Turning a message body into the ordered, identified segments that are sent to a translator. */
module Segmentation {
  import opened Options
  import opened Text
  import opened Radix
  import opened MessageText
  import opened QuotedHistory
  import opened LongSegments

  const MAX_BODY_BYTES: nat := 2097152
  const MAX_SEGMENT_CHARACTERS: nat := 4000
  const SEGMENT_VERSION: nat := 1

  datatype Kind = Paragraph | ListItem

  datatype Segment = Segment(id: string, kind: Kind, text: string)

  datatype Document = Document(
    messageId: string, bodyHash: string, segmentVersion: nat, omitted: bool, segments: seq<Segment>)

  /** The functions of the environment: the hexadecimal SHA-256, the quotation marker and the text of an HTML body. */
  datatype Env = Env(digest: string -> string, marker: string -> bool, htmlText: string -> string)

  // ---- Blocks ----

  /** The index of the first empty line, or the length. */
  function BreakAt(s: string): (i: nat)
    ensures i <= |s| && (i < |s| ==> i + 2 <= |s|)
    decreases |s|
  {
    if |s| < 2 then |s| else if s[0] == '\n' && s[1] == '\n' then 0 else 1 + BreakAt(s[1..])
  }

  /** `split("\n\n")`. */
  function Paragraphs(s: string): seq<string>
    decreases |s|
  {
    var i := BreakAt(s);
    if i == |s| then [s] else [s[..i]] + Paragraphs(s[i + 2..])
  }

  function AllChunks(paragraphs: seq<string>): seq<string>
    decreases |paragraphs|
  {
    if paragraphs == [] then [] else Pieces(paragraphs[0]) + AllChunks(paragraphs[1..])
  }

  function Pieces(paragraph: string): seq<string> {
    if Trim(paragraph) == "" then [] else Chunks(Trim(paragraph), MAX_SEGMENT_CHARACTERS)
  }

  // ---- Kinds and identifiers ----

  predicate IsListLine(line: string) {
    var trimmed := TrimStart(line);
    || (|trimmed| >= 2 && (trimmed[..2] == "- " || trimmed[..2] == "* "))
    || (Find(trimmed, '.') < |trimmed| && forall i :: 0 <= i < Find(trimmed, '.') ==> '0' <= trimmed[i] <= '9')
  }

  function KindOf(chunk: string): Kind {
    var lines := Lines(chunk);
    if forall i :: 0 <= i < |lines| ==> IsListLine(lines[i]) then ListItem else Paragraph
  }

  function Short(digest: string): string {
    if |digest| <= 16 then digest else digest[..16]
  }

  function MakeId(digest: string, occurrence: nat): string {
    "s-" + Short(digest) + "-" + Render(10, occurrence)
  }

  /** How many of the first `n` chunks have the digest. */
  function Count(digest: string -> string, chunks: seq<string>, d: string, n: nat): nat
    requires n <= |chunks|
  {
    if n == 0 then 0 else Count(digest, chunks, d, n - 1) + if digest(chunks[n - 1]) == d then 1 else 0
  }

  function SegmentAt(digest: string -> string, chunks: seq<string>, i: nat): Segment
    requires i < |chunks|
  {
    var d := digest(chunks[i]);
    Segment(MakeId(d, Count(digest, chunks, d, i + 1)), KindOf(chunks[i]), chunks[i])
  }

  function Number(digest: string -> string, chunks: seq<string>): seq<Segment> {
    seq(|chunks|, i requires 0 <= i < |chunks| => SegmentAt(digest, chunks, i))
  }

  /** The segments of the visible text: they depend on nothing else. */
  function SegmentsOf(digest: string -> string, visible: string): seq<Segment> {
    Number(digest, AllChunks(Paragraphs(visible)))
  }

  // ---- segment_message_body ----

  function Source(env: Env, text: string, html: Option<string>): string {
    if Trim(text) == "" then (if html.Some? then Normalize(env.htmlText(html.value)) else "") else Normalize(text)
  }

  function VisibleText(env: Env, source: string): string {
    Normalize(JoinLines(Visible(Lines(source), env.marker)))
  }

  /** Whatever the message, nothing quoted or marked is visible, and omitting again would change nothing. */
  lemma NothingQuotedVisible(env: Env, text: string, html: Option<string>)
    requires !env.marker("")
    ensures var visible := VisibleText(env, Source(env, text, html));
      AllShown(Lines(visible), env.marker) && VisibleText(env, visible) == visible
  {
    if Trim(text) != "" {
      NormalizeIsNormal(text);
    } else if html.Some? {
      NormalizeIsNormal(env.htmlText(html.value));
    }
    OmitIdempotent(Source(env, text, html), env.marker);
  }

  method SegmentMessageBody(env: Env, messageId: string, text: string, html: Option<string>)
    returns (r: Option<Document>)
    ensures var source := Source(env, text, html);
      && (r.Some? <==> Utf8Len(source) <= MAX_BODY_BYTES)
      && (r.Some? ==>
            var visible := VisibleText(env, source);
            && r.value.messageId == messageId
            && r.value.bodyHash == env.digest(visible)
            && r.value.segmentVersion == SEGMENT_VERSION
            && (r.value.omitted <==> !AllShown(Lines(source), env.marker))
            && r.value.segments == SegmentsOf(env.digest, visible))
  {
    var source := Source(env, text, html);
    if Utf8Len(source) > MAX_BODY_BYTES {
      return None;
    }
    var visible, omitted := OmitQuotedHistory(source, env.marker);
    var segments := SegmentVisible(env.digest, visible);
    r := Some(Document(messageId, env.digest(visible), SEGMENT_VERSION, omitted, segments));
  }

  method SplitBlock(paragraph: string) returns (pieces: seq<string>)
    ensures pieces == Pieces(paragraph)
  {
    var block := Trim(paragraph);
    if block == "" {
      return [];
    }
    pieces := SplitLongSegment(block, MAX_SEGMENT_CHARACTERS);
  }

  /** The block loop of `segment_message_body`. */
  method SegmentVisible(digest: string -> string, visible: string) returns (segments: seq<Segment>)
    ensures segments == SegmentsOf(digest, visible)
  {
    var paragraphs := Paragraphs(visible);
    var occurrences: map<string, nat> := map[];
    segments := [];
    ghost var chunks: seq<string> := [];
    assert paragraphs[0..] == paragraphs && [] + AllChunks(paragraphs) == AllChunks(paragraphs);
    for i := 0 to |paragraphs|
      invariant chunks + AllChunks(paragraphs[i..]) == AllChunks(paragraphs)
      invariant segments == Number(digest, chunks)
      invariant Counted(digest, chunks, occurrences)
    {
      ghost var rest := AllChunks(paragraphs[i + 1..]);
      assert AllChunks(paragraphs[i..]) == Pieces(paragraphs[i]) + rest by {
        assert paragraphs[i..][0] == paragraphs[i] && paragraphs[i..][1..] == paragraphs[i + 1..];
      }
      var pieces := SplitBlock(paragraphs[i]);
      segments, occurrences := NumberMore(digest, chunks, segments, occurrences, pieces);
      Associative(chunks, pieces, rest);
      chunks := chunks + pieces;
    }
    assert chunks == AllChunks(paragraphs);
  }

  /** The occurrence map holds the count of every digest met. */
  ghost predicate Counted(digest: string -> string, chunks: seq<string>, occurrences: map<string, nat>) {
    forall d :: (if d in occurrences then occurrences[d] else 0) == Count(digest, chunks, d, |chunks|)
  }

  lemma {:induction false} CountPrefix(digest: string -> string, chunks: seq<string>, more: seq<string>, d: string, n: nat)
    requires n <= |chunks|
    ensures Count(digest, chunks + more, d, n) == Count(digest, chunks, d, n)
    decreases n
  {
    if n == 0 {
    } else {
      CountPrefix(digest, chunks, more, d, n - 1);
    }
  }

  lemma NumberPush(digest: string -> string, chunks: seq<string>, chunk: string)
    ensures Number(digest, chunks + [chunk]) == Number(digest, chunks) + [SegmentAt(digest, chunks + [chunk], |chunks|)]
  {
    forall i | 0 <= i < |chunks|
      ensures SegmentAt(digest, chunks + [chunk], i) == SegmentAt(digest, chunks, i)
    {
      CountPrefix(digest, chunks, [chunk], digest(chunks[i]), i + 1);
    }
  }

  method NumberMore(digest: string -> string, ghost chunks: seq<string>, before: seq<Segment>, counts: map<string, nat>,
                    pieces: seq<string>)
    returns (segments: seq<Segment>, occurrences: map<string, nat>)
    requires before == Number(digest, chunks) && Counted(digest, chunks, counts)
    ensures segments == Number(digest, chunks + pieces) && Counted(digest, chunks + pieces, occurrences)
  {
    segments, occurrences := before, counts;
    assert chunks + pieces[..0] == chunks;
    for j := 0 to |pieces|
      invariant segments == Number(digest, chunks + pieces[..j])
      invariant Counted(digest, chunks + pieces[..j], occurrences)
    {
      segments, occurrences := NumberOne(digest, chunks + pieces[..j], segments, occurrences, pieces[j]);
      TakeOne(chunks, pieces, j);
    }
    assert pieces[..|pieces|] == pieces;
  }

  lemma TakeOne(chunks: seq<string>, pieces: seq<string>, j: nat)
    requires j < |pieces|
    ensures chunks + pieces[..j] + [pieces[j]] == chunks + pieces[..j + 1]
  {
  }

  method NumberOne(digest: string -> string, ghost done: seq<string>, before: seq<Segment>, counts: map<string, nat>,
                   chunk: string)
    returns (segments: seq<Segment>, occurrences: map<string, nat>)
    requires before == Number(digest, done) && Counted(digest, done, counts)
    ensures segments == Number(digest, done + [chunk]) && Counted(digest, done + [chunk], occurrences)
  {
    var d := digest(chunk);
    var occurrence := (if d in counts then counts[d] else 0) + 1;
    CountedPush(digest, done, chunk, counts);
    NumberPush(digest, done, chunk);
    occurrences := counts[d := occurrence];
    segments := before + [Segment(MakeId(d, occurrence), KindOf(chunk), chunk)];
  }

  lemma CountedPush(digest: string -> string, chunks: seq<string>, chunk: string, occurrences: map<string, nat>)
    requires Counted(digest, chunks, occurrences)
    ensures var d := digest(chunk);
      var occurrence := (if d in occurrences then occurrences[d] else 0) + 1;
      && Counted(digest, chunks + [chunk], occurrences[d := occurrence])
      && occurrence == Count(digest, chunks + [chunk], d, |chunks| + 1)
  {
    var longer := chunks + [chunk];
    forall e
      ensures Count(digest, longer, e, |longer|) ==
              Count(digest, chunks, e, |chunks|) + if e == digest(chunk) then 1 else 0
    {
      CountPrefix(digest, chunks, [chunk], e, |chunks|);
    }
  }

  // ---- Identifiers are distinct ----

  lemma {:induction false} CountGrows(digest: string -> string, chunks: seq<string>, d: string, m: nat, n: nat)
    requires m <= n <= |chunks|
    ensures Count(digest, chunks, d, m) <= Count(digest, chunks, d, n)
    decreases n
  {
    if m < n {
      CountGrows(digest, chunks, d, m, n - 1);
    }
  }

  lemma IdParts(d: string, m: nat, e: string, n: nat)
    requires |d| >= 16 && |e| >= 16 && MakeId(d, m) == MakeId(e, n)
    ensures Short(d) == Short(e) && m == n
  {
    IdSplits(Short(d), Render(10, m));
    IdSplits(Short(e), Render(10, n));
    RenderInjective(10, m, n);
  }

  lemma IdSplits(head: string, tail: string)
    requires |head| == 16
    ensures var id := "s-" + head + "-" + tail; |id| >= 19 && id[2..18] == head && id[19..] == tail
  {
  }

  /** How often the chunk at `i` has occurred up to there, by its whole digest. */
  function Occurrence(digest: string -> string, chunks: seq<string>, i: nat): nat
    requires i < |chunks|
  {
    Count(digest, chunks, digest(chunks[i]), i + 1)
  }

  /** Two chunks with different digests share sixteen digits and have occurred equally often. */
  ghost predicate Collide(digest: string -> string, chunks: seq<string>, i: nat, j: nat) {
    && i < |chunks| && j < |chunks| && digest(chunks[i]) != digest(chunks[j])
    && Short(digest(chunks[i])) == Short(digest(chunks[j]))
    && Occurrence(digest, chunks, i) == Occurrence(digest, chunks, j)
  }

  /** Two segments have the same identifier exactly when their chunks collide so. */
  lemma SameIdExactly(digest: string -> string, visible: string, i: nat, j: nat)
    requires i < j < |SegmentsOf(digest, visible)|
    requires forall s :: s in AllChunks(Paragraphs(visible)) ==> |digest(s)| >= 16
    ensures SegmentsOf(digest, visible)[i].id == SegmentsOf(digest, visible)[j].id
       <==> Collide(digest, AllChunks(Paragraphs(visible)), i, j)
  {
    var chunks := AllChunks(Paragraphs(visible));
    var d, e := digest(chunks[i]), digest(chunks[j]);
    assert chunks[i] in chunks && chunks[j] in chunks;
    var m, n := Occurrence(digest, chunks, i), Occurrence(digest, chunks, j);
    if d == e {
      CountGrows(digest, chunks, d, i + 1, j);
    }
    if MakeId(d, m) == MakeId(e, n) {
      IdParts(d, m, e, n);
    }
  }

  /** All identifiers of a document differ, repeated chunks included, exactly when no two chunks collide. */
  lemma IdsDistinctExactly(digest: string -> string, visible: string)
    requires forall s :: s in AllChunks(Paragraphs(visible)) ==> |digest(s)| >= 16
    ensures var segments, chunks := SegmentsOf(digest, visible), AllChunks(Paragraphs(visible));
      (forall i, j :: 0 <= i < j < |segments| ==> segments[i].id != segments[j].id)
      <==> forall i: nat, j: nat :: i < j ==> !Collide(digest, chunks, i, j)
  {
    var segments, chunks := SegmentsOf(digest, visible), AllChunks(Paragraphs(visible));
    forall i: nat, j: nat | i < j < |segments|
      ensures segments[i].id == segments[j].id <==> Collide(digest, chunks, i, j)
    {
      SameIdExactly(digest, visible, i, j);
    }
    PairwiseExactly(digest, segments, chunks);
  }

  lemma PairwiseExactly(digest: string -> string, segments: seq<Segment>, chunks: seq<string>)
    requires |segments| == |chunks|
    requires forall i: nat, j: nat :: i < j < |segments| ==> (segments[i].id == segments[j].id <==> Collide(digest, chunks, i, j))
    ensures (forall i, j :: 0 <= i < j < |segments| ==> segments[i].id != segments[j].id)
       <==> forall i: nat, j: nat :: i < j ==> !Collide(digest, chunks, i, j)
  {
    if i, j :| 0 <= i < j < |segments| && segments[i].id == segments[j].id {
      assert Collide(digest, chunks, i, j);
    }
    if i: nat, j: nat :| i < j && Collide(digest, chunks, i, j) {
      assert segments[i].id == segments[j].id;
    }
  }

  lemma {:induction false} AllChunksFit(paragraphs: seq<string>)
    ensures Fits(AllChunks(paragraphs), MAX_SEGMENT_CHARACTERS)
    decreases |paragraphs|
  {
    if paragraphs == [] {
    } else {
      ChunksFit(Trim(paragraphs[0]), MAX_SEGMENT_CHARACTERS);
      AllChunksFit(paragraphs[1..]);
    }
  }

  lemma {:induction false} AllChunksContent(paragraphs: seq<string>)
    ensures NonSpace(Flatten(AllChunks(paragraphs))) == NonSpace(Flatten(paragraphs))
    decreases |paragraphs|
  {
    if paragraphs == [] {
    } else {
      var head := paragraphs[0];
      var pieces := Pieces(head);
      AllChunksContent(paragraphs[1..]);
      NonSpaceTrim(head);
      ChunksKeepContent(Trim(head), MAX_SEGMENT_CHARACTERS);
      FlattenConcat(pieces, AllChunks(paragraphs[1..]));
      NonSpaceAppend(Flatten(pieces), Flatten(AllChunks(paragraphs[1..])));
      NonSpaceAppend(head, Flatten(paragraphs[1..]));
    }
  }

  lemma {:induction false} ParagraphsContent(s: string)
    ensures NonSpace(Flatten(Paragraphs(s))) == NonSpace(s)
    decreases |s|
  {
    var i := BreakAt(s);
    if i == |s| {
      assert [s][1..] == [] && s + "" == s;
    } else {
      ParagraphsContent(s[i + 2..]);
      BreakIsBlank(s);
      AroundBlank(s[..i], s[i..i + 2], s[i + 2..]);
      ThreeParts(s, i, i + 2);
      NonSpaceAppend(s[..i], Flatten(Paragraphs(s[i + 2..])));
      FlattenCons(s[..i], Paragraphs(s[i + 2..]));
    }
  }

  lemma ThreeParts(s: string, i: nat, j: nat)
    requires i <= j <= |s|
    ensures s == s[..i] + s[i..j] + s[j..]
  {
  }

  lemma AroundBlank(a: string, blank: string, b: string)
    requires NonSpace(blank) == ""
    ensures NonSpace(a + blank + b) == NonSpace(a) + NonSpace(b)
  {
    NonSpaceAppend(a + blank, b);
    NonSpaceAppend(a, blank);
  }

  lemma {:induction false} BreakIsBlank(s: string)
    requires BreakAt(s) < |s|
    ensures var i := BreakAt(s); s[i..i + 2] == "\n\n" && NonSpace(s[i..i + 2]) == ""
    decreases |s|
  {
    if !(s[0] == '\n' && s[1] == '\n') {
      BreakIsBlank(s[1..]);
      var i := BreakAt(s[1..]);
      assert s[1..][i..i + 2] == s[i + 1..i + 3];
    } else {
      assert s[0..2] == "\n\n";
      assert "\n\n"[1..] == "\n" && "\n"[1..] == "";
    }
  }

  /** The whole way from visible text to segments: each fits, and together they hold every visible character. */
  lemma SegmentsCoverText(digest: string -> string, visible: string)
    ensures var chunks := AllChunks(Paragraphs(visible));
      && |SegmentsOf(digest, visible)| == |chunks|
      && (forall i :: 0 <= i < |chunks| ==> SegmentsOf(digest, visible)[i].text == chunks[i])
      && Fits(chunks, MAX_SEGMENT_CHARACTERS)
      && NonSpace(Flatten(chunks)) == NonSpace(visible)
  {
    AllChunksFit(Paragraphs(visible));
    AllChunksContent(Paragraphs(visible));
    ParagraphsContent(visible);
  }
}
