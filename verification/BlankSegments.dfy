/** When a document has a blank segment, and what that means for its translation. */
module BlankSegments {
  import opened Options
  import opened Text
  import opened MessageText
  import opened LongSegments
  import opened BlankChunks
  import opened Segmentation
  import QuotedHistory
  import T = TranslationCache

  lemma PiecesBlankExactly(paragraph: string)
    ensures AnyBlank(Pieces(paragraph)) <==> SplitsBlank(Trim(paragraph), MAX_SEGMENT_CHARACTERS)
  {
    var block := Trim(paragraph);
    BlankChunkExactly(block, MAX_SEGMENT_CHARACTERS);
    if block != "" {
      TrimShape(paragraph);
      assert !IsSpace(block[0]);
    }
  }

  lemma AnyBlankConcat(a: seq<string>, b: seq<string>)
    ensures AnyBlank(a + b) <==> AnyBlank(a) || AnyBlank(b)
  {
    if AnyBlank(a) {
      var i :| 0 <= i < |a| && IsBlank(a[i]);
      assert (a + b)[i] == a[i];
    }
    if AnyBlank(b) {
      var i :| 0 <= i < |b| && IsBlank(b[i]);
      assert (a + b)[|a| + i] == b[i];
    }
  }

  lemma {:induction false} AllChunksBlankExactly(paragraphs: seq<string>)
    ensures AnyBlank(AllChunks(paragraphs)) <==> exists p :: p in paragraphs && SplitsBlank(Trim(p), MAX_SEGMENT_CHARACTERS)
    decreases |paragraphs|
  {
    if paragraphs == [] {
    } else {
      var head, rest := paragraphs[0], paragraphs[1..];
      assert paragraphs == [head] + rest;
      AllChunksBlankExactly(rest);
      PiecesBlankExactly(head);
      AnyBlankConcat(Pieces(head), AllChunks(rest));
    }
  }

  /** Some segment of the visible text is blank exactly when one of its blocks splits that way. */
  lemma BlankSegmentExactly(digest: string -> string, visible: string)
    ensures var segments := SegmentsOf(digest, visible);
      (exists i :: 0 <= i < |segments| && Trim(segments[i].text) == "")
      <==> exists p :: p in Paragraphs(visible) && SplitsBlank(Trim(p), MAX_SEGMENT_CHARACTERS)
  {
    var chunks, segments := AllChunks(Paragraphs(visible)), SegmentsOf(digest, visible);
    AllChunksBlankExactly(Paragraphs(visible));
    forall i | 0 <= i < |chunks|
      ensures Trim(segments[i].text) == "" <==> IsBlank(chunks[i])
    {
      BlankTrimExactly(chunks[i]);
    }
  }

  // ---- What the cache makes of it ----

  /** The translation that leaves every segment as it is. */
  function Echo(segments: seq<Segment>): seq<T.Translated> {
    seq(|segments|, i requires 0 <= i < |segments| => T.Translated(segments[i].id, segments[i].text))
  }

  /** A translation that changes nothing is refused as incomplete exactly when a block splits blank. */
  lemma EchoAcceptedExactly(digest: string -> string, visible: string, document: Document)
    requires document.segments == SegmentsOf(digest, visible)
    ensures T.Validate(document, Echo(document.segments)) ==
      if T.TotalBytes(Echo(document.segments)) > T.MAX_TRANSLATED_BYTES then Some(T.ResultTooLarge)
      else if exists p :: p in Paragraphs(visible) && SplitsBlank(Trim(p), MAX_SEGMENT_CHARACTERS) then Some(T.ResultInvalid)
      else None
  {
    EchoShort(digest, visible);
    BlankSegmentExactly(digest, visible);
    EchoValidated(document);
  }

  lemma EchoShort(digest: string -> string, visible: string)
    ensures forall s :: s in SegmentsOf(digest, visible) ==> |s.text| <= MAX_SEGMENT_CHARACTERS
  {
    SegmentsCoverText(digest, visible);
  }

  /** For segments of proper length only the total and blank ones matter. */
  lemma EchoValidated(document: Document)
    requires forall s :: s in document.segments ==> |s.text| <= MAX_SEGMENT_CHARACTERS
    ensures T.Validate(document, Echo(document.segments)) ==
      if T.TotalBytes(Echo(document.segments)) > T.MAX_TRANSLATED_BYTES then Some(T.ResultTooLarge)
      else if exists i :: 0 <= i < |document.segments| && Trim(document.segments[i].text) == "" then Some(T.ResultInvalid)
      else None
  {
    var echo := Echo(document.segments);
    forall i | 0 <= i < |echo|
      ensures |echo[i].text| <= MAX_SEGMENT_CHARACTERS && echo[i].id == document.segments[i].id
    {
      assert document.segments[i] in document.segments;
    }
  }

  // ---- Blocks of normal text are tidy ----

  /** No two line breaks in a row. */
  ghost predicate NoEmptyLine(s: string) {
    forall i :: 0 < i < |s| ==> !(s[i - 1] == '\n' && s[i] == '\n')
  }

  lemma {:induction false} BreakIsFirst(s: string)
    ensures NoEmptyLine(s[..BreakAt(s)])
    decreases |s|
  {
    if |s| < 2 || (s[0] == '\n' && s[1] == '\n') {
    } else {
      var i := BreakAt(s[1..]);
      BreakIsFirst(s[1..]);
      var head, tail := s[..1 + i], s[1..][..i];
      assert forall j :: 0 < j <= i ==> head[j] == tail[j - 1];
    }
  }

  lemma SliceTidy(s: string, j: nat, k: nat)
    requires j <= k <= |s| && CleanEnds(s) && NoEmptyLine(s[j..k])
    ensures Tidy(s[j..k])
  {
    var t := s[j..k];
    forall i | 0 < i < |t| && t[i] == '\n'
      ensures !IsSpace(t[i - 1])
    {
      assert EndOk(s[j + i - 1], s[j + i]);
      assert t[i] == s[j + i] && t[i - 1] == s[j + i - 1];
    }
  }

  lemma TrimTidy(s: string)
    requires Tidy(s)
    ensures Tidy(Trim(s))
  {
    TrimStartShape(s);
    var t := TrimStart(s);
    TrimEndShape(t);
    var d := |s| - |t|;
    assert forall i :: 0 <= i < |Trim(s)| ==> Trim(s)[i] == s[d + i];
  }

  lemma {:induction false} ParagraphsTidy(s: string)
    requires CleanEnds(s)
    ensures forall p :: p in Paragraphs(s) ==> Tidy(p)
    decreases |s|
  {
    var i := BreakAt(s);
    BreakIsFirst(s);
    assert s[0..i] == s[..i];
    SliceTidy(s, 0, i);
    if i == |s| {
      assert s[..i] == s;
    } else {
      SliceClean(s, i + 2, |s|);
      ParagraphsTidy(s[i + 2..]);
    }
  }

  /**
  Whatever the message, a segment is blank only if some sentence of the visible text has as many characters as a
  segment may have.
  */
  lemma BlankNeedsLongSentence(env: Env, text: string, html: Option<string>)
    requires var visible := VisibleText(env, Source(env, text, html));
      forall p, s :: p in Paragraphs(visible) && s in Sentences(Trim(p)) ==> |s| < MAX_SEGMENT_CHARACTERS
    ensures var segments := SegmentsOf(env.digest, VisibleText(env, Source(env, text, html)));
      forall i :: 0 <= i < |segments| ==> Trim(segments[i].text) != ""
  {
    var visible := VisibleText(env, Source(env, text, html));
    NormalizeIsNormal(JoinLines(QuotedHistory.Visible(Lines(Source(env, text, html)), env.marker)));
    ParagraphsTidy(visible);
    forall p | p in Paragraphs(visible)
      ensures !SplitsBlank(Trim(p), MAX_SEGMENT_CHARACTERS)
    {
      TidyBlock(p);
    }
    BlankSegmentExactly(env.digest, visible);
  }

  lemma TidyBlock(p: string)
    requires Tidy(p) && forall s :: s in Sentences(Trim(p)) ==> |s| < MAX_SEGMENT_CHARACTERS
    ensures !SplitsBlank(Trim(p), MAX_SEGMENT_CHARACTERS)
  {
    var block := Trim(p);
    if block != "" {
      TrimTidy(p);
      TrimShape(p);
      ShortSentencesNoBlank(block, MAX_SEGMENT_CHARACTERS);
      BlankChunkExactly(block, MAX_SEGMENT_CHARACTERS);
    }
  }
}
