/** Splitting an over-long block at sentence ends, and inside sentences that are themselves too long. */
module LongSegments {
  import opened Text

  predicate Terminates(c: char) {
    c == '\U{3002}' || c == '\U{FF01}' || c == '\U{FF1F}' || c == '.' || c == '!' || c == '?' || c == '\n'
  }

  function SentenceEnd(value: string): (i: nat)
    requires value != ""
    ensures 1 <= i <= |value|
    decreases |value|
  {
    if Terminates(value[0]) || |value| == 1 then 1 else 1 + SentenceEnd(value[1..])
  }

  /** `split_inclusive` at the terminators. */
  function Sentences(value: string): seq<string>
    decreases |value|
  {
    if value == "" then []
    else
      var i := SentenceEnd(value);
      [value[..i]] + Sentences(value[i..])
  }

  /** The chunks pushed so far and the one being filled. */
  datatype Progress = Progress(output: seq<string>, current: string)

  function PushChar(p: Progress, c: char, maximum: nat): Progress {
    var current := p.current + [c];
    if |current| == maximum then Progress(p.output + [current], "") else Progress(p.output, current)
  }

  function PushChars(p: Progress, chars: string, maximum: nat): Progress
    decreases |chars|
  {
    if chars == "" then p else PushChars(PushChar(p, chars[0], maximum), chars[1..], maximum)
  }

  function Flush(p: Progress, sentence: string, maximum: nat): Progress {
    if p.current != "" && |p.current| + |sentence| > maximum then Progress(p.output + [Trim(p.current)], "") else p
  }

  function PushSentence(p: Progress, sentence: string, maximum: nat): Progress {
    var q := Flush(p, sentence, maximum);
    if |sentence| > maximum then PushChars(q, sentence, maximum) else Progress(q.output, q.current + sentence)
  }

  function PushSentences(p: Progress, sentences: seq<string>, maximum: nat): Progress
    decreases |sentences|
  {
    if sentences == [] then p else PushSentences(PushSentence(p, sentences[0], maximum), sentences[1..], maximum)
  }

  function Finish(p: Progress): seq<string> {
    if Trim(p.current) != "" then p.output + [Trim(p.current)] else p.output
  }

  function Chunks(value: string, maximum: nat): seq<string> {
    if |value| <= maximum then [value] else Finish(PushSentences(Progress([], ""), Sentences(value), maximum))
  }

  /** `split_long_segment`. */
  method SplitLongSegment(value: string, maximum: nat) returns (output: seq<string>)
    ensures output == Chunks(value, maximum)
  {
    if |value| <= maximum {
      return [value];
    }
    var sentences := Sentences(value);
    output := [];
    var current := "";
    for i := 0 to |sentences|
      invariant PushSentences(Progress([], ""), sentences, maximum)
             == PushSentences(Progress(output, current), sentences[i..], maximum)
    {
      var sentence := sentences[i];
      assert sentences[i..][1..] == sentences[i + 1..];
      ghost var before := Progress(output, current);
      if current != "" && |current| + |sentence| > maximum {
        output := output + [Trim(current)];
        current := "";
      }
      if |sentence| > maximum {
        ghost var flushed := Progress(output, current);
        for j := 0 to |sentence|
          invariant PushChars(flushed, sentence, maximum) == PushChars(Progress(output, current), sentence[j..], maximum)
        {
          assert sentence[j..][1..] == sentence[j + 1..];
          current := current + [sentence[j]];
          if |current| == maximum {
            output := output + [current];
            current := "";
          }
        }
      } else {
        current := current + sentence;
      }
      assert Progress(output, current) == PushSentence(before, sentence, maximum);
    }
    if Trim(current) != "" {
      output := output + [Trim(current)];
    }
  }

  // ---- Every chunk fits ----

  ghost predicate Fits(chunks: seq<string>, maximum: nat) {
    forall i :: 0 <= i < |chunks| ==> |chunks[i]| <= maximum
  }

  lemma {:induction false} PushCharsFit(p: Progress, chars: string, maximum: nat)
    requires Fits(p.output, maximum) && |p.current| < maximum
    ensures var q := PushChars(p, chars, maximum); Fits(q.output, maximum) && |q.current| < maximum
    decreases |chars|
  {
    if chars == "" {
    } else {
      PushCharsFit(PushChar(p, chars[0], maximum), chars[1..], maximum);
    }
  }

  lemma TrimShorter(s: string)
    ensures |Trim(s)| <= |s|
  {
    TrimStartShape(s);
    TrimEndShape(TrimStart(s));
  }

  lemma {:induction false} PushSentencesFit(p: Progress, sentences: seq<string>, maximum: nat)
    requires maximum >= 1 && Fits(p.output, maximum) && |p.current| <= maximum
    ensures var q := PushSentences(p, sentences, maximum); Fits(q.output, maximum) && |q.current| <= maximum
    decreases |sentences|
  {
    if sentences == [] {
    } else {
      TrimShorter(p.current);
      var q := Flush(p, sentences[0], maximum);
      if |sentences[0]| > maximum {
        PushCharsFit(q, sentences[0], maximum);
      }
      PushSentencesFit(PushSentence(p, sentences[0], maximum), sentences[1..], maximum);
    }
  }

  // ---- Nothing but spaces is lost ----

  function NonSpace(s: string): string
    decreases |s|
  {
    if s == "" then "" else (if IsSpace(s[0]) then "" else [s[0]]) + NonSpace(s[1..])
  }

  function Flatten(chunks: seq<string>): string
    decreases |chunks|
  {
    if chunks == [] then "" else chunks[0] + Flatten(chunks[1..])
  }

  lemma {:induction false} NonSpaceAppend(s: string, t: string)
    ensures NonSpace(s + t) == NonSpace(s) + NonSpace(t)
    decreases |s|
  {
    if s == "" {
      assert s + t == t;
    } else {
      NonSpaceAppend(s[1..], t);
      assert (s + t)[1..] == s[1..] + t;
      Associative(if IsSpace(s[0]) then "" else [s[0]], NonSpace(s[1..]), NonSpace(t));
    }
  }

  lemma {:induction false} FlattenAppend(chunks: seq<string>, chunk: string)
    ensures Flatten(chunks + [chunk]) == Flatten(chunks) + chunk
    decreases |chunks|
  {
    if chunks == [] {
      assert [chunk][1..] == [];
    } else {
      FlattenAppend(chunks[1..], chunk);
      assert (chunks + [chunk])[1..] == chunks[1..] + [chunk];
    }
  }

  lemma FlattenCons(chunk: string, chunks: seq<string>)
    ensures Flatten([chunk] + chunks) == chunk + Flatten(chunks)
  {
    assert ([chunk] + chunks)[1..] == chunks;
  }

  lemma {:induction false} FlattenConcat(a: seq<string>, b: seq<string>)
    ensures Flatten(a + b) == Flatten(a) + Flatten(b)
    decreases |a|
  {
    if a == [] {
      assert a + b == b;
    } else {
      FlattenConcat(a[1..], b);
      assert (a + b)[1..] == a[1..] + b;
    }
  }

  lemma {:induction false} NonSpaceTrimStart(s: string)
    ensures NonSpace(TrimStart(s)) == NonSpace(s)
    decreases |s|
  {
    if s != "" && IsSpace(s[0]) {
      NonSpaceTrimStart(s[1..]);
    }
  }

  lemma {:induction false} NonSpaceTrimEnd(s: string)
    ensures NonSpace(TrimEnd(s)) == NonSpace(s)
    decreases |s|
  {
    if s != "" && IsSpace(s[|s| - 1]) {
      var front := s[..|s| - 1];
      NonSpaceTrimEnd(front);
      assert s == front + [s[|s| - 1]];
      NonSpaceAppend(front, [s[|s| - 1]]);
    }
  }

  lemma NonSpaceTrim(s: string)
    ensures NonSpace(Trim(s)) == NonSpace(s)
  {
    NonSpaceTrimStart(s);
    NonSpaceTrimEnd(TrimStart(s));
  }

  /** The characters taken in so far, without spaces. */
  function Content(p: Progress): string {
    NonSpace(Flatten(p.output)) + NonSpace(p.current)
  }

  lemma EmitContent(p: Progress, chunk: string)
    requires NonSpace(chunk) == NonSpace(p.current)
    ensures Content(Progress(p.output + [chunk], "")) == Content(p)
  {
    FlattenAppend(p.output, chunk);
    NonSpaceAppend(Flatten(p.output), chunk);
  }

  lemma TakeContent(p: Progress, s: string)
    ensures Content(Progress(p.output, p.current + s)) == Content(p) + NonSpace(s)
  {
    NonSpaceAppend(p.current, s);
  }

  lemma {:induction false} PushCharsContent(p: Progress, chars: string, maximum: nat)
    ensures Content(PushChars(p, chars, maximum)) == Content(p) + NonSpace(chars)
    decreases |chars|
  {
    if chars == "" {
    } else {
      var taken := Progress(p.output, p.current + [chars[0]]);
      TakeContent(p, [chars[0]]);
      EmitContent(taken, taken.current);
      PushCharsContent(PushChar(p, chars[0], maximum), chars[1..], maximum);
      assert chars == [chars[0]] + chars[1..];
      NonSpaceAppend([chars[0]], chars[1..]);
    }
  }

  lemma PushSentenceContent(p: Progress, sentence: string, maximum: nat)
    ensures Content(PushSentence(p, sentence, maximum)) == Content(p) + NonSpace(sentence)
  {
    NonSpaceTrim(p.current);
    EmitContent(p, Trim(p.current));
    var q := Flush(p, sentence, maximum);
    if |sentence| > maximum {
      PushCharsContent(q, sentence, maximum);
    } else {
      TakeContent(q, sentence);
    }
  }

  lemma {:induction false} PushSentencesContent(p: Progress, sentences: seq<string>, maximum: nat)
    ensures Content(PushSentences(p, sentences, maximum)) == Content(p) + NonSpace(Flatten(sentences))
    decreases |sentences|
  {
    if sentences == [] {
    } else {
      PushSentenceContent(p, sentences[0], maximum);
      PushSentencesContent(PushSentence(p, sentences[0], maximum), sentences[1..], maximum);
      NonSpaceAppend(sentences[0], Flatten(sentences[1..]));
      Associative(Content(p), NonSpace(sentences[0]), NonSpace(Flatten(sentences[1..])));
    }
  }

  lemma HeadAndTail(s: string, i: nat)
    requires i <= |s|
    ensures s[..i] + s[i..] == s
  {
  }

  lemma {:induction false} SentencesFlatten(value: string)
    ensures Flatten(Sentences(value)) == value
    decreases |value|
  {
    if value == "" {
    } else {
      var i := SentenceEnd(value);
      SentencesFlatten(value[i..]);
      FlattenCons(value[..i], Sentences(value[i..]));
      HeadAndTail(value, i);
    }
  }

  lemma FinishContent(p: Progress)
    ensures NonSpace(Flatten(Finish(p))) == Content(p)
  {
    NonSpaceTrim(p.current);
    FlattenAppend(p.output, Trim(p.current));
    NonSpaceAppend(Flatten(p.output), Trim(p.current));
  }

  /** Every text and every maximum: the chunks together hold exactly the characters that are no spaces, in order. */
  lemma ChunksKeepContent(value: string, maximum: nat)
    ensures NonSpace(Flatten(Chunks(value, maximum))) == NonSpace(value)
  {
    if |value| <= maximum {
      assert [value][1..] == [] && value + "" == value;
    } else {
      PushSentencesContent(Progress([], ""), Sentences(value), maximum);
      SentencesFlatten(value);
      FinishContent(PushSentences(Progress([], ""), Sentences(value), maximum));
    }
  }

  // ---- When the bound holds ----

  lemma {:induction false} ZeroChars(p: Progress, chars: string)
    ensures PushChars(p, chars, 0) == Progress(p.output, p.current + chars)
    decreases |chars|
  {
    if chars != "" {
      ZeroChars(PushChar(p, chars[0], 0), chars[1..]);
      assert p.current + [chars[0]] + chars[1..] == p.current + chars;
    } else {
      assert p.current + "" == p.current;
    }
  }

  lemma {:induction false} BlankTrim(s: string)
    requires NonSpace(s) == ""
    ensures Trim(s) == ""
    decreases |s|
  {
    if s == "" {
    } else {
      BlankTrim(s[1..]);
    }
  }

  lemma {:induction false} BlankSentences(p: Progress, sentences: seq<string>)
    requires Fits(p.output, 0) && NonSpace(p.current) == "" && NonSpace(Flatten(sentences)) == ""
    ensures var q := PushSentences(p, sentences, 0); Fits(q.output, 0) && NonSpace(q.current) == ""
    decreases |sentences|
  {
    if sentences == [] {
    } else {
      NonSpaceAppend(sentences[0], Flatten(sentences[1..]));
      BlankTrim(p.current);
      var q := Flush(p, sentences[0], 0);
      ZeroChars(q, sentences[0]);
      NonSpaceAppend(q.current, sentences[0]);
      BlankSentences(PushSentence(p, sentences[0], 0), sentences[1..]);
    }
  }

  lemma {:induction false} EmptyChunks(chunks: seq<string>)
    requires Fits(chunks, 0)
    ensures Flatten(chunks) == ""
    decreases |chunks|
  {
    if chunks == [] {
    } else {
      assert |chunks[0]| <= 0;
      EmptyChunks(chunks[1..]);
    }
  }

  lemma ChunksFit(value: string, maximum: nat)
    requires maximum >= 1
    ensures Fits(Chunks(value, maximum), maximum)
  {
    var p := PushSentences(Progress([], ""), Sentences(value), maximum);
    PushSentencesFit(Progress([], ""), Sentences(value), maximum);
    TrimShorter(p.current);
  }

  lemma BlankChunksFit(value: string)
    requires NonSpace(value) == ""
    ensures Fits(Chunks(value, 0), 0)
  {
    var p := PushSentences(Progress([], ""), Sentences(value), 0);
    SentencesFlatten(value);
    BlankSentences(Progress([], ""), Sentences(value));
    BlankTrim(p.current);
  }

  /** Every chunk fits the maximum exactly when the maximum is at least one or the text is blank. */
  lemma ChunksFitExactly(value: string, maximum: nat)
    ensures Fits(Chunks(value, maximum), maximum) <==> maximum >= 1 || NonSpace(value) == ""
  {
    if maximum >= 1 {
      ChunksFit(value, maximum);
    } else {
      ZeroFitsExactly(value);
    }
  }

  lemma ZeroFitsExactly(value: string)
    ensures Fits(Chunks(value, 0), 0) <==> NonSpace(value) == ""
  {
    if NonSpace(value) == "" {
      BlankChunksFit(value);
    } else {
      ContentNeedsRoom(value);
    }
  }

  lemma ContentNeedsRoom(value: string)
    requires NonSpace(value) != ""
    ensures !Fits(Chunks(value, 0), 0)
  {
    ChunksKeepContent(value, 0);
    if Fits(Chunks(value, 0), 0) {
      EmptyChunks(Chunks(value, 0));
    }
  }

  // ---- A chunk may be blank ----

  /** A sentence with nothing around it to trim. */
  ghost predicate TrimmedSentence(s: string) {
    && s != "" && Terminates(s[|s| - 1]) && (forall i :: 0 <= i < |s| - 1 ==> !Terminates(s[i]))
    && !IsSpace(s[0]) && !IsSpace(s[|s| - 1])
  }

  lemma {:induction false} FirstSentence(s: string, rest: string)
    requires s != "" && Terminates(s[|s| - 1]) && forall i :: 0 <= i < |s| - 1 ==> !Terminates(s[i])
    ensures Sentences(s + rest) == [s] + Sentences(rest)
  {
    FirstSentenceEnd(s, rest);
    assert (s + rest)[..|s|] == s && (s + rest)[|s|..] == rest;
  }

  lemma {:induction false} FirstSentenceEnd(s: string, rest: string)
    requires s != "" && Terminates(s[|s| - 1]) && forall i :: 0 <= i < |s| - 1 ==> !Terminates(s[i])
    ensures SentenceEnd(s + rest) == |s|
    decreases |s|
  {
    if |s| > 1 {
      FirstSentenceEnd(s[1..], rest);
      assert (s + rest)[1..] == s[1..] + rest;
    }
  }

  lemma PushThree(p: Progress, x: string, y: string, z: string, maximum: nat)
    ensures PushSentences(p, [x, y, z], maximum)
         == PushSentence(PushSentence(PushSentence(p, x, maximum), y, maximum), z, maximum)
  {
    assert [x, y, z][1..] == [y, z] && [y, z][1..] == [z] && [z][1..] == [];
    var q := PushSentence(p, x, maximum);
    var r := PushSentence(q, y, maximum);
    assert PushSentences(r, [z], maximum) == PushSentence(r, z, maximum);
    assert PushSentences(q, [y, z], maximum) == PushSentences(r, [z], maximum);
  }

  lemma ThreeSentences(a: string, b: string)
    requires TrimmedSentence(a) && TrimmedSentence(b)
    ensures Sentences(a + "\n" + b) == [a, "\n", b]
  {
    assert a + "\n" + b == a + ("\n" + b) && b + "" == b;
    FirstSentence(a, "\n" + b);
    FirstSentence("\n", b);
    FirstSentence(b, "");
  }

  lemma FullChunk(p: Progress, a: string, b: string, maximum: nat)
    requires p.current == a != "" && |a| + |b| > maximum && |b| <= maximum
    ensures PushSentence(p, b, maximum) == Progress(p.output + [Trim(a)], b)
  {
    assert "" + b == b;
  }

  lemma PushBlank(a: string, b: string, maximum: nat)
    requires a != "" && Trim(a) == a && |a| == |b| == maximum
    ensures PushSentences(Progress([], ""), [a, "\n", b], maximum) == Progress([a, ""], b)
  {
    PushThree(Progress([], ""), a, "\n", b, maximum);
    assert PushSentence(Progress([], ""), a, maximum) == Progress([], a) by {
      assert "" + a == a;
    }
    FullChunk(Progress([], a), a, "\n", maximum);
    assert [] + [a] == [a];
    FullChunk(Progress([a], "\n"), "\n", b, maximum);
    assert Trim("\n") == "";
    assert [a] + [""] == [a, ""];
  }

  /**
  Two sentences that each fill a chunk, with a line break between them: the break becomes a blank
  chunk of its own, for every maximum.
  */
  lemma BlankChunk(a: string, b: string, maximum: nat)
    requires TrimmedSentence(a) && TrimmedSentence(b) && |a| == |b| == maximum
    ensures Chunks(a + "\n" + b, maximum) == [a, "", b]
  {
    TrimFixed(a);
    TrimFixed(b);
    var v := a + "\n" + b;
    assert Sentences(v) == [a, "\n", b] by {
      ThreeSentences(a, b);
    }
    PushBlank(a, b, maximum);
    assert Finish(Progress([a, ""], b)) == [a, ""] + [b];
  }
}
