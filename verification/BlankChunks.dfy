/** Exactly when splitting an over-long block yields a chunk of nothing but space. */
module BlankChunks {
  import opened Text
  import opened LongSegments
  import Powers

  predicate IsBlank(s: string) {
    forall i :: 0 <= i < |s| ==> IsSpace(s[i])
  }

  ghost predicate AnyBlank(chunks: seq<string>) {
    exists i :: 0 <= i < |chunks| && IsBlank(chunks[i])
  }

  function Suffix(s: string, n: nat): string
    requires n <= |s|
  {
    s[|s| - n..]
  }

  // ---- The condition ----

  /** How full the current chunk is after a sentence of `n` characters: lengths alone decide. */
  function Fill(f: nat, n: nat, maximum: nat): nat {
    var kept := if f > 0 && f + n > maximum then 0 else f;
    if n > maximum > 0 then n % maximum else kept + n
  }

  /** How full it is before sentence `k`, starting from `f`. */
  function FillBefore(f: nat, sentences: seq<string>, k: nat, maximum: nat): nat
    requires k <= |sentences|
    decreases k
  {
    if k == 0 then f else FillBefore(Fill(f, |sentences[0]|, maximum), sentences[1..], k - 1, maximum)
  }

  /** Sentence `k` does not fit behind what the chunk holds, and that is blank. */
  ghost predicate FlushesBlank(start: string, sentences: seq<string>, k: nat, maximum: nat)
    requires k < |sentences|
  {
    var f, before := FillBefore(|start|, sentences, k, maximum), start + Flatten(sentences[..k]);
    0 < f <= |before| && f + |sentences[k]| > maximum && IsBlank(Suffix(before, f))
  }

  predicate BlankBlock(sentence: string, i: nat, maximum: nat)
    requires maximum > 0
  {
    i % maximum == 0 && i + maximum <= |sentence| && IsBlank(sentence[i..i + maximum])
  }

  /** An over-long sentence has a blank block at a multiple of the maximum. */
  ghost predicate FillsBlank(sentence: string, maximum: nat) {
    |sentence| > maximum > 0 && exists i: nat :: BlankBlock(sentence, i, maximum)
  }

  ghost predicate PushesBlank(start: string, sentences: seq<string>, k: nat, maximum: nat) {
    k < |sentences| && (FlushesBlank(start, sentences, k, maximum) || FillsBlank(sentences[k], maximum))
  }

  /** The text is too long for one chunk and one of its sentences pushes a blank one. */
  ghost predicate SplitsBlank(value: string, maximum: nat) {
    |value| > maximum && exists k: nat :: PushesBlank("", Sentences(value), k, maximum)
  }

  // ---- Blank strings ----

  lemma {:induction false} BlankTrimExactly(s: string)
    ensures Trim(s) == "" <==> IsBlank(s)
  {
    TrimStartBlank(s);
    if TrimStart(s) != "" {
      TrimStartShape(s);
      TrimEndKeepsHead(TrimStart(s));
    }
  }

  lemma {:induction false} TrimStartBlank(s: string)
    ensures TrimStart(s) == "" <==> IsBlank(s)
    decreases |s|
  {
    if s == "" {
    } else {
      TrimStartBlank(s[1..]);
      assert IsBlank(s) ==> IsBlank(s[1..]);
      if IsBlank(s[1..]) && IsSpace(s[0]) {
        assert forall i :: 0 < i < |s| ==> s[i] == s[1..][i - 1];
      }
    }
  }

  lemma {:induction false} TrimEndKeepsHead(s: string)
    requires s != "" && !IsSpace(s[0])
    ensures TrimEnd(s) != ""
    decreases |s|
  {
    if |s| == 1 {
    } else if IsSpace(s[|s| - 1]) {
      TrimEndKeepsHead(s[..|s| - 1]);
    }
  }

  lemma AnyBlankPush(chunks: seq<string>, chunk: string)
    ensures AnyBlank(chunks + [chunk]) <==> AnyBlank(chunks) || IsBlank(chunk)
  {
    var longer := chunks + [chunk];
    if AnyBlank(chunks) {
      var i :| 0 <= i < |chunks| && IsBlank(chunks[i]);
      assert longer[i] == chunks[i];
    }
    assert longer[|chunks|] == chunk;
  }

  lemma AnyBlankTrimmed(chunks: seq<string>, s: string)
    ensures AnyBlank(chunks + [Trim(s)]) <==> AnyBlank(chunks) || IsBlank(s)
  {
    AnyBlankPush(chunks, Trim(s));
    BlankTrimExactly(s);
    if IsBlank(Trim(s)) && Trim(s) != "" {
      TrimShape(s);
    }
  }

  // ---- The character loop ----

  lemma {:induction false} PushWithin(p: Progress, chars: string, maximum: nat)
    requires |p.current| + |chars| < maximum
    ensures PushChars(p, chars, maximum) == Progress(p.output, p.current + chars)
    decreases |chars|
  {
    if chars == "" {
      assert p.current + "" == p.current;
    } else {
      PushWithin(PushChar(p, chars[0], maximum), chars[1..], maximum);
      Associative(p.current, [chars[0]], chars[1..]);
      assert [chars[0]] + chars[1..] == chars;
    }
  }

  lemma {:induction false} PushBlock(p: Progress, chars: string, maximum: nat)
    requires |p.current| < maximum <= |p.current| + |chars|
    ensures var n := maximum - |p.current|;
      PushChars(p, chars, maximum) == PushChars(Progress(p.output + [p.current + chars[..n]], ""), chars[n..], maximum)
    decreases |chars|
  {
    var n := maximum - |p.current|;
    if n == 1 {
      assert chars[..1] == [chars[0]];
    } else {
      PushBlock(PushChar(p, chars[0], maximum), chars[1..], maximum);
      assert p.current + [chars[0]] + chars[1..][..n - 1] == p.current + chars[..n];
      assert chars[1..][n - 1..] == chars[n..];
    }
  }

  lemma ModShift(i: nat, maximum: nat)
    requires maximum > 0
    ensures (i + maximum) % maximum == i % maximum
  {
    var q, r := i / maximum, i % maximum;
    assert i + maximum == (q + 1) * maximum + r;
    Powers.DivModUnique(i + maximum, maximum, q + 1, r);
  }

  lemma FirstBlock(chars: string, maximum: nat)
    requires 0 < maximum <= |chars|
    ensures BlankBlock(chars, 0, maximum) <==> IsBlank(chars[..maximum])
  {
    assert chars[0..0 + maximum] == chars[..maximum];
    Powers.DivModUnique(0, maximum, 0, 0);
  }

  lemma LaterBlock(chars: string, i: nat, maximum: nat)
    requires 0 < maximum <= |chars|
    ensures BlankBlock(chars, i + maximum, maximum) <==> BlankBlock(chars[maximum..], i, maximum)
  {
    ModShift(i, maximum);
    if i + maximum + maximum <= |chars| {
      assert chars[i + maximum..i + maximum + maximum] == chars[maximum..][i..i + maximum];
    }
  }

  lemma SmallIndex(i: nat, maximum: nat)
    requires 0 < i < maximum
    ensures i % maximum != 0
  {
    Powers.DivModUnique(i, maximum, 0, i);
  }

  /** The first block, and those of the rest. */
  lemma BlocksShift(chars: string, maximum: nat)
    requires 0 < maximum <= |chars|
    ensures (exists i: nat :: BlankBlock(chars, i, maximum)) <==>
      IsBlank(chars[..maximum]) || exists i: nat :: BlankBlock(chars[maximum..], i, maximum)
  {
    FirstBlock(chars, maximum);
    if i: nat :| BlankBlock(chars[maximum..], i, maximum) {
      LaterBlock(chars, i, maximum);
    }
    if i: nat :| BlankBlock(chars, i, maximum) {
      if i >= maximum {
        LaterBlock(chars, i - maximum, maximum);
        assert BlankBlock(chars[maximum..], i - maximum, maximum);
      } else if i > 0 {
        SmallIndex(i, maximum);
      }
    }
  }

  lemma NoBlock(chars: string, maximum: nat)
    requires |chars| < maximum
    ensures !exists i: nat :: BlankBlock(chars, i, maximum)
    ensures |chars| % maximum == |chars|
  {
    Powers.DivModUnique(|chars|, maximum, 0, |chars|);
  }

  lemma LeftoverShift(chars: string, maximum: nat)
    requires 0 < maximum <= |chars|
    ensures |chars[maximum..]| % maximum == |chars| % maximum <= |chars| - maximum
    ensures Suffix(chars[maximum..], |chars| % maximum) == Suffix(chars, |chars| % maximum)
  {
    ModShift(|chars| - maximum, maximum);
    RemainderSmall(|chars| - maximum, maximum);
  }

  lemma RemainderSmall(n: nat, maximum: nat)
    requires maximum > 0
    ensures n % maximum <= n
  {
    if n < maximum {
      Powers.DivModUnique(n, maximum, 0, n);
    }
  }

  lemma {:induction false} PushBlocks(output: seq<string>, chars: string, maximum: nat)
    requires maximum > 0
    ensures |chars| % maximum <= |chars|
    ensures var q := PushChars(Progress(output, ""), chars, maximum);
      && (AnyBlank(q.output) <==> AnyBlank(output) || exists i: nat :: BlankBlock(chars, i, maximum))
      && q.current == Suffix(chars, |chars| % maximum)
    decreases |chars|
  {
    if |chars| < maximum {
      PushWithin(Progress(output, ""), chars, maximum);
      assert "" + chars == chars;
      NoBlock(chars, maximum);
    } else {
      PushBlock(Progress(output, ""), chars, maximum);
      assert "" + chars[..maximum] == chars[..maximum];
      AnyBlankPush(output, chars[..maximum]);
      PushBlocks(output + [chars[..maximum]], chars[maximum..], maximum);
      BlocksShift(chars, maximum);
      LeftoverShift(chars, maximum);
    }
  }

  // ---- One sentence ----

  lemma SuffixOfSuffix(s: string, t: string, n: nat, m: nat)
    requires n <= |s| && m <= n + |t|
    ensures Suffix(Suffix(s, n) + t, m) == Suffix(s + t, m)
  {
  }

  /** What a sentence leaves in the current chunk, and whether it pushes a blank one. */
  lemma SentenceStep(p: Progress, sentence: string, maximum: nat)
    ensures var q := PushSentence(p, sentence, maximum);
      var f := Fill(|p.current|, |sentence|, maximum);
      f <= |p.current + sentence| && q.current == Suffix(p.current + sentence, f)
    ensures AnyBlank(PushSentence(p, sentence, maximum).output) <==>
      || AnyBlank(p.output)
      || (0 < |p.current| && |p.current| + |sentence| > maximum && IsBlank(p.current))
      || FillsBlank(sentence, maximum)
  {
    AnyBlankTrimmed(p.output, p.current);
    if |sentence| > maximum > 0 {
      LongStep(p, sentence, maximum);
    } else {
      ShortStep(p, sentence, maximum);
    }
  }

  lemma LongStep(p: Progress, sentence: string, maximum: nat)
    requires |sentence| > maximum > 0
    ensures var q := PushSentence(p, sentence, maximum);
      && |sentence| % maximum <= |sentence|
      && q.current == Suffix(p.current + sentence, |sentence| % maximum)
      && (AnyBlank(q.output) <==> AnyBlank(Flush(p, sentence, maximum).output) || FillsBlank(sentence, maximum))
  {
    PushBlocks(Flush(p, sentence, maximum).output, sentence, maximum);
    SuffixBehind(p.current, sentence, |sentence| % maximum);
  }

  lemma ShortStep(p: Progress, sentence: string, maximum: nat)
    requires !(|sentence| > maximum > 0)
    ensures var q, flushed := PushSentence(p, sentence, maximum), Flush(p, sentence, maximum);
      && q.output == flushed.output
      && q.current == Suffix(p.current + sentence, |flushed.current| + |sentence|)
  {
    var flushed := Flush(p, sentence, maximum);
    if |sentence| > maximum {
      ZeroChars(flushed, sentence);
    }
    KeptSuffix(p.current, flushed.current, sentence);
  }

  lemma SuffixBehind(s: string, t: string, n: nat)
    requires n <= |t|
    ensures Suffix(s + t, n) == Suffix(t, n)
  {
  }

  lemma KeptSuffix(current: string, kept: string, sentence: string)
    requires kept == current || kept == ""
    ensures kept + sentence == Suffix(current + sentence, |kept| + |sentence|)
  {
  }

  // ---- All sentences ----

  lemma {:induction false} FillBounded(f: nat, sentences: seq<string>, k: nat, maximum: nat)
    requires k <= |sentences|
    ensures FillBefore(f, sentences, k, maximum) <= f + |Flatten(sentences[..k])|
    decreases k
  {
    if k == 0 {
    } else {
      FillBounded(Fill(f, |sentences[0]|, maximum), sentences[1..], k - 1, maximum);
      FlattenFirst(sentences, k);
    }
  }

  lemma FlattenFirst(sentences: seq<string>, k: nat)
    requires 0 < k <= |sentences|
    ensures Flatten(sentences[..k]) == sentences[0] + Flatten(sentences[1..][..k - 1])
  {
    assert sentences[..k][1..] == sentences[1..][..k - 1];
  }

  lemma FlushShift(p: Progress, sentences: seq<string>, k: nat, maximum: nat)
    requires 0 < k < |sentences|
    ensures FlushesBlank(PushSentence(p, sentences[0], maximum).current, sentences[1..], k - 1, maximum)
       <==> FlushesBlank(p.current, sentences, k, maximum)
  {
    var q := PushSentence(p, sentences[0], maximum);
    SentenceStep(p, sentences[0], maximum);
    var more := Flatten(sentences[1..][..k - 1]);
    var f := FillBefore(|q.current|, sentences[1..], k - 1, maximum);
    FillBounded(|q.current|, sentences[1..], k - 1, maximum);
    FlattenFirst(sentences, k);
    Associative(p.current, sentences[0], more);
    SuffixOfSuffix(p.current + sentences[0], more, |q.current|, f);
  }

  lemma {:induction false} PushesBlankExactly(p: Progress, sentences: seq<string>, maximum: nat)
    ensures AnyBlank(PushSentences(p, sentences, maximum).output) <==>
      AnyBlank(p.output) || exists k: nat :: PushesBlank(p.current, sentences, k, maximum)
    decreases |sentences|
  {
    if sentences == [] {
    } else {
      var q := PushSentence(p, sentences[0], maximum);
      PushesBlankExactly(q, sentences[1..], maximum);
      FirstPush(p, sentences, maximum);
      forall k: nat | 0 < k
        ensures PushesBlank(p.current, sentences, k, maximum) <==> PushesBlank(q.current, sentences[1..], k - 1, maximum)
      {
        if k < |sentences| {
          FlushShift(p, sentences, k, maximum);
        }
      }
      ShiftExists(p, q, sentences, maximum);
    }
  }

  lemma FirstPush(p: Progress, sentences: seq<string>, maximum: nat)
    requires sentences != []
    ensures AnyBlank(PushSentence(p, sentences[0], maximum).output) <==>
      AnyBlank(p.output) || PushesBlank(p.current, sentences, 0, maximum)
  {
    SentenceStep(p, sentences[0], maximum);
    assert p.current + Flatten(sentences[..0]) == p.current;
    assert Suffix(p.current, |p.current|) == p.current;
  }

  lemma ShiftExists(p: Progress, q: Progress, sentences: seq<string>, maximum: nat)
    requires sentences != []
    requires forall k: nat :: 0 < k ==>
      (PushesBlank(p.current, sentences, k, maximum) <==> PushesBlank(q.current, sentences[1..], k - 1, maximum))
    ensures (exists k: nat :: PushesBlank(p.current, sentences, k, maximum)) <==>
      PushesBlank(p.current, sentences, 0, maximum) || exists k: nat :: PushesBlank(q.current, sentences[1..], k, maximum)
  {
    if k: nat :| PushesBlank(q.current, sentences[1..], k, maximum) {
      assert k == (k + 1) - 1;
      assert PushesBlank(p.current, sentences, k + 1, maximum);
    }
  }

  /**
  Every text and every maximum: some chunk is blank exactly when the text fits and is blank, or a sentence that does
  not fit meets a chunk that is blank so far, or an over-long sentence has a blank block.
  */
  lemma BlankChunkExactly(value: string, maximum: nat)
    ensures AnyBlank(Chunks(value, maximum)) <==> (|value| <= maximum && IsBlank(value)) || SplitsBlank(value, maximum)
  {
    if |value| <= maximum {
      assert [value][0] == value;
    } else {
      var p := PushSentences(Progress([], ""), Sentences(value), maximum);
      PushesBlankExactly(Progress([], ""), Sentences(value), maximum);
      AnyBlankTrimmed(p.output, p.current);
      BlankTrimExactly(p.current);
    }
  }

  // ---- Texts for which it cannot happen ----

  lemma BlankTerminator(c: char)
    requires Terminates(c) && IsSpace(c)
    ensures c == '\n'
  {
  }

  lemma {:induction false} EndsTerminate(value: string)
    requires value != ""
    ensures SentenceEnd(value) < |value| ==> Terminates(value[SentenceEnd(value) - 1])
    decreases |value|
  {
    if Terminates(value[0]) || |value| == 1 {
    } else {
      EndsTerminate(value[1..]);
    }
  }

  /** Every sentence but the last ends with a terminator. */
  lemma {:induction false} SentencesTerminate(value: string, i: nat)
    requires i < |Sentences(value)|
    ensures var s := Sentences(value)[i]; s != "" && (i < |Sentences(value)| - 1 ==> Terminates(s[|s| - 1]))
    decreases |value|
  {
    var end := SentenceEnd(value);
    EndsTerminate(value);
    if i == 0 {
      assert value[end..] == "" ==> |Sentences(value)| == 1;
    } else {
      SentencesTerminate(value[end..], i - 1);
    }
  }

  lemma FlattenPrefix(ss: seq<string>, k: nat)
    requires k <= |ss|
    ensures Flatten(ss[..k]) <= Flatten(ss)
  {
    assert ss == ss[..k] + ss[k..];
    FlattenConcat(ss[..k], ss[k..]);
  }

  lemma FlattenEnd(ss: seq<string>, k: nat)
    requires 0 < k <= |ss| && ss[k - 1] != ""
    ensures var before, s := Flatten(ss[..k]), ss[k - 1]; before != "" && before[|before| - 1] == s[|s| - 1]
  {
    assert ss[..k] == ss[..k - 1] + [ss[k - 1]];
    FlattenAppend(ss[..k - 1], ss[k - 1]);
  }

  lemma PrefixEnds(ss: seq<string>, value: string, k: nat)
    requires Flatten(ss) == value && 0 < k <= |ss| && ss[k - 1] != "" && Terminates(ss[k - 1][|ss[k - 1]| - 1])
    ensures var before := Flatten(ss[..k]); before != "" && before <= value && Terminates(before[|before| - 1])
  {
    FlattenPrefix(ss, k);
    FlattenEnd(ss, k);
  }

  /** What lies before sentence `k` is a prefix of the text that ends with a terminator. */
  lemma BeforeSentence(value: string, k: nat)
    requires 0 < k < |Sentences(value)|
    ensures var before := Flatten(Sentences(value)[..k]);
      before != "" && before <= value && Terminates(before[|before| - 1])
  {
    SentencesTerminate(value, k - 1);
    SentencesFlatten(value);
    PrefixEnds(Sentences(value), value, k);
  }

  lemma FlushBehindBreak(value: string, k: nat, maximum: nat)
    requires k < |Sentences(value)| && FlushesBlank("", Sentences(value), k, maximum)
    ensures 0 < k && var before := Flatten(Sentences(value)[..k]); before != "" && before[|before| - 1] == '\n'
  {
    var before, f := Flatten(Sentences(value)[..k]), FillBefore(0, Sentences(value), k, maximum);
    assert "" + before == before;
    BeforeSentence(value, k);
    assert Suffix(before, f)[f - 1] == before[|before| - 1];
    BlankTerminator(before[|before| - 1]);
  }

  /** Without line breaks, only an over-long sentence with a blank block yields a blank chunk. */
  lemma BlankWithoutBreaksExactly(value: string, maximum: nat)
    requires '\n' !in value && |value| > maximum
    ensures AnyBlank(Chunks(value, maximum)) <==> exists s :: s in Sentences(value) && FillsBlank(s, maximum)
  {
    var ss := Sentences(value);
    BlankChunkExactly(value, maximum);
    if k: nat :| PushesBlank("", ss, k, maximum) {
      if FlushesBlank("", ss, k, maximum) {
        FlushBehindBreak(value, k, maximum);
        BeforeSentence(value, k);
      }
      assert ss[k] in ss;
    }
    if s :| s in ss && FillsBlank(s, maximum) {
      var k: nat :| k < |ss| && ss[k] == s;
      assert PushesBlank("", ss, k, maximum);
    }
  }

  /** No window of `maximum` characters is blank. */
  ghost predicate NoBlankRun(value: string, maximum: nat) {
    forall i: nat :: !BlankRun(value, i, maximum)
  }

  predicate BlankRun(value: string, i: nat, maximum: nat) {
    i + maximum <= |value| && IsBlank(value[i..i + maximum])
  }

  lemma SentenceInPlace(value: string, k: nat) returns (left: string, right: string)
    requires k < |Sentences(value)|
    ensures value == left + Sentences(value)[k] + right
  {
    var ss := Sentences(value);
    left, right := Flatten(ss[..k]), Flatten(ss[k + 1..]);
    SentencesFlatten(value);
    assert ss == ss[..k] + [ss[k]] + ss[k + 1..];
    FlattenConcat(ss[..k] + [ss[k]], ss[k + 1..]);
    FlattenAppend(ss[..k], ss[k]);
  }

  lemma RunInside(left: string, s: string, right: string, i: nat, maximum: nat)
    requires BlankRun(s, i, maximum)
    ensures BlankRun(left + s + right, |left| + i, maximum)
  {
    assert (left + s + right)[|left| + i..|left| + i + maximum] == s[i..i + maximum];
  }

  /** Text that is not blank, without line breaks and without `maximum` spaces in a row, yields no blank chunk. */
  lemma NoRunNoBlank(value: string, maximum: nat)
    requires '\n' !in value && !IsBlank(value) && NoBlankRun(value, maximum)
    ensures !AnyBlank(Chunks(value, maximum))
  {
    if |value| <= maximum {
      BlankChunkExactly(value, maximum);
    } else {
      BlankWithoutBreaksExactly(value, maximum);
      if s :| s in Sentences(value) && FillsBlank(s, maximum) {
        var k: nat :| k < |Sentences(value)| && Sentences(value)[k] == s;
        var i: nat :| BlankBlock(s, i, maximum);
        var left, right := SentenceInPlace(value, k);
        RunInside(left, s, right, i, maximum);
      }
    }
  }

  /** No space stands before a line break. */
  ghost predicate Tidy(value: string) {
    forall i :: 0 < i < |value| && value[i] == '\n' ==> !IsSpace(value[i - 1])
  }

  /** In tidy text a blank chunk takes a sentence that fills a chunk by itself. */
  lemma ShortSentencesNoBlank(value: string, maximum: nat)
    requires Tidy(value) && !IsBlank(value) && forall s :: s in Sentences(value) ==> |s| < maximum
    ensures !AnyBlank(Chunks(value, maximum))
  {
    var ss := Sentences(value);
    BlankChunkExactly(value, maximum);
    if k: nat :| |value| > maximum && PushesBlank("", ss, k, maximum) {
      assert ss[k] in ss;
      TidyFlush(value, k, maximum);
    }
  }

  lemma TidyFlush(value: string, k: nat, maximum: nat)
    requires Tidy(value) && k < |Sentences(value)| && FlushesBlank("", Sentences(value), k, maximum)
    ensures |Sentences(value)[k]| >= maximum
  {
    var before, f := Flatten(Sentences(value)[..k]), FillBefore(0, Sentences(value), k, maximum);
    assert "" + before == before;
    FlushBehindBreak(value, k, maximum);
    BeforeSentence(value, k);
    if f > 1 {
      TidySuffix(value, before, f);
    }
  }

  lemma TidySuffix(value: string, before: string, f: nat)
    requires Tidy(value) && before <= value && 1 < f <= |before| && before[|before| - 1] == '\n'
    ensures !IsBlank(Suffix(before, f))
  {
    var i := |before| - 1;
    assert value[i] == '\n' && value[i - 1] == before[i - 1];
    assert Suffix(before, f)[f - 2] == before[i - 1];
  }
}
