/** Leaving the quoted history out of a normalised body. */
module QuotedHistory {
  import opened Text
  import opened MessageText

  predicate Quoted(trimmed: string) {
    trimmed != "" && trimmed[0] == '>'
  }

  /** The lines kept: up to the first marker, without those that start with `>`. */
  function Visible(lines: seq<string>, marker: string -> bool): seq<string>
    decreases |lines|
  {
    if lines == [] || marker(Trim(lines[0])) then []
    else if Quoted(Trim(lines[0])) then Visible(lines[1..], marker)
    else [lines[0]] + Visible(lines[1..], marker)
  }

  /** A line that belongs to the visible text. */
  ghost predicate Shown(line: string, marker: string -> bool) {
    !marker(Trim(line)) && !Quoted(Trim(line))
  }

  ghost predicate AllShown(lines: seq<string>, marker: string -> bool)
    decreases |lines|
  {
    lines == [] || (Shown(lines[0], marker) && AllShown(lines[1..], marker))
  }

  /** `omit_quoted_history`; `marker` is the quotation-marker expression. */
  method OmitQuotedHistory(source: string, marker: string -> bool) returns (text: string, omitted: bool)
    ensures text == Normalize(JoinLines(Visible(Lines(source), marker)))
    ensures omitted <==> !AllShown(Lines(source), marker)
  {
    var lines := Lines(source);
    var visible: seq<string> := [];
    omitted := false;
    var i := 0;
    while i < |lines|
      invariant 0 <= i <= |lines|
      invariant visible + Visible(lines[i..], marker) == Visible(lines, marker)
      invariant AllShown(lines, marker) <==> !omitted && AllShown(lines[i..], marker)
    {
      var line := lines[i];
      var rest := lines[i..];
      assert rest[0] == line && rest[1..] == lines[i + 1..];
      var trimmed := Trim(line);
      if marker(trimmed) {
        omitted := true;
        break;
      }
      if Quoted(trimmed) {
        omitted := true;
      } else {
        visible := visible + [line];
      }
      i := i + 1;
    }
    assert visible == Visible(lines, marker);
    text := Normalize(JoinLines(visible));
  }

  // ---- Normalising keeps the lines ----

  /** A line without the space around it; nothing for a blank line. */
  function Gist(line: string): seq<string> {
    if Trim(line) == "" then [] else [Trim(line)]
  }

  /** What the lines say: those that are not blank, trimmed, in order. */
  function Gists(lines: seq<string>): seq<string>
    decreases |lines|
  {
    if lines == [] then [] else Gist(lines[0]) + Gists(lines[1..])
  }

  function GistsOf(s: string): seq<string> {
    Gists(Lines(s))
  }

  lemma GistsCons(line: string, lines: seq<string>)
    ensures Gists([line] + lines) == Gist(line) + Gists(lines)
  {
    assert ([line] + lines)[1..] == lines;
  }

  lemma GistsOfCons(line: string, rest: string)
    requires Plain(line)
    ensures GistsOf(line + "\n" + rest) == Gist(line) + GistsOf(rest)
  {
    LinesOfCons(line, rest);
    GistsCons(line, Lines(rest));
  }

  lemma GistsOfOne(line: string)
    requires '\n' !in line
    ensures GistsOf(line) == Gist(line)
  {
    if line == "" {
      TrimFixed(line);
    } else {
      LinesOfOne(line);
      assert [line] + [] == [line];
      GistsCons(line, []);
    }
  }

  lemma {:induction false} TrimEndsGists(lines: seq<string>)
    ensures Gists(TrimEnds(lines)) == Gists(lines)
    decreases |lines|
  {
    if lines == [] {
    } else {
      TrimEndsGists(lines[1..]);
      TrimOfTrimEnd(lines[0]);
      assert lines == [lines[0]] + lines[1..];
      TrimEndsCons(lines[0], lines[1..]);
      GistsCons(TrimEnd(lines[0]), TrimEnds(lines[1..]));
    }
  }

  lemma {:induction false} JoinGists(lines: seq<string>)
    requires forall l :: l in lines ==> Plain(l)
    ensures GistsOf(JoinLines(lines)) == Gists(lines)
    decreases |lines|
  {
    if lines == [] {
    } else {
      assert lines[0] in lines;
      assert lines == [lines[0]] + lines[1..];
      GistsCons(lines[0], lines[1..]);
      if |lines| == 1 {
        GistsOfOne(lines[0]);
      } else {
        JoinGists(lines[1..]);
        GistsOfCons(lines[0], JoinLines(lines[1..]));
      }
    }
  }

  /** Dropping a leading space shortens the first line by a leading space, or drops an empty line. */
  lemma DropFirstGists(s: string)
    requires '\r' !in s && s != "" && IsSpace(s[0])
    ensures GistsOf(s[1..]) == GistsOf(s)
  {
    if '\n' in s {
      var line, rest := FirstLine(s);
      GistsOfCons(line, rest);
      DropFirstOfLine(s, line, rest);
    } else {
      DropFirstOfOne(s);
    }
  }

  lemma DropFirstOfOne(line: string)
    requires '\n' !in line && line != "" && IsSpace(line[0])
    ensures GistsOf(line[1..]) == GistsOf(line)
  {
    TrimDropFirst(line);
    GistsOfOne(line);
    GistsOfOne(line[1..]);
  }

  lemma DropFirstOfLine(s: string, line: string, rest: string)
    requires s == line + "\n" + rest && IsSpace(s[0]) && Plain(line)
    ensures GistsOf(s[1..]) == Gist(line) + GistsOf(rest)
  {
    if line == "" {
      assert s[1..] == rest;
      TrimFixed(line);
    } else {
      assert s[0] == line[0] && s[1..] == line[1..] + "\n" + rest;
      TrimDropFirst(line);
      GistsOfCons(line[1..], rest);
    }
  }

  /** A space more at the end lengthens the last line by a space, or ends it. */
  lemma {:induction false} SpaceAtEnd(s: string, c: char)
    requires '\r' !in s && IsSpace(c) && c != '\r'
    ensures GistsOf(s + [c]) == GistsOf(s)
    decreases |s|
  {
    if '\n' in s {
      var line, rest := FirstLine(s);
      SpaceAtEnd(rest, c);
      GistsOfCons(line, rest);
      GistsOfCons(line, rest + [c]);
      Associative(line + "\n", rest, [c]);
    } else if c == '\n' {
      BreakAtEnd(s);
    } else {
      SpaceAtEndOfOne(s, c);
    }
  }

  lemma SpaceAtEndOfOne(line: string, c: char)
    requires '\n' !in line && IsSpace(c) && c != '\n'
    ensures GistsOf(line + [c]) == GistsOf(line)
  {
    assert (line + [c])[..|line|] == line;
    TrimDropLast(line + [c]);
    GistsOfOne(line);
    GistsOfOne(line + [c]);
  }

  lemma BreakAtEnd(line: string)
    requires Plain(line)
    ensures GistsOf(line + "\n") == GistsOf(line)
  {
    GistsOfOne(line);
    GistsOfCons(line, "");
    assert line + "\n" + "" == line + "\n";
  }

  lemma {:induction false} TrimStartGists(s: string)
    requires '\r' !in s
    ensures GistsOf(TrimStart(s)) == GistsOf(s) && '\r' !in TrimStart(s)
    decreases |s|
  {
    if s != "" && IsSpace(s[0]) {
      DropFirstGists(s);
      TrimStartGists(s[1..]);
    }
  }

  lemma {:induction false} TrimEndGists(s: string)
    requires '\r' !in s
    ensures GistsOf(TrimEnd(s)) == GistsOf(s)
    decreases |s|
  {
    if s != "" && IsSpace(s[|s| - 1]) {
      var front, last := s[..|s| - 1], s[|s| - 1];
      assert s == front + [last] && last in s;
      SpaceAtEnd(front, last);
      TrimEndGists(front);
    }
  }

  lemma {:induction false} BlanksGists(s: string, k: nat)
    requires '\r' !in s && k <= |s| && forall i :: 0 <= i < k ==> Blank(s[i])
    ensures GistsOf(s[k..]) == GistsOf(s)
    decreases k
  {
    if k > 0 {
      DropFirstGists(s);
      BlanksGists(s[1..], k - 1);
      assert s[1..][k - 1..] == s[k..];
    } else {
      assert s[0..] == s;
    }
  }

  /** A whole line passes the replacement unchanged; only blanks after its break are dropped. */
  lemma {:induction false} CollapseLine(line: string, rest: string) returns (k: nat)
    requires '\n' !in line && CleanEnds(line + "\n" + rest)
    ensures k <= |rest| && (forall i :: 0 <= i < k ==> Blank(rest[i])) && CleanEnds(rest[k..])
    ensures Collapse(line + "\n" + rest) == line + "\n" + Collapse(rest[k..])
    decreases |line|
  {
    var s := line + "\n" + rest;
    if line == "" {
      k := CollapseBreak(s, rest);
      assert "" + "\n" + Collapse(rest[k..]) == "\n" + Collapse(rest[k..]);
    } else {
      ConsLine(line, rest);
      CollapseChar(line[0], line[1..] + "\n" + rest);
      k := CollapseLine(line[1..], rest);
      ConsLine(line, Collapse(rest[k..]));
    }
  }

  lemma ConsLine(line: string, rest: string)
    requires line != ""
    ensures line + "\n" + rest == [line[0]] + (line[1..] + "\n" + rest) && line[0] in line
  {
  }

  lemma CollapseChar(c: char, tail: string)
    requires c != '\n' && CleanEnds([c] + tail)
    ensures Collapse([c] + tail) == [c] + Collapse(tail) && CleanEnds(tail)
  {
    var s := [c] + tail;
    var k := CollapseStep(s);
    assert s[1..] == tail;
  }

  lemma CollapseBreak(s: string, rest: string) returns (k: nat)
    requires s == "\n" + rest && CleanEnds(s)
    ensures k <= |rest| && (forall i :: 0 <= i < k ==> Blank(rest[i])) && CleanEnds(rest[k..])
    ensures Collapse(s) == "\n" + Collapse(rest[k..])
  {
    var j := CollapseStep(s);
    k := j - 1;
    assert s[j..] == rest[k..];
    forall i | 0 <= i < k
      ensures Blank(rest[i])
    {
      assert rest[i] == s[i + 1];
    }
  }

  lemma {:induction false} CollapsePlain(line: string)
    requires '\n' !in line
    ensures Collapse(line) == line
    decreases |line|
  {
    if line == "" {
    } else {
      CollapsePlain(line[1..]);
      assert line[0] in line;
      if Run(line) < |line| {
        assert line[Run(line)] in line;
      }
    }
  }

  lemma {:induction false} CollapseGists(s: string)
    requires '\r' !in s && CleanEnds(s)
    ensures GistsOf(Collapse(s)) == GistsOf(s)
    decreases |s|
  {
    if '\n' in s {
      var line, rest := FirstLine(s);
      var k := CollapseLine(line, rest);
      BlanksGists(rest, k);
      CollapseGists(rest[k..]);
      GistsOfCons(line, rest);
      GistsOfCons(line, Collapse(rest[k..]));
    } else {
      CollapsePlain(s);
    }
  }

  lemma RejoinGists(s: string)
    requires '\r' !in s
    ensures var joined := JoinLines(TrimEnds(Lines(s)));
      '\r' !in joined && CleanEnds(joined) && GistsOf(joined) == GistsOf(s)
  {
    var lines := TrimEnds(Lines(s));
    LinesArePlain(s);
    TrimEndsPlain(Lines(s));
    LinesOfJoin(lines);
    JoinIsClean(Lines(s));
    JoinGists(lines);
    TrimEndsGists(Lines(s));
  }

  /** Every carriage return, alone or before a line feed, as a line break. */
  function Breaks(value: string): string {
    ReplaceCr(ReplaceCrLf(value))
  }

  /** Normalising loses blank lines and the space around lines, and nothing else. */
  lemma NormalizeKeepsLines(value: string)
    ensures GistsOf(Normalize(value)) == GistsOf(Breaks(value))
  {
    var s := Breaks(value);
    assert '\r' !in s;
    RejoinGists(s);
    var joined := JoinLines(TrimEnds(Lines(s)));
    CollapseIsClean(joined);
    CollapseGists(joined);
    TrimStartGists(Collapse(joined));
    TrimEndGists(TrimStart(Collapse(joined)));
  }

  // ---- Omitting again ----

  lemma ConsShown(line: string, rest: seq<string>, marker: string -> bool)
    ensures AllShown([line] + rest, marker) <==> Shown(line, marker) && AllShown(rest, marker)
  {
    assert ([line] + rest)[1..] == rest;
  }

  lemma {:induction false} VisibleShown(lines: seq<string>, marker: string -> bool)
    ensures AllShown(Visible(lines, marker), marker)
    ensures AllShown(lines, marker) ==> Visible(lines, marker) == lines
    decreases |lines|
  {
    if lines == [] {
    } else {
      VisibleShown(lines[1..], marker);
      ConsShown(lines[0], Visible(lines[1..], marker), marker);
    }
  }

  lemma {:induction false} VisibleSubset(lines: seq<string>, marker: string -> bool)
    ensures forall l :: l in Visible(lines, marker) ==> l in lines
    decreases |lines|
  {
    if lines == [] {
    } else {
      VisibleSubset(lines[1..], marker);
    }
  }

  ghost predicate GistsShown(gists: seq<string>, marker: string -> bool) {
    forall i :: 0 <= i < |gists| ==> !marker(gists[i]) && !Quoted(gists[i])
  }

  /** With a marker that no blank line matches, what is shown depends on the lines that are not blank. */
  lemma {:induction false} ShownByGists(lines: seq<string>, marker: string -> bool)
    requires !marker("")
    ensures AllShown(lines, marker) <==> GistsShown(Gists(lines), marker)
    decreases |lines|
  {
    if lines == [] {
    } else {
      ShownByGists(lines[1..], marker);
      ShownByGist(lines[0], marker);
      GistsShownAppend(Gist(lines[0]), Gists(lines[1..]), marker);
    }
  }

  lemma ShownByGist(line: string, marker: string -> bool)
    requires !marker("")
    ensures Shown(line, marker) <==> GistsShown(Gist(line), marker)
  {
    var trimmed := Trim(line);
    assert trimmed != "" ==> Gist(line)[0] == trimmed;
  }

  lemma GistsShownAppend(a: seq<string>, b: seq<string>, marker: string -> bool)
    ensures GistsShown(a + b, marker) <==> GistsShown(a, marker) && GistsShown(b, marker)
  {
    if GistsShown(a + b, marker) {
      assert forall i :: 0 <= i < |a| ==> a[i] == (a + b)[i];
      assert forall i :: 0 <= i < |b| ==> b[i] == (a + b)[|a| + i];
    }
  }

  lemma {:induction false} VisibleFewer(lines: seq<string>, marker: string -> bool)
    requires !marker("")
    ensures |Gists(Visible(lines, marker))| <= |Gists(lines)|
    ensures !AllShown(lines, marker) ==> |Gists(Visible(lines, marker))| < |Gists(lines)|
    decreases |lines|
  {
    if lines == [] {
    } else {
      VisibleFewer(lines[1..], marker);
      GistsCons(lines[0], Visible(lines[1..], marker));
    }
  }

  /** The first result of `omit_quoted_history`. */
  function Omitted(source: string, marker: string -> bool): string {
    Normalize(JoinLines(Visible(Lines(source), marker)))
  }

  /** Nothing quoted or marked stands behind a carriage return inside a line that is kept. */
  ghost predicate NothingHidden(source: string, marker: string -> bool) {
    AllShown(Lines(Breaks(JoinLines(Visible(Lines(source), marker)))), marker)
  }

  /**
  Nothing quoted survives, and omitting again returns the same text, exactly when no carriage return
  hides a quotation.
  */
  lemma OmitIdempotentExactly(source: string, marker: string -> bool)
    requires !marker("")
    ensures AllShown(Lines(Omitted(source, marker)), marker) <==> NothingHidden(source, marker)
    ensures Omitted(Omitted(source, marker), marker) == Omitted(source, marker) <==> NothingHidden(source, marker)
  {
    var joined := JoinLines(Visible(Lines(source), marker));
    var text := Omitted(source, marker);
    NormalizeKeepsLines(joined);
    ShownByGists(Lines(text), marker);
    ShownByGists(Lines(Breaks(joined)), marker);
    NormalizeIsNormal(joined);
    OmitNormal(text, marker);
  }

  lemma OmitNormal(text: string, marker: string -> bool)
    requires Normal(text) && !marker("")
    ensures Omitted(text, marker) == text <==> AllShown(Lines(text), marker)
  {
    var visible := Visible(Lines(text), marker);
    if AllShown(Lines(text), marker) {
      VisibleShown(Lines(text), marker);
      JoinOfLines(text);
      NormalIsFixed(text);
    } else {
      VisibleFewer(Lines(text), marker);
      LinesArePlain(text);
      VisibleSubset(Lines(text), marker);
      LinesOfJoin(visible);
      JoinGists(visible);
      ReplaceFixed(JoinLines(visible));
      NormalizeKeepsLines(JoinLines(visible));
    }
  }

  /** Text without carriage returns hides nothing: on it, and so on normalised text, omitting is idempotent. */
  lemma OmitIdempotent(source: string, marker: string -> bool)
    requires '\r' !in source && !marker("")
    ensures AllShown(Lines(Omitted(source, marker)), marker)
    ensures Omitted(Omitted(source, marker), marker) == Omitted(source, marker)
  {
    var visible := Visible(Lines(source), marker);
    LinesArePlain(source);
    VisibleSubset(Lines(source), marker);
    LinesOfJoin(visible);
    ReplaceFixed(JoinLines(visible));
    VisibleShown(Lines(source), marker);
    JoinGists(visible);
    ShownByGists(visible, marker);
    ShownByGists(Lines(JoinLines(visible)), marker);
    OmitIdempotentExactly(source, marker);
  }

  /** A lone carriage return that hides a quoted line until it is normalised. */
  lemma CarriageReturnHidesQuote(marker: string -> bool)
    requires forall s :: !marker(s)
    ensures Omitted("a\r>b", marker) == "a\n>b" && !NothingHidden("a\r>b", marker)
  {
    HiddenQuoteKept(marker);
    HiddenQuoteNormalized();
    QuoteNotShown(marker);
    OmitIdempotentExactly("a\r>b", marker);
  }

  lemma HiddenQuoteKept(marker: string -> bool)
    requires forall s :: !marker(s)
    ensures JoinLines(Visible(Lines("a\r>b"), marker)) == "a\r>b"
  {
    var source := "a\r>b";
    LinesOfOne(source);
    TrimFixed(source);
    assert [source][1..] == [];
  }

  lemma QuoteNotShown(marker: string -> bool)
    ensures !AllShown(Lines("a\n>b"), marker)
  {
    LinesOfCons("a", ">b");
    assert "a" + "\n" + ">b" == "a\n>b";
    LinesOfOne(">b");
    TrimFixed(">b");
    ConsShown("a", [">b"], marker);
  }

  lemma HiddenQuoteNormalized()
    ensures Normalize("a\r>b") == "a\n>b"
  {
    assert ReplaceCrLf(">b") == ">b" by {
      assert ">b"[1..] == "b" && "b"[1..] == "";
    }
    assert "a\r>b"[1..] == "\r>b" && "\r>b"[1..] == ">b";
    assert ReplaceCrLf("a\r>b") == "a\r>b";
    assert ReplaceCr("a\r>b") == "a\n>b";
    var s := "a\n>b";
    assert Normal(s);
    LinesFixed(s);
    JoinOfLines(s);
    CollapseFixed(s);
    TrimFixed(s);
  }
}
