/** Normalising a message body and leaving out its quoted history. */
module MessageText {
  import opened Text

  // ---- normalize_text ----

  function ReplaceCrLf(s: string): string
    decreases |s|
  {
    if s == "" then ""
    else if |s| >= 2 && s[0] == '\r' && s[1] == '\n' then "\n" + ReplaceCrLf(s[2..])
    else [s[0]] + ReplaceCrLf(s[1..])
  }

  function ReplaceCr(s: string): string {
    seq(|s|, i requires 0 <= i < |s| => if s[i] == '\r' then '\n' else s[i])
  }

  predicate Blank(c: char) { c == ' ' || c == '\t' }

  /** The length of the run of blanks at the head. */
  function Run(s: string): (k: nat)
    ensures k <= |s| && (forall i :: 0 <= i < k ==> Blank(s[i])) && (k < |s| ==> !Blank(s[k]))
    decreases |s|
  {
    if s != "" && Blank(s[0]) then 1 + Run(s[1..]) else 0
  }

  /** `replace_all` of the pattern `\n[ \t]+|[ \t]+\n` by a line break: leftmost match, first alternative first. */
  function Collapse(s: string): string
    decreases |s|
  {
    if s == "" then ""
    else if s[0] == '\n' && Run(s[1..]) > 0 then "\n" + Collapse(s[1 + Run(s[1..])..])
    else if Blank(s[0]) && Run(s) < |s| && s[Run(s)] == '\n' then "\n" + Collapse(s[Run(s) + 1..])
    else [s[0]] + Collapse(s[1..])
  }

  function TrimEnds(lines: seq<string>): seq<string> {
    seq(|lines|, i requires 0 <= i < |lines| => TrimEnd(lines[i]))
  }

  function Normalize(value: string): string {
    Trim(Collapse(JoinLines(TrimEnds(Lines(ReplaceCr(ReplaceCrLf(value)))))))
  }

  // ---- What normal text is, character by character ----

  /** A line break follows another one or a character that is no space. */
  predicate EndOk(a: char, b: char) { b == '\n' ==> a == '\n' || !IsSpace(a) }

  /** No blank follows a line break. */
  predicate StartOk(a: char, b: char) { a == '\n' ==> !Blank(b) }

  ghost predicate CleanEnds(s: string) {
    forall i :: 0 <= i < |s| - 1 ==> EndOk(s[i], s[i + 1])
  }

  ghost predicate CleanStarts(s: string) {
    forall i :: 0 <= i < |s| - 1 ==> StartOk(s[i], s[i + 1])
  }

  lemma SliceClean(s: string, j: nat, k: nat)
    requires j <= k <= |s|
    ensures CleanEnds(s) ==> CleanEnds(s[j..k])
    ensures CleanStarts(s) ==> CleanStarts(s[j..k])
    ensures '\r' !in s ==> '\r' !in s[j..k]
  {
    var t := s[j..k];
    forall i | 0 <= i < |t| - 1
      ensures CleanEnds(s) ==> EndOk(t[i], t[i + 1])
      ensures CleanStarts(s) ==> StartOk(t[i], t[i + 1])
    {
      assert t[i] == s[i + j] && t[i + 1] == s[i + j + 1];
    }
  }

  ghost predicate Normal(s: string) {
    && '\r' !in s && CleanEnds(s) && CleanStarts(s)
    && (s != "" ==> !IsSpace(s[0]) && !IsSpace(s[|s| - 1]))
  }

  // ---- Normal text is a fixed point ----

  lemma {:induction false} ReplaceFixed(s: string)
    requires '\r' !in s
    ensures ReplaceCrLf(s) == s && ReplaceCr(s) == s
    decreases |s|
  {
    if s == "" {
    } else {
      assert s[0] in s;
      ReplaceFixed(s[1..]);
      forall i | 0 <= i < |s|
        ensures s[i] != '\r'
      {
        assert s[i] in s;
      }
    }
  }

  /** The second alternative of the pattern never applies to lines trimmed at the end. */
  lemma NoBlankBeforeBreak(s: string)
    requires s != "" && Blank(s[0]) && CleanEnds(s) && Run(s) < |s|
    ensures s[Run(s)] != '\n'
  {
    var k := Run(s);
    assert EndOk(s[k - 1], s[k]);
  }

  lemma {:induction false} CollapseFixed(s: string)
    requires CleanEnds(s) && CleanStarts(s)
    ensures Collapse(s) == s
    decreases |s|
  {
    if s == "" {
    } else {
      SliceClean(s, 1, |s|);
      assert s[1..|s|] == s[1..];
      CollapseFixed(s[1..]);
      CollapseKeepsHead(s);
      assert [s[0]] + s[1..] == s;
    }
  }

  /** Neither alternative of the pattern applies at the head of text without blanks around line breaks. */
  lemma CollapseKeepsHead(s: string)
    requires s != "" && CleanEnds(s) && CleanStarts(s)
    ensures Collapse(s) == [s[0]] + Collapse(s[1..])
  {
    if |s| > 1 {
      assert StartOk(s[0], s[1]);
    }
    if Blank(s[0]) && Run(s) < |s| {
      NoBlankBeforeBreak(s);
    }
  }

  lemma {:induction false} LinesFixed(s: string)
    requires '\r' !in s && CleanEnds(s) && (s != "" ==> !IsSpace(s[|s| - 1]))
    ensures TrimEnds(Lines(s)) == Lines(s)
    decreases |s|
  {
    if s == "" {
    } else {
      if '\n' in s {
        var line, rest := FirstLine(s);
        SliceClean(s, |line| + 1, |s|);
        assert rest == s[|line| + 1..];
        LinesFixed(rest);
        TrimmedLine(s, line, rest);
        TrimEndsCons(line, Lines(rest));
      } else {
        LinesOfOne(s);
      }
    }
  }

  lemma TrimEndsCons(line: string, lines: seq<string>)
    ensures TrimEnds([line] + lines) == [TrimEnd(line)] + TrimEnds(lines)
  {
  }

  lemma TrimmedLine(s: string, line: string, rest: string)
    requires CleanEnds(s) && s == line + "\n" + rest && '\n' !in line
    ensures TrimEnd(line) == line
  {
    if line != "" {
      var i := |line| - 1;
      assert EndOk(s[i], s[i + 1]);
      assert s[i] == line[i] && line[i] in line;
    }
  }

  lemma NormalIsFixed(s: string)
    requires Normal(s)
    ensures Normalize(s) == s
  {
    ReplaceFixed(s);
    LinesFixed(s);
    JoinOfLines(s);
    CollapseFixed(s);
    TrimFixed(s);
  }

  // ---- Normalising yields normal text ----

  lemma BreakKeepsEnds(head: string, tail: string)
    requires '\n' !in head && (head != "" ==> !IsSpace(head[|head| - 1])) && CleanEnds(tail)
    ensures CleanEnds(head + "\n" + tail)
  {
    var s := head + "\n" + tail;
    forall i | 0 <= i < |s| - 1
      ensures EndOk(s[i], s[i + 1])
    {
      if i + 1 < |head| {
        assert s[i + 1] == head[i + 1] && head[i + 1] in head;
      } else if i > |head| {
        assert s[i] == tail[i - |head| - 1] && s[i + 1] == tail[i - |head|];
      }
    }
  }

  lemma PlainEnds(line: string)
    requires '\n' !in line
    ensures CleanEnds(line)
  {
    forall i | 0 <= i < |line| - 1
      ensures EndOk(line[i], line[i + 1])
    {
      assert line[i + 1] in line;
    }
  }

  lemma TrimEndsPlain(lines: seq<string>)
    requires forall l :: l in lines ==> Plain(l)
    ensures forall l :: l in TrimEnds(lines) ==> Plain(l)
  {
    forall l | l in TrimEnds(lines)
      ensures Plain(l)
    {
      var i :| 0 <= i < |lines| && TrimEnds(lines)[i] == l;
      TrimEndShape(lines[i]);
      assert lines[i] in lines && l == lines[i][..|l|];
    }
  }

  lemma {:induction false} JoinIsClean(lines: seq<string>)
    requires forall l :: l in lines ==> Plain(l)
    ensures CleanEnds(JoinLines(TrimEnds(lines)))
    decreases |lines|
  {
    if lines == [] {
    } else {
      var trimmed := TrimEnds(lines);
      TrimEndsPlain(lines);
      assert trimmed[0] in trimmed;
      if |lines| == 1 {
        PlainEnds(trimmed[0]);
      } else {
        JoinIsClean(lines[1..]);
        assert TrimEnds(lines[1..]) == trimmed[1..];
        TrimEndShape(lines[0]);
        BreakKeepsEnds(trimmed[0], JoinLines(trimmed[1..]));
      }
    }
  }

  lemma CollapseHead(s: string)
    requires s != "" && CleanEnds(s)
    ensures Collapse(s) != "" && Collapse(s)[0] == s[0]
  {
    if Blank(s[0]) && Run(s) < |s| {
      NoBlankBeforeBreak(s);
    }
  }

  /** One step of the replacement on lines trimmed at the end: drop the blanks after a leading line break. */
  lemma CollapseStep(s: string) returns (k: nat)
    requires s != "" && CleanEnds(s)
    ensures 1 <= k <= |s| && Collapse(s) == [s[0]] + Collapse(s[k..])
    ensures CleanEnds(s[k..]) && (k < |s| ==> EndOk(s[0], s[k]) && StartOk(s[0], s[k]))
    ensures s[0] != '\n' ==> k == 1
    ensures forall i :: 1 <= i < k ==> Blank(s[i])
  {
    k := if s[0] == '\n' then 1 + Run(s[1..]) else 1;
    SliceClean(s, k, |s|);
    if Blank(s[0]) && Run(s) < |s| {
      NoBlankBeforeBreak(s);
    }
    if 1 < |s| {
      assert EndOk(s[0], s[1]);
    }
    if s[0] == '\n' && k < |s| {
      assert s[k] == s[1..][k - 1];
    }
  }

  lemma {:induction false} CollapseIsClean(s: string)
    requires CleanEnds(s) && '\r' !in s
    ensures CleanEnds(Collapse(s)) && CleanStarts(Collapse(s)) && '\r' !in Collapse(s)
    decreases |s|
  {
    if s == "" {
    } else {
      var k := CollapseStep(s);
      var rest := s[k..];
      CollapseIsClean(rest);
      assert s[0] in s;
      if rest == "" {
      } else {
        CollapseHead(rest);
      }
      ConsClean(s[0], Collapse(rest));
    }
  }

  lemma ConsClean(c: char, t: string)
    requires CleanEnds(t) && CleanStarts(t) && (t != "" ==> EndOk(c, t[0]) && StartOk(c, t[0]))
    ensures CleanEnds([c] + t) && CleanStarts([c] + t)
  {
    var r := [c] + t;
    forall i | 0 <= i < |r| - 1
      ensures EndOk(r[i], r[i + 1]) && StartOk(r[i], r[i + 1])
    {
      if i > 0 {
        assert r[i] == t[i - 1] && r[i + 1] == t[i];
      }
    }
  }

  lemma TrimIsClean(s: string)
    requires CleanEnds(s) && CleanStarts(s) && '\r' !in s
    ensures Normal(Trim(s))
  {
    TrimShape(s);
    TrimStartShape(s);
    var t := TrimStart(s);
    TrimEndShape(t);
    SliceClean(s, |s| - |t|, |s|);
    SliceClean(t, 0, |TrimEnd(t)|);
  }

  lemma NormalizeIsNormal(value: string)
    ensures Normal(Normalize(value))
  {
    var s := ReplaceCr(ReplaceCrLf(value));
    assert '\r' !in s;
    LinesArePlain(s);
    TrimEndsPlain(Lines(s));
    LinesOfJoin(TrimEnds(Lines(s)));
    JoinIsClean(Lines(s));
    CollapseIsClean(JoinLines(TrimEnds(Lines(s))));
    TrimIsClean(Collapse(JoinLines(TrimEnds(Lines(s)))));
  }

  /** Normalising twice is normalising once, for every text. */
  lemma NormalizeIdempotent(value: string)
    ensures Normalize(Normalize(value)) == Normalize(value)
  {
    NormalizeIsNormal(value);
    NormalIsFixed(Normalize(value));
  }
}
