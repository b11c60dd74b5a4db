/** The string operations of the standard library that the text-handling modules rest on. */
module Text {

  lemma Associative<T>(a: seq<T>, b: seq<T>, c: seq<T>)
    ensures (a + b) + c == a + (b + c)
  {
  }

  /** `char::is_whitespace`: the Unicode White_Space property. */
  predicate IsSpace(c: char) {
    || ('\t' <= c <= '\r') || c == ' ' || c == '\U{85}' || c == '\U{A0}' || c == '\U{1680}'
    || ('\U{2000}' <= c <= '\U{200A}') || c == '\U{2028}' || c == '\U{2029}' || c == '\U{202F}'
    || c == '\U{205F}' || c == '\U{3000}'
  }

  function TrimStart(s: string): string
    decreases |s|
  {
    if s != "" && IsSpace(s[0]) then TrimStart(s[1..]) else s
  }

  function TrimEnd(s: string): string
    decreases |s|
  {
    if s != "" && IsSpace(s[|s| - 1]) then TrimEnd(s[..|s| - 1]) else s
  }

  function Trim(s: string): string {
    TrimEnd(TrimStart(s))
  }

  lemma {:induction false} TrimStartShape(s: string)
    ensures TrimStart(s) != "" ==> !IsSpace(TrimStart(s)[0])
    ensures |TrimStart(s)| <= |s| && TrimStart(s) == s[|s| - |TrimStart(s)|..]
    decreases |s|
  {
    if s != "" && IsSpace(s[0]) {
      TrimStartShape(s[1..]);
    }
  }

  lemma {:induction false} TrimEndShape(s: string)
    ensures TrimEnd(s) != "" ==> !IsSpace(TrimEnd(s)[|TrimEnd(s)| - 1])
    ensures |TrimEnd(s)| <= |s| && TrimEnd(s) == s[..|TrimEnd(s)|]
    decreases |s|
  {
    if s != "" && IsSpace(s[|s| - 1]) {
      TrimEndShape(s[..|s| - 1]);
    }
  }

  lemma TrimFixed(s: string)
    requires s == "" || (!IsSpace(s[0]) && !IsSpace(s[|s| - 1]))
    ensures Trim(s) == s
  {
  }

  /** What remains is trimmed at both ends. */
  lemma TrimShape(s: string)
    ensures Trim(s) == "" || (!IsSpace(Trim(s)[0]) && !IsSpace(Trim(s)[|Trim(s)| - 1]))
  {
    TrimStartShape(s);
    TrimEndShape(TrimStart(s));
    var t := TrimStart(s);
    if Trim(s) != "" {
      assert Trim(s)[0] == t[0];
    }
  }

  lemma TrimIdempotent(s: string)
    ensures Trim(Trim(s)) == Trim(s)
  {
    TrimShape(s);
    TrimFixed(Trim(s));
  }

  lemma {:induction false} TrimStartOfTrimEnd(s: string)
    ensures TrimStart(TrimEnd(s)) == TrimEnd(TrimStart(s))
    decreases |s|
  {
    if s != "" && IsSpace(s[|s| - 1]) {
      var front := s[..|s| - 1];
      TrimStartOfTrimEnd(front);
      TrimStartDropLast(s);
    } else {
      TrimStartShape(s);
      TrimFixedEnd(TrimStart(s));
    }
  }

  lemma {:induction false} TrimStartDropLast(s: string)
    requires s != "" && IsSpace(s[|s| - 1])
    ensures TrimEnd(TrimStart(s)) == TrimEnd(TrimStart(s[..|s| - 1]))
    decreases |s|
  {
    if |s| > 1 && IsSpace(s[0]) {
      TrimStartDropLast(s[1..]);
      assert s[1..][..|s| - 2] == s[..|s| - 1][1..];
    } else if |s| > 1 {
      assert TrimStart(s) == s;
    }
  }

  lemma TrimDropFirst(s: string)
    requires s != "" && IsSpace(s[0])
    ensures Trim(s[1..]) == Trim(s)
  {
  }

  lemma TrimDropLast(s: string)
    requires s != "" && IsSpace(s[|s| - 1])
    ensures Trim(s[..|s| - 1]) == Trim(s)
  {
    TrimStartDropLast(s);
  }

  lemma TrimOfTrimEnd(s: string)
    ensures Trim(TrimEnd(s)) == Trim(s)
  {
    TrimStartOfTrimEnd(s);
    TrimEndShape(TrimStart(s));
    TrimFixedEnd(TrimEnd(TrimStart(s)));
  }

  lemma TrimFixedEnd(s: string)
    requires s == "" || !IsSpace(s[|s| - 1])
    ensures TrimEnd(s) == s
  {
  }

  predicate AsciiAlnum(c: char) {
    '0' <= c <= '9' || 'a' <= c <= 'z' || 'A' <= c <= 'Z'
  }

  /** `str::len`: the length in UTF-8. */
  function Utf8Len(s: string): nat
    decreases |s|
  {
    if s == "" then 0
    else (if s[0] < '\U{80}' then 1 else if s[0] < '\U{800}' then 2 else if s[0] < '\U{10000}' then 3 else 4)
         + Utf8Len(s[1..])
  }

  // ---- Lines ----

  /** The index of the first `c`, or the length. */
  function Find(s: string, c: char): (i: nat)
    ensures i <= |s| && c !in s[..i] && (i < |s| ==> s[i] == c)
    decreases |s|
  {
    if s == "" || s[0] == c then 0 else
      var i := 1 + Find(s[1..], c);
      assert s[..i] == [s[0]] + s[1..][..i - 1];
      i
  }

  lemma FindUnique(s: string, c: char, i: nat)
    requires i <= |s| && c !in s[..i] && (i < |s| ==> s[i] == c)
    ensures Find(s, c) == i
  {
  }

  function StripCr(line: string): string {
    if line != "" && line[|line| - 1] == '\r' then line[..|line| - 1] else line
  }

  /** `str::lines`. */
  function Lines(s: string): seq<string>
    decreases |s|
  {
    if s == "" then []
    else
      var i := Find(s, '\n');
      if i == |s| then [s] else [StripCr(s[..i])] + Lines(s[i + 1..])
  }

  /** `lines.join("\n")`. */
  function JoinLines(lines: seq<string>): string
    decreases |lines|
  {
    if lines == [] then "" else if |lines| == 1 then lines[0] else lines[0] + "\n" + JoinLines(lines[1..])
  }

  lemma LinesOfCons(line: string, rest: string)
    requires '\n' !in line && '\r' !in line
    ensures Lines(line + "\n" + rest) == [line] + Lines(rest)
  {
    var s := line + "\n" + rest;
    assert s[..|line|] == line && s[|line|] == '\n' && s[|line| + 1..] == rest;
    FindUnique(s, '\n', |line|);
    assert line != "" ==> line[|line| - 1] in line;
  }

  lemma LinesOfOne(line: string)
    requires line != "" && '\n' !in line
    ensures Lines(line) == [line]
  {
    assert line[..|line|] == line;
    FindUnique(line, '\n', |line|);
  }

  /** Every text is a line without line break, or one followed by a break and more text. */
  lemma FirstLine(s: string) returns (line: string, rest: string)
    requires '\r' !in s && '\n' in s
    ensures s == line + "\n" + rest && '\n' !in line && '\r' !in line && '\r' !in rest
    ensures Lines(s) == [line] + Lines(rest)
  {
    var i := Find(s, '\n');
    assert i < |s| by {
      assert s[..|s|] == s;
    }
    line, rest := s[..i], s[i + 1..];
    assert s == line + "\n" + rest;
    LinesOfCons(line, rest);
  }

  ghost predicate Plain(line: string) {
    '\n' !in line && '\r' !in line
  }

  lemma {:induction false} LinesArePlain(s: string)
    requires '\r' !in s
    ensures forall l :: l in Lines(s) ==> Plain(l)
    decreases |s|
  {
    if s == "" {
    } else {
      if '\n' in s {
        var line, rest := FirstLine(s);
        LinesArePlain(rest);
      } else {
        LinesOfOne(s);
      }
    }
  }

  /** Joining and splitting again adds no line. */
  lemma {:induction false} LinesOfJoin(lines: seq<string>)
    requires forall l :: l in lines ==> Plain(l)
    ensures forall l :: l in Lines(JoinLines(lines)) ==> l in lines
    ensures '\r' !in JoinLines(lines)
    decreases |lines|
  {
    if lines == [] {
    } else {
      assert lines[0] in lines;
    }
    if |lines| == 1 {
      if lines[0] != "" {
        LinesOfOne(lines[0]);
      }
    } else if |lines| > 1 {
      LinesOfJoin(lines[1..]);
      LinesOfCons(lines[0], JoinLines(lines[1..]));
    }
  }

  /** Splitting and joining again restores every text that does not end in a line break. */
  lemma {:induction false} JoinOfLines(s: string)
    requires '\r' !in s && (s == "" || s[|s| - 1] != '\n')
    ensures JoinLines(Lines(s)) == s
    decreases |s|
  {
    if s == "" {
    } else {
      if '\n' in s {
        var line, rest := FirstLine(s);
        assert rest != "" && rest[|rest| - 1] == s[|s| - 1];
        JoinOfLines(rest);
        LinesNonEmpty(rest);
        assert Lines(s)[1..] == Lines(rest);
      } else {
        LinesOfOne(s);
      }
    }
  }

  lemma LinesNonEmpty(s: string)
    requires s != ""
    ensures Lines(s) != []
  {
  }

  // ---- Splitting ----

  /** `split`. */
  function SplitBy(s: string, c: char): seq<string>
    decreases |s|
  {
    var i := Find(s, c);
    if i == |s| then [s] else [s[..i]] + SplitBy(s[i + 1..], c)
  }

  lemma SplitOne(s: string, c: char)
    requires c !in s
    ensures SplitBy(s, c) == [s]
  {
    assert s[..|s|] == s;
    FindUnique(s, c, |s|);
  }

  lemma SplitCons(head: string, c: char, rest: string)
    requires c !in head
    ensures SplitBy(head + [c] + rest, c) == [head] + SplitBy(rest, c)
  {
    var s := head + [c] + rest;
    assert s[..|head|] == head && s[|head| + 1..] == rest;
    FindUnique(s, c, |head|);
  }

  function JoinBy(fields: seq<string>, c: char): string
    decreases |fields|
  {
    if fields == [] then "" else if |fields| == 1 then fields[0] else fields[0] + [c] + JoinBy(fields[1..], c)
  }

  lemma JoinByCons(head: string, rest: seq<string>, c: char)
    requires rest != []
    ensures JoinBy([head] + rest, c) == head + [c] + JoinBy(rest, c)
  {
    assert ([head] + rest)[1..] == rest;
  }

  ghost predicate Unsplit(fields: seq<string>, c: char) {
    forall i :: 0 <= i < |fields| ==> c !in fields[i]
  }

  lemma {:induction false} SplitOfJoin(fields: seq<string>, c: char)
    requires fields != [] && Unsplit(fields, c)
    ensures SplitBy(JoinBy(fields, c), c) == fields
    decreases |fields|
  {
    if |fields| == 1 {
      SplitOne(fields[0], c);
    } else {
      var head, rest := fields[0], fields[1..];
      SplitOfJoin(rest, c);
      SplitCons(head, c, JoinBy(rest, c));
      assert fields == [head] + rest;
    }
  }
}
