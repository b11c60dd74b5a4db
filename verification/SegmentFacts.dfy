/** What the pieces of segmentation mean: the chosen body, the kept lines, the blocks and the kinds. */
module SegmentFacts {
  import opened Options
  import opened Text
  import opened MessageText
  import opened QuotedHistory
  import opened LongSegments
  import opened Segmentation
  import R = TextRows

  // ---- The kept lines ----

  ghost predicate Increasing(at: seq<nat>) {
    forall i, j :: 0 <= i < j < |at| ==> at[i] < at[j]
  }

  /** Line `i` stands before every marker and is not quoted itself. */
  ghost predicate Stays(lines: seq<string>, marker: string -> bool, i: nat) {
    i < |lines| && !Quoted(Trim(lines[i])) && forall j :: 0 <= j <= i ==> !marker(Trim(lines[j]))
  }

  ghost predicate Picks(lines: seq<string>, at: seq<nat>, kept: seq<string>) {
    |at| == |kept| && forall k :: 0 <= k < |at| ==> at[k] < |lines| && kept[k] == lines[at[k]]
  }

  function Shifted(at: seq<nat>): seq<nat> {
    seq(|at|, k requires 0 <= k < |at| => at[k] + 1)
  }

  lemma StaysTail(lines: seq<string>, marker: string -> bool, i: nat)
    requires lines != [] && !marker(Trim(lines[0]))
    ensures Stays(lines, marker, i + 1) <==> Stays(lines[1..], marker, i)
  {
    var rest := lines[1..];
    if Stays(lines, marker, i + 1) {
      forall j | 0 <= j <= i
        ensures !marker(Trim(rest[j]))
      {
        assert rest[j] == lines[j + 1];
      }
    }
    if Stays(rest, marker, i) {
      forall j | 0 <= j <= i + 1
        ensures !marker(Trim(lines[j]))
      {
        assert j > 0 ==> lines[j] == rest[j - 1];
      }
    }
  }

  lemma ShiftedIn(at: seq<nat>, i: nat)
    ensures i + 1 in Shifted(at) <==> i in at
    ensures 0 !in Shifted(at)
  {
    if i in at {
      var k :| 0 <= k < |at| && at[k] == i;
      assert Shifted(at)[k] == i + 1;
    }
  }

  ghost predicate StaysAt(lines: seq<string>, marker: string -> bool, at: seq<nat>) {
    forall i: nat :: i in at <==> Stays(lines, marker, i)
  }

  lemma StaysMore(lines: seq<string>, marker: string -> bool, rest: seq<nat>)
    requires lines != [] && !marker(Trim(lines[0])) && StaysAt(lines[1..], marker, rest)
    ensures StaysAt(lines, marker, (if Quoted(Trim(lines[0])) then [] else [0]) + Shifted(rest))
  {
    var at := (if Quoted(Trim(lines[0])) then [] else [0]) + Shifted(rest);
    forall i: nat
      ensures i in at <==> Stays(lines, marker, i)
    {
      if i > 0 {
        StaysTail(lines, marker, i - 1);
        ShiftedIn(rest, i - 1);
      } else {
        ShiftedIn(rest, 0);
      }
    }
  }

  /** The visible lines are exactly those that stay, in order. */
  lemma {:induction false} VisibleExactly(lines: seq<string>, marker: string -> bool) returns (at: seq<nat>)
    ensures Increasing(at) && Picks(lines, at, Visible(lines, marker)) && StaysAt(lines, marker, at)
    decreases |lines|
  {
    if lines == [] || marker(Trim(lines[0])) {
      at := [];
    } else {
      var rest := VisibleExactly(lines[1..], marker);
      var quoted := Quoted(Trim(lines[0]));
      at := (if quoted then [] else [0]) + Shifted(rest);
      PicksMore(lines, rest, Visible(lines[1..], marker), quoted);
      StaysMore(lines, marker, rest);
      assert [] + Visible(lines[1..], marker) == Visible(lines[1..], marker);
    }
  }

  lemma PicksMore(lines: seq<string>, at: seq<nat>, kept: seq<string>, quoted: bool)
    requires lines != [] && Increasing(at) && Picks(lines[1..], at, kept)
    ensures var more, all := (if quoted then [] else [0]) + Shifted(at), (if quoted then [] else [lines[0]]) + kept;
      Increasing(more) && Picks(lines, more, all)
  {
    var more, all := (if quoted then [] else [0]) + Shifted(at), (if quoted then [] else [lines[0]]) + kept;
    var d := if quoted then 0 else 1;
    forall k | 0 <= k < |more|
      ensures more[k] < |lines| && all[k] == lines[more[k]] && (k >= d ==> more[k] == at[k - d] + 1)
    {
      if k >= d {
        assert more[k] == Shifted(at)[k - d] && all[k] == kept[k - d] == lines[1..][at[k - d]];
      }
    }
  }

  // ---- The blocks ----

  ghost predicate NoGap(s: string) {
    forall i :: 0 <= i < |s| - 1 ==> s[i] != '\n' || s[i + 1] != '\n'
  }

  /** What stands before an empty line: no empty line in it and no break at its end. */
  ghost predicate BeforeGap(s: string) {
    NoGap(s) && (s != "" ==> s[|s| - 1] != '\n')
  }

  function JoinBlocks(blocks: seq<string>): string
    decreases |blocks|
  {
    if blocks == [] then "" else if |blocks| == 1 then blocks[0] else blocks[0] + "\n\n" + JoinBlocks(blocks[1..])
  }

  ghost predicate Blocks(blocks: seq<string>) {
    && blocks != [] && NoGap(blocks[|blocks| - 1])
    && forall i :: 0 <= i < |blocks| - 1 ==> BeforeGap(blocks[i])
  }

  lemma {:induction false} FirstGap(s: string)
    ensures var i := BreakAt(s);
      if i == |s| then NoGap(s) else s[i] == '\n' && s[i + 1] == '\n' && BeforeGap(s[..i])
    decreases |s|
  {
    if |s| < 2 || (s[0] == '\n' && s[1] == '\n') {
    } else {
      FirstGap(s[1..]);
      var i, t := BreakAt(s), s[1..];
      if i == |s| {
        assert forall k :: 1 <= k < |s| ==> s[k] == t[k - 1];
      } else {
        var head := s[..i];
        assert forall k :: 1 <= k < |head| ==> head[k] == t[..i - 1][k - 1];
        assert i == 1 ==> head[0] == s[0] && s[1] == '\n';
      }
    }
  }

  lemma BlocksCons(head: string, rest: seq<string>)
    requires BeforeGap(head) && Blocks(rest)
    ensures Blocks([head] + rest) && JoinBlocks([head] + rest) == head + "\n\n" + JoinBlocks(rest)
  {
    var blocks := [head] + rest;
    assert blocks[1..] == rest;
    assert forall k :: 1 <= k < |blocks| ==> blocks[k] == rest[k - 1];
  }

  /** Cutting at empty lines from the left: the blocks give the text back, and there is only one way. */
  lemma {:induction false} ParagraphsAre(s: string)
    ensures Blocks(Paragraphs(s)) && JoinBlocks(Paragraphs(s)) == s
    decreases |s|
  {
    var i := BreakAt(s);
    FirstGap(s);
    if i < |s| {
      var head, rest := s[..i], s[i + 2..];
      ParagraphsAre(rest);
      BlocksCons(head, Paragraphs(rest));
      assert s == head + "\n\n" + rest;
    }
  }

  lemma BreakUnique(head: string, rest: string)
    requires BeforeGap(head)
    ensures BreakAt(head + "\n\n" + rest) == |head|
    decreases |head|
  {
    var s := head + "\n\n" + rest;
    if head != "" {
      assert s[1..] == head[1..] + "\n\n" + rest;
      assert BeforeGap(head[1..]) by {
        assert forall k :: 0 <= k < |head[1..]| ==> head[1..][k] == head[k + 1];
      }
      BreakUnique(head[1..], rest);
      if |head| > 1 {
        assert s[1] == head[1];
      }
    }
  }

  lemma BreakNone(s: string)
    requires NoGap(s)
    ensures BreakAt(s) == |s|
    decreases |s|
  {
    if |s| >= 2 {
      assert forall k :: 0 <= k < |s[1..]| ==> s[1..][k] == s[k + 1];
      BreakNone(s[1..]);
    }
  }

  lemma {:induction false} ParagraphsUnique(blocks: seq<string>)
    requires Blocks(blocks)
    ensures Paragraphs(JoinBlocks(blocks)) == blocks
    decreases |blocks|
  {
    if |blocks| == 1 {
      BreakNone(blocks[0]);
    } else {
      var rest := blocks[1..];
      ParagraphsUnique(rest);
      BreakUnique(blocks[0], JoinBlocks(rest));
      var s := JoinBlocks(blocks);
      assert s[..|blocks[0]|] == blocks[0] && s[|blocks[0]| + 2..] == JoinBlocks(rest);
      assert blocks == [blocks[0]] + rest;
    }
  }

  // ---- The kinds ----

  predicate Bulleted(s: string) {
    |s| >= 2 && (s[0] == '-' || s[0] == '*') && s[1] == ' '
  }

  ghost predicate Numbered(s: string, n: int) {
    0 <= n < |s| && s[n] == '.' && forall i :: 0 <= i < n ==> '0' <= s[i] <= '9'
  }

  /** The text begins like a list item: a dash or star and a space, or digits and a dot. */
  ghost predicate StartsItem(s: string) {
    Bulleted(s) || exists n :: Numbered(s, n)
  }

  /** The first `k` characters are the indentation. */
  ghost predicate Indentation(line: string, k: int) {
    0 <= k <= |line| && (forall i :: 0 <= i < k ==> IsSpace(line[i])) && (k < |line| ==> !IsSpace(line[k]))
  }

  ghost predicate ItemLine(line: string) {
    exists k :: Indentation(line, k) && StartsItem(line[k..])
  }

  lemma {:induction false} TrimStartIs(line: string) returns (k: nat)
    ensures Indentation(line, k) && TrimStart(line) == line[k..]
    decreases |line|
  {
    if line == "" || !IsSpace(line[0]) {
      k := 0;
      assert line[0..] == line;
    } else {
      var j := TrimStartIs(line[1..]);
      k := j + 1;
      assert line[1..][j..] == line[k..] && forall i :: 1 <= i < k ==> line[i] == line[1..][i - 1];
    }
  }

  lemma IndentationUnique(line: string, j: int, k: int)
    requires Indentation(line, j) && Indentation(line, k)
    ensures j == k
  {
  }

  lemma BulletedExactly(s: string)
    ensures Bulleted(s) <==> |s| >= 2 && (s[..2] == "- " || s[..2] == "* ")
  {
    if |s| >= 2 {
      assert s[..2] == [s[0], s[1]];
    }
  }

  lemma NumberedExactly(s: string)
    ensures (exists n :: Numbered(s, n)) <==> Numbered(s, Find(s, '.'))
  {
    if n :| Numbered(s, n) {
      assert '.' !in s[..n];
      FindUnique(s, '.', n);
    }
  }

  lemma ItemLineExactly(line: string)
    ensures IsListLine(line) <==> ItemLine(line)
  {
    var k := TrimStartIs(line);
    var s := line[k..];
    BulletedExactly(s);
    NumberedExactly(s);
    assert IsListLine(line) <==> StartsItem(s);
    if j :| Indentation(line, j) && StartsItem(line[j..]) {
      IndentationUnique(line, j, k);
    }
  }

  /** A line is quoted exactly when its first character that is no space is `>`. */
  lemma QuotedExactly(line: string)
    ensures Quoted(Trim(line)) <==> exists k :: Indentation(line, k) && k < |line| && line[k] == '>'
  {
    var k := TrimStartIs(line);
    TrimEndShape(line[k..]);
    if k < |line| {
      KeepsFirst(line[k..]);
    }
    if j :| Indentation(line, j) && j < |line| && line[j] == '>' {
      IndentationUnique(line, j, k);
    }
  }

  lemma {:induction false} KeepsFirst(s: string)
    requires s != "" && !IsSpace(s[0])
    ensures TrimEnd(s) != "" && TrimEnd(s)[0] == s[0]
    decreases |s|
  {
    if IsSpace(s[|s| - 1]) {
      KeepsFirst(s[..|s| - 1]);
    }
  }

  /** A chunk is a list item exactly when every line of it begins like one behind its indentation. */
  lemma KindExactly(chunk: string)
    ensures KindOf(chunk) == ListItem <==> forall line :: line in Lines(chunk) ==> ItemLine(line)
  {
    var lines := Lines(chunk);
    forall i | 0 <= i < |lines|
      ensures IsListLine(lines[i]) <==> ItemLine(lines[i])
    {
      ItemLineExactly(lines[i]);
    }
    if KindOf(chunk) == ListItem {
      forall line | line in lines
        ensures ItemLine(line)
      {
        var i :| 0 <= i < |lines| && lines[i] == line;
      }
    } else {
      var i :| 0 <= i < |lines| && !IsListLine(lines[i]);
      assert lines[i] in lines && !ItemLine(lines[i]);
    }
  }

  // ---- Normalising keeps every character that is no space ----

  lemma {:induction false} JoinContent(a: seq<string>, b: seq<string>)
    requires |a| == |b| && forall i :: 0 <= i < |a| ==> NonSpace(a[i]) == NonSpace(b[i])
    ensures NonSpace(JoinLines(a)) == NonSpace(JoinLines(b))
    decreases |a|
  {
    if |a| <= 1 {
    } else {
      JoinContent(a[1..], b[1..]);
      ConsContent(a[0], JoinLines(a[1..]));
      ConsContent(b[0], JoinLines(b[1..]));
    }
  }

  lemma FeedBlank(c: char)
    requires IsSpace(c)
    ensures NonSpace([c]) == ""
  {
    assert [c][1..] == "";
  }

  lemma ConsContent(row: string, rest: string)
    ensures NonSpace(row + "\n" + rest) == NonSpace(row) + NonSpace(rest)
  {
    FeedBlank('\n');
    AroundBlank(row, "\n", rest);
  }

  lemma {:induction false} UnindentContent(row: string, k: nat)
    requires k <= |row| && forall i :: 0 <= i < k ==> Blank(row[i])
    ensures NonSpace(row[k..]) == NonSpace(row)
    decreases k
  {
    if k == 0 {
      assert row[0..] == row;
    } else {
      UnindentContent(row[1..], k - 1);
      assert row[1..][k - 1..] == row[k..] && IsSpace(row[0]);
    }
  }

  lemma TidyContent(rows: seq<string>, i: nat)
    requires i < |rows|
    ensures NonSpace(R.Tidy(rows)[i]) == NonSpace(rows[i])
  {
    var trimmed := TrimEnd(rows[i]);
    NonSpaceTrimEnd(rows[i]);
    UnindentContent(trimmed, Run(trimmed));
  }

  lemma EndBlank(s: string, i: nat)
    requires i < |s| && R.Ends(s[i])
    ensures NonSpace(s[i..i + R.EndWidth(s, i)]) == ""
  {
    FeedBlank(s[i]);
    if R.EndWidth(s, i) == 2 {
      FeedBlank(s[i + 1]);
      NonSpaceAppend([s[i]], [s[i + 1]]);
      assert s[i..i + 2] == [s[i]] + [s[i + 1]];
    } else {
      assert s[i..i + 1] == [s[i]];
    }
  }

  lemma {:induction false} RowsContent(s: string)
    ensures R.Rows(s) != [] && NonSpace(JoinLines(R.Rows(s))) == NonSpace(s)
    decreases |s|
  {
    var i := R.RowEnd(s);
    if i == |s| {
    } else {
      var j := i + R.EndWidth(s, i);
      var row, rest := s[..i], s[j..];
      RowsContent(rest);
      EndBlank(s, i);
      ThreeParts(s, i, j);
      AroundBlank(row, s[i..j], rest);
      assert R.Rows(s)[1..] == R.Rows(rest);
      ConsContent(row, JoinLines(R.Rows(rest)));
    }
  }

  lemma NormalizeKeepsContent(value: string)
    ensures NonSpace(Normalize(value)) == NonSpace(value)
  {
    var rows := R.Rows(value);
    R.NormalizeExactly(value);
    NonSpaceTrim(JoinLines(R.Tidy(rows)));
    forall i | 0 <= i < |rows|
      ensures NonSpace(R.Tidy(rows)[i]) == NonSpace(rows[i])
    {
      TidyContent(rows, i);
    }
    JoinContent(R.Tidy(rows), rows);
    RowsContent(value);
  }

  // ---- The chosen body ----

  lemma EmptyExactly(s: string)
    ensures Trim(s) == "" <==> NonSpace(s) == ""
  {
    NonSpaceTrim(s);
    if NonSpace(s) == "" {
      BlankTrim(s);
    }
  }

  lemma NormalEmpty(s: string)
    ensures Normalize(s) == "" <==> NonSpace(s) == ""
  {
    NormalizeKeepsContent(s);
    NormalizeIsNormal(s);
    EmptyExactly(Normalize(s));
    TrimFixed(Normalize(s));
  }

  /** The normalised plain text, or where that is empty the normalised text of the HTML body, if any. */
  lemma SourceExactly(env: Env, text: string, html: Option<string>)
    ensures var source := Source(env, text, html);
      && (NonSpace(text) != "" ==> source == Normalize(text) != "")
      && (NonSpace(text) == "" && html.Some? ==> source == Normalize(env.htmlText(html.value)))
      && (NonSpace(source) == if NonSpace(text) != "" || html.None? then NonSpace(text) else NonSpace(env.htmlText(html.value)))
  {
    EmptyExactly(text);
    NormalEmpty(text);
    NormalizeKeepsContent(text);
    if html.Some? {
      NormalizeKeepsContent(env.htmlText(html.value));
    }
  }

  // ---- When there is something to translate ----

  lemma {:induction false} NoChunksExactly(paragraphs: seq<string>)
    ensures AllChunks(paragraphs) == [] <==> NonSpace(Flatten(paragraphs)) == ""
    decreases |paragraphs|
  {
    AllChunksContent(paragraphs);
    if paragraphs == [] {
    } else {
      var head, rest := paragraphs[0], paragraphs[1..];
      NoChunksExactly(rest);
      NonSpaceAppend(head, Flatten(rest));
      EmptyExactly(head);
    }
  }

  /** A message has segments exactly when its visible text has a character that is no space. */
  lemma SomethingToTranslate(digest: string -> string, visible: string)
    ensures SegmentsOf(digest, visible) != [] <==> NonSpace(visible) != ""
  {
    NoChunksExactly(Paragraphs(visible));
    ParagraphsContent(visible);
  }
}
