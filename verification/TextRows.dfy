/** Normalising, said row by row: whatever ends the rows, each loses its indentation and its trailing space. */
module TextRows {
  import opened Text
  import opened MessageText

  // ---- Rows end at CRLF, at a lone carriage return or at a lone line feed ----

  predicate Ends(c: char) { c == '\r' || c == '\n' }

  ghost predicate OneRow(s: string, i: nat) {
    i <= |s| && forall j :: 0 <= j < i ==> !Ends(s[j])
  }

  /** The index of the first character that ends a row, or the length. */
  function RowEnd(s: string): (i: nat)
    ensures OneRow(s, i) && (i < |s| ==> Ends(s[i]))
    decreases |s|
  {
    if s == "" || Ends(s[0]) then 0 else 1 + RowEnd(s[1..])
  }

  /** How many characters end the row that ends at `i`. */
  function EndWidth(s: string, i: nat): (w: nat)
    requires i < |s|
    ensures 1 <= w <= |s| - i
  {
    if s[i] == '\r' && i + 1 < |s| && s[i + 1] == '\n' then 2 else 1
  }

  function Rows(s: string): seq<string>
    decreases |s|
  {
    var i := RowEnd(s);
    if i == |s| then [s] else [s[..i]] + Rows(s[i + EndWidth(s, i)..])
  }

  function Unindented(row: string): string {
    row[Run(row)..]
  }

  function Tidy(rows: seq<string>): seq<string> {
    seq(|rows|, i requires 0 <= i < |rows| => Unindented(TrimEnd(rows[i])))
  }

  // ---- Row ends become line feeds ----

  function LineFeeds(s: string): string {
    ReplaceCr(ReplaceCrLf(s))
  }

  lemma {:induction false} ReplaceUpTo(s: string, i: nat)
    requires OneRow(s, i)
    ensures ReplaceCrLf(s) == s[..i] + ReplaceCrLf(s[i..])
    decreases i
  {
    if i == 0 {
      assert s[0..] == s;
    } else {
      ReplaceUpTo(s[1..], i - 1);
      assert s[1..][i - 1..] == s[i..] && [s[0]] + s[1..][..i - 1] == s[..i];
      Associative([s[0]], s[1..][..i - 1], ReplaceCrLf(s[i..]));
    }
  }

  /** A row, its end and the rest, after the pairs have been replaced. */
  lemma PairsRow(s: string, i: nat)
    requires i < |s| && OneRow(s, i) && Ends(s[i])
    ensures var c := if EndWidth(s, i) == 2 then '\n' else s[i];
      ReplaceCrLf(s) == s[..i] + ([c] + ReplaceCrLf(s[i + EndWidth(s, i)..]))
  {
    ReplaceUpTo(s, i);
    var tail, rest := s[i..], s[i + EndWidth(s, i)..];
    if EndWidth(s, i) == 2 {
      assert tail[2..] == rest;
    } else {
      assert tail[1..] == rest;
    }
  }

  lemma ReplaceCrRow(row: string, c: char, rest: string)
    requires Plain(row) && Ends(c)
    ensures ReplaceCr(row + ([c] + rest)) == row + ("\n" + ReplaceCr(rest))
  {
    forall j | 0 <= j < |row|
      ensures row[j] != '\r'
    {
      assert row[j] in row;
    }
  }

  lemma RowIsPlain(s: string, i: nat)
    requires OneRow(s, i)
    ensures Plain(s[..i])
  {
  }

  lemma RowsOfCons(row: string, rest: string)
    requires Plain(row)
    ensures Rows(row + ("\n" + rest)) == [row] + Rows(rest)
  {
    var s := row + ("\n" + rest);
    RowEndUnique(s, |row|);
    assert s[..|row|] == row && s[|row| + 1..] == rest;
  }

  lemma RowEndUnique(s: string, i: nat)
    requires i <= |s| && Plain(s[..i]) && (i < |s| ==> Ends(s[i]))
    ensures RowEnd(s) == i
  {
    forall j | 0 <= j < i
      ensures !Ends(s[j])
    {
      assert s[..i][j] == s[j];
    }
    assert OneRow(s, i);
  }

  lemma WholeRow(s: string)
    requires OneRow(s, |s|)
    ensures LineFeeds(s) == s
  {
    assert s[..|s|] == s;
    RowIsPlain(s, |s|);
    ReplaceFixed(s);
  }

  /** One row and its end, in front of the rest. */
  lemma LineFeedsRow(s: string, i: nat, row: string, rest: string)
    requires i < |s| && OneRow(s, i) && Ends(s[i]) && row == s[..i] && rest == s[i + EndWidth(s, i)..]
    ensures LineFeeds(s) == row + ("\n" + LineFeeds(rest))
  {
    PairsRow(s, i);
    RowIsPlain(s, i);
    ReplaceCrRow(row, if EndWidth(s, i) == 2 then '\n' else s[i], ReplaceCrLf(rest));
  }

  lemma FirstRow(s: string, row: string, rest: string, feeds: string)
    requires Plain(row) && feeds == row + ("\n" + rest) && Rows(s) == [row] + Rows(rest)
    ensures Rows(feeds) == Rows(s)
  {
    RowsOfCons(row, rest);
  }

  lemma {:induction false} SameRows(s: string) returns (feeds: string)
    ensures feeds == LineFeeds(s) && Rows(feeds) == Rows(s)
    decreases |s|
  {
    var i := RowEnd(s);
    if i == |s| {
      feeds := s;
      WholeRow(s);
    } else {
      var row, rest := s[..i], s[i + EndWidth(s, i)..];
      var more := SameRows(rest);
      feeds := row + ("\n" + more);
      RowIsPlain(s, i);
      FirstRow(s, row, more, feeds);
      LineFeedsRow(s, i, row, rest);
    }
  }

  lemma RowsOfLineFeeds(s: string)
    ensures Rows(LineFeeds(s)) == Rows(s)
  {
    var feeds := SameRows(s);
  }

  // ---- Rows and lines differ by an empty last row ----

  ghost predicate AllPlain(rows: seq<string>) {
    forall r :: r in rows ==> Plain(r)
  }

  lemma RowsOfOne(t: string)
    requires Plain(t)
    ensures Rows(t) == [t] && AllPlain(Rows(t)) && Rows(t) == if t == "" then Lines(t) + [""] else Lines(t)
  {
    assert t[..|t|] == t;
    RowEndUnique(t, |t|);
    if t != "" {
      LinesOfOne(t);
    }
  }

  /** An empty text, or one that ends in a line feed, has an empty last row. */
  predicate EndsOpen(t: string) {
    t == "" || t[|t| - 1] == '\n'
  }

  lemma OpenTail(line: string, rest: string)
    ensures EndsOpen(line + ("\n" + rest)) == EndsOpen(rest)
  {
    var t := line + ("\n" + rest);
    assert rest != "" ==> rest[|rest| - 1] == t[|t| - 1];
    assert rest == "" ==> t[|t| - 1] == '\n';
  }

  lemma ConsPlain(line: string, rows: seq<string>)
    requires Plain(line) && AllPlain(rows)
    ensures AllPlain([line] + rows)
  {
  }

  function OpenLines(lines: seq<string>, open: bool): seq<string> {
    if open then lines + [""] else lines
  }

  lemma OpenLinesCons(line: string, lines: seq<string>, open: bool)
    ensures OpenLines([line] + lines, open) == [line] + OpenLines(lines, open)
  {
    Associative([line], lines, [""]);
  }

  ghost predicate AreLines(t: string) {
    Rows(t) == OpenLines(Lines(t), EndsOpen(t)) && AllPlain(Rows(t))
  }

  lemma OneIsLine(t: string)
    requires Plain(t)
    ensures AreLines(t)
  {
    RowsOfOne(t);
    assert t != "" ==> t[|t| - 1] in t;
  }

  lemma ConsAreLines(line: string, rest: string, t: string)
    requires Plain(line) && AreLines(rest) && t == line + "\n" + rest && Lines(t) == [line] + Lines(rest)
    ensures AreLines(t)
  {
    Associative(line, "\n", rest);
    OpenTail(line, rest);
    RowsOfCons(line, rest);
    OpenLinesCons(line, Lines(rest), EndsOpen(rest));
    ConsPlain(line, Rows(rest));
  }

  lemma {:induction false} RowsAreLines(t: string)
    requires '\r' !in t
    ensures AreLines(t)
    decreases |t|
  {
    if '\n' in t {
      var line, rest := FirstLine(t);
      RowsAreLines(rest);
      ConsAreLines(line, rest, t);
    } else {
      OneIsLine(t);
    }
  }

  // ---- Collapsing ----

  /** The row ends in no space. */
  predicate Trimmed(row: string) {
    row == "" || !IsSpace(row[|row| - 1])
  }

  ghost predicate AllTrimmed(rows: seq<string>) {
    forall r :: r in rows ==> Plain(r) && Trimmed(r)
  }

  lemma RunStops(row: string)
    requires Trimmed(row) && row != ""
    ensures Run(row) < |row|
  {
    var last := row[|row| - 1];
    assert !Blank(last);
  }

  lemma CollapseKeeps(s: string)
    requires s != "" && s[0] != '\n' && (Run(s) < |s| ==> s[Run(s)] != '\n')
    ensures Collapse(s) == [s[0]] + Collapse(s[1..])
  {
  }

  lemma CollapseFirst(row: string, v: string)
    requires Plain(row) && Trimmed(row) && row != "" && (v == "" || v[0] == '\n')
    ensures Collapse(row + v) == [row[0]] + Collapse(row[1..] + v)
  {
    RunWithin(row, v);
    assert row[0] in row && (row + v)[0] == row[0] && (row + v)[1..] == row[1..] + v;
    CollapseKeeps(row + v);
  }

  lemma {:induction false} CollapseRow(row: string, v: string)
    requires Plain(row) && Trimmed(row) && (v == "" || v[0] == '\n')
    ensures Collapse(row + v) == row + Collapse(v)
    decreases |row|
  {
    if row == "" {
      assert row + v == v && row + Collapse(v) == Collapse(v);
    } else {
      CollapseFirst(row, v);
      CollapseRow(row[1..], v);
      Associative([row[0]], row[1..], Collapse(v));
      assert [row[0]] + row[1..] == row;
    }
  }

  lemma RunUnique(s: string, k: nat)
    requires k <= |s| && (forall i :: 0 <= i < k ==> Blank(s[i])) && (k < |s| ==> !Blank(s[k]))
    ensures Run(s) == k
  {
  }

  /** The leading blanks of a trimmed row that is not empty end within it. */
  lemma RunWithin(row: string, v: string)
    requires Trimmed(row) && Plain(row) && (v == "" || v[0] == '\n')
    ensures Run(row + v) == Run(row) && (row != "" ==> Run(row) < |row| && (row + v)[Run(row)] != '\n')
  {
    var k := Run(row);
    if row != "" {
      RunStops(row);
      assert row[k] in row && (row + v)[k] == row[k];
    }
    RunUnique(row + v, k);
  }

  function UnindentRest(rows: seq<string>): seq<string> {
    seq(|rows|, i requires 0 <= i < |rows| => if i == 0 then rows[0] else Unindented(rows[i]))
  }

  lemma CollapseBreak(row: string, v: string)
    requires Plain(row) && Trimmed(row) && (v == "" || v[0] == '\n')
    ensures Collapse("\n" + (row + v)) == "\n" + Collapse(Unindented(row) + v)
  {
    RunWithin(row, v);
    var u, k := row + v, Run(row);
    assert u[k..] == row[k..] + v;
    CollapseFeed(u);
  }

  lemma CollapseFeed(u: string)
    ensures Collapse("\n" + u) == "\n" + Collapse(u[Run(u)..])
  {
    var s := "\n" + u;
    assert s[1..] == u && s[0] == '\n' && !Blank('\n');
    assert s[1 + Run(u)..] == u[Run(u)..];
  }

  lemma JoinCons(row: string, rest: seq<string>)
    requires rest != []
    ensures JoinLines([row] + rest) == row + ("\n" + JoinLines(rest))
  {
    assert ([row] + rest)[1..] == rest;
    Associative(row, "\n", JoinLines(rest));
  }

  lemma UnindentedTrimmed(row: string)
    requires Plain(row) && Trimmed(row)
    ensures Plain(Unindented(row)) && Trimmed(Unindented(row))
  {
    var u := Unindented(row);
    assert forall c :: c in u ==> c in row;
    assert u != "" ==> u[|u| - 1] == row[|row| - 1];
  }

  lemma UnindentRestCons(first: string, second: string, more: seq<string>)
    ensures UnindentRest([first] + ([second] + more)) == [first] + UnindentRest([Unindented(second)] + more)
  {
  }

  lemma {:induction false} CollapseRows(rows: seq<string>)
    requires rows != [] && AllTrimmed(rows)
    ensures Collapse(JoinLines(rows)) == JoinLines(UnindentRest(rows))
    decreases |rows|
  {
    assert rows[0] in rows;
    if |rows| == 1 {
      CollapseRow(rows[0], "");
      assert rows[0] + "" == rows[0];
      assert UnindentRest(rows) == rows;
    } else {
      var first, second, more := rows[0], rows[1], rows[2..];
      assert rows == [first] + ([second] + more);
      RestTrimmed(rows);
      var next := [Unindented(second)] + more;
      CollapseRows(next);
      JoinCons(first, [second] + more);
      CollapseRow(first, "\n" + JoinLines([second] + more));
      SecondRow(second, more);
      UnindentRestCons(first, second, more);
      JoinCons(first, UnindentRest(next));
    }
  }

  lemma RestTrimmed(rows: seq<string>)
    requires |rows| >= 2 && AllTrimmed(rows)
    ensures Plain(rows[1]) && Trimmed(rows[1]) && AllTrimmed([Unindented(rows[1])] + rows[2..])
  {
    assert rows[1] in rows && forall r :: r in rows[2..] ==> r in rows;
    UnindentedTrimmed(rows[1]);
  }

  lemma SecondRow(second: string, more: seq<string>)
    requires Plain(second) && Trimmed(second)
    ensures Collapse("\n" + JoinLines([second] + more)) == "\n" + Collapse(JoinLines([Unindented(second)] + more))
  {
    if more == [] {
      CollapseBreak(second, "");
      assert second + "" == second && Unindented(second) + "" == Unindented(second);
    } else {
      JoinCons(second, more);
      JoinCons(Unindented(second), more);
      CollapseBreak(second, "\n" + JoinLines(more));
    }
  }

  // ---- Trimming hides the rest of the difference ----

  lemma {:induction false} TrimUnindent(x: string, y: string, k: nat)
    requires k <= |x| && forall i :: 0 <= i < k ==> Blank(x[i])
    ensures Trim(x + y) == Trim(x[k..] + y)
    decreases k
  {
    if k == 0 {
      assert x[0..] == x;
    } else {
      assert IsSpace((x + y)[0]);
      TrimDropFirst(x + y);
      assert (x + y)[1..] == x[1..] + y;
      TrimUnindent(x[1..], y, k - 1);
      assert x[1..][k - 1..] == x[k..];
    }
  }

  lemma {:induction false} JoinEmptyRow(rows: seq<string>)
    requires rows != []
    ensures JoinLines(rows + [""]) == JoinLines(rows) + "\n"
    decreases |rows|
  {
    if |rows| == 1 {
      assert rows + [""] == [rows[0]] + [""];
      JoinCons(rows[0], [""]);
      assert "\n" + "" == "\n" && JoinLines([""]) == "";
    } else {
      JoinEmptyRow(rows[1..]);
      assert rows + [""] == [rows[0]] + (rows[1..] + [""]) && rows == [rows[0]] + rows[1..];
      JoinCons(rows[0], rows[1..] + [""]);
      JoinCons(rows[0], rows[1..]);
      Associative("\n", JoinLines(rows[1..]), "\n");
      Associative(rows[0], "\n" + JoinLines(rows[1..]), "\n");
    }
  }

  lemma TrimFirstRow(rows: seq<string>)
    requires rows != []
    ensures Trim(JoinLines(UnindentRest(rows))) == Trim(JoinLines([Unindented(rows[0])] + UnindentRest(rows)[1..]))
  {
    var unindented, rest := UnindentRest(rows), UnindentRest(rows)[1..];
    assert unindented == [rows[0]] + rest;
    if rest == [] {
      TrimUnindent(rows[0], "", Run(rows[0]));
      assert rows[0] + "" == rows[0] && Unindented(rows[0]) + "" == Unindented(rows[0]);
      assert JoinLines([Unindented(rows[0])] + rest) == Unindented(rows[0]);
    } else {
      JoinCons(rows[0], rest);
      JoinCons(Unindented(rows[0]), rest);
      TrimUnindent(rows[0], "\n" + JoinLines(rest), Run(rows[0]));
    }
  }

  lemma TrimEndsTrimmed(rows: seq<string>)
    requires AllPlain(rows)
    ensures AllTrimmed(TrimEnds(rows))
  {
    forall r | r in TrimEnds(rows)
      ensures Plain(r) && Trimmed(r)
    {
      var i :| 0 <= i < |rows| && r == TrimEnd(rows[i]);
      TrimEndShape(rows[i]);
      assert rows[i] in rows && r == rows[i][..|r|];
    }
  }

  /** For rows of any kind: collapsing the joined rows and trimming is tidying each row. */
  lemma TidyIsCollapse(rows: seq<string>)
    requires rows != [] && AllPlain(rows)
    ensures Trim(Collapse(JoinLines(TrimEnds(rows)))) == Trim(JoinLines(Tidy(rows)))
  {
    var trimmed := TrimEnds(rows);
    TrimEndsTrimmed(rows);
    CollapseRows(trimmed);
    TrimFirstRow(trimmed);
    assert [Unindented(trimmed[0])] + UnindentRest(trimmed)[1..] == Tidy(rows);
  }

  lemma TrimFeed(x: string)
    ensures Trim(x + "\n") == Trim(x)
  {
    assert IsSpace('\n') && (x + "\n")[..|x|] == x;
    TrimDropLast(x + "\n");
  }

  lemma TidyOpen(rows: seq<string>)
    ensures Tidy(rows + [""]) == Tidy(rows) + [""]
  {
    assert TrimEnd("") == "" && Unindented("") == "";
  }

  /** An empty last row makes no difference. */
  lemma TidyEmptyRow(rows: seq<string>)
    ensures Trim(JoinLines(Tidy(rows + [""]))) == Trim(JoinLines(Tidy(rows)))
  {
    TidyOpen(rows);
    if rows == [] {
      assert Tidy(rows) == [] && [] + [""] == [""];
    } else {
      JoinEmptyRow(Tidy(rows));
      TrimFeed(JoinLines(Tidy(rows)));
    }
  }

  /**
  Every text: its rows, however they end, each without indentation and trailing space, joined by line feeds and trimmed
  as a whole.
  */
  lemma NormalizeExactly(value: string)
    ensures Normalize(value) == Trim(JoinLines(Tidy(Rows(value))))
  {
    var t := LineFeeds(value);
    assert '\r' !in t;
    RowsOfLineFeeds(value);
    RowsAreLines(t);
    var lines := Lines(t);
    LinesArePlain(t);
    if lines == [] {
      assert Rows(t) == [] + [""] == [""];
      TidyEmptyRow([]);
      assert TrimEnds(lines) == [] && Tidy([]) == [];
    } else {
      TidyIsCollapse(lines);
      TidyEmptyRow(lines);
    }
  }

  // ---- How the rows end makes no difference ----

  function WithCrLf(s: string): string
    decreases |s|
  {
    if s == "" then "" else (if s[0] == '\n' then "\r\n" else [s[0]]) + WithCrLf(s[1..])
  }

  function WithCr(s: string): string {
    seq(|s|, i requires 0 <= i < |s| => if s[i] == '\n' then '\r' else s[i])
  }

  lemma {:induction false} CrLfUndone(s: string)
    requires '\r' !in s
    ensures ReplaceCrLf(WithCrLf(s)) == s
    decreases |s|
  {
    if s == "" {
    } else {
      assert s[0] in s;
      CrLfUndone(s[1..]);
      var t := WithCrLf(s);
      if s[0] == '\n' {
        assert t[2..] == WithCrLf(s[1..]);
      } else {
        assert t[1..] == WithCrLf(s[1..]);
      }
      assert [s[0]] + s[1..] == s;
    }
  }

  lemma {:induction false} NoPairs(s: string)
    requires '\n' !in s
    ensures ReplaceCrLf(s) == s
    decreases |s|
  {
    if s == "" {
    } else {
      if |s| >= 2 {
        assert s[1] in s;
      }
      NoPairs(s[1..]);
      assert [s[0]] + s[1..] == s;
    }
  }

  /** A text and its two variants with other row ends normalise to the same. */
  lemma RowEndsIrrelevant(s: string)
    requires '\r' !in s
    ensures Normalize(WithCrLf(s)) == Normalize(s) && Normalize(WithCr(s)) == Normalize(s)
  {
    ReplaceFixed(s);
    CrLfUndone(s);
    NoPairs(WithCr(s));
    forall i | 0 <= i < |s|
      ensures s[i] != '\r'
    {
      assert s[i] in s;
    }
    assert ReplaceCr(WithCr(s)) == s;
  }
}
