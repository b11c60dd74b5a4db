/** Why lower-casing, final sigma and characters that lower to several included, leaves logo keys blind to letter case. */
module CaseFolding {
  import opened Options
  import opened Text
  import opened Contacts
  import opened ContactFacts

  predicate Separates(c: char) {
    c == '@' || IsSpace(c)
  }

  predicate NoBlank(s: string) {
    forall i :: 0 <= i < |s| ==> !IsSpace(s[i])
  }

  predicate EndsInDot(s: string) {
    s != "" && s[|s| - 1] == '.'
  }

  /**
  What `str::to_lowercase` offers: the at sign and blanks stay, and the text on either side of one is lowered by
  itself, since neither has case nor is ignored when a sigma looks for its word; a dot at the end stays; and nothing
  else becomes an at sign, a blank or a dot at the end, or vanishes.
  */
  ghost predicate KeepsMarks(lower: string -> string) {
    SplitsAtMarks(lower) && KeepsLastDot(lower) && AddsNoMarks(lower)
  }

  ghost predicate SplitsAtMarks(lower: string -> string) {
    lower("") == "" && forall s, c, t :: SplitsAt(lower, s, c, t)
  }

  ghost predicate SplitsAt(lower: string -> string, s: string, c: char, t: string) {
    Separates(c) ==> lower(s + [c] + t) == lower(s) + [c] + lower(t)
  }

  ghost predicate KeepsLastDot(lower: string -> string) {
    forall s :: KeepsDot(lower, s)
  }

  ghost predicate KeepsDot(lower: string -> string, s: string) {
    lower(s + ".") == lower(s) + "."
  }

  ghost predicate AddsNoMarks(lower: string -> string) {
    forall s :: AddsNoMark(lower, s)
  }

  ghost predicate AddsNoMark(lower: string -> string, s: string) {
    && ('@' !in s ==> '@' !in lower(s))
    && (NoBlank(s) ==> NoBlank(lower(s)))
    && (s != "" && !EndsInDot(s) ==> lower(s) != "" && !EndsInDot(lower(s)))
  }

  lemma LowerNonEmpty(lower: string -> string, s: string)
    requires KeepsLastDot(lower) && AddsNoMarks(lower) && s != ""
    ensures lower(s) != ""
  {
    if EndsInDot(s) {
      assert s == s[..|s| - 1] + ".";
      assert KeepsDot(lower, s[..|s| - 1]);
    } else {
      assert AddsNoMark(lower, s);
    }
  }

  // ---- The host ----

  lemma {:induction false} AfterLastAt(x: string, host: string)
    requires '@' !in host
    ensures AfterAt(x + "@" + host) == Some(host)
    decreases |host|
  {
    var s := x + "@" + host;
    if host == "" {
    } else {
      var front, last := host[..|host| - 1], host[|host| - 1];
      assert s[..|s| - 1] == x + "@" + front && s[|s| - 1] == last && last in host;
      AfterLastAt(x, front);
      assert front + [last] == host;
    }
  }

  lemma {:induction false} NoAtNoHost(s: string)
    requires '@' !in s
    ensures AfterAt(s) == None
    decreases |s|
  {
    if s == "" {
    } else {
      assert s[|s| - 1] in s;
      NoAtNoHost(s[..|s| - 1]);
    }
  }

  lemma {:induction false} LastAt(s: string) returns (x: string, host: string)
    requires '@' in s
    ensures s == x + "@" + host && '@' !in host
    decreases |s|
  {
    var front, last := s[..|s| - 1], s[|s| - 1];
    assert s == front + [last];
    if last == '@' {
      x, host := front, "";
    } else {
      x, host := LastAt(front);
      host := host + [last];
    }
  }

  lemma LowerAfterAt(lower: string -> string, s: string)
    requires KeepsMarks(lower)
    ensures AfterAt(lower(s)) == match AfterAt(s) case None => None case Some(host) => Some(lower(host))
  {
    if '@' in s {
      var x, host := LastAt(s);
      assert AddsNoMark(lower, host);
      AfterLastAt(x, host);
      AfterLastAt(lower(x), lower(host));
      assert SplitsAt(lower, x, '@', host);
    } else {
      NoAtNoHost(s);
      assert AddsNoMark(lower, s);
      NoAtNoHost(lower(s));
    }
  }

  // ---- Blanks and dots around it ----

  lemma {:induction false} FirstBlank(s: string) returns (k: nat)
    requires !NoBlank(s)
    ensures k < |s| && IsSpace(s[k]) && NoBlank(s[..k])
    decreases |s|
  {
    if IsSpace(s[0]) {
      k := 0;
    } else {
      var rest := FirstBlank(s[1..]);
      k := rest + 1;
      assert s[..k] == [s[0]] + s[1..][..rest];
    }
  }

  lemma {:induction false} LastBlank(s: string) returns (k: nat)
    requires !NoBlank(s)
    ensures k < |s| && IsSpace(s[k]) && NoBlank(s[k + 1..])
    decreases |s|
  {
    if IsSpace(s[|s| - 1]) {
      k := |s| - 1;
    } else {
      k := LastBlank(s[..|s| - 1]);
      assert s[k + 1..] == s[..|s| - 1][k + 1..] + [s[|s| - 1]];
    }
  }

  lemma LowerAt(lower: string -> string, s: string, k: nat)
    requires KeepsMarks(lower) && k < |s| && IsSpace(s[k])
    ensures lower(s) == lower(s[..k]) + [s[k]] + lower(s[k + 1..])
  {
    assert s == s[..k] + [s[k]] + s[k + 1..];
    assert SplitsAt(lower, s[..k], s[k], s[k + 1..]);
  }

  lemma LowerHead(lower: string -> string, s: string)
    requires KeepsMarks(lower) && s != "" && !IsSpace(s[0])
    ensures lower(s) != "" && !IsSpace(lower(s)[0])
  {
    LowerNonEmpty(lower, s);
    if NoBlank(s) {
      assert AddsNoMark(lower, s);
    } else {
      var k := FirstBlank(s);
      LowerNonEmpty(lower, s[..k]);
      LowerAt(lower, s, k);
      assert AddsNoMark(lower, s[..k]);
      assert lower(s)[0] == lower(s[..k])[0];
    }
  }

  lemma LowerLast(lower: string -> string, s: string)
    requires KeepsMarks(lower) && s != "" && !IsSpace(s[|s| - 1])
    ensures lower(s) != "" && !IsSpace(lower(s)[|lower(s)| - 1])
  {
    LowerNonEmpty(lower, s);
    if NoBlank(s) {
      assert AddsNoMark(lower, s);
    } else {
      var k := LastBlank(s);
      var v := s[k + 1..];
      LowerNonEmpty(lower, v);
      LowerAt(lower, s, k);
      assert AddsNoMark(lower, v);
      assert lower(s)[|lower(s)| - 1] == lower(v)[|lower(v)| - 1];
    }
  }

  lemma LowerBlankFirst(lower: string -> string, c: char, t: string)
    requires SplitsAtMarks(lower) && IsSpace(c)
    ensures lower([c] + t) == [c] + lower(t)
  {
    assert "" + [c] + t == [c] + t;
    assert SplitsAt(lower, "", c, t);
  }

  lemma LowerBlankLast(lower: string -> string, s: string, c: char)
    requires SplitsAtMarks(lower) && IsSpace(c)
    ensures lower(s + [c]) == lower(s) + [c]
  {
    assert s + [c] + "" == s + [c];
    assert SplitsAt(lower, s, c, "");
  }

  lemma TrimBlankFirst(c: char, t: string)
    requires IsSpace(c)
    ensures TrimStart([c] + t) == TrimStart(t)
  {
    assert ([c] + t)[1..] == t;
  }

  lemma TrimBlankLast(s: string, c: char)
    requires IsSpace(c)
    ensures TrimEnd(s + [c]) == TrimEnd(s)
  {
    assert (s + [c])[..|s|] == s;
  }

  lemma {:induction false} LowerTrimStart(lower: string -> string, s: string)
    requires KeepsMarks(lower)
    ensures TrimStart(lower(s)) == lower(TrimStart(s))
    decreases |s|
  {
    if s == "" {
    } else if IsSpace(s[0]) {
      var c, rest := s[0], s[1..];
      assert s == [c] + rest;
      LowerBlankFirst(lower, c, rest);
      TrimBlankFirst(c, rest);
      TrimBlankFirst(c, lower(rest));
      LowerTrimStart(lower, rest);
    } else {
      LowerHead(lower, s);
    }
  }

  lemma {:induction false} LowerTrimEnd(lower: string -> string, s: string)
    requires KeepsMarks(lower)
    ensures TrimEnd(lower(s)) == lower(TrimEnd(s))
    decreases |s|
  {
    if s == "" {
    } else if IsSpace(s[|s| - 1]) {
      var front, last := s[..|s| - 1], s[|s| - 1];
      assert s == front + [last];
      LowerBlankLast(lower, front, last);
      TrimBlankLast(front, last);
      TrimBlankLast(lower(front), last);
      LowerTrimEnd(lower, front);
    } else {
      LowerLast(lower, s);
    }
  }

  lemma {:induction false} LowerTrimDots(lower: string -> string, s: string)
    requires KeepsLastDot(lower) && AddsNoMarks(lower) && lower("") == ""
    ensures TrimDots(lower(s)) == lower(TrimDots(s))
    decreases |s|
  {
    if s == "" {
    } else if EndsInDot(s) {
      var front := s[..|s| - 1];
      assert s == front + "." && KeepsDot(lower, front);
      assert lower(s)[..|lower(s)| - 1] == lower(front);
      LowerTrimDots(lower, front);
    } else {
      assert AddsNoMark(lower, s);
    }
  }

  lemma LowerHost(lower: string -> string, host: string)
    requires KeepsMarks(lower)
    ensures lower(TrimDots(Trim(host))) == TrimDots(Trim(lower(host)))
  {
    LowerTrimStart(lower, host);
    LowerTrimEnd(lower, TrimStart(host));
    LowerTrimDots(lower, Trim(host));
  }

  /** Addresses that differ only in letter case have the same logo keys. */
  lemma LoweringIsCaseBlind(env: Env)
    requires KeepsMarks(env.lower)
    ensures CaseBlind(env)
  {
    forall a, b | env.lower(a) == env.lower(b)
      ensures KeysOf(env, a) == KeysOf(env, b)
    {
      HostFromLowered(env.lower, a);
      HostFromLowered(env.lower, b);
      assert HostOf(env.lower, a) == HostOf(env.lower, b);
    }
  }

  /** The host a key is made of, or none. */
  function HostOf(lower: string -> string, address: string): Option<string> {
    match AfterAt(address) case None => None case Some(host) => Some(lower(TrimDots(Trim(host))))
  }

  lemma HostFromLowered(lower: string -> string, a: string)
    requires KeepsMarks(lower)
    ensures HostOf(lower, a) == match AfterAt(lower(a)) case None => None case Some(host) => Some(TrimDots(Trim(host)))
  {
    LowerAfterAt(lower, a);
    if AfterAt(a).Some? {
      LowerHost(lower, AfterAt(a).value);
    }
  }

  // ---- Lower-casing one character at a time, to any number of characters, is of this kind ----

  function Each(f: char -> string, s: string): string
    decreases |s|
  {
    if s == "" then "" else f(s[0]) + Each(f, s[1..])
  }

  /** Marks stay; another character becomes at least one, and none of them a mark. */
  ghost predicate MarksAlone(f: char -> string) {
    forall c ::
      if Separates(c) || c == '.' then f(c) == [c]
      else f(c) != "" && forall i :: 0 <= i < |f(c)| ==> !Separates(f(c)[i]) && f(c)[i] != '.'
  }

  lemma {:induction false} EachAppend(f: char -> string, s: string, t: string)
    ensures Each(f, s + t) == Each(f, s) + Each(f, t)
    decreases |s|
  {
    if s == "" {
      assert s + t == t;
    } else {
      assert (s + t)[1..] == s[1..] + t;
      EachAppend(f, s[1..], t);
      Associative(f(s[0]), Each(f, s[1..]), Each(f, t));
    }
  }

  lemma EachOne(f: char -> string, c: char)
    ensures Each(f, [c]) == f(c)
  {
    assert [c][1..] == "";
    assert f(c) + "" == f(c);
  }

  lemma {:induction false} EachWithout(f: char -> string, s: string, c: char)
    requires MarksAlone(f) && (Separates(c) || c == '.') && c !in s
    ensures c !in Each(f, s)
    decreases |s|
  {
    if s == "" {
    } else {
      assert s[0] in s;
      EachWithout(f, s[1..], c);
    }
  }

  lemma {:induction false} EachWithoutBlank(f: char -> string, s: string)
    requires MarksAlone(f) && NoBlank(s)
    ensures NoBlank(Each(f, s))
    decreases |s|
  {
    if s == "" {
    } else {
      EachWithoutBlank(f, s[1..]);
      assert !IsSpace(s[0]);
      forall i | 0 <= i < |Each(f, s)|
        ensures !IsSpace(Each(f, s)[i])
      {
        if i >= |f(s[0])| {
          assert Each(f, s)[i] == Each(f, s[1..])[i - |f(s[0])|];
        } else {
          assert Each(f, s)[i] == f(s[0])[i];
        }
      }
    }
  }

  lemma EachNoDot(f: char -> string, s: string)
    requires MarksAlone(f) && s != "" && !EndsInDot(s)
    ensures Each(f, s) != "" && !EndsInDot(Each(f, s))
  {
    var front, last := s[..|s| - 1], s[|s| - 1];
    assert s == front + [last];
    EachAppend(f, front, [last]);
    EachOne(f, last);
    assert f(last)[|f(last)| - 1] != '.';
  }

  lemma EachAround(f: char -> string, s: string, c: char, t: string)
    requires MarksAlone(f) && (Separates(c) || c == '.')
    ensures Each(f, s + [c] + t) == Each(f, s) + [c] + Each(f, t)
  {
    EachAppend(f, s + [c], t);
    EachAppend(f, s, [c]);
    EachOne(f, c);
  }

  lemma CharacterWiseKeepsMarks(f: char -> string)
    requires MarksAlone(f)
    ensures KeepsMarks((s: string) => Each(f, s))
  {
    var lower := (s: string) => Each(f, s);
    forall s, c, t
      ensures SplitsAt(lower, s, c, t)
    {
      if Separates(c) {
        EachAround(f, s, c, t);
      }
    }
    forall s
      ensures KeepsDot(lower, s)
    {
      EachAppend(f, s, ".");
      EachOne(f, '.');
    }
    forall s
      ensures AddsNoMark(lower, s)
    {
      EachAddsNoMark(f, s);
    }
  }

  lemma EachAddsNoMark(f: char -> string, s: string)
    requires MarksAlone(f)
    ensures AddsNoMark((t: string) => Each(f, t), s)
  {
    if '@' !in s {
      EachWithout(f, s, '@');
    }
    if NoBlank(s) {
      EachWithoutBlank(f, s);
    }
    if s != "" && !EndsInDot(s) {
      EachNoDot(f, s);
    }
  }
}
