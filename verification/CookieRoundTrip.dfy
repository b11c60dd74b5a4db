/** Cookies as a server writes them, read back; and which cookies stand in for each other. */
module CookieRoundTrip {
  import opened Options
  import opened Text
  import opened CookieJar
  import Powers
  import Radix

  // ---- The same cookie ----

  predicate SameLetter(a: char, b: char) {
    a == b || ('A' <= a <= 'Z' && b == 'a' + (a - 'A')) || ('A' <= b <= 'Z' && a == 'a' + (b - 'A'))
  }

  /** Equal but for the case of ASCII letters. */
  ghost predicate SameHost(a: string, b: string) {
    |a| == |b| && forall i :: 0 <= i < |a| ==> SameLetter(a[i], b[i])
  }

  /** Two cookies with one name, domain and path: the later replaces the earlier. */
  ghost predicate SameCookie(a: Cookie, b: Cookie) {
    a.name == b.name && a.path == b.path && SameHost(a.domain, b.domain)
  }

  lemma LowerExactly(a: string, b: string)
    ensures AsciiLower(a) == AsciiLower(b) <==> SameHost(a, b)
  {
    if AsciiLower(a) == AsciiLower(b) {
      assert |a| == |AsciiLower(a)| == |b|;
      forall i | 0 <= i < |a|
        ensures SameLetter(a[i], b[i])
      {
        assert AsciiLower(a)[i] == AsciiLower(b)[i];
      }
    }
  }

  lemma KeyExactly(a: Cookie, b: Cookie)
    ensures KeyOf(a) == KeyOf(b) <==> SameCookie(a, b)
  {
    LowerExactly(a.domain, b.domain);
  }

  /** After one cookie has come in: it is there unless it deletes, nothing it stands in for is, and everything else is as before. */
  lemma MergeEffect(cookies: seq<Cookie>, next: Cookie, c: Cookie)
    requires DistinctKeys(cookies)
    ensures c in Merge(cookies, next) <==> (c == next && !Deletes(next)) || (c in cookies && !SameCookie(c, next))
  {
    KeyExactly(c, next);
    var p := Position(cookies, KeyOf(next), 0);
    var merged := Merge(cookies, next);
    if p < |cookies| {
      if Deletes(next) {
        RemovedExactly(cookies, p, c);
      } else {
        ReplacedExactly(cookies, p, next, c);
      }
    }
  }

  lemma RemovedExactly(cookies: seq<Cookie>, p: nat, c: Cookie)
    requires DistinctKeys(cookies) && p < |cookies|
    ensures c in cookies[..p] + cookies[p + 1..] <==> c in cookies && KeyOf(c) != KeyOf(cookies[p])
  {
    var r := cookies[..p] + cookies[p + 1..];
    if c in cookies && KeyOf(c) != KeyOf(cookies[p]) {
      var i :| 0 <= i < |cookies| && cookies[i] == c;
      assert r[if i < p then i else i - 1] == c;
    }
    if c in r {
      var i :| 0 <= i < |r| && r[i] == c;
      var j := if i < p then i else i + 1;
      assert cookies[j] == c && KeyOf(cookies[j]) != KeyOf(cookies[p]);
    }
  }

  lemma ReplacedExactly(cookies: seq<Cookie>, p: nat, next: Cookie, c: Cookie)
    requires DistinctKeys(cookies) && p < |cookies| && KeyOf(cookies[p]) == KeyOf(next)
    ensures c in cookies[p := next] <==> c == next || (c in cookies && KeyOf(c) != KeyOf(next))
  {
    var r := cookies[p := next];
    assert r[p] == next;
    if c in cookies && KeyOf(c) != KeyOf(next) {
      var i :| 0 <= i < |cookies| && cookies[i] == c;
      assert r[i] == c;
    }
    if c in r && c != next {
      var i :| 0 <= i < |r| && r[i] == c;
      assert cookies[i] == c && i != p;
    }
  }

  // ---- Writing a header ----

  function Flag(on: bool, title: string): seq<string> {
    if on then [" " + title] else []
  }

  function AgeField(maxAge: Option<nat>): seq<string> {
    if maxAge.Some? then [" Max-Age=" + Radix.Render(10, maxAge.value)] else []
  }

  function AttributeFields(c: Cookie, maxAge: Option<nat>): seq<string> {
    [" Domain=" + c.domain, " Path=" + c.path] + AgeField(maxAge) + Flag(c.secure, "Secure") + Flag(c.httpOnly, "HttpOnly")
  }

  /** `name=value; Domain=...; Path=...; Max-Age=...; Secure; HttpOnly`. */
  function Header(c: Cookie, maxAge: Option<nat>): string {
    JoinBy([c.name + "=" + c.value] + AttributeFields(c, maxAge), ';')
  }

  ghost predicate Field(s: string) {
    ';' !in s && Trim(s) == s
  }

  /** What a cookie can hold so that its header says it. */
  ghost predicate Writable(c: Cookie) {
    && c.name != "" && Field(c.name) && '=' !in c.name && Field(c.value)
    && c.domain != "" && Field(c.domain) && AsciiLower(c.domain) == c.domain && c.path != "" && Field(c.path)
  }

  // ---- Reading it back ----

  lemma PairSplit(name: string, value: string)
    requires '=' !in name
    ensures SplitOnce(name + "=" + value, '=') == Some((name, value))
  {
    var s := name + "=" + value;
    assert s[..|name|] == name && s[|name| + 1..] == value;
    FindUnique(s, '=', |name|);
  }

  lemma TrimmedEnds(s: string)
    requires Trim(s) == s && s != ""
    ensures !IsSpace(s[0]) && !IsSpace(s[|s| - 1])
  {
    TrimShape(s);
  }

  lemma AttributeIs(title: string, value: string)
    requires title != "" && Trim(title) == title && '=' !in title && Trim(value) == value
    ensures Attribute(" " + title + "=" + value) == (AsciiLower(title), value)
  {
    var body := title + "=" + value;
    var raw := " " + title + "=" + value;
    assert raw[1..] == body && IsSpace(raw[0]);
    TrimDropFirst(raw);
    TrimmedEnds(title);
    if value != "" {
      TrimmedEnds(value);
    }
    assert !IsSpace('=') && body[0] == title[0] && body[|body| - 1] == (if value != "" then value[|value| - 1] else '=');
    TrimFixed(body);
    PairSplit(title, value);
  }

  lemma FlagIs(title: string)
    requires title != "" && Trim(title) == title && '=' !in title
    ensures Attribute(" " + title) == (AsciiLower(title), "")
  {
    var raw := " " + title;
    assert raw[1..] == title && IsSpace(raw[0]);
    TrimDropFirst(raw);
    assert title[..|title|] == title;
    FindUnique(title, '=', |title|);
  }

  lemma LowerLabels()
    ensures AsciiLower("Domain") == "domain" && AsciiLower("Path") == "path" && AsciiLower("Max-Age") == "max-age"
    ensures AsciiLower("Secure") == "secure" && AsciiLower("HttpOnly") == "httponly"
  {
  }

  lemma DomainApplied(c: Cookie, domain: string, now: int)
    requires domain != "" && Field(domain) && AsciiLower(domain) == domain
    ensures ApplyAttribute(c, " Domain=" + domain, now) == c.(domain := domain)
  {
    LowerLabels();
    TrimFixed("Domain");
    assert " Domain=" + domain == " " + "Domain" + "=" + domain;
    AttributeIs("Domain", domain);
  }

  lemma PathApplied(c: Cookie, path: string, now: int)
    requires path != "" && Field(path)
    ensures ApplyAttribute(c, " Path=" + path, now) == c.(path := path)
  {
    LowerLabels();
    AttributeNames();
    TrimFixed("Path");
    assert " Path=" + path == " " + "Path" + "=" + path;
    AttributeIs("Path", path);
  }

  lemma SecureApplied(c: Cookie, now: int)
    ensures ApplyAttribute(c, " Secure", now) == c.(secure := true)
  {
    LowerLabels();
    AttributeNames();
    TrimFixed("Secure");
    assert " Secure" == " " + "Secure";
    FlagIs("Secure");
  }

  lemma HttpOnlyApplied(c: Cookie, now: int)
    ensures ApplyAttribute(c, " HttpOnly", now) == c.(httpOnly := true)
  {
    LowerLabels();
    AttributeNames();
    TrimFixed("HttpOnly");
    assert " HttpOnly" == " " + "HttpOnly";
    FlagIs("HttpOnly");
  }

  // ---- Numbers ----

  lemma {:induction false} DigitsRead(ds: seq<nat>)
    requires ds != [] && Powers.Digits(10, ds)
    ensures Powers.Digits(36, ds) && Digits(Radix.Symbols(ds)) == Some(Powers.Value(10, ds))
    decreases |ds|
  {
    var n := |ds| - 1;
    var text := Radix.Symbols(ds);
    assert text[n] == '0' + ds[n] as char;
    if n == 0 {
      assert ds[..0] == [];
    } else {
      DigitsRead(ds[..n]);
      assert text[..n] == Radix.Symbols(ds[..n]);
    }
  }

  lemma NumberRead(v: nat)
    ensures Digits(Radix.Render(10, v)) == Some(v) && Radix.Render(10, v) != ""
    ensures '0' <= Radix.Render(10, v)[0] <= '9'
  {
    if v > 0 {
      Powers.MinimalValue(10, v);
      DigitsRead(Powers.Minimal(10, v));
    }
  }

  lemma NumberParsed(v: nat)
    requires v <= I64_MAX
    ensures ParseI64(Radix.Render(10, v)) == Some(v)
  {
    NumberRead(v);
  }

  lemma NumberTrimmed(v: nat)
    ensures Trim(Radix.Render(10, v)) == Radix.Render(10, v) && ';' !in Radix.Render(10, v)
  {
    var text := Radix.Render(10, v);
    if v > 0 {
      Powers.MinimalValue(10, v);
    }
    assert forall i :: 0 <= i < |text| ==> '0' <= text[i] <= '9';
    TrimFixed(text);
  }

  lemma AgeApplied(c: Cookie, v: nat, now: int)
    requires v <= I64_MAX
    ensures ApplyAttribute(c, " Max-Age=" + Radix.Render(10, v), now) == c.(expiresAt := Some(Expiry(v, now)))
  {
    var text := Radix.Render(10, v);
    LowerLabels();
    AttributeNames();
    TrimFixed("Max-Age");
    NumberTrimmed(v);
    NumberParsed(v);
    assert " Max-Age=" + text == " " + "Max-Age" + "=" + text;
    AttributeIs("Max-Age", text);
  }

  // ---- The whole header ----

  lemma {:induction false} ApplyAppend(c: Cookie, a: seq<string>, b: seq<string>, now: int)
    ensures ApplyAttributes(c, a + b, now) == ApplyAttributes(ApplyAttributes(c, a, now), b, now)
    decreases |a|
  {
    if a == [] {
      assert a + b == b;
    } else {
      assert (a + b)[0] == a[0] && (a + b)[1..] == a[1..] + b;
      ApplyAppend(ApplyAttribute(c, a[0], now), a[1..], b, now);
    }
  }

  lemma ApplyOne(c: Cookie, a: string, now: int)
    ensures ApplyAttributes(c, [a], now) == ApplyAttribute(c, a, now)
  {
    assert [a][1..] == [];
  }

  lemma DomainAndPath(c: Cookie, start: Cookie, now: int)
    requires Writable(c)
    ensures ApplyAttributes(start, [" Domain=" + c.domain, " Path=" + c.path], now) == start.(domain := c.domain, path := c.path)
  {
    DomainApplied(start, c.domain, now);
    PathApplied(start.(domain := c.domain), c.path, now);
    assert [" Domain=" + c.domain, " Path=" + c.path] == [" Domain=" + c.domain] + [" Path=" + c.path];
    ApplyAppend(start, [" Domain=" + c.domain], [" Path=" + c.path], now);
    ApplyOne(start, " Domain=" + c.domain, now);
    ApplyOne(start.(domain := c.domain), " Path=" + c.path, now);
  }

  lemma AgeFieldApplied(start: Cookie, maxAge: Option<nat>, now: int)
    requires maxAge.Some? ==> maxAge.value <= I64_MAX
    ensures ApplyAttributes(start, AgeField(maxAge), now) ==
      if maxAge.Some? then start.(expiresAt := Some(Expiry(maxAge.value, now))) else start
  {
    if maxAge.Some? {
      AgeApplied(start, maxAge.value, now);
      ApplyOne(start, AgeField(maxAge)[0], now);
    }
  }

  lemma SecureFlag(start: Cookie, on: bool, now: int)
    requires !start.secure
    ensures ApplyAttributes(start, Flag(on, "Secure"), now) == start.(secure := on)
  {
    if on {
      SecureApplied(start, now);
      assert " " + "Secure" == " Secure";
      ApplyOne(start, " Secure", now);
    }
  }

  lemma HttpOnlyFlag(start: Cookie, on: bool, now: int)
    requires !start.httpOnly
    ensures ApplyAttributes(start, Flag(on, "HttpOnly"), now) == start.(httpOnly := on)
  {
    if on {
      HttpOnlyApplied(start, now);
      assert " " + "HttpOnly" == " HttpOnly";
      ApplyOne(start, " HttpOnly", now);
    }
  }

  lemma Flags(start: Cookie, secure: bool, httpOnly: bool, now: int)
    requires !start.secure && !start.httpOnly
    ensures ApplyAttributes(start, Flag(secure, "Secure") + Flag(httpOnly, "HttpOnly"), now) ==
      start.(secure := secure, httpOnly := httpOnly)
  {
    ApplyAppend(start, Flag(secure, "Secure"), Flag(httpOnly, "HttpOnly"), now);
    SecureFlag(start, secure, now);
    HttpOnlyFlag(start.(secure := secure), httpOnly, now);
  }

  lemma FieldsApplied(c: Cookie, maxAge: Option<nat>, start: Cookie, now: int)
    requires Writable(c) && (maxAge.Some? ==> maxAge.value <= I64_MAX)
    requires !start.secure && !start.httpOnly && start.expiresAt.None?
    ensures ApplyAttributes(start, AttributeFields(c, maxAge), now) ==
      start.(domain := c.domain, path := c.path, secure := c.secure, httpOnly := c.httpOnly,
             expiresAt := Over(maxAge, now))
  {
    var two, age, flags := [" Domain=" + c.domain, " Path=" + c.path], AgeField(maxAge),
      Flag(c.secure, "Secure") + Flag(c.httpOnly, "HttpOnly");
    Associative(two + age, Flag(c.secure, "Secure"), Flag(c.httpOnly, "HttpOnly"));
    Associative(two, age, flags);
    ApplyAppend(start, two, age + flags, now);
    DomainAndPath(c, start, now);
    var placed := start.(domain := c.domain, path := c.path);
    ApplyAppend(placed, age, flags, now);
    AgeFieldApplied(placed, maxAge, now);
    Flags(ApplyAttributes(placed, age, now), c.secure, c.httpOnly, now);
  }

  ghost predicate AllPlain(fields: seq<string>) {
    forall f :: f in fields ==> ';' !in f
  }

  lemma PlainAppend(a: seq<string>, b: seq<string>)
    requires AllPlain(a) && AllPlain(b)
    ensures AllPlain(a + b)
  {
  }

  lemma PlainOne(a: string, b: string)
    requires ';' !in a && ';' !in b
    ensures AllPlain([a + b])
  {
  }

  lemma PlainFlag(on: bool, title: string)
    requires ';' !in title
    ensures AllPlain(Flag(on, title))
  {
    PlainOne(" ", title);
  }

  lemma PlainAge(maxAge: Option<nat>)
    ensures AllPlain(AgeField(maxAge))
  {
    if maxAge.Some? {
      NumberTrimmed(maxAge.value);
      PlainOne(" Max-Age=", Radix.Render(10, maxAge.value));
    }
  }

  lemma FieldsPlain(c: Cookie, maxAge: Option<nat>)
    requires Writable(c)
    ensures AllPlain(AttributeFields(c, maxAge))
  {
    var domain, path, age := [" Domain=" + c.domain], [" Path=" + c.path], AgeField(maxAge);
    var secure, httpOnly := Flag(c.secure, "Secure"), Flag(c.httpOnly, "HttpOnly");
    PlainOne(" Domain=", c.domain);
    PlainOne(" Path=", c.path);
    PlainAge(maxAge);
    PlainFlag(c.secure, "Secure");
    PlainFlag(c.httpOnly, "HttpOnly");
    PlainAppend(domain, path);
    PlainAppend(domain + path, age);
    PlainAppend(domain + path + age, secure);
    PlainAppend(domain + path + age + secure, httpOnly);
    assert domain + path == [" Domain=" + c.domain, " Path=" + c.path];
  }

  /** When a cookie with this age, received now, is over. */
  function Over(maxAge: Option<nat>, now: int): Option<int> {
    if maxAge.None? then None else Some(Expiry(maxAge.value, now))
  }

  lemma OverExactly(maxAge: Option<nat>, now: int)
    requires I64_MIN <= now && (maxAge.Some? ==> now + maxAge.value <= I64_MAX)
    ensures Over(maxAge, now) == if maxAge.None? then None else Some(if maxAge.value == 0 then 0 else now + maxAge.value)
  {
    if maxAge.Some? {
      ExpiryExactly(maxAge.value, now);
    }
  }

  /** Whatever cookie a server writes, the jar reads exactly that, from any host. */
  lemma HeaderRoundTrip(c: Cookie, maxAge: Option<nat>, host: string, now: int)
    requires Writable(c) && (maxAge.Some? ==> maxAge.value <= I64_MAX)
    ensures ParsedCookie(Header(c, maxAge), Some(host), now) == Some(c.(expiresAt := Over(maxAge, now)))
  {
    var pair, fields := c.name + "=" + c.value, AttributeFields(c, maxAge);
    var parts := [pair] + fields;
    PlainOne(c.name + "=", c.value);
    FieldsPlain(c, maxAge);
    PlainAppend([pair], fields);
    assert Unsplit(parts, ';');
    SplitOfJoin(parts, ';');
    assert parts[1..] == fields;
    PairSplit(c.name, c.value);
    FieldsApplied(c, maxAge, Cookie(c.name, c.value, AsciiLower(host), "/", None, false, false), now);
  }
}
