/** The cookies kept for an Apple session, updated from `Set-Cookie` headers. */
module CookieJar {
  import opened Options
  import opened Text

  datatype Cookie = Cookie(
    name: string, value: string, domain: string, path: string, expiresAt: Option<int>, secure: bool, httpOnly: bool)

  const I64_MIN: int := -0x8000_0000_0000_0000
  const I64_MAX: int := 0x7fff_ffff_ffff_ffff

  /** Two's complement wrap-around to 64 bits. */
  function Wrap64(x: int): int {
    (x - I64_MIN) % 0x1_0000_0000_0000_0000 + I64_MIN
  }

  // ---- Parsing ----

  function AsciiLower(s: string): string {
    seq(|s|, i requires 0 <= i < |s| => if 'A' <= s[i] <= 'Z' then 'a' + (s[i] - 'A') else s[i])
  }

  /** `split_once`. */
  function SplitOnce(s: string, c: char): Option<(string, string)> {
    var i := Find(s, c);
    if i == |s| then None else Some((s[..i], s[i + 1..]))
  }

  function Digits(s: string): Option<nat>
    decreases |s|
  {
    if s == "" then None
    else
      var last := s[|s| - 1];
      if !('0' <= last <= '9') then None
      else if |s| == 1 then Some((last - '0') as nat)
      else match Digits(s[..|s| - 1])
        case None => None
        case Some(n) => Some(10 * n + (last - '0') as nat)
  }

  /** `parse::<i64>`. */
  function ParseI64(s: string): Option<int> {
    var signed := s != "" && (s[0] == '+' || s[0] == '-');
    match Digits(if signed then s[1..] else s)
    case None => None
    case Some(n) =>
      var v := if signed && s[0] == '-' then 0 - n else n as int;
      if I64_MIN <= v <= I64_MAX then Some(v) else None
  }

  /** The expiry a `Max-Age` leads to; the addition wraps in a release build. */
  function Expiry(seconds: int, now: int): int {
    if seconds <= 0 then 0 else Wrap64(now + seconds)
  }

  /** Name and value of an attribute; the name in lower case. */
  function Attribute(raw: string): (string, string) {
    var attribute := Trim(raw);
    match SplitOnce(attribute, '=')
    case None => (AsciiLower(attribute), "")
    case Some((name, value)) => (AsciiLower(Trim(name)), Trim(value))
  }

  function ApplyAttribute(c: Cookie, raw: string, now: int): Cookie {
    var (name, value) := Attribute(raw);
    if name == "domain" && value != "" then c.(domain := AsciiLower(value))
    else if name == "path" && value != "" then c.(path := value)
    else if name == "max-age" then
      var seconds := ParseI64(value);
      if seconds.Some? then c.(expiresAt := Some(Expiry(seconds.value, now))) else c
    else if name == "secure" then c.(secure := true)
    else if name == "httponly" then c.(httpOnly := true)
    else c
  }

  function ApplyAttributes(c: Cookie, attributes: seq<string>, now: int): Cookie
    decreases |attributes|
  {
    if attributes == [] then c else ApplyAttributes(ApplyAttribute(c, attributes[0], now), attributes[1..], now)
  }

  function ParsedCookie(raw: string, host: Option<string>, now: int): Option<Cookie> {
    var parts := SplitBy(raw, ';');
    var pair := SplitOnce(parts[0], '=');
    if pair.None? || host.None? then None
    else
      var c := ApplyAttributes(
        Cookie(Trim(pair.value.0), Trim(pair.value.1), AsciiLower(host.value), "/", None, false, false), parts[1..], now);
      if c.name == "" then None else Some(c)
  }

  /** `parse_set_cookie`, attribute by attribute. */
  method ParseSetCookie(raw: string, host: Option<string>, now: int) returns (r: Option<Cookie>)
    ensures r == ParsedCookie(raw, host, now)
  {
    var parts := SplitBy(raw, ';');
    var pair := SplitOnce(parts[0], '=');
    if pair.None? || host.None? {
      return None;
    }
    var cookie := Cookie(Trim(pair.value.0), Trim(pair.value.1), AsciiLower(host.value), "/", None, false, false);
    ghost var start := cookie;
    var attributes := parts[1..];
    for i := 0 to |attributes|
      invariant ApplyAttributes(start, attributes, now) == ApplyAttributes(cookie, attributes[i..], now)
    {
      assert attributes[i..][0] == attributes[i] && attributes[i..][1..] == attributes[i + 1..];
      cookie := ApplyAttribute(cookie, attributes[i], now);
    }
    r := if cookie.name == "" then None else Some(cookie);
  }

  // ---- The jar as a list ----

  datatype Key = Key(name: string, domain: string, path: string)

  function KeyOf(c: Cookie): Key {
    Key(c.name, AsciiLower(c.domain), c.path)
  }

  predicate Deletes(c: Cookie) {
    c.value == "" || (c.expiresAt.Some? && c.expiresAt.value <= 0)
  }

  function Position(cookies: seq<Cookie>, key: Key, i: nat): (p: nat)
    requires i <= |cookies|
    ensures i <= p <= |cookies| && (p < |cookies| ==> KeyOf(cookies[p]) == key)
    ensures forall j :: i <= j < p ==> KeyOf(cookies[j]) != key
    decreases |cookies| - i
  {
    if i == |cookies| || KeyOf(cookies[i]) == key then i else Position(cookies, key, i + 1)
  }

  /** One cookie: replace in place, push, remove or ignore. */
  function Merge(cookies: seq<Cookie>, next: Cookie): seq<Cookie> {
    var p := Position(cookies, KeyOf(next), 0);
    if p < |cookies| then (if Deletes(next) then cookies[..p] + cookies[p + 1..] else cookies[p := next])
    else if Deletes(next) then cookies else cookies + [next]
  }

  function MergeHeaders(cookies: seq<Cookie>, headers: seq<string>, host: Option<string>, now: int): seq<Cookie>
    decreases |headers|
  {
    if headers == [] then cookies
    else
      var c := ParsedCookie(headers[0], host, now);
      MergeHeaders(if c.Some? then Merge(cookies, c.value) else cookies, headers[1..], host, now)
  }

  ghost predicate DistinctKeys(cookies: seq<Cookie>) {
    forall i, j :: 0 <= i < j < |cookies| ==> KeyOf(cookies[i]) != KeyOf(cookies[j])
  }

  class Jar {
    var cookies: seq<Cookie>

    constructor ()
      ensures cookies == []
    {
      cookies := [];
    }

    /** `merge_response_cookies`; no host stands for a request address that does not parse. */
    method MergeResponse(headers: seq<string>, host: Option<string>, now: int)
      modifies this
      ensures cookies == MergeHeaders(old(cookies), headers, host, now)
      ensures DistinctKeys(old(cookies)) ==> DistinctKeys(cookies)
    {
      for i := 0 to |headers|
        invariant MergeHeaders(old(cookies), headers, host, now) == MergeHeaders(cookies, headers[i..], host, now)
        invariant DistinctKeys(old(cookies)) ==> DistinctKeys(cookies)
      {
        assert headers[i..][0] == headers[i] && headers[i..][1..] == headers[i + 1..];
        var next := ParseSetCookie(headers[i], host, now);
        if next.Some? {
          if DistinctKeys(cookies) {
            MergeKeepsDistinct(cookies, next.value);
          }
          MergeOne(next.value);
        }
      }
    }

    method MergeOne(next: Cookie)
      modifies this
      ensures cookies == Merge(old(cookies), next)
    {
      var index := Position(cookies, KeyOf(next), 0);
      var deleted := Deletes(next);
      if index < |cookies| && deleted {
        cookies := cookies[..index] + cookies[index + 1..];
      } else if index < |cookies| {
        cookies := cookies[index := next];
      } else if !deleted {
        cookies := cookies + [next];
      }
    }
  }

  // ---- The jar as a map ----

  /** The map a list of cookies stands for. */
  function View(cookies: seq<Cookie>): map<Key, Cookie>
    decreases |cookies|
  {
    if cookies == [] then map[]
    else View(cookies[..|cookies| - 1])[KeyOf(cookies[|cookies| - 1]) := cookies[|cookies| - 1]]
  }

  /** Last write wins; an empty value or a lapsed expiry deletes. */
  function Store(m: map<Key, Cookie>, next: Cookie): map<Key, Cookie> {
    if Deletes(next) then m - {KeyOf(next)} else m[KeyOf(next) := next]
  }

  function StoreHeaders(m: map<Key, Cookie>, headers: seq<string>, host: Option<string>, now: int): map<Key, Cookie>
    decreases |headers|
  {
    if headers == [] then m
    else
      var c := ParsedCookie(headers[0], host, now);
      StoreHeaders(if c.Some? then Store(m, c.value) else m, headers[1..], host, now)
  }

  /** The map holds exactly the cookies of the list, each under its own key. */
  ghost predicate Represents(cookies: seq<Cookie>, m: map<Key, Cookie>) {
    && (forall i :: 0 <= i < |cookies| ==> KeyOf(cookies[i]) in m && m[KeyOf(cookies[i])] == cookies[i])
    && (forall k :: k in m ==> m[k] in cookies && KeyOf(m[k]) == k)
  }

  lemma {:induction false} ViewRepresents(cookies: seq<Cookie>)
    requires DistinctKeys(cookies)
    ensures Represents(cookies, View(cookies))
    decreases |cookies|
  {
    if cookies == [] {
    } else {
      var front, last := cookies[..|cookies| - 1], cookies[|cookies| - 1];
      ViewRepresents(front);
      assert cookies == front + [last];
    }
  }

  lemma RepresentsUnique(cookies: seq<Cookie>, m: map<Key, Cookie>, m': map<Key, Cookie>)
    requires Represents(cookies, m) && Represents(cookies, m')
    ensures m == m'
  {
    forall k
      ensures k in m <==> k in m'
      ensures k in m && k in m' ==> m[k] == m'[k]
    {
      if k in m {
        InsideTells(cookies, m, m', k);
      }
      if k in m' {
        InsideTells(cookies, m', m, k);
      }
    }
  }

  lemma InsideTells(cookies: seq<Cookie>, m: map<Key, Cookie>, m': map<Key, Cookie>, k: Key)
    requires Represents(cookies, m) && Represents(cookies, m') && k in m
    ensures k in m' && m'[k] == m[k]
  {
    var i :| 0 <= i < |cookies| && cookies[i] == m[k];
    assert KeyOf(cookies[i]) == k;
  }

  lemma MergeKeepsDistinct(cookies: seq<Cookie>, next: Cookie)
    requires DistinctKeys(cookies)
    ensures DistinctKeys(Merge(cookies, next))
  {
  }

  lemma RemoveRepresents(cookies: seq<Cookie>, m: map<Key, Cookie>, p: nat)
    requires DistinctKeys(cookies) && Represents(cookies, m) && p < |cookies|
    ensures Represents(cookies[..p] + cookies[p + 1..], m - {KeyOf(cookies[p])})
  {
    var r, m' := cookies[..p] + cookies[p + 1..], m - {KeyOf(cookies[p])};
    forall k | k in m'
      ensures m'[k] in r
    {
      var i :| 0 <= i < |cookies| && cookies[i] == m[k];
      assert r[if p < i then i - 1 else i] == cookies[i];
    }
    forall i | 0 <= i < |r|
      ensures KeyOf(r[i]) in m' && m'[KeyOf(r[i])] == r[i]
    {
      var j := if i < p then i else i + 1;
      assert r[i] == cookies[j] && KeyOf(cookies[j]) != KeyOf(cookies[p]);
    }
  }

  lemma ReplaceRepresents(cookies: seq<Cookie>, m: map<Key, Cookie>, p: nat, next: Cookie)
    requires DistinctKeys(cookies) && Represents(cookies, m) && p < |cookies| && KeyOf(cookies[p]) == KeyOf(next)
    ensures Represents(cookies[p := next], m[KeyOf(next) := next])
  {
    var r, m' := cookies[p := next], m[KeyOf(next) := next];
    assert r[p] == next;
    forall k | k in m' && k != KeyOf(next)
      ensures m'[k] in r
    {
      var i :| 0 <= i < |cookies| && cookies[i] == m[k];
      assert r[i] == cookies[i];
    }
  }

  lemma PushRepresents(cookies: seq<Cookie>, m: map<Key, Cookie>, next: Cookie)
    requires Represents(cookies, m) && forall i :: 0 <= i < |cookies| ==> KeyOf(cookies[i]) != KeyOf(next)
    ensures Represents(cookies + [next], m[KeyOf(next) := next])
  {
    assert (cookies + [next])[|cookies|] == next;
  }

  lemma IgnoreRepresents(cookies: seq<Cookie>, m: map<Key, Cookie>, key: Key)
    requires Represents(cookies, m) && forall i :: 0 <= i < |cookies| ==> KeyOf(cookies[i]) != key
    ensures m - {key} == m
  {
    assert key !in m;
  }

  lemma MergeRepresents(cookies: seq<Cookie>, m: map<Key, Cookie>, next: Cookie)
    requires DistinctKeys(cookies) && Represents(cookies, m)
    ensures Represents(Merge(cookies, next), Store(m, next))
  {
    var p := Position(cookies, KeyOf(next), 0);
    if p == |cookies| && Deletes(next) {
      IgnoreRepresents(cookies, m, KeyOf(next));
    } else if p == |cookies| {
      PushRepresents(cookies, m, next);
    } else if Deletes(next) {
      RemoveRepresents(cookies, m, p);
    } else {
      ReplaceRepresents(cookies, m, p, next);
    }
  }

  /** On a jar with distinct keys, merging one cookie is one write to the map. */
  lemma MergeIsStore(cookies: seq<Cookie>, next: Cookie)
    requires DistinctKeys(cookies)
    ensures DistinctKeys(Merge(cookies, next)) && View(Merge(cookies, next)) == Store(View(cookies), next)
  {
    MergeKeepsDistinct(cookies, next);
    ViewRepresents(cookies);
    MergeRepresents(cookies, View(cookies), next);
    ViewRepresents(Merge(cookies, next));
    RepresentsUnique(Merge(cookies, next), View(Merge(cookies, next)), Store(View(cookies), next));
  }

  /** So is a whole response, and therefore every sequence of responses. */
  lemma {:induction false} ResponseIsStores(cookies: seq<Cookie>, headers: seq<string>, host: Option<string>, now: int)
    requires DistinctKeys(cookies)
    ensures DistinctKeys(MergeHeaders(cookies, headers, host, now))
    ensures View(MergeHeaders(cookies, headers, host, now)) == StoreHeaders(View(cookies), headers, host, now)
    decreases |headers|
  {
    if headers == [] {
    } else {
      var c := ParsedCookie(headers[0], host, now);
      if c.Some? {
        MergeIsStore(cookies, c.value);
        ResponseIsStores(Merge(cookies, c.value), headers[1..], host, now);
      } else {
        ResponseIsStores(cookies, headers[1..], host, now);
      }
    }
  }

  datatype Response = Response(headers: seq<string>, host: Option<string>, now: int)

  function Jarred(cookies: seq<Cookie>, responses: seq<Response>): seq<Cookie>
    decreases |responses|
  {
    if responses == [] then cookies
    else Jarred(MergeHeaders(cookies, responses[0].headers, responses[0].host, responses[0].now), responses[1..])
  }

  function Mapped(m: map<Key, Cookie>, responses: seq<Response>): map<Key, Cookie>
    decreases |responses|
  {
    if responses == [] then m
    else Mapped(StoreHeaders(m, responses[0].headers, responses[0].host, responses[0].now), responses[1..])
  }

  lemma {:induction false} JarRefinesMap(cookies: seq<Cookie>, responses: seq<Response>)
    requires DistinctKeys(cookies)
    ensures DistinctKeys(Jarred(cookies, responses)) && View(Jarred(cookies, responses)) == Mapped(View(cookies), responses)
    decreases |responses|
  {
    if responses == [] {
    } else {
      var r := responses[0];
      ResponseIsStores(cookies, r.headers, r.host, r.now);
      JarRefinesMap(MergeHeaders(cookies, r.headers, r.host, r.now), responses[1..]);
    }
  }

  // ---- What deletes ----

  /** The last `Max-Age` among the attributes that is a number, if any. */
  function LastMaxAge(attributes: seq<string>): Option<int>
    decreases |attributes|
  {
    if attributes == [] then None
    else
      var later := LastMaxAge(attributes[1..]);
      if later.Some? then later else MaxAgeOf(Attribute(attributes[0]))
  }

  function MaxAgeOf(attribute: (string, string)): Option<int> {
    if attribute.0 == "max-age" then ParseI64(attribute.1) else None
  }

  /** The last value of an attribute that is not empty, if any. */
  function LastValue(attributes: seq<string>, name: string): Option<string>
    decreases |attributes|
  {
    if attributes == [] then None
    else
      var later, (n, v) := LastValue(attributes[1..], name), Attribute(attributes[0]);
      if later.Some? then later else if n == name && v != "" then Some(v) else None
  }

  function Or<T>(found: Option<T>, otherwise: T): T {
    if found.Some? then found.value else otherwise
  }

  predicate Has(attributes: seq<string>, name: string) {
    exists i :: 0 <= i < |attributes| && Attribute(attributes[i]).0 == name
  }

  lemma HasFirst(attributes: seq<string>, name: string)
    requires attributes != []
    ensures Has(attributes, name) <==> Attribute(attributes[0]).0 == name || Has(attributes[1..], name)
  {
    if Has(attributes[1..], name) {
      var i :| 0 <= i < |attributes[1..]| && Attribute(attributes[1..][i]).0 == name;
      assert attributes[i + 1] == attributes[1..][i];
    }
    if i :| 0 < i < |attributes| && Attribute(attributes[i]).0 == name {
      assert attributes[1..][i - 1] == attributes[i];
    }
  }

  lemma AttributeNames()
    ensures "domain" != "path" && "domain" != "max-age" && "domain" != "secure" && "domain" != "httponly"
    ensures "path" != "max-age" && "path" != "secure" && "path" != "httponly"
    ensures "max-age" != "secure" && "max-age" != "httponly" && "secure" != "httponly"
  {
    assert "domain"[0] != "path"[0] && "domain"[0] != "max-age"[0] && "domain"[0] != "secure"[0];
    assert "domain"[0] != "httponly"[0] && "path"[0] != "max-age"[0] && "path"[0] != "secure"[0];
    assert "path"[0] != "httponly"[0] && "max-age"[0] != "secure"[0] && "max-age"[0] != "httponly"[0];
    assert "secure"[0] != "httponly"[0];
  }

  /** The fields after the attributes: each one from the last attribute that has a say in it. */
  ghost predicate Follows(r: Cookie, c: Cookie, attributes: seq<string>, now: int) {
    && r.name == c.name && r.value == c.value
    && r.domain == (match LastValue(attributes, "domain") case Some(v) => AsciiLower(v) case None => c.domain)
    && r.path == Or(LastValue(attributes, "path"), c.path)
    && r.expiresAt == (match LastMaxAge(attributes) case Some(n) => Some(Expiry(n, now)) case None => c.expiresAt)
    && r.secure == (c.secure || Has(attributes, "secure")) && r.httpOnly == (c.httpOnly || Has(attributes, "httponly"))
  }

  lemma {:induction false} AttributesFollow(c: Cookie, attributes: seq<string>, now: int)
    ensures Follows(ApplyAttributes(c, attributes, now), c, attributes, now)
    decreases |attributes|
  {
    if attributes == [] {
    } else {
      var next := ApplyAttribute(c, attributes[0], now);
      AttributesFollow(next, attributes[1..], now);
      HasFirst(attributes, "secure");
      HasFirst(attributes, "httponly");
      FollowFirst(ApplyAttributes(next, attributes[1..], now), c, attributes, now);
    }
  }

  lemma FollowFirst(r: Cookie, c: Cookie, attributes: seq<string>, now: int)
    requires attributes != [] && Follows(r, ApplyAttribute(c, attributes[0], now), attributes[1..], now)
    requires Has(attributes, "secure") <==> Attribute(attributes[0]).0 == "secure" || Has(attributes[1..], "secure")
    requires Has(attributes, "httponly") <==> Attribute(attributes[0]).0 == "httponly" || Has(attributes[1..], "httponly")
    ensures Follows(r, c, attributes, now)
  {
    AttributeFields(c, attributes[0], now);
  }

  /** One attribute, field by field. */
  lemma AttributeFields(c: Cookie, raw: string, now: int)
    ensures var r, (n, v) := ApplyAttribute(c, raw, now), Attribute(raw);
      && r.name == c.name && r.value == c.value
      && r.domain == (if n == "domain" && v != "" then AsciiLower(v) else c.domain)
      && r.path == (if n == "path" && v != "" then v else c.path)
      && r.expiresAt == (match MaxAgeOf((n, v)) case Some(age) => Some(Expiry(age, now)) case None => c.expiresAt)
      && r.secure == (c.secure || n == "secure") && r.httpOnly == (c.httpOnly || n == "httponly")
  {
    AttributeNames();
  }

  /**
  A parsed cookie has the trimmed name and value; the last `Domain` that is not empty, in lower case, or else the
  host; the last `Path` that is not empty or else the root; and the expiry of its last usable `Max-Age`.
  */
  lemma ParsedFields(raw: string, host: Option<string>, now: int)
    requires ParsedCookie(raw, host, now).Some?
    ensures var parts, r := SplitBy(raw, ';'), ParsedCookie(raw, host, now).value;
      var pair := SplitOnce(parts[0], '=');
      && host.Some? && pair.Some? && r.name == Trim(pair.value.0) != "" && r.value == Trim(pair.value.1)
      && r.domain == AsciiLower(Or(LastValue(parts[1..], "domain"), host.value))
      && r.path == Or(LastValue(parts[1..], "path"), "/")
      && r.expiresAt == (match LastMaxAge(parts[1..]) case Some(n) => Some(Expiry(n, now)) case None => None)
      && r.secure == Has(parts[1..], "secure") && r.httpOnly == Has(parts[1..], "httponly")
  {
    var parts := SplitBy(raw, ';');
    var pair := SplitOnce(parts[0], '=');
    var start := Cookie(Trim(pair.value.0), Trim(pair.value.1), AsciiLower(host.value), "/", None, false, false);
    AttributesFollow(start, parts[1..], now);
  }

  /** An age that fits is counted from now; one that is not positive is over at once. */
  lemma ExpiryExactly(seconds: int, now: int)
    requires I64_MIN <= now && now + seconds <= I64_MAX
    ensures Expiry(seconds, now) == if seconds <= 0 then 0 else now + seconds
  {
  }

  lemma WrapFacts(x: int)
    requires 0 < x <= 2 * I64_MAX
    ensures Wrap64(x) <= 0 <==> x > I64_MAX
  {
  }

  /**
  A parsed cookie deletes exactly when its value is empty, its last usable `Max-Age` is not positive,
  or that `Max-Age` lies so far ahead that the expiry leaves 64 bits.
  */
  lemma ParsedDeletesExactly(raw: string, host: Option<string>, now: int)
    requires 0 <= now <= I64_MAX && ParsedCookie(raw, host, now).Some?
    ensures var c, age := ParsedCookie(raw, host, now).value, LastMaxAge(SplitBy(raw, ';')[1..]);
      Deletes(c) <==> c.value == "" || (age.Some? && (age.value <= 0 || now + age.value > I64_MAX))
  {
    ParsedFields(raw, host, now);
    MaxAgeInRange(SplitBy(raw, ';')[1..]);
    DeletesExactly(ParsedCookie(raw, host, now).value, LastMaxAge(SplitBy(raw, ';')[1..]), now);
  }

  lemma DeletesExactly(c: Cookie, age: Option<int>, now: int)
    requires 0 <= now <= I64_MAX && (age.Some? ==> I64_MIN <= age.value <= I64_MAX)
    requires c.expiresAt == match age case Some(n) => Some(Expiry(n, now)) case None => None
    ensures Deletes(c) <==> c.value == "" || (age.Some? && (age.value <= 0 || now + age.value > I64_MAX))
  {
    if age.Some? && age.value > 0 {
      WrapFacts(now + age.value);
    }
  }

  lemma {:induction false} MaxAgeInRange(attributes: seq<string>)
    ensures LastMaxAge(attributes).Some? ==> I64_MIN <= LastMaxAge(attributes).value <= I64_MAX
    decreases |attributes|
  {
    if attributes == [] {
    } else {
      MaxAgeInRange(attributes[1..]);
    }
  }
}
