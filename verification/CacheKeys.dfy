/** The names under which cached attachments are filed. */
module CacheKeys {
  import opened Options
  import opened Powers
  import opened Radix

  type Bytes = seq<nat>

  /** The parts of a message that name it, as UTF-8, and its attachment list as JSON if that can be written. */
  datatype Message = Message(
    id: Bytes, accountId: Bytes, mailbox: Bytes, uid: int, messageId: Option<Bytes>, attachments: Option<Bytes>)

  datatype Key = Key(owner: string, entry: string)

  /** `to_be_bytes`, with as many bytes as asked for. */
  function BigEndian(n: nat, width: nat): Bytes {
    if width == 0 then [] else BigEndian(n / 256, width - 1) + [n % 256]
  }

  const WORD: nat := 8

  function Frame(value: Bytes): Bytes {
    BigEndian(|value|, WORD) + value
  }

  function Framed(values: seq<Bytes>): Bytes
    decreases |values|
  {
    if values == [] then [] else Frame(values[0]) + Framed(values[1..])
  }

  function Ascii(s: string): Bytes {
    seq(|s|, i requires 0 <= i < |s| => s[i] as nat)
  }

  function Decimal(n: int): string {
    if n < 0 then "-" + Render(10, -n) else Render(10, n)
  }

  function Parts(m: Message, index: nat): seq<Bytes> {
    [m.id, m.accountId, m.mailbox, Ascii(Decimal(m.uid)), if m.messageId.Some? then m.messageId.value else [],
     Ascii(Decimal(index))] + if m.attachments.Some? then [m.attachments.value] else []
  }

  function KeyOf(digest: Bytes -> string, owner: Bytes, m: Message, index: nat): Key {
    Key(digest(owner), digest(Framed(Parts(m, index))))
  }

  // ---- No two attachments share a name ----

  const WORDS: int := 0x1_0000_0000_0000_0000

  /** Lengths that a 64-bit count can hold. */
  ghost predicate Countable(values: seq<Bytes>) {
    forall v :: v in values ==> |v| < WORDS
  }

  /** A message of the program: every text is shorter than 2^64 bytes, and the number fits in 64 signed bits. */
  predicate Sized(m: Message) {
    && |m.id| < WORDS && |m.accountId| < WORDS && |m.mailbox| < WORDS && -WORDS <= 2 * m.uid < WORDS
    && (m.messageId.Some? ==> |m.messageId.value| < WORDS) && (m.attachments.Some? ==> |m.attachments.value| < WORDS)
  }

  lemma WordCounts()
    ensures Pow(256, WORD) == WORDS
  {
    assert Pow(256, 1) == 256 && Pow(256, 2) == 0x1_0000 && Pow(256, 3) == 0x100_0000;
    assert Pow(256, 4) == 0x1_0000_0000 && Pow(256, 5) == 0x100_0000_0000 && Pow(256, 6) == 0x1_0000_0000_0000;
    assert Pow(256, 7) == 0x100_0000_0000_0000;
  }

  lemma {:induction false} FewDigits(v: nat)
    ensures |Minimal(10, v)| <= v
    decreases v
  {
    if v == 0 {
    } else {
      var q, r := MinimalStep(10, v);
      FewDigits(q);
    }
  }

  lemma DecimalFits(n: int)
    requires -WORDS <= 2 * n && n < WORDS
    ensures |Ascii(Decimal(n))| < WORDS
  {
    FewDigits(if n < 0 then -n else n);
  }

  lemma PartsCountable(m: Message, index: nat)
    requires Sized(m) && index < WORDS
    ensures Countable(Parts(m, index))
  {
    DecimalFits(m.uid);
    DecimalFits(index);
  }

  lemma {:induction false} BigEndianLength(n: nat, width: nat)
    ensures |BigEndian(n, width)| == width
    decreases width
  {
    if width == 0 {
    } else {
      BigEndianLength(n / 256, width - 1);
    }
  }

  lemma {:induction false} BigEndianInjective(n: nat, m: nat, width: nat)
    requires n < Pow(256, width) && m < Pow(256, width) && BigEndian(n, width) == BigEndian(m, width)
    ensures n == m
    decreases width
  {
    if width == 0 {
    } else {
      var a, b := BigEndian(n / 256, width - 1), BigEndian(m / 256, width - 1);
      BigEndianLength(n / 256, width - 1);
      BigEndianLength(m / 256, width - 1);
      assert (a + [n % 256])[width - 1] == n % 256 && (b + [m % 256])[width - 1] == m % 256;
      assert a == (a + [n % 256])[..width - 1] && b == (b + [m % 256])[..width - 1];
      assert Pow(256, width) == 256 * Pow(256, width - 1);
      BigEndianInjective(n / 256, m / 256, width - 1);
    }
  }

  lemma FrameIsPrefixFree(v: Bytes, w: Bytes, x: Bytes, y: Bytes)
    requires |v| < WORDS && |w| < WORDS && Frame(v) + x == Frame(w) + y
    ensures v == w && x == y
  {
    WordCounts();
    BigEndianLength(|v|, WORD);
    BigEndianLength(|w|, WORD);
    var s := Frame(v) + x;
    assert BigEndian(|v|, WORD) == s[..WORD] == BigEndian(|w|, WORD);
    BigEndianInjective(|v|, |w|, WORD);
    assert v == s[WORD..WORD + |v|] == w;
    assert x == s[WORD + |v|..] == y;
  }

  /** Framed lists can be told apart, whatever their lengths. */
  lemma {:induction false} FramedInjective(vs: seq<Bytes>, ws: seq<Bytes>)
    requires Countable(vs) && Countable(ws) && Framed(vs) == Framed(ws)
    ensures vs == ws
    decreases |vs|
  {
    if vs == [] || ws == [] {
      FramedEmpty(vs);
      FramedEmpty(ws);
    } else {
      FrameIsPrefixFree(vs[0], ws[0], Framed(vs[1..]), Framed(ws[1..]));
      FramedInjective(vs[1..], ws[1..]);
      assert vs == [vs[0]] + vs[1..] && ws == [ws[0]] + ws[1..];
    }
  }

  lemma FramedEmpty(vs: seq<Bytes>)
    ensures Framed(vs) == [] <==> vs == []
  {
    if vs != [] {
      BigEndianLength(|vs[0]|, WORD);
    }
  }

  lemma AsciiInjective(s: string, t: string)
    requires Ascii(s) == Ascii(t)
    ensures s == t
  {
    assert |s| == |Ascii(s)| == |t|;
    forall i | 0 <= i < |s|
      ensures s[i] == t[i]
    {
      assert Ascii(s)[i] == Ascii(t)[i];
    }
  }

  lemma RenderStartsWithDigit(n: nat)
    ensures Render(10, n) != "" && '0' <= Render(10, n)[0] <= '9'
  {
    if n > 0 {
      MinimalValue(10, n);
    }
  }

  lemma DecimalInjective(a: int, b: int)
    requires Decimal(a) == Decimal(b)
    ensures a == b
  {
    if a < 0 && b < 0 {
      MinusInjective(Render(10, -a), Render(10, -b));
      RenderInjective(10, -a, -b);
    } else if a >= 0 && b >= 0 {
      RenderInjective(10, a, b);
    } else {
      SignsDiffer(if a < 0 then a else b, if a < 0 then b else a);
    }
  }

  lemma MinusInjective(s: string, t: string)
    requires "-" + s == "-" + t
    ensures s == t
  {
    assert s == ("-" + s)[1..] && t == ("-" + t)[1..];
  }

  lemma SignsDiffer(a: int, b: int)
    requires a < 0 <= b
    ensures Decimal(a) != Decimal(b)
  {
    RenderStartsWithDigit(b);
    assert Decimal(a)[0] == '-';
  }

  /** The two messages differ in nothing that names them; a missing message identifier counts as an empty one. */
  predicate SameName(m: Message, n: Message) {
    && m.id == n.id && m.accountId == n.accountId && m.mailbox == n.mailbox && m.uid == n.uid
    && (if m.messageId.Some? then m.messageId.value else []) == (if n.messageId.Some? then n.messageId.value else [])
    && m.attachments == n.attachments
  }

  lemma PartsInjective(m: Message, i: nat, n: Message, j: nat)
    ensures Parts(m, i) == Parts(n, j) <==> SameName(m, n) && i == j
  {
    var p, q := Parts(m, i), Parts(n, j);
    if p == q {
      assert p[0] == q[0] && p[1] == q[1] && p[2] == q[2] && p[3] == q[3] && p[4] == q[4] && p[5] == q[5];
      AsciiInjective(Decimal(m.uid), Decimal(n.uid));
      AsciiInjective(Decimal(i), Decimal(j));
      DecimalInjective(m.uid, n.uid);
      DecimalInjective(i, j);
      assert |p| == |q|;
      assert |p| == 7 ==> p[6] == q[6];
    }
  }

  /** The digest does not confuse these two texts. */
  predicate TellsApart(digest: Bytes -> string, x: Bytes, y: Bytes) {
    digest(x) == digest(y) ==> x == y
  }

  /** Two attachments are filed under one name exactly when owner, message and index agree. */
  lemma KeysAgreeExactly(digest: Bytes -> string, owner: Bytes, m: Message, i: nat, owner': Bytes, n: Message, j: nat)
    requires Sized(m) && Sized(n) && i < WORDS && j < WORDS
    requires TellsApart(digest, owner, owner') && TellsApart(digest, Framed(Parts(m, i)), Framed(Parts(n, j)))
    ensures KeyOf(digest, owner, m, i) == KeyOf(digest, owner', n, j) <==> owner == owner' && SameName(m, n) && i == j
  {
    PartsInjective(m, i, n, j);
    PartsCountable(m, i);
    PartsCountable(n, j);
    if KeyOf(digest, owner, m, i) == KeyOf(digest, owner', n, j) {
      FramedInjective(Parts(m, i), Parts(n, j));
    }
  }
}
