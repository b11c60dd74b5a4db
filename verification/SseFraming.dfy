/** Cutting the event stream of the service into blocks, however the network cuts it into chunks. */
module SseFraming {
  import opened Options
  import opened Text

  type Bytes = seq<nat>

  const CRLF2: Bytes := [13, 10, 13, 10]
  const LF2: Bytes := [10, 10]

  /** A block with the delimiter that ended it. */
  datatype Block = Block(content: Bytes, delimiter: Bytes)

  datatype Framed = Framed(blocks: seq<Block>, rest: Bytes)

  predicate At(d: Bytes, s: Bytes, i: int) {
    0 <= i && i + |d| <= |s| && s[i..i + |d|] == d
  }

  /** `windows(n).position(...)`: the first place of `d` from `i` on. */
  function FindFrom(d: Bytes, s: Bytes, i: nat): (r: Option<nat>)
    requires i <= |s|
    ensures r.Some? ==> At(d, s, r.value)
    decreases |s| - i
  {
    if At(d, s, i) then Some(i) else if i == |s| then None else FindFrom(d, s, i + 1)
  }

  function First(d: Bytes, s: Bytes): (r: Option<nat>)
    ensures r.Some? ==> At(d, s, r.value)
  {
    FindFrom(d, s, 0)
  }

  lemma {:induction false} FindFromIs(d: Bytes, s: Bytes, i: nat)
    requires i <= |s|
    ensures var r := FindFrom(d, s, i);
      && (r.Some? ==> forall j :: i <= j < r.value ==> !At(d, s, j))
      && (r.None? ==> forall j :: i <= j ==> !At(d, s, j))
    decreases |s| - i
  {
    if !At(d, s, i) && i < |s| {
      FindFromIs(d, s, i + 1);
    }
  }

  lemma FirstIs(d: Bytes, s: Bytes)
    ensures First(d, s).Some? ==> forall j :: 0 <= j < First(d, s).value ==> !At(d, s, j)
    ensures First(d, s).None? ==> forall j :: !At(d, s, j)
  {
    FindFromIs(d, s, 0);
  }

  lemma FirstUnique(d: Bytes, s: Bytes, i: nat)
    requires At(d, s, i) && forall j :: 0 <= j < i ==> !At(d, s, j)
    ensures First(d, s) == Some(i)
  {
    FirstIs(d, s);
  }

  /** Where the next block ends: a CRLF pair anywhere wins over an LF pair. */
  function Cut(s: Bytes): (r: Option<(nat, Bytes)>)
    ensures r.Some? ==> At(r.value.1, s, r.value.0) && |r.value.1| > 0
  {
    match First(CRLF2, s)
    case Some(i) => Some((i, CRLF2))
    case None =>
      match First(LF2, s)
      case Some(i) => Some((i, LF2))
      case None => None
  }

  function Rest(s: Bytes, i: nat, d: Bytes): Bytes
    requires At(d, s, i)
  {
    s[i + |d|..]
  }

  /** The inner loop of the reader: cut blocks while there are any. */
  function Drain(s: Bytes): Framed
    decreases |s|
  {
    match Cut(s)
    case None => Framed([], s)
    case Some((i, d)) =>
      var f := Drain(Rest(s, i, d));
      Framed([Block(s[..i], d)] + f.blocks, f.rest)
  }

  /** The outer loop: append a chunk, drain, go on with what is left. */
  function FeedAll(buffer: Bytes, chunks: seq<Bytes>): Framed
    decreases |chunks|
  {
    if chunks == [] then Framed([], buffer)
    else
      var f := Drain(buffer + chunks[0]);
      var g := FeedAll(f.rest, chunks[1..]);
      Framed(f.blocks + g.blocks, g.rest)
  }

  function Joined(chunks: seq<Bytes>): Bytes
    decreases |chunks|
  {
    if chunks == [] then [] else chunks[0] + Joined(chunks[1..])
  }

  // ---- Nothing is lost ----

  function Wire(blocks: seq<Block>): Bytes
    decreases |blocks|
  {
    if blocks == [] then [] else blocks[0].content + blocks[0].delimiter + Wire(blocks[1..])
  }

  lemma {:induction false} WireAppend(a: seq<Block>, b: seq<Block>)
    ensures Wire(a + b) == Wire(a) + Wire(b)
    decreases |a|
  {
    if a == [] {
      assert a + b == b;
    } else {
      WireAppend(a[1..], b);
      assert (a + b)[1..] == a[1..] + b;
    }
  }

  lemma DrainStep(s: Bytes) returns (i: nat, d: Bytes, rest: Bytes)
    requires Cut(s).Some?
    ensures Cut(s) == Some((i, d)) && At(d, s, i) && rest == Rest(s, i, d) && |rest| < |s| && s == s[..i] + d + rest
    ensures Drain(s) == Framed([Block(s[..i], d)] + Drain(rest).blocks, Drain(rest).rest)
  {
    i, d := Cut(s).value.0, Cut(s).value.1;
    rest := Rest(s, i, d);
  }

  lemma WireCons(block: Block, blocks: seq<Block>)
    ensures Wire([block] + blocks) == block.content + block.delimiter + Wire(blocks)
  {
    assert ([block] + blocks)[1..] == blocks;
  }

  lemma {:induction false} DrainConserves(s: Bytes)
    ensures Wire(Drain(s).blocks) + Drain(s).rest == s && Cut(Drain(s).rest).None?
    decreases |s|
  {
    if Cut(s).Some? {
      var i, d, rest := DrainStep(s);
      DrainConserves(rest);
      var f := Drain(rest);
      WireCons(Block(s[..i], d), f.blocks);
      Associative(s[..i] + d, Wire(f.blocks), f.rest);
    }
  }

  /** Blocks, their delimiters and the remaining buffer are together exactly the bytes fed. */
  lemma {:induction false} FeedConserves(buffer: Bytes, chunks: seq<Bytes>)
    ensures var f := FeedAll(buffer, chunks); Wire(f.blocks) + f.rest == buffer + Joined(chunks)
    decreases |chunks|
  {
    if chunks == [] {
    } else {
      var f := Drain(buffer + chunks[0]);
      var g := FeedAll(f.rest, chunks[1..]);
      DrainConserves(buffer + chunks[0]);
      FeedConserves(f.rest, chunks[1..]);
      WireAppend(f.blocks, g.blocks);
      Associative(Wire(f.blocks), Wire(g.blocks), g.rest);
      Associative(Wire(f.blocks), f.rest, Joined(chunks[1..]));
      Associative(buffer, chunks[0], Joined(chunks[1..]));
    }
  }

  // ---- When chunking does not matter ----

  /** No LF pair lies before a CRLF pair at which the whole stream would be cut. */
  predicate Unambiguous(s: Bytes)
    decreases |s|
  {
    match First(CRLF2, s)
    case None => true
    case Some(i) => !LfBefore(s, i) && Unambiguous(Rest(s, i, CRLF2))
  }

  predicate LfBefore(s: Bytes, i: nat) {
    First(LF2, s).Some? && First(LF2, s).value < i
  }

  lemma AtPrefix(d: Bytes, x: Bytes, y: Bytes, i: int)
    ensures At(d, x, i) ==> At(d, x + y, i)
    ensures i + |d| <= |x| && At(d, x + y, i) ==> At(d, x, i)
  {
    if 0 <= i && i + |d| <= |x| {
      assert (x + y)[i..i + |d|] == x[i..i + |d|];
    }
  }

  /** The first place of a delimiter in a prefix is the first place in the whole. */
  lemma FirstStable(d: Bytes, x: Bytes, y: Bytes)
    requires First(d, x).Some?
    ensures First(d, x + y) == First(d, x)
  {
    var i := First(d, x).value;
    AtPrefix(d, x, y, i);
    FirstIs(d, x);
    forall j | 0 <= j < i
      ensures !At(d, x + y, j)
    {
      AtPrefix(d, x, y, j);
    }
    FirstUnique(d, x + y, i);
  }

  /** The two delimiters never start at neighbouring places with the LF pair second. */
  lemma Apart(s: Bytes, i: int, k: int)
    requires At(LF2, s, i) && At(CRLF2, s, k) && k <= i
    ensures k + 3 <= i
  {
    assert s[i] == s[i..i + 2][0] == 10 && s[i + 1] == s[i..i + 2][1] == 10;
    assert s[k] == s[k..k + 4][0] == 13 && s[k + 1] == s[k..k + 4][1] == 10;
    assert s[k + 2] == s[k..k + 4][2] == 13 && s[k + 3] == s[k..k + 4][3] == 10;
  }

  /** If the prefix would be cut at an LF pair and the stream is unambiguous, there is no CRLF pair at all. */
  lemma NoLaterCrlf(x: Bytes, y: Bytes)
    requires Unambiguous(x + y) && First(CRLF2, x).None? && First(LF2, x).Some?
    ensures First(CRLF2, x + y).None?
  {
    var i := First(LF2, x).value;
    FirstStable(LF2, x, y);
    var c := First(CRLF2, x + y);
    if c.Some? && c.value <= i {
      Apart(x + y, i, c.value);
      AtPrefix(CRLF2, x, y, c.value);
      FirstIs(CRLF2, x);
    }
  }

  lemma SuffixAt(d: Bytes, s: Bytes, k: nat, j: int)
    requires k <= |s| && At(d, s[k..], j)
    ensures At(d, s, j + k)
  {
    assert s[k..][j..j + |d|] == s[j + k..j + k + |d|];
  }

  lemma SuffixKeepsNone(d: Bytes, s: Bytes, k: nat)
    requires k <= |s| && First(d, s).None?
    ensures First(d, s[k..]).None?
  {
    FirstIs(d, s);
    if First(d, s[k..]).Some? {
      SuffixAt(d, s, k, First(d, s[k..]).value);
    }
  }

  /** The cut of a prefix is the cut of the whole, and what follows stays unambiguous. */
  lemma CutStable(x: Bytes, y: Bytes, i: nat, d: Bytes)
    requires Unambiguous(x + y) && Cut(x) == Some((i, d))
    ensures Cut(x + y) == Some((i, d)) && At(d, x + y, i)
    ensures Rest(x + y, i, d) == Rest(x, i, d) + y && Unambiguous(Rest(x, i, d) + y)
  {
    AtPrefix(d, x, y, i);
    assert Rest(x + y, i, d) == Rest(x, i, d) + y;
    FirstStable(d, x, y);
    if d == LF2 {
      NoLaterCrlf(x, y);
      SuffixKeepsNone(CRLF2, x + y, i + 2);
    }
  }

  lemma {:induction false} DrainSplit(x: Bytes, y: Bytes)
    requires Unambiguous(x + y)
    ensures Unambiguous(Drain(x).rest + y)
    ensures var f, g := Drain(x), Drain(Drain(x).rest + y); Drain(x + y) == Framed(f.blocks + g.blocks, g.rest)
    decreases |x|
  {
    if Cut(x).Some? {
      var i, d, rest := DrainStep(x);
      CutStable(x, y, i, d);
      DrainSplit(rest, y);
      var i', d', rest' := DrainStep(x + y);
      assert (x + y)[..i] == x[..i];
    }
  }

  lemma {:induction false} FeedIsDrain(buffer: Bytes, chunks: seq<Bytes>)
    requires Unambiguous(buffer + Joined(chunks)) && Cut(buffer).None?
    ensures FeedAll(buffer, chunks) == Drain(buffer + Joined(chunks))
    decreases |chunks|
  {
    if chunks == [] {
      assert buffer + [] == buffer;
    } else {
      var x, y := buffer + chunks[0], Joined(chunks[1..]);
      assert x + y == buffer + Joined(chunks);
      DrainSplit(x, y);
      DrainConserves(x);
      FeedIsDrain(Drain(x).rest, chunks[1..]);
    }
  }

  // ---- When it does ----

  ghost predicate DifferAt(a: seq<Block>, b: seq<Block>, k: nat) {
    k < |a| && k < |b| && a[k].content != b[k].content
  }

  ghost predicate Differ(a: seq<Block>, b: seq<Block>) {
    exists k: nat :: DifferAt(a, b, k)
  }

  lemma DifferCons(block: Block, a: seq<Block>, b: seq<Block>)
    requires Differ(a, b)
    ensures Differ([block] + a, [block] + b)
  {
    var k: nat :| DifferAt(a, b, k);
    assert DifferAt([block] + a, [block] + b, k + 1);
  }

  /** Cut right behind the LF pair, the first half already yields a shorter block. */
  lemma SplitHere(s: Bytes, i: nat, j: nat)
    requires First(CRLF2, s) == Some(i) && First(LF2, s) == Some(j) && j < i
    ensures var f := Drain(s[..j + 2]); f.blocks != [] && f.blocks[0].content == s[..j]
  {
    var x := s[..j + 2];
    assert s == x + s[j + 2..];
    FirstIs(CRLF2, s);
    FirstIs(LF2, s);
    forall k
      ensures !At(CRLF2, x, k)
    {
      AtPrefix(CRLF2, x, s[j + 2..], k);
    }
    forall k | 0 <= k < j
      ensures !At(LF2, x, k)
    {
      AtPrefix(LF2, x, s[j + 2..], k);
    }
    assert x[j..j + 2] == s[j..j + 2];
    assert At(LF2, x, j);
    FirstUnique(LF2, x, j);
    assert Cut(x) == Some((j, LF2));
    assert x[..j] == s[..j];
  }

  /** A CRLF pair that both framings see is cut alike by both. */
  lemma SplitLater(s: Bytes, i: nat, q: nat)
    requires First(CRLF2, s) == Some(i) && i + 4 + q <= |s|
    ensures var t := Rest(s, i, CRLF2);
      var f, g := Drain(s[..i + 4 + q]), Drain(t[..q]);
      f == Framed([Block(s[..i], CRLF2)] + g.blocks, g.rest)
  {
    var p := i + 4 + q;
    var x := s[..p];
    assert s == x + s[p..];
    assert x[i..i + 4] == s[i..i + 4];
    assert At(CRLF2, x, i);
    FirstIs(CRLF2, s);
    forall k | 0 <= k < i
      ensures !At(CRLF2, x, k)
    {
      AtPrefix(CRLF2, x, s[p..], k);
    }
    FirstUnique(CRLF2, x, i);
    assert x[..i] == s[..i];
    assert Rest(x, i, CRLF2) == Rest(s, i, CRLF2)[..q];
  }

  /** A stream in two chunks. */
  function FeedTwo(s: Bytes, p: nat): Framed
    requires p <= |s|
  {
    var f := Drain(s[..p]);
    var g := Drain(f.rest + s[p..]);
    Framed(f.blocks + g.blocks, g.rest)
  }

  lemma FeedTwoIs(s: Bytes, p: nat)
    requires p <= |s|
    ensures FeedAll([], [s[..p], s[p..]]) == FeedTwo(s, p)
  {
    var chunks := [s[..p], s[p..]];
    var f := Drain(s[..p]);
    assert chunks[1..] == [s[p..]] && [s[p..]][1..] == [] && [] + s[..p] == s[..p];
    var g := Drain(f.rest + s[p..]);
    assert FeedAll(f.rest, [s[p..]]) == Framed(g.blocks + [], g.rest);
    assert g.blocks + [] == g.blocks;
  }

  /** There is a place at which cutting the stream in two changes a block. */
  ghost predicate Splittable(s: Bytes) {
    exists p: nat :: p <= |s| && Differ(FeedTwo(s, p).blocks, Drain(s).blocks)
  }

  lemma {:induction false} AmbiguousSplittable(s: Bytes)
    requires !Unambiguous(s)
    ensures Splittable(s)
    decreases |s|
  {
    var i := First(CRLF2, s).value;
    if LfBefore(s, i) {
      SplittableHere(s);
    } else {
      AmbiguousSplittable(Rest(s, i, CRLF2));
      SplittableLater(s, i);
    }
  }

  lemma SplittableLater(s: Bytes, i: nat)
    requires First(CRLF2, s) == Some(i) && Splittable(Rest(s, i, CRLF2))
    ensures Splittable(s)
  {
    var t := Rest(s, i, CRLF2);
    var q: nat :| q <= |t| && Differ(FeedTwo(t, q).blocks, Drain(t).blocks);
    DrainAtCrlf(s, i);
    DiffersLater(s, i, q);
    DifferCons(Block(s[..i], CRLF2), FeedTwo(t, q).blocks, Drain(t).blocks);
  }

  lemma DrainAtCrlf(s: Bytes, i: nat)
    requires First(CRLF2, s) == Some(i)
    ensures Drain(s).blocks == [Block(s[..i], CRLF2)] + Drain(Rest(s, i, CRLF2)).blocks
  {
    var i', d, rest := DrainStep(s);
  }

  lemma SplittableHere(s: Bytes)
    requires First(CRLF2, s).Some? && LfBefore(s, First(CRLF2, s).value)
    ensures Splittable(s)
  {
    var i, d, t := DrainStep(s);
    var j := First(LF2, s).value;
    SplitHere(s, i, j);
    assert |s[..i]| != |s[..j]|;
    assert DifferAt(FeedTwo(s, j + 2).blocks, Drain(s).blocks, 0);
  }

  lemma DiffersLater(s: Bytes, i: nat, q: nat)
    requires First(CRLF2, s) == Some(i) && i + 4 + q <= |s|
    ensures FeedTwo(s, i + 4 + q).blocks == [Block(s[..i], CRLF2)] + FeedTwo(Rest(s, i, CRLF2), q).blocks
  {
    var t := Rest(s, i, CRLF2);
    SplitLater(s, i, q);
    assert s[i + 4 + q..] == t[q..];
    var f := Drain(t[..q]);
    Associative([Block(s[..i], CRLF2)], f.blocks, Drain(f.rest + t[q..]).blocks);
  }

  lemma JoinedTwo(s: Bytes, p: nat)
    requires p <= |s|
    ensures Joined([s[..p], s[p..]]) == s
  {
    assert [s[..p], s[p..]][1..] == [s[p..]] && [s[p..]][1..] == [];
    assert s[p..] + [] == s[p..];
    assert Joined([s[p..]]) == s[p..];
    assert s[..p] + s[p..] == s;
  }

  lemma DifferUnequal(a: seq<Block>, b: seq<Block>)
    requires Differ(a, b)
    ensures a != b
  {
  }

  lemma SplittableDiffers(s: Bytes) returns (chunks: seq<Bytes>)
    requires Splittable(s)
    ensures Joined(chunks) == s && FeedAll([], chunks).blocks != Drain(s).blocks
  {
    var p: nat :| p <= |s| && Differ(FeedTwo(s, p).blocks, Drain(s).blocks);
    DifferUnequal(FeedTwo(s, p).blocks, Drain(s).blocks);
    chunks := [s[..p], s[p..]];
    FeedTwoIs(s, p);
    JoinedTwo(s, p);
  }

  /** Every way of chunking a stream frames it alike exactly when the stream is unambiguous. */
  lemma ChunkingIrrelevantExactly(s: Bytes)
    ensures (forall chunks :: Joined(chunks) == s ==> FeedAll([], chunks) == Drain(s)) <==> Unambiguous(s)
  {
    if Unambiguous(s) {
      forall chunks | Joined(chunks) == s
        ensures FeedAll([], chunks) == Drain(s)
      {
        assert [] + s == s;
        FeedIsDrain([], chunks);
      }
    } else {
      AmbiguousSplittable(s);
      var chunks := SplittableDiffers(s);
    }
  }

  /** A stream that uses only one of the two delimiters is unambiguous. */
  lemma OneDelimiterUnambiguous(s: Bytes)
    requires First(CRLF2, s).None? || First(LF2, s).None?
    ensures Unambiguous(s)
    decreases |s|
  {
    if First(CRLF2, s).Some? {
      var i := First(CRLF2, s).value;
      SuffixKeepsNone(LF2, s, i + 4);
      OneDelimiterUnambiguous(Rest(s, i, CRLF2));
    }
  }
}
