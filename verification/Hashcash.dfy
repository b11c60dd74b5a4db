/** The proof-of-work stamp of the Apple account sign-in. */
module Hashcash {
  import opened Options
  import opened Powers
  import opened Radix
  import opened Text

  datatype HashcashError = MissingBits | MissingChallenge | TooDifficult | Exhausted

  datatype Result<+T> = Ok(value: T) | Err(error: HashcashError)

  datatype AuthState = AuthState(
    completeBits: Option<nat>,
    bits: Option<nat>,
    completeChallenge: Option<string>,
    challenge: Option<string>)

  const ATTEMPTS: nat := 0x100_0000

  // ---- Leading zero bits ----

  /** `u8::leading_zeros`. */
  function ByteZeros(b: nat): nat {
    if b >= 128 then 0 else if b >= 64 then 1 else if b >= 32 then 2 else if b >= 16 then 3
    else if b >= 8 then 4 else if b >= 4 then 5 else if b >= 2 then 6 else if b >= 1 then 7 else 8
  }

  function ZeroBits(d: seq<nat>): nat
    decreases |d|
  {
    if d == [] then 0 else if d[0] == 0 then 8 + ZeroBits(d[1..]) else ByteZeros(d[0])
  }

  method LeadingZeroBits(value: seq<nat>) returns (total: nat)
    ensures total == ZeroBits(value)
  {
    total := 0;
    for i := 0 to |value|
      invariant ZeroBits(value) == total + ZeroBits(value[i..])
    {
      var zeros := ByteZeros(value[i]);
      total := total + zeros;
      assert value[i..][1..] == value[i + 1..];
      if zeros != 8 {
        return;
      }
    }
  }

  lemma ByteThreshold(h: nat, n: nat)
    requires 0 < h < 256 && n <= 8
    ensures ByteZeros(h) >= n <==> h < Pow(2, 8 - n)
  {
    assert Pow(2, 1) == 2;
    assert Pow(2, 2) == 4;
    assert Pow(2, 3) == 8;
    assert Pow(2, 4) == 16;
    assert Pow(2, 5) == 32;
    assert Pow(2, 6) == 64;
    assert Pow(2, 7) == 128;
    assert Pow(2, 8) == 256;
  }

  lemma HeadWeight(d: seq<nat>) returns (p: nat, r: nat)
    requires d != [] && Digits(256, d)
    ensures p == Pow(2, 8 * |d[1..]|) && r == Value(256, d[1..]) && r < p && Value(256, d) == d[0] * p + r
  {
    var t := d[1..];
    assert d == [d[0]] + t;
    ValueAppend(256, [d[0]], t);
    assert [d[0]][..0] == [];
    assert Pow(2, 8) == 256 by {
      assert Pow(2, 4) == 16;
    }
    PowOfPow(2, 8, |t|);
    ValueBound(256, t);
    p, r := Pow(256, |t|), Value(256, t);
  }

  /** Having `n` leading zero bits is being below a power of two. */
  lemma {:induction false} ZeroBitsBound(d: seq<nat>, n: nat)
    requires Digits(256, d) && n <= 8 * |d|
    ensures ZeroBits(d) >= n <==> Value(256, d) < Pow(2, 8 * |d| - n)
    decreases |d|
  {
    if d == [] {
      assert Pow(2, 0) == 1;
    } else {
      var t := d[1..];
      var p, r := HeadWeight(d);
      if d[0] == 0 && n > 8 {
        ZeroBitsBound(t, n - 8);
      } else if n > 8 {
        PowMonotone(2, 8 * |d| - n, 8 * |t|);
        MulMonotone(1, d[0], p);
      } else {
        PowAdd(2, 8 * |t|, 8 - n);
        BelowMultiple(d[0], r, p, Pow(2, 8 - n));
        PowPositive(2, 8 - n);
        if d[0] > 0 {
          ByteThreshold(d[0], n);
        }
      }
    }
  }

  // ---- Radix strings ----

  method Radix36(input: nat) returns (text: string)
    ensures text == Render(36, input)
  {
    if input == 0 {
      return "0";
    }
    var value, output := input, "";
    ghost var done: seq<nat> := [];
    while value > 0
      invariant Digits(36, done) && output == Symbols(done)
      invariant Minimal(36, input) == Minimal(36, value) + Reversed(done)
    {
      var digit := value % 36;
      ReversedPush(done, digit);
      done := done + [digit];
      output := output + [Symbol(digit)];
      value := value / 36;
    }
    MinimalValue(36, input);
    ReversedMaps(done);
    text := Reversed(output);
  }

  function Reversed<T>(s: seq<T>): seq<T> {
    seq(|s|, i requires 0 <= i < |s| => s[|s| - 1 - i])
  }

  lemma ReversedPush<T>(s: seq<T>, x: T)
    ensures Reversed(s + [x]) == [x] + Reversed(s)
  {
  }

  lemma ReversedMaps(s: seq<nat>)
    requires Digits(36, s)
    ensures Digits(36, Reversed(s)) && Reversed(Symbols(s)) == Symbols(Reversed(s))
  {
  }

  // ---- The search ----

  function Prefix(bits: nat, timestamp: string, challenge: string): string {
    "1:" + Render(10, bits) + ":" + timestamp + ":" + challenge + "::"
  }

  /** `first.or(second)`. */
  function Or<T>(first: Option<T>, second: Option<T>): Option<T> {
    if first.Some? then first else second
  }

  function Stamp(prefix: string, counter: nat): string {
    prefix + Render(36, counter)
  }

  /** The six fields a verifier reads: version, bits, time, challenge, nothing, counter. */
  lemma StampFields(bits: nat, timestamp: string, challenge: string, counter: nat)
    requires ':' !in timestamp && ':' !in challenge
    ensures SplitBy(Stamp(Prefix(bits, timestamp, challenge), counter), ':') ==
      ["1", Render(10, bits), timestamp, challenge, "", Render(36, counter)]
    ensures Decode(10, Render(10, bits)) == bits && Decode(36, Render(36, counter)) == counter
  {
    NoColon(10, bits);
    NoColon(36, counter);
    RenderRoundTrip(10, bits);
    RenderRoundTrip(36, counter);
    SameStamp(Render(10, bits), timestamp, challenge, Render(36, counter));
    SplitOfJoin(["1", Render(10, bits), timestamp, challenge, "", Render(36, counter)], ':');
  }

  lemma SameStamp(a: string, b: string, c: string, d: string)
    ensures "1:" + a + ":" + b + ":" + c + "::" + d == JoinBy(["1", a, b, c, "", d], ':')
  {
    var colon := [':'];
    var e := "" + colon + d;
    assert JoinBy(["", d], ':') == e by {
      assert ["", d] == [""] + [d];
      JoinByCons("", [d], ':');
    }
    var x := c + colon + e;
    assert JoinBy([c, "", d], ':') == x by {
      assert [c, "", d] == [c] + ["", d];
      JoinByCons(c, ["", d], ':');
    }
    var y := b + colon + x;
    assert JoinBy([b, c, "", d], ':') == y by {
      assert [b, c, "", d] == [b] + [c, "", d];
      JoinByCons(b, [c, "", d], ':');
    }
    var z := a + colon + y;
    assert JoinBy([a, b, c, "", d], ':') == z by {
      assert [a, b, c, "", d] == [a] + [b, c, "", d];
      JoinByCons(a, [b, c, "", d], ':');
    }
    assert ["1", a, b, c, "", d] == ["1"] + [a, b, c, "", d];
    JoinByCons("1", [a, b, c, "", d], ':');
    Regroup(a, b, c, d);
  }

  lemma Regroup(a: string, b: string, c: string, d: string)
    ensures "1:" + a + ":" + b + ":" + c + "::" + d ==
      "1" + [':'] + (a + [':'] + (b + [':'] + (c + [':'] + ("" + [':'] + d))))
  {
  }

  lemma NoColon(base: nat, v: nat)
    requires 2 <= base <= 36
    ensures ':' !in Render(base, v)
  {
    if v > 0 {
      MinimalValue(base, v);
    }
  }

  /** No two counters try the same string. */
  lemma StampsDiffer(prefix: string, i: nat, j: nat)
    requires Stamp(prefix, i) == Stamp(prefix, j)
    ensures i == j
  {
    assert Stamp(prefix, i)[|prefix|..] == Render(36, i);
    assert Stamp(prefix, j)[|prefix|..] == Render(36, j);
    RenderInjective(36, i, j);
  }

  ghost predicate Meets(sha1: string -> seq<nat>, bits: nat, stamp: string) {
    ZeroBits(sha1(stamp)) >= bits
  }

  method Mint(state: AuthState, timestamp: string, sha1: string -> seq<nat>) returns (r: Result<string>)
    ensures var bits := if state.completeBits.Some? then state.completeBits else state.bits;
      var challenge := if state.completeChallenge.Some? then state.completeChallenge else state.challenge;
      match r
      case Err(MissingBits) => bits.None?
      case Err(MissingChallenge) => bits.Some? && challenge.None?
      case Err(TooDifficult) => bits.Some? && challenge.Some? && bits.value > 24
      case Err(Exhausted) =>
        && bits.Some? && challenge.Some? && bits.value <= 24
        && (forall c | 0 <= c < ATTEMPTS ::
              !Meets(sha1, bits.value, Stamp(Prefix(bits.value, timestamp, challenge.value), c)))
      case Ok(stamp) =>
        && bits.Some? && challenge.Some? && bits.value <= 24 && Meets(sha1, bits.value, stamp)
        && (exists c | 0 <= c < ATTEMPTS ::
              && stamp == Stamp(Prefix(bits.value, timestamp, challenge.value), c)
              && (forall e | 0 <= e < c ::
                    !Meets(sha1, bits.value, Stamp(Prefix(bits.value, timestamp, challenge.value), e))))
  {
    var bits := Or(state.completeBits, state.bits);
    if bits.None? {
      return Err(MissingBits);
    }
    var challenge := Or(state.completeChallenge, state.challenge);
    if challenge.None? {
      return Err(MissingChallenge);
    }
    if bits.value > 24 {
      return Err(TooDifficult);
    }
    var prefix := Prefix(bits.value, timestamp, challenge.value);
    for counter := 0 to ATTEMPTS
      invariant forall c | 0 <= c < counter :: !Meets(sha1, bits.value, Stamp(prefix, c))
    {
      var text := Radix36(counter);
      var value := prefix + text;
      var zeros := LeadingZeroBits(sha1(value));
      if zeros >= bits.value {
        assert value == Stamp(prefix, counter);
        return Ok(value);
      }
    }
    r := Err(Exhausted);
  }

  /** With a 20-byte digest, a stamp meets the difficulty exactly when its digest is small enough as a number. */
  lemma MeetsIsBound(sha1: string -> seq<nat>, bits: nat, stamp: string)
    requires bits <= 24 && Digits(256, sha1(stamp)) && |sha1(stamp)| == 20
    ensures Meets(sha1, bits, stamp) <==> Value(256, sha1(stamp)) < Pow(2, 160 - bits)
  {
    ZeroBitsBound(sha1(stamp), bits);
  }
}
