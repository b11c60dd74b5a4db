/**
A sign-in server written from section 3 of RFC 2945 and sections 2.5 and 2.6 of RFC 5054 over the bytes it receives,
with nothing of the client but the secret arithmetic, and a whole exchange with it.
*/
module SrpServer {
  import opened Options
  import opened Powers
  import opened Srp

  // ---- Enrolment ----

  predicate LowerHex(c: nat) {
    48 <= c <= 57 || 97 <= c <= 102
  }

  function HexValue(c: nat): nat
    requires LowerHex(c)
  {
    if c <= 57 then c - 48 else c - 97 + 10
  }

  /** `text` is the byte string in lower-case hexadecimal digits. */
  ghost predicate IsHexOf(text: Bytes, value: Bytes) {
    && |text| == 2 * |value| && (forall i :: 0 <= i < |text| ==> LowerHex(text[i]))
    && forall i :: 0 <= i < |value| ==> 16 * HexValue(text[2 * i]) + HexValue(text[2 * i + 1]) == value[i]
  }

  /** What the two password protocols derive a key from. */
  ghost predicate EnrolledInput(p: Primitives, password: Bytes, protocol: string, input: Bytes) {
    || (protocol == "s2k" && input == p.sha256(password))
    || (protocol == "s2k_fo" && IsHexOf(input, p.sha256(password)))
  }

  /** `x = H(s | H(I | ":" | P))` with an empty identity and the derived key for the password. */
  function EnrolledExponent(p: Primitives, input: Bytes, salt: Bytes, iterations: nat): nat {
    var identity, colon: Bytes := [], [':' as nat];
    Value(256, p.sha256(salt + p.sha256(identity + colon + p.pbkdf2(input, salt, iterations))))
  }

  // ---- The server ----

  datatype Server = Server(n: nat, username: Bytes, salt: Bytes, v: nat, b: nat)

  /** `PAD`: the big-endian bytes of a number, at least `width` of them. */
  function Wide(v: nat, width: nat): Bytes
    decreases v, width
  {
    if v == 0 && width == 0 then [] else Wide(v / 256, if width == 0 then 0 else width - 1) + [v % 256]
  }

  function ModulusBytes(s: Server): Bytes {
    Wide(s.n, 0)
  }

  function GeneratorBytes(): Bytes {
    Wide(2, 256)
  }

  /** `B = k*v + g^b`, with `k = H(N | PAD(g))`. */
  function PublicB(p: Primitives, s: Server): nat
    requires s.n >= 2
  {
    ServerPublic(Value(256, p.sha256(ModulusBytes(s) + GeneratorBytes())), s.v, s.b, s.n)
  }

  function SentB(p: Primitives, s: Server): Bytes
    requires s.n >= 2
  {
    Wide(PublicB(p, s), 256)
  }

  /** `u = H(PAD(A) | PAD(B))`, from the bytes of `A` as received. */
  function ServerScrambler(p: Primitives, s: Server, receivedA: Bytes): nat
    requires s.n >= 2
  {
    Value(256, p.sha256(receivedA + SentB(p, s)))
  }

  /** `K = H(S)`, from the server's own secret. */
  function SessionKey(p: Primitives, s: Server, receivedA: Bytes): Bytes
    requires s.n >= 2
  {
    p.sha256(Wide(ServerSecret(Value(256, receivedA), s.v, ServerScrambler(p, s, receivedA), s.b, s.n), 256))
  }

  /** `M = H(H(N) xor H(g) | H(U) | s | A | B | K)`. */
  function ExpectedProof(p: Primitives, s: Server, receivedA: Bytes): Bytes
    requires s.n >= 2
  {
    p.sha256(Xor(p.sha256(ModulusBytes(s)), p.sha256(GeneratorBytes())) + p.sha256(s.username) + s.salt + receivedA
             + SentB(p, s) + SessionKey(p, s, receivedA))
  }

  /** The server's answer `H(A | M | K)` to the one proof it accepts; `A` must not be zero modulo `N`. */
  function Answer(p: Primitives, s: Server, receivedA: Bytes, m1: Bytes): Option<Bytes>
    requires s.n >= 2
  {
    if Value(256, receivedA) % s.n == 0 || m1 != ExpectedProof(p, s, receivedA) then None
    else Some(p.sha256(receivedA + m1 + SessionKey(p, s, receivedA)))
  }

  // ---- The encodings of both sides agree ----

  /** `PaddedTo` for a width of zero as well. */
  function PaddedFrom(v: nat, width: nat): Bytes {
    var m := Minimal(256, v);
    if |m| >= width then m else Zeros(width - |m|) + m
  }

  lemma PaddedFromStep(v: nat, width: nat)
    requires v > 0 || width > 0
    ensures PaddedFrom(v, width) == PaddedFrom(v / 256, if width == 0 then 0 else width - 1) + [v % 256]
  {
    if v == 0 {
      assert Zeros(width) == Zeros(width - 1) + [0];
    } else {
      var m, front := Minimal(256, v), Minimal(256, v / 256);
      assert m == front + [v % 256];
      if |m| < width {
        assert Zeros(width - |m|) + (front + [v % 256]) == (Zeros(width - |m|) + front) + [v % 256];
      }
    }
  }

  lemma {:induction false} WideIsPadded(v: nat, width: nat)
    ensures Wide(v, width) == PaddedFrom(v, width)
    decreases v, width
  {
    if v == 0 && width == 0 {
    } else {
      PaddedFromStep(v, width);
      WideIsPadded(v / 256, if width == 0 then 0 else width - 1);
    }
  }

  /** The client's padding is the server's, for every width. */
  lemma PaddingAgrees(v: nat, width: nat)
    requires width >= 1
    ensures PaddedTo(v, width) == Wide(v, width)
  {
    WideIsPadded(v, width);
    if v == 0 {
      assert Zeros(width - 1) + [0] == Zeros(width);
    }
  }

  lemma ModulusAgrees(n: nat)
    requires n >= 2
    ensures ToBytes(n) == Wide(n, 0)
  {
    WideIsPadded(n, 0);
  }

  lemma {:induction false} XorBitsCommutes(a: nat, b: nat)
    ensures XorBits(a, b) == XorBits(b, a)
    decreases a + b
  {
    if a == 0 && b == 0 {
    } else {
      XorBitsCommutes(a / 2, b / 2);
    }
  }

  lemma {:induction false} XorCommutes(a: Bytes, b: Bytes)
    ensures Xor(a, b) == Xor(b, a)
    decreases |a|
  {
    if a == [] || b == [] {
    } else {
      XorBitsCommutes(a[0], b[0]);
      XorCommutes(a[1..], b[1..]);
    }
  }

  lemma XorStep(a: nat, b: nat)
    requires a > 0 || b > 0
    ensures XorBits(a, b) / 2 == XorBits(a / 2, b / 2) && XorBits(a, b) % 2 == (a + b) % 2
  {
  }

  lemma BitUndone(x: nat, a: nat, b: nat)
    requires x % 2 == (a + b) % 2
    ensures (x + b) % 2 == a % 2
  {
  }

  /** Combining twice with the same bits gives the first ones back, as an exclusive or must. */
  lemma {:induction false} XorBitsUndoes(a: nat, b: nat)
    ensures XorBits(XorBits(a, b), b) == a
    decreases a + b
  {
    if b == 0 {
      XorZero(a);
    } else {
      var x := XorBits(a, b);
      XorBitsUndoes(a / 2, b / 2);
      XorStep(a, b);
      XorStep(x, b);
      BitUndone(x, a, b);
      assert XorBits(x, b) / 2 == a / 2 && XorBits(x, b) % 2 == a % 2;
    }
  }

  lemma {:induction false} XorUndoes(a: Bytes, b: Bytes)
    requires |a| <= |b|
    ensures |Xor(a, b)| == |a| && Xor(Xor(a, b), b) == a
    decreases |a|
  {
    if a == [] {
    } else {
      XorBitsUndoes(a[0], b[0]);
      XorUndoes(a[1..], b[1..]);
    }
  }

  lemma {:induction false} XorZero(a: nat)
    ensures XorBits(a, 0) == a
    decreases a
  {
    if a == 0 {
    } else {
      XorZero(a / 2);
    }
  }

  // ---- The password input ----

  lemma HexDigitDecodes(d: nat)
    requires d < 16
    ensures LowerHex(HexDigit(d)) && HexValue(HexDigit(d)) == d
  {
  }

  /** The text fed to the key derivation is the digest in lower-case hexadecimal digits. */
  lemma {:induction false} HexLowerIsHex(value: Bytes)
    requires Digits(256, value)
    ensures IsHexOf(HexLower(value), value)
    decreases |value|
  {
    if value == [] {
    } else {
      var rest, text := value[1..], HexLower(value);
      HexLowerIsHex(rest);
      HexDigitDecodes(value[0] / 16);
      HexDigitDecodes(value[0] % 16);
      var tail := HexLower(rest);
      forall i | 0 <= i < |text|
        ensures LowerHex(text[i])
      {
        assert i >= 2 ==> text[i] == tail[i - 2];
      }
      forall i | 0 <= i < |value|
        ensures 16 * HexValue(text[2 * i]) + HexValue(text[2 * i + 1]) == value[i]
      {
        if i > 0 {
          assert rest[i - 1] == value[i] && text[2 * i] == tail[2 * (i - 1)] && text[2 * i + 1] == tail[2 * (i - 1) + 1];
        }
      }
    }
  }

  lemma HexValueInjective(c: nat, d: nat)
    requires LowerHex(c) && LowerHex(d) && HexValue(c) == HexValue(d)
    ensures c == d
  {
  }

  lemma HexUnique(text: Bytes, other: Bytes, value: Bytes)
    requires IsHexOf(text, value) && IsHexOf(other, value)
    ensures text == other
  {
    forall i | 0 <= i < |value|
      ensures text[2 * i] == other[2 * i] && text[2 * i + 1] == other[2 * i + 1]
    {
      HexValueInjective(text[2 * i], other[2 * i]);
      HexValueInjective(text[2 * i + 1], other[2 * i + 1]);
    }
    forall j | 0 <= j < |text|
      ensures text[j] == other[j]
    {
      assert j == 2 * (j / 2) || j == 2 * (j / 2) + 1;
    }
  }

  /** The client feeds the key derivation exactly what the account was enrolled with, for the two protocols it knows. */
  lemma InputAgrees(p: Primitives, password: Bytes, protocol: string, input: Bytes)
    requires Digits(256, p.sha256(password))
    ensures EnrolledInput(p, password, protocol, input) <==> PasswordInput(p, password, protocol) == Ok(input)
  {
    var hash := p.sha256(password);
    HexLowerIsHex(hash);
    if protocol == "s2k_fo" && IsHexOf(input, hash) {
      HexUnique(input, HexLower(hash), hash);
    }
  }

  // ---- A whole exchange ----

  lemma ScramblersAgree(p: Primitives, s: Server, publicA: nat)
    requires s.n >= 2
    ensures Scrambler(p, publicA, PublicB(p, s)) == ServerScrambler(p, s, Padded(publicA))
  {
    PaddingAgrees(PublicB(p, s), PAD_BYTES);
  }

  lemma MultipliersAgree(p: Primitives, s: Server)
    requires s.n >= 2
    ensures PublicB(p, s) == ServerPublic(Multiplier(p, s.n), s.v, s.b, s.n)
  {
    ModulusAgrees(s.n);
    PaddingAgrees(2, PAD_BYTES);
  }

  lemma ExponentsAgree(p: Primitives, input: Bytes, salt: Bytes, iterations: nat)
    ensures PrivateKey(p, input, iterations, salt) == EnrolledExponent(p, input, salt, iterations)
  {
    var derived := p.pbkdf2(input, salt, iterations);
    assert [] + [':' as nat] + derived == [58] + derived;
  }

  lemma KeysAgree(p: Primitives, s: Server, publicA: nat)
    requires s.n >= 2
    ensures var secret := ServerSecret(publicA, s.v, Scrambler(p, publicA, PublicB(p, s)), s.b, s.n);
      p.sha256(Padded(secret)) == SessionKey(p, s, Padded(publicA))
  {
    PadRoundTrip(publicA, PAD_BYTES);
    ScramblersAgree(p, s, publicA);
    PaddingAgrees(ServerSecret(publicA, s.v, Scrambler(p, publicA, PublicB(p, s)), s.b, s.n), PAD_BYTES);
  }

  lemma HeadsAgree(p: Primitives, s: Server)
    requires s.n >= 2
    ensures Xor(p.sha256(Padded(2)), p.sha256(ToBytes(s.n))) == Xor(p.sha256(ModulusBytes(s)), p.sha256(GeneratorBytes()))
  {
    ModulusAgrees(s.n);
    PaddingAgrees(2, PAD_BYTES);
    XorCommutes(p.sha256(Padded(2)), p.sha256(ToBytes(s.n)));
  }

  /** A proof over the server's own secret is the one the server expects, with the answer it gives. */
  lemma ProofsAgree(p: Primitives, s: Server, publicA: nat, shared: nat)
    requires s.n >= 2 && p.sha256(Padded(shared)) == SessionKey(p, s, Padded(publicA))
    ensures var receivedA := Padded(publicA);
      var proof := MakeProof(p, s.n, s.username, s.salt, publicA, PublicB(p, s), shared);
      && proof.m1 == ExpectedProof(p, s, receivedA)
      && proof.m2 == p.sha256(receivedA + proof.m1 + SessionKey(p, s, receivedA))
  {
    HeadsAgree(p, s);
    PaddingAgrees(PublicB(p, s), PAD_BYTES);
  }

  /**
  A whole exchange with a server that enrolled the same password.  The client proves itself exactly when iterations, `B`
  and `u` are usable; the server accepts that proof and no other, and answers with the value the client compares with.
  `B` may arrive with any number of leading zero bytes.
  */
  lemma ExchangeAgrees(p: Primitives, s: Server, secret: Bytes, password: Bytes, protocol: string, iterations: nat,
                       input: Bytes, serverB: Bytes, m1: Bytes)
    requires s.n >= 2 && FromSecret(secret, s.n).Ok? && Digits(256, p.sha256(password))
    requires EnrolledInput(p, password, protocol, input) && s.v == Verifier(EnrolledExponent(p, input, s.salt, iterations), s.n)
    requires Value(256, serverB) == PublicB(p, s)
    ensures var client := FromSecret(secret, s.n).value;
      var r := Prove(p, s.n, client, s.username, password, protocol, iterations, s.salt, serverB);
      var sentA := Padded(client.publicA);
      && (r.Ok? <==> iterations > 0 && PublicB(p, s) > 0 && ServerScrambler(p, s, sentA) > 0)
      && (r.Ok? && client.publicA > 0 ==>
           Answer(p, s, sentA, r.value.m1) == Some(r.value.m2) && (Answer(p, s, sentA, m1).Some? <==> m1 == r.value.m1))
  {
    var client := FromSecret(secret, s.n).value;
    var x := PrivateKey(p, input, iterations, s.salt);
    var u := Scrambler(p, client.publicA, PublicB(p, s));
    InputAgrees(p, password, protocol, input);
    ExponentsAgree(p, input, s.salt, iterations);
    MultipliersAgree(p, s);
    ScramblersAgree(p, s, client.publicA);
    SecretsAgree(client.a, s.b, x, u, Multiplier(p, s.n), s.n);
    KeysAgree(p, s, client.publicA);
    ProofsAgree(p, s, client.publicA, ServerSecret(client.publicA, s.v, u, s.b, s.n));
    PadRoundTrip(client.publicA, PAD_BYTES);
    DivModUnique(client.publicA, s.n, 0, client.publicA);
  }

  /** With an odd modulus the client's public value is never zero. */
  lemma {:induction false} OddModulus(a: nat, n: nat)
    requires n >= 3 && n % 2 == 1
    ensures ModPow(2, a, n) > 0
    decreases a
  {
    if a == 0 {
    } else {
      OddModulus(a - 1, n);
      var y := Pow(2, a - 1);
      if (2 * y) % n == 0 {
        var q := (2 * y) / n;
        assert 2 * y == n * q;
        HalfOfOdd(n, q, y);
        DivModUnique(y, n, q / 2, 0);
      }
    }
  }

  lemma HalfOfOdd(n: nat, q: nat, y: nat)
    requires n % 2 == 1 && 2 * y == n * q
    ensures q % 2 == 0 && y == (q / 2) * n
  {
    var h := n / 2;
    assert n * q == (2 * h + 1) * q == 2 * (h * q) + q;
    var k := q / 2;
    assert k * n == k * (2 * h + 1) == h * (2 * k) + k;
  }
}
