/**
The client half of SRP-6a as Apple's sign-in uses it, and the secret of the server half of
section 2.6 of RFC 5054.

SHA-256 and PBKDF2 are parameters; the modulus is any number from 2, so the 2048-bit group
of RFC 5054 is one instance.
*/
module Srp {
  import opened Powers

  const PAD_BYTES: nat := 256

  type Bytes = seq<nat>

  datatype Primitives = Primitives(sha256: Bytes -> Bytes, pbkdf2: (Bytes, Bytes, nat) -> Bytes)

  datatype SrpError = Protocol | BadResponse | Unsupported

  datatype Result<+T> = Ok(value: T) | Err(error: SrpError)

  datatype Client = Client(a: nat, publicA: nat)

  datatype Proof = Proof(m1: Bytes, m2: Bytes)

  function ModPow(b: nat, e: nat, n: nat): nat
    requires n > 0
  {
    Pow(b, e) % n
  }

  /** `BigUint::to_bytes_be`: zero is one zero byte. */
  function ToBytes(v: nat): Bytes {
    if v == 0 then [0] else Minimal(256, v)
  }

  function PaddedTo(v: nat, width: nat): Bytes {
    var bytes := ToBytes(v);
    if |bytes| >= width then bytes else Zeros(width - |bytes|) + bytes
  }

  function Padded(v: nat): Bytes {
    PaddedTo(v, PAD_BYTES)
  }

  method Pad(value: nat) returns (out: Bytes)
    ensures out == Padded(value)
  {
    var bytes := ToBytes(value);
    if |bytes| >= PAD_BYTES {
      return bytes;
    }
    var padded := new nat[PAD_BYTES](_ => 0);
    var offset := PAD_BYTES - |bytes|;
    for i := 0 to |bytes|
      invariant padded[..] == Zeros(offset) + bytes[..i] + Zeros(|bytes| - i)
    {
      padded[offset + i] := bytes[i];
      assert bytes[..i + 1] == bytes[..i] + [bytes[i]];
    }
    assert bytes[..|bytes|] == bytes;
    out := padded[..];
  }

  lemma BytesValue(v: nat)
    ensures Digits(256, ToBytes(v)) && Value(256, ToBytes(v)) == v
  {
    if v > 0 {
      MinimalValue(256, v);
    } else {
      assert [0][..0] == [];
    }
  }

  /** The bytes of a number fit a width exactly below that power of 256. */
  lemma BytesWidth(v: nat, width: nat)
    requires width >= 1
    ensures |ToBytes(v)| <= width <==> v < Pow(256, width)
  {
    if v > 0 {
      MinimalLength(256, v, width);
    } else {
      PowPositive(256, width);
    }
  }

  lemma ZerosInFront(n: nat, bytes: Bytes)
    requires Digits(256, bytes)
    ensures Digits(256, Zeros(n) + bytes) && Value(256, Zeros(n) + bytes) == Value(256, bytes)
  {
    ZerosValue(256, n);
    ValueAppend(256, Zeros(n), bytes);
  }

  /** For every width: the padded string decodes to its value, and has that width exactly below that power of 256. */
  lemma PadRoundTrip(v: nat, width: nat)
    requires width >= 1
    ensures Digits(256, PaddedTo(v, width)) && Value(256, PaddedTo(v, width)) == v
    ensures |PaddedTo(v, width)| == width <==> v < Pow(256, width)
    ensures |PaddedTo(v, width)| >= width
  {
    var bytes := ToBytes(v);
    BytesValue(v);
    BytesWidth(v, width);
    if |bytes| < width {
      ZerosInFront(width - |bytes|, bytes);
    }
  }

  lemma PadInjective(v: nat, w: nat, width: nat)
    requires width >= 1 && PaddedTo(v, width) == PaddedTo(w, width)
    ensures v == w
  {
    PadRoundTrip(v, width);
    PadRoundTrip(w, width);
  }

  /** `SrpClient::from_secret`. */
  function FromSecret(secret: Bytes, n: nat): (r: Result<Client>)
    requires n >= 2
    ensures r.Ok? <==> Value(256, secret) > 0
    ensures r.Ok? ==> r.value.publicA < n
  {
    var a := Value(256, secret);
    if a == 0 then Err(Protocol) else Ok(Client(a, ModPow(2, a, n)))
  }

  function HexLower(value: Bytes): Bytes
    decreases |value|
  {
    if value == [] then []
    else [HexDigit(value[0] / 16), HexDigit(value[0] % 16)] + HexLower(value[1..])
  }

  function HexDigit(d: nat): nat {
    if d < 10 then 48 + d else 87 + d
  }

  /** The bytes fed to PBKDF2, or nothing for an unknown protocol. */
  function PasswordInput(p: Primitives, password: Bytes, protocol: string): Result<Bytes> {
    var hash := p.sha256(password);
    if protocol == "s2k" then Ok(hash)
    else if protocol == "s2k_fo" then Ok(HexLower(hash))
    else Err(Unsupported)
  }

  /** The private exponent both sides derive from the password. */
  function PrivateKey(p: Primitives, input: Bytes, iterations: nat, salt: Bytes): nat {
    var derived := p.pbkdf2(input, salt, iterations);
    Value(256, p.sha256(salt + p.sha256([58] + derived)))
  }

  function Scrambler(p: Primitives, publicA: nat, publicB: nat): nat {
    Value(256, p.sha256(Padded(publicA) + Padded(publicB)))
  }

  function Multiplier(p: Primitives, n: nat): nat {
    Value(256, p.sha256(ToBytes(n) + Padded(2)))
  }

  /** The subtraction of `k*g^x` from `B` modulo `n`, by the two branches that never go below zero. */
  function Base(b: nat, kgx: nat, n: nat): (r: nat)
    requires b < n && kgx < n
    ensures r < n && Cong(r, b - kgx, n)
  {
    if b >= kgx then b - kgx
    else
      CongFromMultiple(b + n - kgx, b - kgx, 1, n);
      (b + n) - kgx
  }

  function ClientSecret(a: nat, b: nat, x: nat, u: nat, k: nat, n: nat): nat
    requires n >= 2 && b < n
  {
    ModPow(Base(b, (k * ModPow(2, x, n)) % n, n), a + u * x, n)
  }

  /** Bitwise exclusive or. */
  function XorBits(a: nat, b: nat): nat {
    if a == 0 && b == 0 then 0 else 2 * XorBits(a / 2, b / 2) + (a + b) % 2
  }

  /** Byte by byte, as far as the shorter one goes. */
  function Xor(left: Bytes, right: Bytes): Bytes
    decreases |left|
  {
    if left == [] || right == [] then [] else [XorBits(left[0], right[0])] + Xor(left[1..], right[1..])
  }

  function MakeProof(p: Primitives, n: nat, username: Bytes, salt: Bytes, publicA: nat, publicB: nat, shared: nat): Proof {
    var key := p.sha256(Padded(shared));
    var head := Xor(p.sha256(Padded(2)), p.sha256(ToBytes(n)));
    var m1 := p.sha256(head + p.sha256(username) + salt + Padded(publicA) + Padded(publicB) + key);
    Proof(m1, p.sha256(Padded(publicA) + m1 + key))
  }

  /** `SrpClient::prove`. */
  function Prove(p: Primitives, n: nat, client: Client, username: Bytes, password: Bytes, protocol: string,
                 iterations: nat, salt: Bytes, serverB: Bytes): Result<Proof>
    requires n >= 2
  {
    var b := Value(256, serverB);
    if iterations == 0 then Err(BadResponse)
    else if b == 0 || b >= n then Err(BadResponse)
    else match PasswordInput(p, password, protocol)
      case Err(e) => Err(e)
      case Ok(input) =>
        var x := PrivateKey(p, input, iterations, salt);
        var u := Scrambler(p, client.publicA, b);
        if u == 0 then Err(BadResponse)
        else
          var shared := ClientSecret(client.a, b, x, u, Multiplier(p, n), n);
          Ok(MakeProof(p, n, username, salt, client.publicA, b, shared))
  }

  // ---- The server of section 2.6 of RFC 5054 ----

  function Verifier(x: nat, n: nat): nat
    requires n >= 2
  {
    Pow(2, x) % n
  }

  function ServerPublic(k: nat, v: nat, b: nat, n: nat): nat
    requires n >= 2
  {
    (k * v + Pow(2, b)) % n
  }

  function ServerSecret(publicA: nat, v: nat, u: nat, b: nat, n: nat): nat
    requires n >= 2
  {
    Pow(publicA * Pow(v, u), b) % n
  }

  // ---- Agreement ----

  lemma BaseIsServerPower(b: nat, x: nat, k: nat, n: nat)
    requires n >= 2
    ensures Cong(Base(ServerPublic(k, Verifier(x, n), b, n), (k * ModPow(2, x, n)) % n, n), Pow(2, b), n)
  {
    var v := Verifier(x, n);
    var kv, gb := k * v, Pow(2, b);
    var publicB, kgx := ServerPublic(k, v, b, n), kv % n;
    CongMod(kv + gb, n);
    CongMod(kv, n);
    CongAdd(publicB, kv + gb, kgx, kv, n);
  }

  /** What the client raises its base to, as one power of the generator. */
  lemma ClientSecretIsPower(a: nat, b: nat, x: nat, u: nat, k: nat, n: nat)
    requires n >= 2
    ensures ClientSecret(a, ServerPublic(k, Verifier(x, n), b, n), x, u, k, n) == Pow(2, b * (a + u * x)) % n
  {
    var e := a + u * x;
    var base := Base(ServerPublic(k, Verifier(x, n), b, n), (k * ModPow(2, x, n)) % n, n);
    BaseIsServerPower(b, x, k, n);
    CongPow(base, Pow(2, b), e, n);
    PowOfPow(2, b, e);
  }

  lemma ServerSecretIsPower(a: nat, b: nat, x: nat, u: nat, n: nat)
    requires n >= 2
    ensures ServerSecret(ModPow(2, a, n), Verifier(x, n), u, b, n) == Pow(2, b * (a + u * x)) % n
  {
    var publicA, v := ModPow(2, a, n), Verifier(x, n);
    CongMod(Pow(2, x), n);
    CongPow(v, Pow(2, x), u, n);
    PowOfPow(2, x, u);
    CongMod(Pow(2, a), n);
    CongMul(publicA, Pow(2, a), Pow(v, u), Pow(2, x * u), n);
    PowAdd(2, a, x * u);
    CongPow(publicA * Pow(v, u), Pow(2, a + x * u), b, n);
    PowOfPow(2, a + x * u, b);
    assert (a + x * u) * b == b * (a + u * x);
  }

  /** Both sides compute the same secret, for every modulus and every choice of exponents. */
  lemma SecretsAgree(a: nat, b: nat, x: nat, u: nat, k: nat, n: nat)
    requires n >= 2
    ensures var v := Verifier(x, n);
      ClientSecret(a, ServerPublic(k, v, b, n), x, u, k, n) == ServerSecret(ModPow(2, a, n), v, u, b, n)
  {
    ClientSecretIsPower(a, b, x, u, k, n);
    ServerSecretIsPower(a, b, x, u, n);
  }
}
