/** Powers, congruences and big-endian digit strings shared by the arithmetic modules. */
module Powers {

  function Pow(b: nat, e: nat): nat
    decreases e
  {
    if e == 0 then 1 else b * Pow(b, e - 1)
  }

  lemma {:induction false} PowPositive(b: nat, e: nat)
    requires b > 0
    ensures Pow(b, e) > 0
    decreases e
  {
    if e == 0 {
    } else {
      PowPositive(b, e - 1);
    }
  }

  lemma {:induction false} PowAdd(b: nat, e: nat, f: nat)
    ensures Pow(b, e + f) == Pow(b, e) * Pow(b, f)
    decreases e
  {
    if e == 0 {
    } else {
      PowAdd(b, e - 1, f);
      calc {
        Pow(b, e + f);
        b * Pow(b, e - 1 + f);
        b * (Pow(b, e - 1) * Pow(b, f));
        (b * Pow(b, e - 1)) * Pow(b, f);
      }
    }
  }

  lemma {:induction false} PowOfPow(b: nat, e: nat, f: nat)
    ensures Pow(Pow(b, e), f) == Pow(b, e * f)
    decreases f
  {
    if f == 0 {
    } else {
      PowOfPow(b, e, f - 1);
      assert e * f == e + e * (f - 1);
      PowAdd(b, e, e * (f - 1));
    }
  }

  lemma {:induction false} PowMonotone(b: nat, e: nat, f: nat)
    requires b > 0 && e <= f
    ensures Pow(b, e) <= Pow(b, f)
  {
    PowAdd(b, e, f - e);
    PowPositive(b, f - e);
    var x, y := Pow(b, e), Pow(b, f - e);
    assert x * y >= x * 1;
  }

  /** Congruence modulo `n`. */
  predicate Cong(a: int, b: int, n: nat)
    requires n > 0
  {
    a % n == b % n
  }

  lemma CongFromMultiple(a: int, b: int, k: int, n: nat)
    requires n > 0 && a == b + k * n
    ensures Cong(a, b, n)
  {
    var q, r := b / n, b % n;
    assert b == q * n + r;
    assert a == (q + k) * n + r by {
      assert (q + k) * n == q * n + k * n;
    }
    DivModUnique(a, n, q + k, r);
  }

  lemma MulMonotone(x: int, y: int, n: nat)
    requires x <= y
    ensures x * n <= y * n
  {
    assert (y - x) * n >= 0;
    assert (y - x) * n == y * n - x * n;
  }

  lemma QuotientsAgree(n: nat, q: int, r: int, q': int, r': int)
    requires 0 <= r < n && 0 <= r' < n && q * n + r == q' * n + r'
    ensures q <= q'
  {
    assert (q' + 1) * n == q' * n + n;
    if q > q' {
      MulMonotone(q' + 1, q, n);
    }
  }

  lemma DivModUnique(a: int, n: nat, q: int, r: int)
    requires n > 0 && a == q * n + r && 0 <= r < n
    ensures a / n == q && a % n == r
  {
    var q', r' := a / n, a % n;
    assert a == q' * n + r';
    QuotientsAgree(n, q, r, q', r');
    QuotientsAgree(n, q', r', q, r);
  }

  lemma CongMul(a: int, a': int, b: int, b': int, n: nat)
    requires n > 0 && Cong(a, a', n) && Cong(b, b', n)
    ensures Cong(a * b, a' * b', n)
  {
    var i, j := a / n - a' / n, b / n - b' / n;
    assert a == a' + i * n by {
      assert (a / n - a' / n) * n == (a / n) * n - (a' / n) * n;
    }
    assert b == b' + j * n by {
      assert (b / n - b' / n) * n == (b / n) * n - (b' / n) * n;
    }
    ProductOfShifted(a', i, b', j, n);
    CongFromMultiple(a * b, a' * b', a' * j + i * (b' + j * n), n);
  }

  lemma ProductOfShifted(a: int, i: int, b: int, j: int, n: int)
    ensures (a + i * n) * (b + j * n) == a * b + (a * j + i * (b + j * n)) * n
  {
    var t := b + j * n;
    calc {
      (a + i * n) * t;
      a * t + (i * n) * t;
      a * b + a * (j * n) + (i * n) * t;
      { assert a * (j * n) == (a * j) * n; assert (i * n) * t == (i * t) * n; }
      a * b + (a * j) * n + (i * t) * n;
      a * b + (a * j + i * t) * n;
    }
  }

  lemma CongAdd(a: int, a': int, b: int, b': int, n: nat)
    requires n > 0 && Cong(a, a', n) && Cong(b, b', n)
    ensures Cong(a + b, a' + b', n) && Cong(a - b, a' - b', n)
  {
    var i, j := a / n - a' / n, b / n - b' / n;
    assert a == a' + i * n by {
      assert (a / n - a' / n) * n == (a / n) * n - (a' / n) * n;
    }
    assert b == b' + j * n by {
      assert (b / n - b' / n) * n == (b / n) * n - (b' / n) * n;
    }
    assert (i + j) * n == i * n + j * n && (i - j) * n == i * n - j * n;
    CongFromMultiple(a + b, a' + b', i + j, n);
    CongFromMultiple(a - b, a' - b', i - j, n);
  }

  lemma CongMod(a: int, n: nat)
    requires n > 0
    ensures Cong(a % n, a, n)
  {
    DivModUnique(a % n, n, 0, a % n);
  }

  lemma {:induction false} CongPow(a: nat, b: nat, e: nat, n: nat)
    requires n > 0 && Cong(a, b, n)
    ensures Cong(Pow(a, e), Pow(b, e), n)
    decreases e
  {
    if e == 0 {
    } else {
      CongPow(a, b, e - 1, n);
      CongMul(a, b, Pow(a, e - 1), Pow(b, e - 1), n);
    }
  }

  // ---- Big-endian digit strings ----

  ghost predicate Digits(base: nat, s: seq<nat>) {
    forall i :: 0 <= i < |s| ==> s[i] < base
  }

  /** The value of a big-endian digit string. */
  function Value(base: nat, s: seq<nat>): nat
    decreases |s|
  {
    if s == [] then 0 else Value(base, s[..|s| - 1]) * base + s[|s| - 1]
  }

  lemma Split(v: nat, base: nat) returns (q: nat, r: nat)
    requires base >= 2
    ensures q == v / base && r == v % base && v == q * base + r && r < base
    ensures v > 0 ==> q < v
  {
    q, r := v / base, v % base;
    MulMonotone(2, base, q);
    assert 2 * q <= base * q == q * base <= v;
  }

  /** The minimal big-endian digits of `v`; none for zero. */
  function Minimal(base: nat, v: nat): seq<nat>
    requires base >= 2
    decreases v
  {
    if v == 0 then [] else Minimal(base, v / base) + [v % base]
  }

  lemma MinimalStep(base: nat, v: nat) returns (q: nat, r: nat)
    requires base >= 2 && v > 0
    ensures v == q * base + r && r < base && q < v
    ensures Minimal(base, v) == Minimal(base, q) + [r]
  {
    q, r := Split(v, base);
  }

  lemma {:induction false} MinimalValue(base: nat, v: nat)
    requires base >= 2
    ensures Digits(base, Minimal(base, v)) && Value(base, Minimal(base, v)) == v
    decreases v
  {
    if v == 0 {
    } else {
      var q, r := MinimalStep(base, v);
      MinimalValue(base, q);
      var front := Minimal(base, q);
      var m := front + [r];
      assert m[..|m| - 1] == front;
      assert Value(base, m) == Value(base, front) * base + r;
    }
  }

  /** A digit string of length `n` stands for a value below `base` to the `n`. */
  lemma {:induction false} ValueBound(base: nat, s: seq<nat>)
    requires base > 0 && Digits(base, s)
    ensures Value(base, s) < Pow(base, |s|)
    decreases |s|
  {
    if s == [] {
    } else {
      var front := s[..|s| - 1];
      ValueBound(base, front);
      var x, p := Value(base, front), Pow(base, |front|);
      MulMonotone(x, p - 1, base);
      assert (p - 1) * base == p * base - base;
      assert Pow(base, |s|) == base * p;
    }
  }

  lemma {:induction false} ValueAppend(base: nat, s: seq<nat>, t: seq<nat>)
    ensures Value(base, s + t) == Value(base, s) * Pow(base, |t|) + Value(base, t)
    decreases |t|
  {
    if t == [] {
      assert s + t == s;
    } else {
      var front, last := t[..|t| - 1], t[|t| - 1];
      ValueAppend(base, s, front);
      assert (s + t)[..|s + t| - 1] == s + front;
      ShiftSum(Value(base, s), Pow(base, |front|), Value(base, front), base);
    }
  }

  lemma ShiftSum(v: int, p: int, f: int, base: int)
    ensures (v * p + f) * base == v * (base * p) + f * base
  {
    calc {
      (v * p + f) * base;
      (v * p) * base + f * base;
      v * (p * base) + f * base;
    }
  }

  function Zeros(n: nat): seq<nat> {
    seq(n, i => 0)
  }

  lemma {:induction false} ZerosValue(base: nat, n: nat)
    ensures Value(base, Zeros(n)) == 0
    decreases n
  {
    if n == 0 {
    } else {
      ZerosValue(base, n - 1);
      assert Zeros(n)[..n - 1] == Zeros(n - 1);
    }
  }

  lemma BelowMultiple(q: nat, r: nat, base: nat, p: nat)
    requires r < base
    ensures q * base + r < base * p <==> q < p
  {
    assert (p - 1) * base == base * p - base;
    if q < p {
      MulMonotone(q, p - 1, base);
    } else {
      MulMonotone(p, q, base);
    }
  }

  /** The minimal string is as long as its value needs, and no longer. */
  lemma {:induction false} MinimalLength(base: nat, v: nat, n: nat)
    requires base >= 2
    ensures |Minimal(base, v)| <= n <==> v < Pow(base, n)
    decreases v
  {
    if v == 0 {
      PowPositive(base, n);
    } else {
      var q, r := MinimalStep(base, v);
      if n == 0 {
      } else {
        MinimalLength(base, q, n - 1);
        BelowMultiple(q, r, base, Pow(base, n - 1));
      }
    }
  }
}
