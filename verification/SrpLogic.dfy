/** The shared secret of SRP-6a, section 2.6 of RFC 5054, on both sides. */
module SrpLogic {
  import opened Utils

  // ---- Integers of the multiple-precision library ----

  function Power(base: int, exponent: nat): int {
    if exponent == 0 then 1 else base * Power(base, exponent - 1)
  }

  /** `mpz_powm`: the residue is never negative, whatever the base. */
  function PowerMod(base: int, exponent: nat, modulus: nat): (r: nat)
    requires modulus > 0
    ensures r < modulus
  {
    Power(base, exponent) % modulus
  }

  // ---- Residues ----

  /** Equal up to a multiple of `n`. */
  ghost predicate Congruent(a: int, b: int, n: nat) {
    exists k: int :: Apart(a, b, k, n)
  }

  ghost predicate Apart(a: int, b: int, k: int, n: nat) {
    a - b == k * n
  }

  lemma CongruentBy(a: int, b: int, k: int, n: nat)
    requires a == b + k * n
    ensures Congruent(a, b, n)
  {
    assert Apart(a, b, k, n);
  }

  lemma CongruentTransitive(a: int, b: int, c: int, n: nat)
    requires Congruent(a, b, n) && Congruent(b, c, n)
    ensures Congruent(a, c, n)
  {
    var k :| Apart(a, b, k, n);
    var l :| Apart(b, c, l, n);
    CongruentBy(a, c, k + l, n);
  }

  lemma CongruentSymmetric(a: int, b: int, n: nat)
    requires Congruent(a, b, n)
    ensures Congruent(b, a, n)
  {
    var k :| Apart(a, b, k, n);
    CongruentBy(b, a, -k, n);
  }

  lemma CongruentDifference(a: int, b: int, c: int, d: int, n: nat)
    requires Congruent(a, b, n) && Congruent(c, d, n)
    ensures Congruent(a - c, b - d, n)
  {
    var k :| Apart(a, b, k, n);
    var l :| Apart(c, d, l, n);
    CongruentBy(a - c, b - d, k - l, n);
  }

  lemma CongruentProduct(a: int, b: int, c: int, d: int, n: nat)
    requires Congruent(a, b, n) && Congruent(c, d, n)
    ensures Congruent(a * c, b * d, n)
  {
    var k :| Apart(a, b, k, n);
    var l :| Apart(c, d, l, n);
    ProductOfSums(b, k * n, d, l * n);
    Factored(b, k, d, l, n);
    CongruentBy(a * c, b * d, b * l + k * d + k * l * n, n);
  }

  lemma ProductOfSums(a: int, b: int, c: int, d: int)
    ensures (a + b) * (c + d) == a * c + a * d + b * c + b * d
  {
  }

  lemma Factored(b: int, k: int, d: int, l: int, n: int)
    ensures b * (l * n) + (k * n) * d + (k * n) * (l * n) == (b * l + k * d + k * l * n) * n
  {
    assert b * (l * n) == (b * l) * n;
    assert (k * n) * d == (k * d) * n;
    assert (k * n) * (l * n) == (k * l * n) * n by { assert (k * n) * (l * n) == k * (n * (l * n)); }
  }

  lemma {:induction false} CongruentPower(a: int, b: int, e: nat, n: nat)
    requires Congruent(a, b, n)
    ensures Congruent(Power(a, e), Power(b, e), n)
  {
    if e == 0 {
      CongruentBy(1, 1, 0, n);
    } else {
      CongruentPower(a, b, e - 1, n);
      CongruentProduct(a, b, Power(a, e - 1), Power(b, e - 1), n);
    }
  }

  lemma ModCongruent(a: int, n: nat)
    requires n > 0
    ensures Congruent(a % n, a, n)
  {
    CongruentBy(a % n, a, -(a / n), n);
  }

  lemma RemainderCongruent(a: int, n: nat)
    requires n > 0
    ensures Congruent(Remainder(a, n), a, n)
  {
    if a >= 0 {
      ModCongruent(a, n);
    } else {
      CongruentBy(Remainder(a, n), a, (-a) / n, n);
    }
  }

  /** Congruent numbers have one residue. */
  lemma ResiduesAgree(a: int, b: int, n: nat)
    requires n > 0 && Congruent(a, b, n)
    ensures a % n == b % n
  {
    var k :| Apart(a, b, k, n);
    ResidueUnique(a, b / n + k, b % n, n);
  }

  lemma ResidueUnique(a: int, q: int, r: nat, n: nat)
    requires n > 0 && a == q * n + r && r < n
    ensures a % n == r
  {
    var d := a / n - q;
    assert d * n == r - a % n;
    if d > 0 {
      TimesAtLeast(d, n);
    } else if d < 0 {
      TimesAtLeast(-d, n);
      NegativeTimes(d, n);
    }
  }

  lemma {:induction false} TimesAtLeast(d: int, n: nat)
    requires d > 0
    ensures d * n >= n
    decreases d
  {
    if d > 1 {
      TimesAtLeast(d - 1, n);
      OneMore(d, n);
    }
  }

  lemma OneMore(d: int, n: int)
    ensures d * n == (d - 1) * n + n
  {
  }

  lemma NegativeTimes(d: int, n: int)
    ensures (-d) * n == -(d * n)
  {
  }

  lemma {:induction false} PowerSum(base: int, m: nat, n: nat)
    ensures Power(base, m + n) == Power(base, m) * Power(base, n)
  {
    if m > 0 {
      PowerSum(base, m - 1, n);
      assert base * (Power(base, m - 1) * Power(base, n)) == (base * Power(base, m - 1)) * Power(base, n);
    }
  }

  lemma {:induction false} PowerOfPower(base: int, m: nat, n: nat)
    ensures Power(Power(base, m), n) == Power(base, m * n)
  {
    if n == 0 {
      assert m * 0 == 0;
    } else {
      PowerOfPower(base, m, n - 1);
      PowerSum(base, m, m * (n - 1));
      assert m + m * (n - 1) == m * n;
    }
  }

  // ---- The protocol ----

  function GetA(g: int, N: nat, a: nat): nat
    requires N > 0
  {
    PowerMod(g, a, N)
  }

  function GetV(g: int, N: nat, x: nat): nat
    requires N > 0
  {
    PowerMod(g, x, N)
  }

  function GetClientS(B: int, k: int, v: int, a: nat, u: nat, x: nat, N: nat): nat
    requires N > 0
  {
    var bkv := Remainder(B - Remainder(v * k, N), N);
    PowerMod(bkv, a + u * x, N)
  }

  /** The server's public value and secret. */
  function ServerB(k: int, v: int, g: int, b: nat, N: nat): nat
    requires N > 0
  {
    (k * v + PowerMod(g, b, N)) % N
  }

  function ServerS(A: int, v: int, u: nat, b: nat, N: nat): nat
    requires N > 0
  {
    PowerMod(A * PowerMod(v, u, N), b, N)
  }

  /** What is left of the server's value once the verifier is taken off: `g` to the power `b`, whatever sign the
      truncating remainder gives it. */
  lemma ClientBase(g: int, k: int, v: int, b: nat, N: nat)
    requires N > 0
    ensures Congruent(Remainder(ServerB(k, v, g, b, N) - Remainder(v * k, N), N), Power(g, b), N)
  {
    assert k * v == v * k;
    BaseFrom(ServerB(k, v, g, b, N), v * k, Power(g, b), N);
  }

  lemma BaseFrom(B: int, kv: int, gb: int, N: nat)
    requires N > 0 && B == (kv + gb % N) % N
    ensures Congruent(Remainder(B - Remainder(kv, N), N), gb, N)
  {
    ModCongruent(kv + gb % N, N);
    RemainderCongruent(kv, N);
    CongruentDifference(B, kv + gb % N, Remainder(kv, N), kv, N);
    ModCongruent(gb, N);
    CongruentTransitive(B - Remainder(kv, N), gb % N, gb, N);
    RemainderCongruent(B - Remainder(kv, N), N);
    CongruentTransitive(Remainder(B - Remainder(kv, N), N), B - Remainder(kv, N), gb, N);
  }

  lemma ClientPower(g: int, k: int, v: int, a: nat, b: nat, u: nat, x: nat, N: nat)
    requires N > 0
    ensures Congruent(GetClientS(ServerB(k, v, g, b, N), k, v, a, u, x, N), Power(g, b * (a + u * x)), N)
  {
    var bkv := Remainder(ServerB(k, v, g, b, N) - Remainder(v * k, N), N);
    ClientBase(g, k, v, b, N);
    CongruentPower(bkv, Power(g, b), a + u * x, N);
    PowerOfPower(g, b, a + u * x);
    ModCongruent(Power(bkv, a + u * x), N);
    CongruentTransitive(PowerMod(bkv, a + u * x, N), Power(bkv, a + u * x), Power(g, b * (a + u * x)), N);
  }

  lemma ServerBase(g: int, a: nat, u: nat, x: nat, N: nat)
    requires N > 0
    ensures Congruent(GetA(g, N, a) * PowerMod(GetV(g, N, x), u, N), Power(g, a + u * x), N)
  {
    var A, v := GetA(g, N, a), GetV(g, N, x);
    ModCongruent(Power(g, a), N);
    ModCongruent(Power(g, x), N);
    CongruentPower(v, Power(g, x), u, N);
    PowerOfPower(g, x, u);
    assert x * u == u * x;
    ModCongruent(Power(v, u), N);
    CongruentTransitive(PowerMod(v, u, N), Power(v, u), Power(g, u * x), N);
    CongruentProduct(A, Power(g, a), PowerMod(v, u, N), Power(g, u * x), N);
    PowerSum(g, a, u * x);
  }

  lemma ServerPower(g: int, a: nat, b: nat, u: nat, x: nat, N: nat)
    requires N > 0
    ensures Congruent(ServerS(GetA(g, N, a), GetV(g, N, x), u, b, N), Power(g, b * (a + u * x)), N)
  {
    var base := GetA(g, N, a) * PowerMod(GetV(g, N, x), u, N);
    ServerBase(g, a, u, x, N);
    CongruentPower(base, Power(g, a + u * x), b, N);
    PowerOfPower(g, a + u * x, b);
    assert (a + u * x) * b == b * (a + u * x);
    ModCongruent(Power(base, b), N);
    CongruentTransitive(PowerMod(base, b, N), Power(base, b), Power(g, b * (a + u * x)), N);
  }

  /** Client and server arrive at the same secret, for all values. */
  lemma SecretsAgree(g: int, k: int, a: nat, b: nat, u: nat, x: nat, N: nat)
    requires N > 0
    ensures var A, v := GetA(g, N, a), GetV(g, N, x);
            GetClientS(ServerB(k, v, g, b, N), k, v, a, u, x, N) == ServerS(A, v, u, b, N)
  {
    var A, v := GetA(g, N, a), GetV(g, N, x);
    var client, server := GetClientS(ServerB(k, v, g, b, N), k, v, a, u, x, N), ServerS(A, v, u, b, N);
    ClientPower(g, k, v, a, b, u, x, N);
    ServerPower(g, a, b, u, x, N);
    CongruentSymmetric(server, Power(g, b * (a + u * x)), N);
    CongruentTransitive(client, Power(g, b * (a + u * x)), server, N);
    ResiduesAgree(client, server, N);
    Reduced(client, N);
    Reduced(server, N);
  }

  lemma Reduced(r: nat, N: nat)
    requires r < N
    ensures r % N == r
  {
  }

  /** The base that the client raises can be negative: here `5 + 2` is `0` modulo `7`, and `0 - 5` stays `-5`. */
  lemma NegativeBaseExample()
    ensures ServerB(1, 5, 2, 1, 7) == 0
    ensures Remainder(ServerB(1, 5, 2, 1, 7) - Remainder(5 * 1, 7), 7) == -5
  {
    assert Power(2, 1) == 2 * Power(2, 0);
  }
}
