/**
 * The polynomial string hash of hash.c (duplicated verbatim in wordcount.c):
 * Horner evaluation of the key's characters with base 31, computed in
 * `uintmax_t` (64 bits, wrapping) and truncated to `unsigned int` (32 bits).
 */
module Hash {

  const U32: nat := 0x1_0000_0000
  const U64: nat := 0x1_0000_0000_0000_0000

  /** The value `(uintmax_t) c` of a (signed, 8-bit) C `char`: negative bytes sign-extend. */
  function CharValue(c: char): (v: nat)
    ensures v < U64
    ensures (c as int) < 128 ==> v == c as int
  {
    var b := (c as int) % 256;
    if b < 128 then b else U64 - 256 + b
  }

  function Pow(z: nat, k: nat): nat
  {
    if k == 0 then 1 else z * Pow(z, k - 1)
  }

  /** The reference polynomial: the sum of s[i] * z^i, written with explicit powers. */
  function PowerSum(s: seq<char>, z: nat): nat
  {
    if s == [] then 0 else PowerSum(s[..|s| - 1], z) + CharValue(s[|s| - 1]) * Pow(z, |s| - 1)
  }

  /**
   * `polynomial(p, z, av, n)` of hash.c: Horner's rule over av[n-1-p .. n-1],
   * every step reduced modulo 2^64 as `uintmax_t` arithmetic is.
   */
  function Polynomial(p: nat, z: nat, av: seq<char>, n: nat): (r: nat)
    requires p < n <= |av|
    ensures r < U64
    decreases p
  {
    var a := CharValue(av[n - 1 - p]);
    if p == 0 then a else (a + z * Polynomial(p - 1, z, av, n)) % U64
  }

  /** Horner evaluation computes the power sum over av[n-1-p .. n-1], modulo 2^64. */
  lemma {:induction false} PolynomialIsPowerSum(p: nat, z: nat, av: seq<char>, n: nat)
    requires p < n <= |av|
    ensures Polynomial(p, z, av, n) == PowerSum(av[n - 1 - p..n], z) % U64
    decreases p
  {
    if p == 0 {
      var s, c := av[n - 1..n], CharValue(av[n - 1]);
      assert PowerSum(s, z) == c by {
        assert s == [av[n - 1]];
        assert s[..0] == [];
      }
      DivModUnique(c, U64, 0, c);
    } else {
      var s, tail := av[n - 1 - p..n], av[n - 1 - (p - 1)..n];
      PolynomialIsPowerSum(p - 1, z, av, n);
      PowerSumStep(av, n, p, z);
      ModChain(Polynomial(p, z, av, n), CharValue(av[n - 1 - p]), z, Polynomial(p - 1, z, av, n), PowerSum(tail, z), PowerSum(s, z));
    }
  }

  /** One Horner step of the power sum over av[n-1-p .. n-1]. */
  lemma PowerSumStep(av: seq<char>, n: nat, p: nat, z: nat)
    requires 0 < p < n <= |av|
    ensures PowerSum(av[n - 1 - p..n], z) == CharValue(av[n - 1 - p]) + z * PowerSum(av[n - 1 - (p - 1)..n], z)
  {
    var s := av[n - 1 - p..n];
    HornerStep(s, z);
    assert s[1..] == av[n - 1 - (p - 1)..n];
  }

  /** Reducing modulo 2^64 before or after a Horner step gives the same residue. */
  lemma ModChain(r: nat, a: nat, z: nat, rest: nat, x: nat, sum: nat)
    requires r == (a + z * rest) % U64 && rest == x % U64 && sum == a + z * x
    ensures r == sum % U64
  {
    ModMulAdd(a, z, x, U64);
  }

  /** `hash_polynomial` of hash.c; it needs a non-empty key (for n = 0, p = n - 1 wraps). */
  function HashPolynomial(key: string): (h: nat)
    requires |key| > 0
    ensures h < U32
  {
    Polynomial(|key| - 1, 31, key, |key|) % U32
  }

  /** The hash is the sum of key[i] * 31^i, reduced modulo 2^32 by the final cast. */
  lemma HashPolynomialIsPowerSum(key: string)
    requires |key| > 0
    ensures HashPolynomial(key) == PowerSum(key, 31) % U32
  {
    PolynomialIsPowerSum(|key| - 1, 31, key, |key|);
    assert key[0..|key|] == key;
    ModOfMod(PowerSum(key, 31));
  }

  /** Horner's rule agrees with the explicit power sum: s = s[0] + z * (s[1..]). */
  lemma {:induction false} HornerStep(s: seq<char>, z: nat)
    requires |s| > 0
    ensures PowerSum(s, z) == CharValue(s[0]) + z * PowerSum(s[1..], z)
    decreases |s|
  {
    if |s| == 1 {
      assert s[..0] == [];
      assert s[1..] == [];
    } else {
      var init, t := s[..|s| - 1], s[1..];
      HornerStep(init, z);
      assert init[1..] == t[..|t| - 1];
      assert init[0] == s[0] && t[|t| - 1] == s[|s| - 1];
      HornerChain(PowerSum(s, z), PowerSum(init, z), CharValue(s[0]), z, PowerSum(init[1..], z),
        CharValue(s[|s| - 1]), Pow(z, |s| - 2), Pow(z, |s| - 1), PowerSum(t, z));
    }
  }

  /** The arithmetic of one Horner step: s = init + last * z^(k+1) and init = c + z * i give s = c + z * (i + last * z^k). */
  lemma HornerChain(sum: nat, init: nat, c: nat, z: nat, i: nat, last: nat, p: nat, q: nat, t: nat)
    requires sum == init + last * q && init == c + z * i && q == z * p && t == i + last * p
    ensures sum == c + z * t
  {
    MulAssoc(last, z, p);
    Distrib(z, i, last * p);
  }

  lemma Distrib(z: nat, a: nat, b: nat)
    ensures z * a + z * b == z * (a + b)
  {
  }

  lemma MulAssoc(a: nat, z: nat, b: nat)
    ensures a * (z * b) == z * (a * b)
  {
  }

  lemma ModMulAdd(a: nat, z: nat, x: nat, m: nat)
    requires m > 0
    ensures (a + z * (x % m)) % m == (a + z * x) % m
  {
    var q := x / m;
    assert x == q * m + x % m;
    assert z * x == (z * q) * m + z * (x % m);
    ModAddMultiple(a + z * (x % m), z * q, m);
  }

  lemma ModAddMultiple(y: int, k: nat, m: int)
    requires m > 0
    ensures (y + k * m) % m == y % m
  {
    var q, r := y / m, y % m;
    assert y + k * m == (q + k) * m + r;
    DivModUnique(y + k * m, m, q + k, r);
  }

  lemma DivModUnique(x: int, m: int, q: int, r: int)
    requires m > 0 && 0 <= r < m && x == q * m + r
    ensures x % m == r
  {
    var q', r' := x / m, x % m;
    assert q' * m + r' == q * m + r;
    if q' > q {
      assert (q' - q) * m == r - r';
      MulAtLeast(q' - q, m);
    } else if q' < q {
      assert (q - q') * m == r' - r;
      MulAtLeast(q - q', m);
    }
  }

  lemma MulAtLeast(a: int, m: int)
    requires a >= 1 && m > 0
    ensures a * m >= m
  {
    assert a * m == (a - 1) * m + m;
    assert (a - 1) * m >= 0;
  }

  lemma ModOfMod(x: nat)
    ensures (x % U64) % U32 == x % U32
  {
    var q := x / U64;
    assert x == q * U64 + x % U64;
    assert q * U64 == (q * 0x1_0000_0000) * U32;
    ModAddMultiple(x % U64, q * 0x1_0000_0000, U32);
  }

  /** A one-character key hashes to that character's code (hash.c:12-14). */
  lemma SingleCharHash(c: char)
    requires (c as int) < 128
    ensures HashPolynomial([c]) == c as int
  {
  }
}
