/** The string hash that selects a cache shard (cache/lru.go). */
module CacheHash {
  import opened Arithmetic
  import opened Bytes

  type Key = seq<Byte>

  const WORD := 0x1_0000_0000_0000_0000

  function HashString(s: Key): (h: nat)
    ensures h < WORD
  {
    if s == [] then 0 else (31 * HashString(s[..|s| - 1]) + s[|s| - 1]) % WORD
  }

  function Power31(n: nat): nat {
    if n == 0 then 1 else 31 * Power31(n - 1)
  }

  /** The bytes as digits to the base 31, the first one the highest. */
  function Polynomial(s: Key): nat {
    if s == [] then 0 else TimesByte(Power31(|s| - 1), s[0]) + Polynomial(s[1..])
  }

  function TimesByte(p: nat, b: Byte): nat {
    TimesMonotone(0, b, p);
    Times(b, p)
  }

  lemma {:induction false} HornerStep(s: Key)
    requires s != []
    ensures Polynomial(s) == 31 * Polynomial(s[..|s| - 1]) + s[|s| - 1]
  {
    var n := |s| - 1;
    if n == 0 {
      assert s[1..] == [] && s[..0] == [];
      TimesIsProduct(s[0], 1);
    } else {
      HornerStep(s[1..]);
      assert s[1..][..n - 1] == s[..n][1..];
      TimesIsProduct(s[0], Power31(n));
      TimesIsProduct(s[0], Power31(n - 1));
      assert s[0] * (31 * Power31(n - 1)) == 31 * (s[0] * Power31(n - 1));
    }
  }

  lemma {:induction false} ModuloInside(p: nat, b: nat)
    ensures (31 * (p % WORD) + b) % WORD == (31 * p + b) % WORD
  {
    var q, r := p / WORD, p % WORD;
    var inner: nat := 31 * r + b;
    DivModUnique(31 * p + b, WORD, 31 * q + inner / WORD, inner % WORD);
  }

  /** The hash is the polynomial of the bytes at 31, modulo 2^64. */
  lemma {:induction false} HashIsPolynomial(s: Key)
    ensures HashString(s) == Polynomial(s) % WORD
  {
    if s != [] {
      HashIsPolynomial(s[..|s| - 1]);
      HornerStep(s);
      ModuloInside(Polynomial(s[..|s| - 1]), s[|s| - 1]);
    }
  }
}
