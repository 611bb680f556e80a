/** 64-bit two's-complement words as integers: wrap-around and bitwise and. */
module Words {

  const TWO_63: int := 0x8000_0000_0000_0000
  const TWO_64: int := 0x1_0000_0000_0000_0000

  predicate IsInt64(x: int) {
    -TWO_63 <= x < TWO_63
  }

  // The int64_t congruent to x modulo 2^64.
  function Wrap64(x: int): (r: int)
    ensures IsInt64(r)
  {
    (x + TWO_63) % TWO_64 - TWO_63
  }

  // Bitwise and of two natural numbers, over their lowest k bits.
  function AndBits(a: nat, b: nat, k: nat): nat {
    if k == 0 then 0 else (a % 2) * (b % 2) + 2 * AndBits(a / 2, b / 2, k - 1)
  }

  // The & operator on int64_t: and of the two bit patterns.
  function And64(a: int, b: int): int {
    Wrap64(AndBits(a % TWO_64, b % TWO_64, 64))
  }

  function Pow2(k: nat): nat {
    if k == 0 then 1 else 2 * Pow2(k - 1)
  }

  lemma {:induction false} Pow2Positive(k: nat)
    ensures Pow2(k) > 0
  {
    if k > 0 {
      Pow2Positive(k - 1);
    }
  }

  lemma {:induction false} Pow2Add(j: nat, k: nat)
    ensures Pow2(j + k) == Pow2(j) * Pow2(k)
  {
    if j > 0 {
      Pow2Add(j - 1, k);
      assert 2 * (Pow2(j - 1) * Pow2(k)) == (2 * Pow2(j - 1)) * Pow2(k);
    }
  }

  lemma Pow2Values()
    ensures Pow2(16) == 0x1_0000 && Pow2(32) == 0x1_0000_0000
    ensures Pow2(48) == 0x1_0000_0000_0000 && Pow2(64) == TWO_64
  {
    assert Pow2(4) == 16;
    Pow2Add(4, 4);
    Pow2Add(8, 8);
    Pow2Add(16, 16);
    Pow2Add(16, 32);
    Pow2Add(32, 32);
  }

  lemma {:induction false} ProductAtLeast(m: int, d: int)
    requires m >= 1 && d > 0
    ensures m * d >= d
  {
    if m > 1 {
      ProductAtLeast(m - 1, d);
      assert m * d == (m - 1) * d + d;
    }
  }

  lemma TimesMonotone(a: nat, b: nat, c: nat)
    requires a <= b
    ensures a * c <= b * c
  {
    assert b * c == a * c + (b - a) * c;
  }

  lemma NextMultiple(a: nat, c: nat)
    ensures (a + 1) * c == a * c + c
  {
  }

  // Division with remainder is unique.
  lemma DivisionIsUnique(x: int, q: int, r: int, d: int)
    requires d > 0 && 0 <= r < d && x == q * d + r
    ensures x / d == q && x % d == r
  {
    var q', r' := x / d, x % d;
    assert x == q' * d + r' && 0 <= r' < d;
    if q' > q {
      assert (q' - q) * d == q' * d - q * d;
      ProductAtLeast(q' - q, d);
    } else if q' < q {
      assert (q - q') * d == q * d - q' * d;
      ProductAtLeast(q - q', d);
    }
  }

  lemma ModOfMod(x: int, c: int, d: int)
    requires c > 0 && d > 0
    ensures c * d > 0 && (x % (c * d)) % d == x % d
  {
    ProductAtLeast(c, d);
    var q, r := x / (c * d), x % (c * d);
    var q', r' := r / d, r % d;
    assert x == q * (c * d) + (q' * d + r');
    assert q * (c * d) + q' * d == (q * c + q') * d;
    DivisionIsUnique(x, q * c + q', r', d);
  }

  lemma ModPlusMultiple(x: int, k: int, d: int)
    requires d > 0
    ensures (x + k * d) % d == x % d
  {
    assert x + k * d == (x / d + k) * d + x % d;
    DivisionIsUnique(x + k * d, x / d + k, x % d, d);
  }

  lemma WrapPlusMultiple(x: int, k: int)
    ensures Wrap64(x + k * TWO_64) == Wrap64(x)
  {
    ModPlusMultiple(x + TWO_63, k, TWO_64);
  }

  lemma ModDouble(x: nat, p: nat)
    requires p > 0
    ensures x % (2 * p) == x % 2 + 2 * ((x / 2) % p)
  {
    var h := x / 2;
    assert h == p * (h / p) + h % p;
    assert x == 2 * h + x % 2;
    assert x == (h / p) * (2 * p) + (2 * (h % p) + x % 2) by {
      assert (h / p) * (2 * p) == 2 * (p * (h / p));
    }
    DivisionIsUnique(x, h / p, 2 * (h % p) + x % 2, 2 * p);
  }

  // And with 2^j - 1 keeps the lowest j bits.
  lemma {:induction false} AndLowMask(a: nat, j: nat, k: nat)
    requires j <= k
    ensures Pow2(j) > 0 && AndBits(a, Pow2(j) - 1, k) == a % Pow2(j)
  {
    Pow2Positive(j);
    if j == 0 {
      AndZero(a, k);
    } else {
      Pow2Positive(j - 1);
      AndLowMask(a / 2, j - 1, k - 1);
      AndOddMask(a, Pow2(j - 1), k);
      ModDouble(a, Pow2(j - 1));
    }
  }

  lemma AndOddMask(a: nat, p: nat, k: nat)
    requires p > 0 && k > 0
    ensures AndBits(a, 2 * p - 1, k) == a % 2 + 2 * AndBits(a / 2, p - 1, k - 1)
  {
    assert (2 * p - 1) % 2 == 1 && (2 * p - 1) / 2 == p - 1;
  }

  lemma {:induction false} AndZero(a: nat, k: nat)
    ensures AndBits(a, 0, k) == 0
  {
    if k > 0 {
      AndZero(a / 2, k - 1);
    }
  }
}
