/** Unsigned 64-bit values as bounded integers, and powers of two. */
module Arith {

  /** 2^64, the modulus of Go's uint64 arithmetic. */
  const Word: int := 0x1_0000_0000_0000_0000

  /** The values a Go `uint64` can hold. */
  type u64 = x: int | 0 <= x < 0x1_0000_0000_0000_0000

  /** The values a Go `uint32` can hold. */
  type u32 = x: int | 0 <= x < 0x1_0000_0000

  /** The values a Go `uint8` can hold. */
  type u8 = x: int | 0 <= x < 0x100

  /** 2^k. */
  function Pow2(k: nat): (r: nat)
    ensures r >= 1
  {
    if k == 0 then 1 else 2 * Pow2(k - 1)
  }

  /** Exponents add: 2^(a+b) == 2^a * 2^b. */
  lemma {:induction false} Pow2Add(a: nat, b: nat)
    ensures Pow2(a + b) == Pow2(a) * Pow2(b)
  {
    if b != 0 {
      Pow2Add(a, b - 1);
    }
  }

  /** 2^k grows strictly with k. */
  lemma {:induction false} Pow2Monotone(a: nat, b: nat)
    requires a <= b
    ensures Pow2(a) <= Pow2(b)
    ensures a < b ==> Pow2(a) < Pow2(b)
  {
    if a < b {
      Pow2Monotone(a, b - 1);
    }
  }

  /** The powers of two the model needs as constants. */
  lemma Pow2Values()
    ensures Pow2(7) == 128
    ensures Pow2(16) == 0x1_0000
    ensures Pow2(56) == 0x100_0000_0000_0000
    ensures Pow2(57) == 0x200_0000_0000_0000
    ensures Pow2(63) == 0x8000_0000_0000_0000
    ensures Pow2(64) == Word
  {
    assert Pow2(1) == 2;
    Pow2Add(1, 1);
    Pow2Add(2, 2);
    assert Pow2(4) == 16;
    Pow2Add(4, 3);
    assert Pow2(7) == 128;
    Pow2Add(4, 4);
    Pow2Add(8, 8);
    assert Pow2(16) == 0x1_0000;
    Pow2Add(16, 16);
    Pow2Add(32, 16);
    Pow2Add(48, 8);
    assert Pow2(56) == 0x100_0000_0000_0000;
    Pow2Add(56, 1);
    Pow2Add(56, 7);
    Pow2Add(32, 32);
  }

  /** Every 2^k with k < 64 is a uint64 value. */
  lemma Pow2Fits(k: nat)
    requires k < 64
    ensures Pow2(k) <= 0x8000_0000_0000_0000 < Word
  {
    Pow2Monotone(k, 63);
    Pow2Values();
  }

  /** Go's `uint64(1) << k`: 2^k, or 0 once the shift pushes the bit out of the word. */
  function Shl1(k: nat): u64
  {
    Pow2FitsBelow64(k);
    if k < 64 then Pow2(k) else 0
  }

  /** Below 64, `Shl1` is the power of two. */
  lemma Shl1Def(k: nat)
    requires k < 64
    ensures Shl1(k) == Pow2(k)
  {
  }

  /** A value already below the modulus is its own remainder. */
  lemma ModSmall(x: int, m: int)
    requires 0 <= x < m
    ensures x % m == x
  {
    ModUnique(x, m, 0, x);
  }

  /** Go's `x >> k` on a uint64: division by 2^k, or 0 once every bit is shifted out. */
  function Shr(x: u64, k: nat): (r: u64)
    ensures r <= x
  {
    var d := Pow2(k);
    DivShrinks(x, d);
    if k < 64 then x / d else 0
  }

  /** `Pow2Fits` for every exponent, as an implication. */
  lemma Pow2FitsBelow64(k: nat)
    ensures k < 64 ==> Pow2(k) < Word
  {
    if k < 64 {
      Pow2Fits(k);
    }
  }

  /** Dividing by a positive number never makes a natural number larger. */
  lemma DivShrinks(x: nat, d: nat)
    requires d >= 1
    ensures 0 <= x / d <= x
  {
    if d > 1 {
      assert x == d * (x / d) + x % d;
      MulMonotone(1, d, x / d);
    }
  }

  /** The quotient of `x` by `d` brackets `x` between two consecutive multiples of `d`. */
  lemma DivBracket(x: nat, d: nat)
    requires d >= 1
    ensures (x / d) * d <= x < (x / d + 1) * d
  {
    assert x == (x / d) * d + x % d;
  }

  /** Multiplication by a natural number is monotone. */
  lemma MulMonotone(a: int, b: int, c: nat)
    requires a <= b
    ensures a * c <= b * c
  {
    assert b * c - a * c == (b - a) * c;
  }

  /** Go's `x & m` on unsigned words, bit by bit from the lowest. */
  function And(x: nat, m: nat): (r: nat)
    ensures r <= x && r <= m
  {
    if x == 0 || m == 0 then 0
    else 2 * And(x / 2, m / 2) + (if x % 2 == 1 && m % 2 == 1 then 1 else 0)
  }

  /** A mask of `k` low one bits keeps the remainder modulo 2^k. */
  lemma {:induction false} AndLowBits(x: nat, k: nat)
    ensures And(x, Pow2(k) - 1) == x % Pow2(k)
  {
    if k == 0 {
      assert Pow2(k) - 1 == 0;
    } else if x == 0 {
      ModUnique(0, Pow2(k), 0, 0);
    } else {
      var p, q := Pow2(k - 1), x / 2;
      AndLowBits(q, k - 1);
      AndLowBitsStep(x, k, p, q);
    }
  }

  /** One step of `AndLowBits`: the low bit of `x` survives, the rest is masked one bit narrower. */
  lemma AndLowBitsStep(x: nat, k: nat, p: nat, q: nat)
    requires k > 0 && x > 0 && p == Pow2(k - 1) && q == x / 2
    requires And(q, p - 1) == q % p
    ensures And(x, Pow2(k) - 1) == x % Pow2(k)
  {
    var b, m := x % 2, Pow2(k);
    assert m == 2 * p;
    assert x == 2 * q + b;
    AndOddMask(x, m - 1, p - 1);
    assert And(x, m - 1) == 2 * (q % p) + b;
    ModOfDouble(q, b, p);
    assert x % m == 2 * (q % p) + b;
  }

  /** Masking with an odd mask `2 * h + 1` keeps the low bit and masks the rest with `h`. */
  lemma AndOddMask(x: nat, m: nat, h: nat)
    requires x > 0 && m == 2 * h + 1
    ensures And(x, m) == 2 * And(x / 2, h) + x % 2
  {
  }

  /** Division by a positive number is monotone. */
  lemma DivMonotone(a: nat, b: nat, d: nat)
    requires a <= b && d >= 1
    ensures a / d <= b / d
  {
    if a / d > b / d {
      MulMonotone(b / d + 1, a / d, d);
      assert false;
    }
  }

  /** Euclidean division is unique: `n == m * d + r` with `0 <= r < m` fixes `n % m`. */
  lemma ModUnique(n: int, m: int, d: int, r: int)
    requires 0 <= r < m && n == m * d + r
    ensures n % m == r && n / m == d
  {
    var d', r' := n / m, n % m;
    assert n == m * d' + r' && 0 <= r' < m;
    var k := d - d';
    assert m * k == r' - r by {
      assert m * d - m * d' == m * k;
    }
    if k >= 1 {
      MulGrows(m, k);
    } else if k <= -1 {
      MulGrows(m, -k);
    }
  }

  /** A positive multiple of `m` is at least `m`. */
  lemma MulGrows(m: int, k: int)
    requires m > 0 && k >= 1
    ensures m * k >= m
  {
    assert m * k == m * (k - 1) + m;
  }

  /** Reducing the left operand first does not change a remainder of a sum. */
  lemma ModAddLeft(a: nat, b: nat, m: nat)
    requires m >= 1
    ensures (a % m + b) % m == (a + b) % m
  {
    var q, r := a / m, a % m;
    var q2, r2 := (r + b) / m, (r + b) % m;
    assert a == m * q + r && r + b == m * q2 + r2 && 0 <= r2 < m;
    assert a + b == m * (q + q2) + r2;
    ModUnique(a + b, m, q + q2, r2);
  }

  /** Appending one low bit to `q` appends it to `q`'s remainder modulo 2^k too. */
  lemma ModOfDouble(q: int, b: int, p: int)
    requires q >= 0 && p >= 1 && 0 <= b <= 1
    ensures (2 * q + b) % (2 * p) == 2 * (q % p) + b
  {
    var d := q / p;
    var r := q % p;
    assert q == p * d + r;
    assert 2 * q + b == (2 * p) * d + (2 * r + b);
    ModUnique(2 * q + b, 2 * p, d, 2 * r + b);
  }
}
