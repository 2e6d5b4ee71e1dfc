/** Fixed-width unsigned words of the C program, modelled as bounded integers, and the
    base-independent arithmetic behind the two-level structs built from them.
    Every wrap-around of the original is written out as `% W64` (or another modulus). */
module Words {
  const W32: int := 0x1_0000_0000
  const W64: int := 0x1_0000_0000_0000_0000
  const W128: int := 0x1_0000_0000_0000_0000_0000_0000_0000_0000
  const W256: int := 0x1_0000_0000_0000_0000_0000_0000_0000_0000_0000_0000_0000_0000_0000_0000_0000_0000

  type u8 = x: int | 0 <= x < 0x100
  type u16 = x: int | 0 <= x < 0x1_0000
  type u32 = x: int | 0 <= x < 0x1_0000_0000
  type u64 = x: int | 0 <= x < 0x1_0000_0000_0000_0000

  lemma WordSquares()
    ensures W64 * W64 == W128 && W128 * W128 == W256
  {
  }

  /** The value a uint64_t keeps of an integer result. */
  function Wrap64(x: int): u64
  {
    x % W64
  }

  /** uint32_t subtraction; exact when it does not wrap. */
  function Sub32(a: u32, b: u32): (r: u32)
    ensures a >= b ==> r == a - b
  {
    (a - b) % W32
  }

  // ---------- Powers of two ----------

  function Pow2(k: nat): (p: nat)
    ensures p > 0
  {
    if k == 0 then 1 else 2 * Pow2(k - 1)
  }

  lemma {:induction false} Pow2Sum(a: nat, b: nat)
    ensures Pow2(a + b) == Pow2(a) * Pow2(b)
  {
    if a > 0 {
      Pow2Sum(a - 1, b);
      assert Pow2(a + b) == 2 * Pow2(a - 1 + b);
    }
  }

  lemma {:induction false} Pow2Grows(a: nat, b: nat)
    requires a <= b
    ensures Pow2(a) <= Pow2(b)
  {
    if a < b {
      Pow2Grows(a, b - 1);
    }
  }

  lemma Pow2Square(k: nat, p: nat)
    requires Pow2(k) == p
    ensures Pow2(2 * k) == p * p
  {
    Pow2Sum(k, k);
  }

  lemma Pow2Words()
    ensures Pow2(8) == 0x100 && Pow2(32) == W32 && Pow2(64) == W64 && Pow2(128) == W128 && Pow2(256) == W256
  {
    assert Pow2(8) == 0x100;
    hide Pow2;
    Pow2Square(8, 0x100);
    Pow2Square(16, 0x1_0000);
    Pow2Square(32, W32);
    Pow2Square(64, W64);
    Pow2Square(128, W128);
  }

  // ---------- Division with remainder ----------

  lemma MulBound(d: int, m: int)
    requires m > 0
    ensures d >= 1 ==> d * m >= m
    ensures d <= -1 ==> d * m <= -m
  {
  }

  lemma DivModUnique(n: int, q: int, r: int, m: int)
    requires 0 <= r < m && n == q * m + r
    ensures n / m == q && n % m == r
  {
    var d := n / m - q;
    assert n == (n / m) * m + n % m;
    assert d * m == r - n % m by {
      assert d * m == (n / m) * m - q * m;
    }
    MulBound(d, m);
  }

  lemma ModMultiple(q: int, m: int)
    requires m > 0
    ensures (q * m) % m == 0 && (q * m) / m == q
  {
    DivModUnique(q * m, q, 0, m);
  }

  lemma ModAddMultiple(n: int, q: int, m: int)
    requires m > 0
    ensures (n + q * m) % m == n % m
  {
    assert n == (n / m) * m + n % m;
    assert n + q * m == (n / m + q) * m + n % m;
    DivModUnique(n + q * m, n / m + q, n % m, m);
  }

  lemma ModSmall(n: int, m: int)
    requires 0 <= n < m
    ensures n % m == n && n / m == 0
  {
  }

  lemma ModInside(x: int, y: int, m: int)
    requires m > 0
    ensures (x % m + y) % m == (x + y) % m
  {
    ModAddMultiple(x % m + y, x / m, m);
  }

  /** A two-digit number is bounded by the square of its base. */
  lemma TwoDigitsBound(b: int, u: int, l: int)
    requires 0 <= u < b && 0 <= l < b
    ensures 0 <= u * b + l < b * b
  {
    assert u * b <= (b - 1) * b;
  }
}
