/** Arithmetic of numbers written as two digits `u * b + l` over any base `b`.
    The same facts serve both levels of the limb structures: base 2^64 inside a uint128_t
    and base 2^128 inside a uint256_t. */
module TwoDigits {
  import opened Words

  lemma Distribute(x: int, y: int, z: int)
    ensures (x + y) * z == x * z + y * z
  {
  }

  lemma Swap(x: int, y: int, z: int)
    ensures (x * y) * z == (x * z) * y
  {
  }

  lemma Commute(x: int, y: int)
    ensures x * y == y * x
  {
  }

  lemma Reassociate(x: int, y: int, z: int)
    ensures (x * y) * z == x * (z * y)
  {
  }

  /** Sum of two digits, split into its carry and its wrapped value. */
  lemma Carry(b: int, x: int, y: int)
    requires 0 <= x < b && 0 <= y < b
    ensures var s := (x + y) % b;
            0 <= s < b && x + y == s + (if s < x then b else 0)
  {
  }

  /** Difference of two digits, split into its borrow and its wrapped value. */
  lemma Borrow(b: int, x: int, y: int)
    requires 0 <= x < b && 0 <= y < b
    ensures var d := (x - y) % b;
            0 <= d < b && x - y == d - (if d > x then b else 0)
  {
  }

  /** A wrapped upper digit over an exact lower digit is the number modulo b * b. */
  lemma Wrap(b: int, u: int, l: int)
    requires b > 0 && 0 <= l < b
    ensures (u * b + l) % (b * b) == (u % b) * b + l
    ensures 0 <= (u % b) * b + l < b * b
  {
    var q, r := u / b, u % b;
    assert u == q * b + r;
    TwoDigitsBound(b, r, l);
    assert u * b + l == q * (b * b) + (r * b + l) by {
      assert (q * b + r) * b == q * (b * b) + r * b;
    }
    DivModUnique(u * b + l, q, r * b + l, b * b);
  }

  lemma CollectDigits(b: int, x: int, y: int, z: int)
    ensures (x + y + z) * b == x * b + y * b + z * b
  {
  }

  lemma Add(b: int, u1: int, l1: int, u2: int, l2: int)
    requires 0 <= u1 < b && 0 <= l1 < b && 0 <= u2 < b && 0 <= l2 < b
    ensures var s := (l1 + l2) % b;
            ((u1 * b + l1) + (u2 * b + l2)) % (b * b)
            == ((u1 + u2 + (if s < l1 then 1 else 0)) % b) * b + s
  {
    Carry(b, l1, l2);
    var s := (l1 + l2) % b;
    var c := if s < l1 then 1 else 0;
    var u := u1 + u2 + c;
    CollectDigits(b, u1, u2, c);
    assert l1 + l2 == c * b + s;
    assert (u1 * b + l1) + (u2 * b + l2) == u * b + s;
    Wrap(b, u, s);
  }

  lemma Subtract(b: int, u1: int, l1: int, u2: int, l2: int)
    requires 0 <= u1 < b && 0 <= l1 < b && 0 <= u2 < b && 0 <= l2 < b
    ensures var d := (l1 - l2) % b;
            ((u1 * b + l1) - (u2 * b + l2)) % (b * b)
            == ((u1 - u2 - (if d > l1 then 1 else 0)) % b) * b + d
  {
    Borrow(b, l1, l2);
    var d := (l1 - l2) % b;
    var c := if d > l1 then 1 else 0;
    var u := u1 - u2 - c;
    CollectDigits(b, u1, -u2, -c);
    assert l1 - l2 == d - c * b;
    assert (u1 * b + l1) - (u2 * b + l2) == u * b + d;
    Wrap(b, u, d);
  }

  /** Two-digit numbers are ordered lexicographically. */
  lemma Compare(b: int, u1: int, l1: int, u2: int, l2: int)
    requires 0 <= l1 < b && 0 <= l2 < b
    ensures u1 * b + l1 > u2 * b + l2 <==> u1 > u2 || (u1 == u2 && l1 > l2)
    ensures u1 * b + l1 == u2 * b + l2 <==> u1 == u2 && l1 == l2
  {
    var d := u1 - u2;
    assert d * b == u1 * b - u2 * b;
    MulBound(d, b);
  }

  /** One digit times p, where b = p * q: the quotient and the remainder by b. */
  lemma DigitTimes(b: int, x: int, p: int, q: int)
    requires p >= 1 && q >= 1 && p * q == b && 0 <= x < b
    ensures 0 <= x / q < p && 0 <= (x % q) * p <= b - p
    ensures x * p == (x / q) * b + (x % q) * p
    ensures (x * p) % b == (x % q) * p
  {
    var g, t := x / q, x % q;
    assert x == g * q + t;
    assert x * p == g * b + t * p by {
      assert (g * q + t) * p == g * (p * q) + t * p;
    }
    assert t * p <= (q - 1) * p;
    assert (q - 1) * p == b - p;
    QuotientBound(x, g, q, p);
    DivModUnique(x * p, g, t * p, b);
  }

  lemma QuotientBound(x: int, g: int, q: int, p: int)
    requires q >= 1 && p >= 1 && 0 <= x < p * q && g == x / q
    ensures 0 <= g < p
  {
  }

  lemma ShiftLeftUpper(b: int, u: int, l: int, p: int, q: int)
    requires p >= 1 && q >= 1 && p * q == b && 0 <= u < b && 0 <= l < b
    ensures 0 <= (u * p) % b + l / q < b
    ensures (u * p + l / q) % b == (u * p) % b + l / q
  {
    DigitTimes(b, u, p, q);
    QuotientBound(l, l / q, q, p);
    ModInside(u * p, l / q, b);
    ModSmall((u * p) % b + l / q, b);
  }

  lemma ShiftLeftWhole(b: int, u: int, l: int, p: int, q: int)
    requires p >= 1 && q >= 1 && p * q == b && 0 <= l < b
    ensures (u * b + l) * p == (u * p + l / q) * b + (l * p) % b
  {
    assert l * p == (l / q) * b + (l * p) % b by {
      DigitTimes(b, l, p, q);
    }
    Distribute(u * b, l, p);
    Distribute(u * p, l / q, b);
    Swap(u, b, p);
  }

  /** Shifting left by less than a digit, with b = p * q and p the power of two multiplied by:
      the bits leaving the lower digit never meet a set bit of the shifted upper digit. */
  lemma ShiftLeft(b: int, u: int, l: int, p: int, q: int)
    requires p >= 1 && q >= 1 && p * q == b && 0 <= u < b && 0 <= l < b
    ensures 0 <= (u * p) % b + l / q < b
    ensures ((u * b + l) * p) % (b * b) == ((u * p) % b + l / q) * b + (l * p) % b
  {
    ShiftLeftUpper(b, u, l, p, q);
    ShiftLeftWhole(b, u, l, p, q);
    Wrap(b, u * p + l / q, (l * p) % b);
  }

  /** Shifting left by a whole digit and then by p: only the lower digit survives. */
  lemma ShiftLeftDigit(b: int, u: int, l: int, p: int)
    requires p >= 1 && 0 <= u && 0 <= l < b
    ensures ((u * b + l) * (b * p)) % (b * b) == ((l * p) % b) * b
  {
    var n := (u * b + l) * p;
    Reassociate(u * b + l, p, b);
    Wrap(b, n, 0);
    Distribute(u * b, l, p);
    Swap(u, b, p);
    ModAddMultiple(l * p, u * p, b);
  }

  /** Dividing a multiple of the divisor plus a rest. */
  lemma DivideSum(m: int, l: int, p: int)
    requires p >= 1
    ensures (m * p + l) / p == m + l / p
  {
    Distribute(m, l / p, p);
    DivModUnique(m * p + l, m + l / p, l % p, p);
  }

  /** Shifting right by less than a digit, with b = p * q. */
  lemma ShiftRight(b: int, u: int, l: int, p: int, q: int)
    requires p >= 1 && q >= 1 && p * q == b && 0 <= u < b && 0 <= l < b
    ensures 0 <= (u * q) % b + l / p < b
    ensures (u * b + l) / p == (u / p) * b + ((u * q) % b + l / p)
  {
    assert u * b == (u * q) * p by {
      Reassociate(u, q, p);
    }
    DivideSum(u * q, l, p);
    DigitTimes(b, u, q, p);
    QuotientBound(l, l / p, p, q);
  }

  /** Shifting right by a whole digit and then by p: only the upper digit survives. */
  lemma ShiftRightDigit(b: int, u: int, l: int, p: int)
    requires p >= 1 && 0 <= u && 0 <= l < b
    ensures (u * b + l) / (b * p) == u / p
  {
    var g, t := u / p, u % p;
    assert u * b == g * (b * p) + t * b by {
      Distribute(g * p, t, b);
      Reassociate(g, p, b);
    }
    TwoDigitsRange(b, t, l, p);
    DivModUnique(u * b + l, g, t * b + l, b * p);
  }

  lemma TwoDigitsRange(b: int, t: int, l: int, p: int)
    requires 0 <= t < p && 0 <= l < b
    ensures 0 <= t * b + l < b * p
  {
    Distribute(p - t, t, b);
    MulBound(p - t, b);
  }

  // ---------- Shifts by a number of bits, the digits being w bits wide ----------

  lemma ShiftLeftShort(w: nat, b: int, u: int, l: int, k: nat)
    requires b == Pow2(w) && 0 <= u < b && 0 <= l < b && 0 < k < w
    ensures 0 <= (u * Pow2(k)) % b + l / Pow2(w - k) < b
    ensures ((u * b + l) * Pow2(k)) % (b * b)
            == ((u * Pow2(k)) % b + l / Pow2(w - k)) * b + (l * Pow2(k)) % b
  {
    Pow2Sum(k, w - k);
    ShiftLeft(b, u, l, Pow2(k), Pow2(w - k));
  }

  lemma ShiftLeftLong(w: nat, b: int, u: int, l: int, k: nat)
    requires b == Pow2(w) && 0 <= u < b && 0 <= l < b && k >= w
    ensures ((u * b + l) * Pow2(k)) % (b * b) == ((l * Pow2(k - w)) % b) * b
  {
    Pow2Sum(w, k - w);
    ShiftLeftDigit(b, u, l, Pow2(k - w));
  }

  lemma ShiftRightShort(w: nat, b: int, u: int, l: int, k: nat)
    requires b == Pow2(w) && 0 <= u < b && 0 <= l < b && 0 < k < w
    ensures 0 <= (u * Pow2(w - k)) % b + l / Pow2(k) < b
    ensures (u * b + l) / Pow2(k) == (u / Pow2(k)) * b + ((u * Pow2(w - k)) % b + l / Pow2(k))
  {
    Pow2Sum(k, w - k);
    ShiftRight(b, u, l, Pow2(k), Pow2(w - k));
  }

  lemma ShiftRightLong(w: nat, b: int, u: int, l: int, k: nat)
    requires b == Pow2(w) && 0 <= u < b && 0 <= l < b && k >= w
    ensures (u * b + l) / Pow2(k) == u / Pow2(k - w)
  {
    Pow2Sum(w, k - w);
    ShiftRightDigit(b, u, l, Pow2(k - w));
  }

  lemma ShiftAway(w: nat, n: int, k: nat)
    requires 0 <= n < Pow2(w) && k >= w
    ensures (n * Pow2(k)) % Pow2(w) == 0 && n / Pow2(k) == 0
  {
    Pow2Sum(k - w, w);
    Reassociate(n, Pow2(k - w), Pow2(w));
    Commute(Pow2(k - w), Pow2(w));
    ModMultiple(n * Pow2(k - w), Pow2(w));
    Pow2Grows(w, k);
    ModSmall(n, Pow2(k));
  }

  /** Shifts by nothing and by one whole digit. */
  lemma ShiftEven(w: nat, b: int, u: int, l: int)
    requires b == Pow2(w) && 0 <= u < b && 0 <= l < b
    ensures ((u * b + l) * Pow2(0)) % (b * b) == u * b + l && (u * b + l) / Pow2(0) == u * b + l
    ensures ((u * b + l) * Pow2(w)) % (b * b) == l * b && (u * b + l) / Pow2(w) == u
  {
    assert Pow2(0) == 1;
    TwoDigitsBound(b, u, l);
    ModSmall(u * b + l, b * b);
    ShiftLeftDigit(b, u, l, 1);
    ModSmall(l, b);
    DivModUnique(u * b + l, u, l, b);
  }
}
