/** uint128_t: two 64-bit words, updated through a target pointer that may be an operand.
    Every operation is proved against plain integers modulo 2^128. */
module Uint128 {
  import opened Words
  import TwoDigits

  class U128 {
    var upper: u64
    var lower: u64

    /** An uninitialised local of the C program: nothing is known about its words. */
    constructor () {
    }

    ghost function Value(): (v: nat)
      reads this
      ensures v < W128
    {
      TwoDigitsBound(W64, upper, lower);
      upper * W64 + lower
    }
  }

  // ---------- 64-bit shifts; a shift count of 64 or more is undefined in C ----------

  function Shl64(x: u64, k: nat): u64
    requires k < 64
  {
    Wrap64(x * Pow2(k))
  }

  lemma ShlExact(x: u64, k: nat)
    requires k < 64 && x * Pow2(k) < W64
    ensures Shl64(x, k) == x * Pow2(k)
  {
  }

  function Shr64(x: u64, k: nat): (r: u64)
    requires k < 64
    ensures r <= x
  {
    QuotientInRange(x, Pow2(k));
    x / Pow2(k)
  }

  lemma QuotientInRange(x: int, m: int)
    requires x >= 0 && m >= 1
    ensures 0 <= x / m <= x
  {
  }

  /** Bitwise or of two words, bit by bit. */
  function Or(a: nat, b: nat): nat
    decreases a, b
  {
    if a == 0 then b
    else if b == 0 then a
    else 2 * Or(a / 2, b / 2) + (if a % 2 == 1 || b % 2 == 1 then 1 else 0)
  }

  lemma {:induction false} OrBound(a: nat, b: nat, k: nat)
    requires a < Pow2(k) && b < Pow2(k)
    ensures Or(a, b) < Pow2(k)
  {
    if a != 0 && b != 0 {
      OrBound(a / 2, b / 2, k - 1);
    }
  }

  function Or64(a: u64, b: u64): u64
  {
    Pow2Words();
    OrBound(a, b, 64);
    Or(a, b)
  }

  /** Or-ing in a power of two below every set bit of a number adds it. */
  lemma {:induction false} OrIsSum(a: nat, j: nat)
    requires a % Pow2(j + 1) == 0
    ensures Or(a, Pow2(j)) == a + Pow2(j)
  {
    if a != 0 {
      var m := Pow2(j);
      assert a == (a / (2 * m)) * (2 * m);
      var q := a / (2 * m);
      assert a == (q * m) * 2;
      DivModUnique(a, q * m, 0, 2);
      if j > 0 {
        ModMultiple(q, m);
        OrIsSum(a / 2, j - 1);
        assert m == 2 * Pow2(j - 1);
      } else {
        assert m == 1;
        assert Or(a / 2, 0) == a / 2;
      }
    }
  }

  // ---------- Copies and comparisons ----------

  predicate Zero128(number: U128)
    reads number
    ensures Zero128(number) <==> number.Value() == 0
  {
    TwoDigits.Compare(W64, number.upper, number.lower, 0, 0);
    number.lower == 0 && number.upper == 0
  }

  predicate Equal128(number1: U128, number2: U128)
    reads number1, number2
    ensures Equal128(number1, number2) <==> number1.Value() == number2.Value()
  {
    TwoDigits.Compare(W64, number1.upper, number1.lower, number2.upper, number2.lower);
    number1.upper == number2.upper && number1.lower == number2.lower
  }

  predicate Gt128(number1: U128, number2: U128)
    reads number1, number2
    ensures Gt128(number1, number2) <==> number1.Value() > number2.Value()
  {
    TwoDigits.Compare(W64, number1.upper, number1.lower, number2.upper, number2.lower);
    if number1.upper == number2.upper then number1.lower > number2.lower
    else number1.upper > number2.upper
  }

  predicate Gte128(number1: U128, number2: U128)
    reads number1, number2
    ensures Gte128(number1, number2) <==> number1.Value() >= number2.Value()
  {
    Gt128(number1, number2) || Equal128(number1, number2)
  }

  method Copy128(target: U128, number: U128)
    modifies target
    ensures target.upper == old(number.upper) && target.lower == old(number.lower)
    ensures target.Value() == old(number.Value())
  {
    target.upper := number.upper;
    target.lower := number.lower;
  }

  method Clear128(target: U128)
    modifies target
    ensures target.upper == 0 && target.lower == 0 && target.Value() == 0
  {
    target.upper := 0;
    target.lower := 0;
  }

  method One128() returns (one: U128)
    ensures fresh(one) && one.Value() == 1
  {
    one := new U128();
    one.upper := 0;
    one.lower := 1;
  }

  // ---------- Shifts ----------

  lemma Parts(n: U128)
    ensures n.Value() == n.upper * W64 + n.lower
  {
  }

  /** Shl64 and Shr64 written out, for proofs that hide all definitions. */
  lemma WordShifts(x: u64, k: nat)
    requires k < 64
    ensures Shl64(x, k) == (x * Pow2(k)) % W64 && Shr64(x, k) == x / Pow2(k)
  {
  }

  lemma ShiftLeftWithin(u: u64, l: u64, k: nat)
    requires 0 < k < 64
    ensures Shl64(u, k) + Shr64(l, 64 - k) < W64
    ensures ((u * W64 + l) * Pow2(k)) % W128 == (Shl64(u, k) + Shr64(l, 64 - k)) * W64 + Shl64(l, k)
  {
    Pow2Words();
    WordRange();
    WordSquares();
    hide *;
    WordShifts(u, k);
    WordShifts(l, k);
    WordShifts(l, 64 - k);
    TwoDigits.ShiftLeftShort(64, W64, u, l, k);
  }

  lemma ShiftRightWithin(u: u64, l: u64, k: nat)
    requires 0 < k < 64
    ensures Shl64(u, 64 - k) + Shr64(l, k) < W64
    ensures (u * W64 + l) / Pow2(k) == Shr64(u, k) * W64 + (Shl64(u, 64 - k) + Shr64(l, k))
  {
    Pow2Words();
    WordRange();
    hide *;
    WordShifts(u, k);
    WordShifts(l, k);
    WordShifts(u, 64 - k);
    TwoDigits.ShiftRightShort(64, W64, u, l, k);
  }

  lemma ShiftAcross(u: u64, l: u64, k: nat)
    requires 64 <= k < 128
    ensures ((u * W64 + l) * Pow2(k)) % W128 == Shl64(l, k - 64) * W64 + 0
    ensures (u * W64 + l) / Pow2(k) == 0 * W64 + Shr64(u, k - 64)
  {
    Pow2Words();
    WordRange();
    WordSquares();
    hide *;
    WordShifts(l, k - 64);
    WordShifts(u, k - 64);
    TwoDigits.ShiftLeftLong(64, W64, u, l, k);
    TwoDigits.ShiftRightLong(64, W64, u, l, k);
  }

  lemma ShiftEven(u: u64, l: u64)
    ensures ((u * W64 + l) * Pow2(0)) % W128 == u * W64 + l && (u * W64 + l) / Pow2(0) == u * W64 + l
    ensures ((u * W64 + l) * Pow2(64)) % W128 == l * W64 + 0 && (u * W64 + l) / Pow2(64) == 0 * W64 + u
  {
    Pow2Words();
    WordRange();
    WordSquares();
    hide *;
    TwoDigits.ShiftEven(64, W64, u, l);
  }

  lemma ShiftAway(n: nat, k: nat)
    requires n < W128 && k >= 128
    ensures (n * Pow2(k)) % W128 == 0 && n / Pow2(k) == 0
  {
    Pow2Words();
    TwoDigits.ShiftAway(128, n, k);
  }

  lemma WordRange()
    ensures W64 == 0x1_0000_0000_0000_0000
  {
  }

  method Shiftl128(number: U128, value: u32, target: U128)
    modifies target
    ensures target.Value() == (old(number.Value()) * Pow2(value)) % W128
  {
    hide *;
    WordRange();
    Parts(number);
    if value >= 128 {
      ShiftAway(number.Value(), value);
      Clear128(target);
    } else if value == 64 {
      ShiftEven(number.upper, number.lower);
      target.upper := number.lower;
      target.lower := 0;
    } else if value == 0 {
      ShiftEven(number.upper, number.lower);
      Copy128(target, number);
    } else if value < 64 {
      ShiftLeftWithin(number.upper, number.lower, value);
      target.upper := Shl64(number.upper, value) + Shr64(number.lower, 64 - value);
      target.lower := Shl64(number.lower, value);
    } else {
      ShiftAcross(number.upper, number.lower, value);
      target.upper := Shl64(number.lower, value - 64);
      target.lower := 0;
    }
    Parts(target);
  }

  /** Shifting in place by exactly one word clears the source before it is read. */
  method Shiftr128(number: U128, value: u32, target: U128)
    modifies target
    ensures target.Value() == if value == 64 && number == target then 0 else old(number.Value()) / Pow2(value)
  {
    hide *;
    WordRange();
    Parts(number);
    if value >= 128 {
      ShiftAway(number.Value(), value);
      Clear128(target);
    } else if value == 64 {
      ShiftEven(number.upper, number.lower);
      target.upper := 0;
      target.lower := number.upper;
    } else if value == 0 {
      ShiftEven(number.upper, number.lower);
      Copy128(target, number);
    } else if value < 64 {
      ShiftRightWithin(number.upper, number.lower, value);
      var result := new U128();
      result.upper := Shr64(number.upper, value);
      result.lower := Shl64(number.upper, 64 - value) + Shr64(number.lower, value);
      Parts(result);
      Copy128(target, result);
    } else {
      ShiftAcross(number.upper, number.lower, value);
      target.lower := Shr64(number.upper, value - 64);
      target.upper := 0;
    }
    Parts(target);
  }

  // ---------- Bit length ----------

  function BitLength(n: nat): nat
  {
    if n == 0 then 0 else 1 + BitLength(n / 2)
  }

  /** The bit length of n is the only k with 2^(k-1) <= n < 2^k. */
  lemma {:induction false} BitLengthExact(n: nat, k: nat)
    requires n > 0
    ensures BitLength(n) == k <==> k > 0 && Pow2(k - 1) <= n < Pow2(k)
  {
    if n == 1 {
      assert BitLength(n / 2) == 0;
      if k >= 2 {
        Pow2Grows(1, k - 1);
        assert Pow2(1) == 2;
      }
    } else if k >= 2 {
      BitLengthExact(n / 2, k - 1);
      assert Pow2(k - 1) == 2 * Pow2(k - 2) && Pow2(k) == 2 * Pow2(k - 1);
    } else {
      assert BitLength(n / 2) >= 1;
    }
  }

  lemma BitLengthAtMost(n: nat, k: nat)
    requires n < Pow2(k)
    ensures BitLength(n) <= k
  {
  }

  /** Dropping the k low bits of a number that reaches beyond them drops k from its length. */
  lemma BitLengthUpper(u: nat, l: nat, k: nat)
    requires u > 0 && l < Pow2(k)
    ensures BitLength(u * Pow2(k) + l) == k + BitLength(u)
  {
    var m := BitLength(u);
    BitLengthExact(u, m);
    Pow2Sum(m - 1, k);
    Pow2Sum(m, k);
    ScaleBounds(u, l, Pow2(m - 1), Pow2(m), Pow2(k));
    BitLengthExact(u * Pow2(k) + l, k + m);
  }

  lemma ScaleBounds(u: nat, l: nat, lo: nat, hi: nat, p: nat)
    requires lo <= u < hi && l < p
    ensures lo * p <= u * p + l < hi * p
  {
    TwoDigits.Distribute(u - lo, lo, p);
    TwoDigits.Distribute(hi - u, u, p);
    MulBound(hi - u, p);
  }

  /** Counts the bits of one word on top of a starting count. */
  method CountBits(start: u32, number: u64) returns (result: u32)
    requires start <= 64
    ensures result == start + BitLength(number) <= 128
  {
    hide *;
    BitLengthRange(number);
    result := start;
    var rest := number;
    while rest != 0
      invariant result + BitLength(rest) == start + BitLength(number) <= 128
      decreases rest
    {
      BitLengthStep(rest);
      rest := Shr64(rest, 1);
      result := result + 1;
    }
    BitLengthRange(0);
  }

  lemma BitLengthRange(n: u64)
    ensures BitLength(n) <= 64 && BitLength(0) == 0
  {
    Pow2Words();
    BitLengthAtMost(n, 64);
  }

  lemma BitLengthStep(n: u64)
    requires n > 0
    ensures BitLength(n) == 1 + BitLength(Shr64(n, 1)) && Shr64(n, 1) < n
  {
  }

  lemma BitLengthWords(u: u64, l: u64)
    ensures BitLength(u * W64 + l) == if u != 0 then 64 + BitLength(u) else BitLength(l)
  {
    Pow2Words();
    if u != 0 {
      BitLengthUpper(u, l, 64);
    }
  }

  method Bits128(number: U128) returns (result: u32)
    ensures result == BitLength(number.Value()) <= 128
  {
    hide *;
    Parts(number);
    BitLengthWords(number.upper, number.lower);
    if number.upper != 0 {
      result := CountBits(64, number.upper);
    } else {
      result := CountBits(0, number.lower);
    }
  }

  // ---------- Addition, subtraction, or ----------

  lemma AddWords(u1: u64, l1: u64, u2: u64, l2: u64)
    ensures var low := Wrap64(l1 + l2);
            ((u1 * W64 + l1) + (u2 * W64 + l2)) % W128
            == Wrap64(u1 + u2 + (if low < l1 then 1 else 0)) * W64 + low
  {
    TwoDigits.Add(W64, u1, l1, u2, l2);
  }

  lemma MinusWords(u1: u64, l1: u64, u2: u64, l2: u64)
    ensures var low := Wrap64(l1 - l2);
            ((u1 * W64 + l1) - (u2 * W64 + l2)) % W128
            == Wrap64(u1 - u2 - (if low > l1 then 1 else 0)) * W64 + low
  {
    TwoDigits.Subtract(W64, u1, l1, u2, l2);
  }

  method Add128(number1: U128, number2: U128, target: U128)
    modifies target
    ensures target.Value() == (old(number1.Value()) + old(number2.Value())) % W128
  {
    hide *;
    Parts(number1);
    Parts(number2);
    AddWords(number1.upper, number1.lower, number2.upper, number2.lower);
    target.upper := Wrap64(number1.upper + number2.upper
                           + if Wrap64(number1.lower + number2.lower) < number1.lower then 1 else 0);
    target.lower := Wrap64(number1.lower + number2.lower);
    Parts(target);
  }

  method Minus128(number1: U128, number2: U128, target: U128)
    modifies target
    ensures target.Value() == (old(number1.Value()) - old(number2.Value())) % W128
  {
    hide *;
    Parts(number1);
    Parts(number2);
    MinusWords(number1.upper, number1.lower, number2.upper, number2.lower);
    target.upper := Wrap64(number1.upper - number2.upper
                           - if Wrap64(number1.lower - number2.lower) > number1.lower then 1 else 0);
    target.lower := Wrap64(number1.lower - number2.lower);
    Parts(target);
  }

  function Digits(u: nat, l: nat, p: nat): nat
  {
    u * p + l
  }

  /** Or acts on the two digits of a number separately. */
  lemma {:induction false} OrSplit(u1: nat, l1: nat, u2: nat, l2: nat, k: nat)
    requires l1 < Pow2(k) && l2 < Pow2(k)
    ensures Or(Digits(u1, l1, Pow2(k)), Digits(u2, l2, Pow2(k))) == Digits(Or(u1, u2), Or(l1, l2), Pow2(k))
  {
    if k == 0 {
      OrZero(0);
    } else {
      var p := Pow2(k - 1);
      OrSplit(u1, l1 / 2, u2, l2 / 2, k - 1);
      DoubleDigits(u1, l1, p);
      DoubleDigits(u2, l2, p);
      DoubleDigits(Or(u1, u2), Or(l1, l2), p);
      OrUnfold(l1, l2);
      OrUnfold(Digits(u1, l1, 2 * p), Digits(u2, l2, 2 * p));
    }
  }

  lemma DoubleDigits(u: nat, l: nat, p: nat)
    ensures Digits(u, l, 2 * p) == 2 * Digits(u, l / 2, p) + l % 2
    ensures Digits(u, l, 2 * p) / 2 == Digits(u, l / 2, p) && Digits(u, l, 2 * p) % 2 == l % 2
  {
  }

  lemma OrUnfold(a: nat, b: nat)
    ensures Or(a, b) == 2 * Or(a / 2, b / 2) + (if a % 2 == 1 || b % 2 == 1 then 1 else 0)
  {
  }

  lemma OrZero(a: nat)
    ensures Or(a, 0) == a
  {
  }

  lemma OrWords(u1: u64, l1: u64, u2: u64, l2: u64)
    ensures Or(u1 * W64 + l1, u2 * W64 + l2) == Or64(u1, u2) * W64 + Or64(l1, l2)
  {
    hide Or;
    Pow2Words();
    OrSplit(u1, l1, u2, l2, 64);
  }

  method Or128(number1: U128, number2: U128, target: U128)
    modifies target
    ensures target.Value() == Or(old(number1.Value()), old(number2.Value()))
  {
    hide *;
    Parts(number1);
    Parts(number2);
    OrWords(number1.upper, number1.lower, number2.upper, number2.lower);
    target.upper := Or64(number1.upper, number2.upper);
    target.lower := Or64(number1.lower, number2.lower);
    Parts(target);
  }
}
