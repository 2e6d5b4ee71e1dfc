/** uint256_t: two embedded uint128_t structs. Targets may be operands; the only layouts that
    cannot occur in C, partly overlapping structs, are excluded by `Layout`. */
module Uint256 {
  import opened Words
  import opened Uint128
  import TwoDigits

  class U256 {
    const upper: U128
    const lower: U128

    constructor ()
      ensures fresh(upper) && fresh(lower) && upper != lower
    {
      upper := new U128();
      lower := new U128();
    }

    ghost function Value(): (v: nat)
      reads upper, lower
      ensures v < W256
    {
      TwoDigitsBound(W128, upper.Value(), lower.Value());
      upper.Value() * W128 + lower.Value()
    }
  }

  /** The two halves of a struct are different words of memory; two structs are one and the
      same or share nothing. */
  ghost predicate Layout(a: U256, b: U256)
  {
    && a.upper != a.lower
    && b.upper != b.lower
    && ((a.upper == b.upper && a.lower == b.lower) || Separate(a, b))
  }

  lemma Halves(n: U256)
    ensures n.Value() == n.upper.Value() * W128 + n.lower.Value()
  {
  }

  /** Two structs that share nothing. */
  ghost predicate Separate(a: U256, b: U256)
  {
    && a.upper != a.lower
    && b.upper != b.lower
    && a.upper != b.upper && a.upper != b.lower
    && a.lower != b.upper && a.lower != b.lower
  }

  predicate Zero256(number: U256)
    reads number.upper, number.lower
    ensures Zero256(number) <==> number.Value() == 0
  {
    TwoDigits.Compare(W128, number.upper.Value(), number.lower.Value(), 0, 0);
    Zero128(number.lower) && Zero128(number.upper)
  }

  predicate Equal256(number1: U256, number2: U256)
    reads number1.upper, number1.lower, number2.upper, number2.lower
    ensures Equal256(number1, number2) <==> number1.Value() == number2.Value()
  {
    TwoDigits.Compare(W128, number1.upper.Value(), number1.lower.Value(),
                      number2.upper.Value(), number2.lower.Value());
    Equal128(number1.upper, number2.upper) && Equal128(number1.lower, number2.lower)
  }

  predicate Gt256(number1: U256, number2: U256)
    reads number1.upper, number1.lower, number2.upper, number2.lower
    ensures Gt256(number1, number2) <==> number1.Value() > number2.Value()
  {
    TwoDigits.Compare(W128, number1.upper.Value(), number1.lower.Value(),
                      number2.upper.Value(), number2.lower.Value());
    if Equal128(number1.upper, number2.upper) then Gt128(number1.lower, number2.lower)
    else Gt128(number1.upper, number2.upper)
  }

  predicate Gte256(number1: U256, number2: U256)
    reads number1.upper, number1.lower, number2.upper, number2.lower
    ensures Gte256(number1, number2) <==> number1.Value() >= number2.Value()
  {
    Gt256(number1, number2) || Equal256(number1, number2)
  }

  method Copy256(target: U256, number: U256)
    requires Layout(target, number)
    modifies target.upper, target.lower
    ensures target.upper.Value() == old(number.upper.Value())
    ensures target.lower.Value() == old(number.lower.Value())
    ensures target.Value() == old(number.Value())
  {
    Copy128(target.upper, number.upper);
    Copy128(target.lower, number.lower);
  }

  method Clear256(target: U256)
    requires target.upper != target.lower
    modifies target.upper, target.lower
    ensures target.upper.upper == target.upper.lower == target.lower.upper == target.lower.lower == 0
    ensures target.Value() == 0
  {
    Clear128(target.upper);
    Clear128(target.lower);
  }

  method One256() returns (one: U256)
    ensures fresh(one) && fresh(one.upper) && fresh(one.lower) && one.upper != one.lower
    ensures one.Value() == 1
  {
    one := new U256();
    Clear256(one);
    one.lower.upper := 0;
    one.lower.lower := 1;
  }

  // ---------- Shifts ----------

  lemma ShiftLeftWithin(u: nat, l: nat, k: nat)
    requires u < W128 && l < W128 && 0 < k < 128
    ensures ((u * W128 + l) * Pow2(k)) % W256
            == (((u * Pow2(k)) % W128 + l / Pow2(128 - k)) % W128) * W128 + (l * Pow2(k)) % W128
  {
    Pow2Words();
    WordSquares();
    hide *;
    TwoDigits.ShiftLeftShort(128, W128, u, l, k);
    ModSmall((u * Pow2(k)) % W128 + l / Pow2(128 - k), W128);
  }

  lemma ShiftRightWithin(u: nat, l: nat, k: nat)
    requires u < W128 && l < W128 && 0 < k < 128
    ensures (u * W128 + l) / Pow2(k)
            == (u / Pow2(k)) * W128 + (l / Pow2(k) + (u * Pow2(128 - k)) % W128) % W128
  {
    Pow2Words();
    hide *;
    TwoDigits.ShiftRightShort(128, W128, u, l, k);
    ModSmall((u * Pow2(128 - k)) % W128 + l / Pow2(k), W128);
  }

  lemma ShiftAcross(u: nat, l: nat, k: nat)
    requires u < W128 && l < W128 && k >= 128
    ensures ((u * W128 + l) * Pow2(k)) % W256 == ((l * Pow2(k - 128)) % W128) * W128 + 0
    ensures (u * W128 + l) / Pow2(k) == 0 * W128 + u / Pow2(k - 128)
  {
    Pow2Words();
    WordSquares();
    hide *;
    TwoDigits.ShiftLeftLong(128, W128, u, l, k);
    TwoDigits.ShiftRightLong(128, W128, u, l, k);
  }

  lemma ShiftEven(u: nat, l: nat)
    requires u < W128 && l < W128
    ensures ((u * W128 + l) * Pow2(0)) % W256 == u * W128 + l && (u * W128 + l) / Pow2(0) == u * W128 + l
    ensures ((u * W128 + l) * Pow2(128)) % W256 == l * W128 + 0 && (u * W128 + l) / Pow2(128) == 0 * W128 + u
  {
    Pow2Words();
    WordSquares();
    hide *;
    TwoDigits.ShiftEven(128, W128, u, l);
  }

  lemma ShiftAway(n: nat, k: nat)
    requires n < W256 && k >= 256
    ensures (n * Pow2(k)) % W256 == 0 && n / Pow2(k) == 0
  {
    Pow2Words();
    hide *;
    TwoDigits.ShiftAway(256, n, k);
  }

  /** n * 2^k modulo 2^256, for every 32-bit k and also in place. */
  method Shiftl256(number: U256, value: u32, target: U256)
    requires Layout(number, target)
    modifies target.upper, target.lower
    ensures target.Value() == (old(number.Value()) * Pow2(value)) % W256
  {
    hide U128.Value, U256.Value, Pow2, Or, BitLength, W64, W128, W256;
    Halves(number);
    ghost var u, l := number.upper.Value(), number.lower.Value();
    if value >= 256 {
      ShiftAway(number.Value(), value);
      Clear256(target);
    } else if value == 128 {
      ShiftEven(u, l);
      Copy128(target.upper, number.lower);
      Clear128(target.lower);
    } else if value == 0 {
      ShiftEven(u, l);
      Copy256(target, number);
    } else if value < 128 {
      ShiftLeftWithin(u, l, value);
      var tmp1 := new U128();
      var tmp2 := new U128();
      var result := new U256();
      Shiftl128(number.upper, value, tmp1);
      Shiftr128(number.lower, 128 - value, tmp2);
      Add128(tmp1, tmp2, result.upper);
      Shiftl128(number.lower, value, result.lower);
      Halves(result);
      Copy256(target, result);
    } else {
      ShiftAcross(u, l, value);
      Shiftl128(number.lower, value - 128, target.upper);
      Clear128(target.lower);
    }
    Halves(target);
  }

  /** floor(n / 2^k), for every 32-bit k and also in place. */
  method Shiftr256(number: U256, value: u32, target: U256)
    requires Layout(number, target)
    modifies target.upper, target.lower
    ensures target.Value() == old(number.Value()) / Pow2(value)
  {
    hide U128.Value, U256.Value, Pow2, Or, BitLength, W64, W128, W256;
    Halves(number);
    ghost var u, l := number.upper.Value(), number.lower.Value();
    if value >= 256 {
      ShiftAway(number.Value(), value);
      Clear256(target);
    } else if value == 128 {
      ShiftEven(u, l);
      Copy128(target.lower, number.upper);
      Clear128(target.upper);
    } else if value == 0 {
      ShiftEven(u, l);
      Copy256(target, number);
    } else if value < 128 {
      ShiftRightWithin(u, l, value);
      var tmp1 := new U128();
      var tmp2 := new U128();
      var result := new U256();
      Shiftr128(number.upper, value, result.upper);
      Shiftr128(number.lower, value, tmp1);
      Shiftl128(number.upper, 128 - value, tmp2);
      Add128(tmp1, tmp2, result.lower);
      Halves(result);
      Copy256(target, result);
    } else {
      ShiftAcross(u, l, value);
      Shiftr128(number.upper, value - 128, target.lower);
      Clear128(target.upper);
    }
    Halves(target);
  }

  lemma BitLengthHalves(u: nat, l: nat)
    requires u < W128 && l < W128
    ensures BitLength(u * W128 + l) == if u != 0 then 128 + BitLength(u) else BitLength(l)
    ensures BitLength(u) <= 128 && BitLength(l) <= 128
  {
    Pow2Words();
    hide *;
    BitLengthAtMost(u, 128);
    BitLengthAtMost(l, 128);
    if u != 0 {
      BitLengthUpper(u, l, 128);
    }
  }

  lemma BitLengthUnfold(n: nat)
    ensures Pow2(1) == 2 && BitLength(0) == 0
    ensures n > 0 ==> BitLength(n) == 1 + BitLength(n / Pow2(1)) && n / Pow2(1) < n
  {
  }

  /** Counts the bits of one half on top of a starting count. */
  method CountBits(start: u32, number: U128) returns (result: u32)
    requires start <= 128
    requires BitLength(number.Value()) <= 128
    ensures result == start + BitLength(number.Value())
  {
    hide *;
    result := start;
    var rest := new U128();
    Copy128(rest, number);
    while !Zero128(rest)
      invariant fresh(rest)
      invariant result + BitLength(rest.Value()) == start + BitLength(number.Value())
      decreases rest.Value()
    {
      BitLengthUnfold(rest.Value());
      Shiftr128(rest, 1, rest);
      result := result + 1;
    }
    BitLengthUnfold(0);
  }

  method Bits256(number: U256) returns (result: u32)
    ensures result == BitLength(number.Value()) <= 256
  {
    hide *;
    Halves(number);
    BitLengthHalves(number.upper.Value(), number.lower.Value());
    if !Zero128(number.upper) {
      result := CountBits(128, number.upper);
    } else {
      result := CountBits(0, number.lower);
    }
  }

  // ---------- Addition, subtraction, or ----------

  /** The carry out of the lower halves, added to the upper sum in a second step. */
  lemma AddHalves(u1: nat, l1: nat, u2: nat, l2: nat)
    requires u1 < W128 && l1 < W128 && u2 < W128 && l2 < W128
    ensures var low := (l1 + l2) % W128;
            var up := (u1 + u2) % W128;
            ((u1 * W128 + l1) + (u2 * W128 + l2)) % W256
            == (if l1 > low then (up + 1) % W128 else up) * W128 + low
  {
    WordSquares();
    hide *;
    TwoDigits.Add(W128, u1, l1, u2, l2);
    ModInside(u1 + u2, 1, W128);
  }

  lemma SubtractHalves(u1: nat, l1: nat, u2: nat, l2: nat)
    requires u1 < W128 && l1 < W128 && u2 < W128 && l2 < W128
    ensures var low := (l1 - l2) % W128;
            var up := (u1 - u2) % W128;
            ((u1 * W128 + l1) - (u2 * W128 + l2)) % W256
            == (if low > l1 then (up - 1) % W128 else up) * W128 + low
  {
    WordSquares();
    hide *;
    TwoDigits.Subtract(W128, u1, l1, u2, l2);
    ModInside(u1 - u2, -1, W128);
  }

  method Add256(number1: U256, number2: U256, target: U256)
    requires Layout(number1, target) && Layout(number2, target)
    modifies target.upper, target.lower
    ensures target.Value() == (old(number1.Value()) + old(number2.Value())) % W256
  {
    hide U128.Value, U256.Value, Pow2, Or, BitLength, W64, W128, W256;
    Halves(number1);
    Halves(number2);
    AddHalves(number1.upper.Value(), number1.lower.Value(), number2.upper.Value(), number2.lower.Value());
    var tmp := new U128();
    Add128(number1.upper, number2.upper, target.upper);
    Add128(number1.lower, number2.lower, tmp);
    if Gt128(number1.lower, tmp) {
      var one := One128();
      Add128(target.upper, one, target.upper);
    }
    Add128(number1.lower, number2.lower, target.lower);
    Halves(target);
  }

  method Minus256(number1: U256, number2: U256, target: U256)
    requires Layout(number1, target) && Layout(number2, target)
    modifies target.upper, target.lower
    ensures target.Value() == (old(number1.Value()) - old(number2.Value())) % W256
  {
    hide U128.Value, U256.Value, Pow2, Or, BitLength, W64, W128, W256;
    Halves(number1);
    Halves(number2);
    SubtractHalves(number1.upper.Value(), number1.lower.Value(), number2.upper.Value(), number2.lower.Value());
    var tmp := new U128();
    Minus128(number1.upper, number2.upper, target.upper);
    Minus128(number1.lower, number2.lower, tmp);
    if Gt128(tmp, number1.lower) {
      var one := One128();
      Minus128(target.upper, one, target.upper);
    }
    Minus128(number1.lower, number2.lower, target.lower);
    Halves(target);
  }

  lemma AddMinusInverse(a: nat, b: nat)
    requires a < W256 && b < W256
    ensures ((a + b) % W256 - b) % W256 == a
    ensures ((a - b) % W256 + b) % W256 == a
  {
  }

  /** add256 and minus256 undo each other in place, in either order. */
  method AddThenMinus(number: U256, other: U256)
    requires Separate(number, other)
    modifies number.upper, number.lower
    ensures number.Value() == old(number.Value())
  {
    hide U128.Value, U256.Value, W64, W128, W256;
    AddMinusInverse(number.Value(), other.Value());
    Add256(number, other, number);
    Minus256(number, other, number);
  }

  method MinusThenAdd(number: U256, other: U256)
    requires Separate(number, other)
    modifies number.upper, number.lower
    ensures number.Value() == old(number.Value())
  {
    hide U128.Value, U256.Value, W64, W128, W256;
    AddMinusInverse(number.Value(), other.Value());
    Minus256(number, other, number);
    Add256(number, other, number);
  }

  lemma OrHalves(u1: nat, l1: nat, u2: nat, l2: nat)
    requires u1 < W128 && l1 < W128 && u2 < W128 && l2 < W128
    ensures Or(u1 * W128 + l1, u2 * W128 + l2) == Or(u1, u2) * W128 + Or(l1, l2)
  {
    hide Or;
    Pow2Words();
    OrSplit(u1, l1, u2, l2, 128);
  }

  method Or256(number1: U256, number2: U256, target: U256)
    requires Layout(number1, target) && Layout(number2, target)
    modifies target.upper, target.lower
    ensures target.Value() == Or(old(number1.Value()), old(number2.Value()))
  {
    hide U128.Value, U256.Value, Pow2, Or, BitLength, W64, W128, W256;
    Halves(number1);
    Halves(number2);
    OrHalves(number1.upper.Value(), number1.lower.Value(), number2.upper.Value(), number2.lower.Value());
    Or128(number1.upper, number2.upper, target.upper);
    Or128(number1.lower, number2.lower, target.lower);
    Halves(target);
  }
}
