/** Shift-subtract division, shared by the 128- and the 256-bit code: the arithmetic of one
    step of the loop, independent of the word size. */
module Division {
  import opened Words
  import opened Uint128
  import opened Uint256
  import TwoDigits

  /** Quotient and remainder of Euclidean division. */
  ghost predicate Divided(l: nat, r: nat, quotient: nat, remainder: nat)
  {
    l == quotient * r + remainder && remainder < r
  }

  lemma SmallDividend(l: nat, r: nat)
    requires l < r
    ensures Divided(l, r, 0, l)
  {
  }

  lemma DividedMeans(l: nat, r: nat, quotient: nat, remainder: nat)
    requires r > 0 && Divided(l, r, quotient, remainder)
    ensures quotient == l / r && remainder == l % r
  {
    DivModUnique(l, quotient, remainder, r);
  }

  /** State of the division loop. `shift` counts the bits still to be produced, -1 at the end:
      copyd is the divisor and adder the one, both shifted left by it; what is left of the
      dividend is below twice copyd; the quotient so far has only bits above adder. */
  ghost predicate Running(l: nat, r: nat, copyd: nat, adder: nat, resDiv: nat, resMod: nat, shift: int)
  {
    && -1 <= shift
    && l == resDiv * r + resMod
    && resMod < r * Pow2(shift + 1)
    && resDiv % Pow2(shift + 1) == 0
    && (shift >= 0 ==> copyd == r * Pow2(shift) && adder == Pow2(shift))
  }

  /** Shifting the divisor up to the length of the dividend stays in range and leaves the
      dividend below twice the shifted divisor. */
  lemma Align(l: nat, r: nat, width: nat)
    requires 0 < r <= l < Pow2(width)
    ensures var d := BitLength(l) - BitLength(r);
            && 0 <= d < width
            && l < r * Pow2(d + 1)
            && r * Pow2(d) < Pow2(width)
            && (r * Pow2(d) > l ==> d > 0)
  {
    BitLengthOrder(r, l);
    hide *;
    var m, n := BitLength(r), BitLength(l);
    var d := n - m;
    BitLengthExact(r, m);
    BitLengthExact(l, n);
    BitLengthAtMost(l, width);
    Pow2Sum(m - 1, d + 1);
    Pow2Sum(m, d);
    Pow2Grows(n, width);
    ScaleBounds(r, 0, Pow2(m - 1), Pow2(m), Pow2(d + 1));
    ScaleBounds(r, 0, Pow2(m - 1), Pow2(m), Pow2(d));
    Pow2Zero();
  }

  lemma Pow2Zero()
    ensures Pow2(0) == 1
  {
  }

  lemma BitLengthOrder(r: nat, l: nat)
    requires 0 < r <= l
    ensures 0 < BitLength(r) <= BitLength(l)
  {
  }

  lemma Start(l: nat, r: nat, copyd: nat, adder: nat, shift: nat)
    requires l < r * Pow2(shift + 1) && copyd == r * Pow2(shift) && adder == Pow2(shift)
    ensures Running(l, r, copyd, adder, 0, l, shift)
  {
  }

  /** Halving both copies of the shift: one bit further down. */
  lemma Halve(r: nat, shift: nat)
    ensures shift > 0 ==> (r * Pow2(shift)) / 2 == r * Pow2(shift - 1) && Pow2(shift) / 2 == Pow2(shift - 1)
  {
  }

  /** While the rest is not below the divisor there is a bit left to produce. */
  lemma NotDone(l: nat, r: nat, copyd: nat, adder: nat, resDiv: nat, resMod: nat, shift: int)
    requires Running(l, r, copyd, adder, resDiv, resMod, shift) && resMod >= r
    ensures shift >= 0
  {
  }

  lemma ParityOfMultiple(n: nat, m: nat)
    requires m > 0 && n % (2 * m) == 0
    ensures n % m == 0
  {
    var q := n / (2 * m);
    assert n == q * (2 * m);
    TwoDigits.Reassociate(q, 2, m);
    ModMultiple(q * 2, m);
  }

  /** The bit is one: subtract, and set it by or, which is an addition here. */
  lemma TakeBit(l: nat, r: nat, copyd: nat, adder: nat, resDiv: nat, resMod: nat, shift: nat, modulus: nat)
    requires Running(l, r, copyd, adder, resDiv, resMod, shift) && copyd <= resMod < modulus
    ensures (resMod - copyd) % modulus == resMod - copyd
    ensures Or(resDiv, adder) == resDiv + adder
    ensures Running(l, r, copyd / 2, adder / 2, Or(resDiv, adder), resMod - copyd, shift - 1)
  {
    DivModUnique(resMod - copyd, 0, resMod - copyd, modulus);
    OrIsSum(resDiv, shift);
    Halve(r, shift);
    TwoDigits.Distribute(resDiv, adder, r);
    TwoDigits.Reassociate(r, Pow2(shift), 2);
    ParityOfMultiple(resDiv, Pow2(shift));
    ModAddMultiple(resDiv, 1, Pow2(shift));
  }

  /** The bit is zero. */
  lemma SkipBit(l: nat, r: nat, copyd: nat, adder: nat, resDiv: nat, resMod: nat, shift: nat)
    requires Running(l, r, copyd, adder, resDiv, resMod, shift) && resMod < copyd
    ensures Running(l, r, copyd / 2, adder / 2, resDiv, resMod, shift - 1)
  {
    Halve(r, shift);
    ParityOfMultiple(resDiv, Pow2(shift));
  }

  lemma Finish(l: nat, r: nat, copyd: nat, adder: nat, resDiv: nat, resMod: nat, shift: int)
    requires Running(l, r, copyd, adder, resDiv, resMod, shift) && resMod < r
    ensures Divided(l, r, resDiv, resMod)
  {
  }

  lemma Pow2One()
    ensures Pow2(1) == 2
  {
  }

  /** The loop starts in its running state, whether or not the alignment overshot by one bit. */
  lemma Aligned(l: nat, r: nat, copyd: nat, adder: nat, shift: nat, width: nat)
    requires 0 < r <= l < Pow2(width) && shift == BitLength(l) - BitLength(r)
    requires copyd == (r * Pow2(shift)) % Pow2(width) && adder == (1 * Pow2(shift)) % Pow2(width)
    ensures copyd <= l ==> Running(l, r, copyd, adder, 0, l, shift)
    ensures copyd > l ==> Running(l, r, copyd / Pow2(1), adder / Pow2(1), 0, l, shift - 1)
  {
    hide *;
    Align(l, r, width);
    ModSmall(r * Pow2(shift), Pow2(width));
    TimesAtLeast(r, Pow2(shift));
    ModSmall(Pow2(shift), Pow2(width));
    Pow2One();
    if copyd <= l {
      Start(l, r, copyd, adder, shift);
    } else {
      Halve(r, shift);
      Start(l, r, copyd / 2, adder / 2, shift - 1);
    }
  }

  lemma TimesAtLeast(r: int, p: int)
    requires r >= 1 && p >= 0
    ensures r * p >= p
  {
  }

  lemma Aligned128(l: nat, r: nat, copyd: nat, adder: nat, shift: nat)
    requires 0 < r <= l < W128 && shift == BitLength(l) - BitLength(r)
    requires copyd == (r * Pow2(shift)) % W128 && adder == (1 * Pow2(shift)) % W128
    ensures copyd <= l ==> Running(l, r, copyd, adder, 0, l, shift)
    ensures copyd > l ==> Running(l, r, copyd / Pow2(1), adder / Pow2(1), 0, l, shift - 1)
  {
    Pow2Words();
    hide W128;
    Aligned(l, r, copyd, adder, shift, 128);
  }

  /** Shifts the divisor and the one up to the length of the dividend. */
  method AlignDivisor128(l: U128, r: U128, resMod: U128) returns (copyd: U128, adder: U128, ghost shift: int)
    requires 0 < r.Value() <= l.Value() == resMod.Value()
    ensures fresh(copyd) && fresh(adder) && copyd != adder
    ensures Running(old(l.Value()), old(r.Value()), copyd.Value(), adder.Value(), 0, old(l.Value()), shift)
  {
    hide *;
    ghost var lv, rv := l.Value(), r.Value();
    BitLengthOrder(rv, lv);
    var one := One128();
    copyd := new U128();
    adder := new U128();
    var lBits := Bits128(l);
    var rBits := Bits128(r);
    var diffBits: u32 := Sub32(lBits, rBits);
    shift := diffBits;
    Shiftl128(r, diffBits, copyd);
    Shiftl128(one, diffBits, adder);
    Aligned128(lv, rv, copyd.Value(), adder.Value(), shift);
    if Gt128(copyd, resMod) {
      Shiftr128(copyd, 1, copyd);
      Shiftr128(adder, 1, adder);
      shift := shift - 1;
    }
  }

  /** The main loop: one quotient bit per iteration, from the top. */
  method ProduceBits128(ghost l: nat, r: U128, copyd: U128, adder: U128, resDiv: U128, resMod: U128,
                        ghost start: int)
    requires r.Value() > 0
    requires r !in {copyd, adder, resDiv, resMod}
    requires copyd !in {adder, resDiv, resMod} && adder !in {resDiv, resMod} && resDiv != resMod
    modifies copyd, adder, resDiv, resMod
    requires Running(l, r.Value(), copyd.Value(), adder.Value(), resDiv.Value(), resMod.Value(), start)
    ensures Divided(l, old(r.Value()), resDiv.Value(), resMod.Value())
  {
    hide *;
    Pow2One();
    ghost var rv := r.Value();
    ghost var shift := start;
    while Gte128(resMod, r)
      invariant Running(l, rv, copyd.Value(), adder.Value(), resDiv.Value(), resMod.Value(), shift)
      invariant r.Value() == rv
      decreases shift
    {
      ghost var c, a, d, m := copyd.Value(), adder.Value(), resDiv.Value(), resMod.Value();
      NotDone(l, rv, c, a, d, m, shift);
      if Gte128(resMod, copyd) {
        TakeBit(l, rv, c, a, d, m, shift, W128);
        Minus128(resMod, copyd, resMod);
        Or128(resDiv, adder, resDiv);
      } else {
        SkipBit(l, rv, c, a, d, m, shift);
      }
      Shiftr128(copyd, 1, copyd);
      Shiftr128(adder, 1, adder);
      shift := shift - 1;
    }
    Finish(l, rv, copyd.Value(), adder.Value(), resDiv.Value(), resMod.Value(), shift);
  }

  method LongDivide128(l: U128, r: U128) returns (resDiv: U128, resMod: U128)
    requires 0 < r.Value() <= l.Value()
    ensures fresh(resDiv) && fresh(resMod) && resDiv != resMod
    ensures Divided(l.Value(), r.Value(), resDiv.Value(), resMod.Value())
  {
    hide *;
    resDiv := new U128();
    resMod := new U128();
    Clear128(resDiv);
    Copy128(resMod, l);
    var copyd, adder, shift := AlignDivisor128(l, r, resMod);
    ProduceBits128(l.Value(), r, copyd, adder, resDiv, resMod, shift);
  }

  method Divmod128(l: U128, r: U128, retDiv: U128, retMod: U128)
    requires r.Value() != 0
    requires retDiv != retMod
    modifies retDiv, retMod
    ensures Divided(old(l.Value()), old(r.Value()), retDiv.Value(), retMod.Value())
  {
    hide *;
    if Gt128(r, l) {
      SmallDividend(l.Value(), r.Value());
      Copy128(retMod, l);
      Clear128(retDiv);
    } else {
      var resDiv, resMod := LongDivide128(l, r);
      Copy128(retDiv, resDiv);
      Copy128(retMod, resMod);
    }
  }

  lemma Aligned256(l: nat, r: nat, copyd: nat, adder: nat, shift: nat)
    requires 0 < r <= l < W256 && shift == BitLength(l) - BitLength(r)
    requires copyd == (r * Pow2(shift)) % W256 && adder == (1 * Pow2(shift)) % W256
    ensures copyd <= l ==> Running(l, r, copyd, adder, 0, l, shift)
    ensures copyd > l ==> Running(l, r, copyd / Pow2(1), adder / Pow2(1), 0, l, shift - 1)
  {
    Pow2Words();
    hide W256;
    Aligned(l, r, copyd, adder, shift, 256);
  }

  method HalveBoth256(copyd: U256, adder: U256)
    requires Separate(copyd, adder)
    modifies copyd.upper, copyd.lower, adder.upper, adder.lower
    ensures copyd.Value() == old(copyd.Value()) / Pow2(1) && adder.Value() == old(adder.Value()) / Pow2(1)
  {
    hide U128.Value, U256.Value, Pow2, Or, BitLength, W32, W64, W128, W256;
    Shiftr256(copyd, 1, copyd);
    Shiftr256(adder, 1, adder);
  }

  /** Shifts the divisor and the one up to the length of the dividend. */
  method AlignDivisor256(l: U256, r: U256, resMod: U256) returns (copyd: U256, adder: U256, ghost shift: int)
    requires 0 < r.Value() <= l.Value() == resMod.Value()
    requires r.upper != r.lower
    ensures fresh(copyd.upper) && fresh(copyd.lower) && fresh(adder.upper) && fresh(adder.lower)
    ensures Separate(copyd, adder)
    ensures Running(old(l.Value()), old(r.Value()), copyd.Value(), adder.Value(), 0, old(l.Value()), shift)
  {
    hide U128.Value, U256.Value, Pow2, Or, BitLength, W32, W64, W128, W256, Running, Divided, Sub32;
    ghost var lv, rv := l.Value(), r.Value();
    BitLengthOrder(rv, lv);
    var one := One256();
    copyd := new U256();
    adder := new U256();
    var lBits := Bits256(l);
    var rBits := Bits256(r);
    var diffBits: u32 := Sub32(lBits, rBits);
    shift := diffBits;
    Shiftl256(r, diffBits, copyd);
    Shiftl256(one, diffBits, adder);
    Aligned256(lv, rv, copyd.Value(), adder.Value(), shift);
    if Gt256(copyd, resMod) {
      HalveBoth256(copyd, adder);
      shift := shift - 1;
    }
  }

  /** The main loop: one quotient bit per iteration, from the top. */
  method ProduceBits256(ghost l: nat, r: U256, copyd: U256, adder: U256, resDiv: U256, resMod: U256,
                        ghost start: int)
    requires r.Value() > 0
    requires Separate(r, copyd) && Separate(r, adder) && Separate(r, resDiv) && Separate(r, resMod)
    requires Separate(copyd, adder) && Separate(copyd, resDiv) && Separate(copyd, resMod)
    requires Separate(adder, resDiv) && Separate(adder, resMod) && Separate(resDiv, resMod)
    modifies copyd.upper, copyd.lower, adder.upper, adder.lower,
             resDiv.upper, resDiv.lower, resMod.upper, resMod.lower
    requires Running(l, r.Value(), copyd.Value(), adder.Value(), resDiv.Value(), resMod.Value(), start)
    ensures Divided(l, old(r.Value()), resDiv.Value(), resMod.Value())
  {
    hide U128.Value, U256.Value, Pow2, Or, BitLength, W64, W128, W256, Running, Divided;
    Pow2One();
    ghost var rv := r.Value();
    ghost var shift := start;
    while Gte256(resMod, r)
      invariant Running(l, rv, copyd.Value(), adder.Value(), resDiv.Value(), resMod.Value(), shift)
      invariant r.Value() == rv
      decreases shift
    {
      ghost var c, a, d, m := copyd.Value(), adder.Value(), resDiv.Value(), resMod.Value();
      NotDone(l, rv, c, a, d, m, shift);
      if Gte256(resMod, copyd) {
        TakeBit(l, rv, c, a, d, m, shift, W256);
        Minus256(resMod, copyd, resMod);
        Or256(resDiv, adder, resDiv);
      } else {
        SkipBit(l, rv, c, a, d, m, shift);
      }
      Shiftr256(copyd, 1, copyd);
      Shiftr256(adder, 1, adder);
      shift := shift - 1;
    }
    Finish(l, rv, copyd.Value(), adder.Value(), resDiv.Value(), resMod.Value(), shift);
  }

  /** Quotient and remainder in fresh structs, for a divisor not above the dividend. */
  method LongDivide256(l: U256, r: U256) returns (resDiv: U256, resMod: U256)
    requires 0 < r.Value() <= l.Value()
    requires l.upper != l.lower && r.upper != r.lower
    ensures fresh(resDiv) && fresh(resDiv.upper) && fresh(resDiv.lower)
    ensures fresh(resMod) && fresh(resMod.upper) && fresh(resMod.lower)
    ensures Separate(resDiv, resMod)
    ensures Divided(l.Value(), r.Value(), resDiv.Value(), resMod.Value())
  {
    hide U128.Value, U256.Value, Pow2, Or, BitLength, W64, W128, W256, Running, Divided;
    resDiv := new U256();
    resMod := new U256();
    Clear256(resDiv);
    Copy256(resMod, l);
    var copyd, adder, shift := AlignDivisor256(l, r, resMod);
    ProduceBits256(l.Value(), r, copyd, adder, resDiv, resMod, shift);
  }

  method Divmod256(l: U256, r: U256, retDiv: U256, retMod: U256)
    requires r.Value() != 0
    requires Layout(l, retDiv) && Layout(l, retMod) && Layout(r, retDiv) && Layout(r, retMod)
    requires Separate(retDiv, retMod)
    modifies retDiv.upper, retDiv.lower, retMod.upper, retMod.lower
    ensures Divided(old(l.Value()), old(r.Value()), retDiv.Value(), retMod.Value())
  {
    hide U128.Value, U256.Value, Pow2, Or, BitLength, W64, W128, W256, Running, Divided;
    if Gt256(r, l) {
      SmallDividend(l.Value(), r.Value());
      Copy256(retMod, l);
      Clear256(retDiv);
    } else {
      var resDiv, resMod := LongDivide256(l, r);
      Copy256(retDiv, resDiv);
      Copy256(retMod, resMod);
    }
  }
}
