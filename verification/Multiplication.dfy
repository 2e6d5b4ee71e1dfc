/** Schoolbook multiplication: mul128 over 32-bit digits and mul256 over 64-bit digits. */
module Multiplication {
  import opened Words
  import opened Uint128
  import opened Uint256
  import opened Schoolbook
  import TwoDigits

  // ---------- mul128 ----------

  /** x & 0xffffffff */
  function Low32(x: u64): u64
  {
    x % W32
  }

  function Add64(x: u64, y: u64): (r: u64)
    ensures x + y < W64 ==> r == x + y
  {
    Wrap64(x + y)
  }

  function Times64(x: u64, y: u64): (r: u64)
    ensures x < W32 && y < W32 ==> r == x * y
  {
    if x < W32 && y < W32 then
      ProductFits(W32, x, y);
      Wrap64(x * y)
    else
      Wrap64(x * y)
  }

  lemma ProductFits(b: int, x: int, y: int)
    requires 0 <= x < b && 0 <= y < b
    ensures 0 <= x * y < b * b
  {
  }

  lemma WordsPositive()
    ensures W32 > 0 && W64 > 0 && W128 > 0
  {
  }

  lemma Halves32(x: u64)
    ensures Shr64(x, 32) == x / W32 && Low32(x) == x % W32
    ensures Shr64(x, 32) < W32 && Low32(x) < W32
    ensures 8 * W32 < W64
  {
    Pow2Words();
  }

  /** The four 32-bit digits of a number, most significant first. */
  method SplitWords(number: U128) returns (d: array<u64>)
    ensures fresh(d) && d.Length == 4
    ensures number.Value() == Horner(W32, d[0], d[1], d[2], d[3])
    ensures forall i :: 0 <= i < 4 ==> d[i] < W32
  {
    hide Shr64, Low32, Pow2, U128.Value;
    Parts(number);
    Halves32(number.upper);
    Halves32(number.lower);
    d := new u64[4];
    d[0] := Shr64(number.upper, 32);
    d[1] := Low32(number.upper);
    d[2] := Shr64(number.lower, 32);
    d[3] := Low32(number.lower);
    assert d[0] * W32 + d[1] == number.upper;
    assert d[2] * W32 + d[3] == number.lower;
  }

  method PartialProducts(top: array<u64>, bottom: array<u64>) returns (products: array2<u64>)
    requires top.Length == 4 && bottom.Length == 4
    ensures fresh(products) && products.Length0 == 4 && products.Length1 == 4
    ensures forall x, y :: 0 <= x < 4 && 0 <= y < 4 ==> products[3 - x, y] == Times64(top[x], bottom[y])
  {
    hide *;
    products := new u64[4, 4];
    var y := 3;
    while y > -1
      invariant -1 <= y <= 3
      invariant forall i, j :: 0 <= i < 4 && y < j < 4 ==> products[i, j] == Times64(top[3 - i], bottom[j])
    {
      var x := 3;
      while x > -1
        invariant -1 <= x <= 3
        invariant forall i, j :: 0 <= i < 4 && y < j < 4 ==> products[i, j] == Times64(top[3 - i], bottom[j])
        invariant forall i :: 0 <= i < 3 - x ==> products[i, y] == Times64(top[3 - i], bottom[y])
      {
        products[3 - x, y] := Times64(top[x], bottom[y]);
        x := x - 1;
      }
      y := y - 1;
    }
  }

  /** The column sums of mul128; no sum leaves its 64-bit word. */
  method SumColumns(p: array2<u64>) returns (first32: u64, second32: u64, third32: u64, fourth32: u64)
    requires p.Length0 == 4 && p.Length1 == 4
    ensures fourth32 == p[0, 3] % W32
    ensures third32 == p[0, 2] % W32 + p[0, 3] / W32 + p[1, 3] % W32
    ensures second32 == p[0, 1] % W32 + p[0, 2] / W32 + p[1, 2] % W32 + p[1, 3] / W32 + p[2, 3] % W32
    ensures first32 == p[0, 0] % W32 + p[0, 1] / W32 + p[1, 1] % W32 + p[1, 2] / W32
                       + p[2, 2] % W32 + p[2, 3] / W32 + p[3, 3] % W32
  {
    WordsPositive();
    hide *;
    forall i, j | 0 <= i < 4 && 0 <= j < 4
      ensures Shr64(p[i, j], 32) == p[i, j] / W32 && Low32(p[i, j]) == p[i, j] % W32
      ensures Shr64(p[i, j], 32) < W32 && Low32(p[i, j]) < W32 && 8 * W32 < W64
    {
      Halves32(p[i, j]);
    }
    fourth32 := Low32(p[0, 3]);
    third32 := Add64(Low32(p[0, 2]), Shr64(p[0, 3], 32));
    second32 := Add64(Low32(p[0, 1]), Shr64(p[0, 2], 32));
    first32 := Add64(Low32(p[0, 0]), Shr64(p[0, 1], 32));

    third32 := Add64(third32, Low32(p[1, 3]));
    second32 := Add64(second32, Add64(Low32(p[1, 2]), Shr64(p[1, 3], 32)));
    first32 := Add64(first32, Add64(Low32(p[1, 1]), Shr64(p[1, 2], 32)));

    second32 := Add64(second32, Low32(p[2, 3]));
    first32 := Add64(first32, Add64(Low32(p[2, 2]), Shr64(p[2, 3], 32)));

    first32 := Add64(first32, Low32(p[3, 3]));
  }

  /** The wrapped upper column and the two halves of the third, as 128-bit numbers. */
  lemma PlaceColumns(first: u64, third: u64)
    ensures Shr64(third, 32) * W64 + Shl64(third, 32) == third * W32
    ensures Shl64(first, 32) * W64 + 0 == first * W32 * W64 - (first / W32) * W128
  {
    Pow2Words();
    hide Pow2;
    TwoDigits.DigitTimes(W64, third, W32, W32);
    TwoDigits.DigitTimes(W64, first, W32, W32);
  }

  lemma HornerColumns(first: int, second: int, third: int, fourth: int)
    ensures Horner(W32, first, second, third, fourth) == first * W32 * W64 + second * W64 + third * W32 + fourth
  {
  }

  /** The three 128-bit additions that put the columns together. */
  lemma Recombine(first: u64, second: u64, third: u64, fourth: u64)
    ensures var a := Shl64(first, 32) * W64 + 0;
            var b := Shr64(third, 32) * W64 + Shl64(third, 32);
            (0 * W64 + fourth + (second * W64 + 0 + (a + b) % W128) % W128) % W128
            == Horner(W32, first, second, third, fourth) % W128
  {
    WordsPositive();
    HornerColumns(first, second, third, fourth);
    hide *;
    PlaceColumns(first, third);
    var a := Shl64(first, 32) * W64 + 0;
    var b := third * W32;
    ModInside(a + b, second * W64, W128);
    ModInside(second * W64 + (a + b), fourth, W128);
    ModAddMultiple(a + b + second * W64 + fourth, first / W32, W128);
  }

  method ProductColumns(number1: U128, number2: U128)
    returns (first32: u64, second32: u64, third32: u64, fourth32: u64)
    ensures Horner(W32, first32, second32, third32, fourth32) % W128 == (number1.Value() * number2.Value()) % W128
  {
    WordSquares();
    WordsPositive();
    assert FourthPower(W32) == W128;
    hide *;
    var top := SplitWords(number1);
    var bottom := SplitWords(number2);
    var products := PartialProducts(top, bottom);
    assert forall i, j :: 0 <= i < 4 && 0 <= j < 4 ==> products[i, j] == Times64(top[3 - i], bottom[j]) by {
      forall i, j | 0 <= i < 4 && 0 <= j < 4
        ensures products[i, j] == Times64(top[3 - i], bottom[j])
      {
        assert i == 3 - (3 - i);
      }
    }
    first32, second32, third32, fourth32 := SumColumns(products);
    Columns(W32, top[0], top[1], top[2], top[3], bottom[0], bottom[1], bottom[2], bottom[3]);
  }

  method Mul128(number1: U128, number2: U128, target: U128)
    modifies target
    ensures target.Value() == (old(number1.Value()) * old(number2.Value())) % W128
  {
    hide *;
    var first32, second32, third32, fourth32 := ProductColumns(number1, number2);
    Recombine(first32, second32, third32, fourth32);
    var tmp := new U128();
    var tmp2 := new U128();
    tmp.upper := Shl64(first32, 32);
    tmp.lower := 0;
    Parts(tmp);
    tmp2.upper := Shr64(third32, 32);
    tmp2.lower := Shl64(third32, 32);
    Parts(tmp2);
    ghost var a, b := tmp.Value(), tmp2.Value();
    Add128(tmp, tmp2, target);
    ghost var ab := (a + b) % W128;
    tmp.upper := second32;
    tmp.lower := 0;
    Parts(tmp);
    assert target.Value() == ab;
    Add128(tmp, target, tmp2);
    ghost var abc := (second32 * W64 + 0 + ab) % W128;
    assert tmp2.Value() == abc;
    tmp.upper := 0;
    tmp.lower := fourth32;
    Parts(tmp);
    Add128(tmp, tmp2, target);
  }

  // ---------- mul256 ----------

  /** A 64-bit digit as a uint128_t. */
  method Widen(word: u64) returns (n: U128)
    ensures fresh(n) && n.Value() == word
  {
    n := new U128();
    n.upper := 0;
    n.lower := word;
  }

  method SplitDoubleWords(number: U256) returns (d: array<U128>)
    ensures fresh(d) && d.Length == 4
    ensures d[0].Value() == number.upper.upper && d[1].Value() == number.upper.lower
    ensures d[2].Value() == number.lower.upper && d[3].Value() == number.lower.lower
  {
    hide *;
    var d0 := Widen(number.upper.upper);
    var d1 := Widen(number.upper.lower);
    var d2 := Widen(number.lower.upper);
    var d3 := Widen(number.lower.lower);
    d := new U128[4] [d0, d1, d2, d3];
  }

  lemma HornerDoubleWords(n: U256)
    ensures n.Value() == Horner(W64, n.upper.upper, n.upper.lower, n.lower.upper, n.lower.lower)
  {
  }

  /** The product of two 64-bit digits does not wrap in 128 bits. */
  lemma ProductFits128(x: u64, y: u64)
    ensures (x * y) % W128 == x * y
  {
    ProductFits(W64, x, y);
    WordSquares();
    ModSmall(x * y, W128);
  }

  function Product(x: int, y: int): int
  {
    x * y
  }

  method PartialProducts128(top: array<U128>, bottom: array<U128>) returns (products: array2<U128>)
    requires top.Length == 4 && bottom.Length == 4
    requires forall i :: 0 <= i < 4 ==> top[i].Value() < W64 && bottom[i].Value() < W64
    ensures fresh(products) && products.Length0 == 4 && products.Length1 == 4
    ensures forall i, j :: 0 <= i < 4 && 0 <= j < 4
              ==> products[i, j].Value() == Product(top[3 - i].Value(), bottom[j].Value())
  {
    hide *;
    var filler := new U128();
    products := new U128[4, 4] ((i, j) => filler);
    var y := 3;
    while y > -1
      invariant -1 <= y <= 3
      invariant forall i, j :: 0 <= i < 4 && y < j < 4
                  ==> products[i, j].Value() == Product(top[3 - i].Value(), bottom[j].Value())
      invariant forall i, j :: 0 <= i < 4 && 0 <= j < 4 ==> fresh(products[i, j])
    {
      var x := 3;
      while x > -1
        invariant -1 <= x <= 3
        invariant forall i, j :: 0 <= i < 4 && y < j < 4
                    ==> products[i, j].Value() == Product(top[3 - i].Value(), bottom[j].Value())
        invariant forall i :: 0 <= i < 3 - x
                    ==> products[i, y].Value() == Product(top[3 - i].Value(), bottom[y].Value())
        invariant forall i, j :: 0 <= i < 4 && 0 <= j < 4 ==> fresh(products[i, j])
      {
        products[3 - x, y] := MultiplyDigits(top[x], bottom[y]);
        x := x - 1;
      }
      y := y - 1;
    }
  }

  method MultiplyDigits(x: U128, y: U128) returns (product: U128)
    requires x.Value() < W64 && y.Value() < W64
    ensures fresh(product) && product.Value() == Product(x.Value(), y.Value())
  {
    hide U128.Value;
    ProductFits128(x.Value(), y.Value());
    product := new U128();
    Mul128(x, y, product);
  }

  method AddWord(word: u64, number: U128, target: U128)
    requires word + number.Value() < W128
    modifies target
    ensures target.Value() == word + old(number.Value())
  {
    hide *;
    ghost var v := number.Value();
    var tmp := Widen(word);
    ModSmall(word + v, W128);
    Add128(tmp, number, target);
  }

  method AddTwoWords(word1: u64, word2: u64, target: U128)
    modifies target
    ensures target.Value() == word1 + word2
  {
    WordSquares();
    var tmp2 := Widen(word2);
    AddWord(word1, tmp2, target);
  }

  // The column sums of mul256; no sum leaves its 128 bits. The code interleaves the columns.

  method ThirdColumn(p: array2<U128>) returns (third64: U128)
    requires p.Length0 == 4 && p.Length1 == 4
    ensures fresh(third64)
    ensures third64.Value() == p[0, 2].lower + p[0, 3].upper + p[1, 3].lower
  {
    EightWordsFit();
    hide *;
    third64 := new U128();
    var tmp2 := new U128();
    AddTwoWords(p[0, 2].lower, p[0, 3].upper, third64);
    AddWord(p[1, 3].lower, third64, tmp2);
    Copy128(third64, tmp2);
  }

  method SecondColumn(p: array2<U128>) returns (second64: U128)
    requires p.Length0 == 4 && p.Length1 == 4
    ensures fresh(second64)
    ensures second64.Value() == p[0, 1].lower + p[0, 2].upper + p[1, 2].lower + p[1, 3].upper + p[2, 3].lower
  {
    EightWordsFit();
    hide *;
    second64 := new U128();
    var tmp2 := new U128();
    AddTwoWords(p[0, 1].lower, p[0, 2].upper, second64);
    AddWord(p[1, 2].lower, second64, tmp2);
    AddWord(p[1, 3].upper, tmp2, second64);
    AddWord(p[2, 3].lower, second64, tmp2);
    Copy128(second64, tmp2);
  }

  method FirstColumn(p: array2<U128>) returns (first64: U128)
    requires p.Length0 == 4 && p.Length1 == 4
    ensures fresh(first64)
    ensures first64.Value() == p[0, 0].lower + p[0, 1].upper + p[1, 1].lower + p[1, 2].upper
                               + p[2, 2].lower + p[2, 3].upper + p[3, 3].lower
  {
    EightWordsFit();
    hide *;
    first64 := new U128();
    var tmp2 := new U128();
    AddTwoWords(p[0, 0].lower, p[0, 1].upper, first64);
    AddWord(p[1, 1].lower, first64, tmp2);
    AddWord(p[1, 2].upper, tmp2, first64);
    AddWord(p[2, 2].lower, first64, tmp2);
    AddWord(p[2, 3].upper, tmp2, first64);
    AddWord(p[3, 3].lower, first64, tmp2);
    Copy128(first64, tmp2);
  }

  lemma EightWordsFit()
    ensures 8 * 0x1_0000_0000_0000_0000 < W128
  {
  }

  /** What the code leaves of its second column (weight 2^64): the part that does not fit in
      a 64-bit word and is put at weight 2^192 instead of 2^128. */
  function MisplacedCarry(l: nat, r: nat): nat
  {
    var l0, l1, r0, r1 := l % W64, l / W64 % W64, r % W64, r / W64 % W64;
    (Product(l0, r1) % W64 + Product(l0, r0) / W64 + Product(l1, r0) % W64) / W64
  }

  const CARRY_ERROR: int := W64 * W128 - W128

  lemma MisplacedCarryBound(l: nat, r: nat)
    ensures MisplacedCarry(l, r) <= 2
  {
    var l0, r0 := l % W64, r % W64;
    ProductFits(W64, l0, r0);
    var h := Product(l0, r0) / W64;
    assert h < W64;
  }

  /** mul256 is multiplication modulo 2^256 exactly when that column fits in 64 bits. */
  lemma MultipliesExactlyWhen(l: nat, r: nat)
    ensures (l * r + MisplacedCarry(l, r) * CARRY_ERROR) % W256 == (l * r) % W256 <==> MisplacedCarry(l, r) == 0
  {
    MisplacedCarryBound(l, r);
    var p, c := l * r, MisplacedCarry(l, r);
    hide MisplacedCarry;
    ErrorShows(p, c);
  }

  lemma ErrorShows(p: int, c: nat)
    requires c <= 2
    ensures (p + c * CARRY_ERROR) % W256 == p % W256 <==> c == 0
  {
  }

  /** 2^128 - 1 squared is one of the products that come out wrong. */
  lemma MultiplicationCounterexample()
    ensures MisplacedCarry(W128 - 1, W128 - 1) == 1
  {
  }

  /** The words of an exact 128-bit product. */
  lemma ProductWords(n: U128, x: u64, y: u64)
    requires n.Value() == Product(x, y)
    ensures n.lower == Product(x, y) % W64 && n.upper == Product(x, y) / W64
  {
  }

  lemma DigitsOf(n: U256)
    ensures n.lower.lower == n.Value() % W64 && n.lower.upper == n.Value() / W64 % W64
  {
  }

  lemma ProductMeaning(x: int, y: int)
    ensures Product(x, y) == x * y
  {
  }

  lemma GatherColumns(l: nat, r: nat, t3: u64, t2: u64, t1: u64, t0: u64, s3: u64, s2: u64, s1: u64, s0: u64,
                      first: int, second: int, third: int, fourth: int)
    requires l == Horner(W64, t3, t2, t1, t0) && r == Horner(W64, s3, s2, s1, s0)
    requires l % W64 == t0 && l / W64 % W64 == t1 && r % W64 == s0 && r / W64 % W64 == s1
    requires fourth == Product(t0, s0) % W64
    requires third == Product(t0, s1) % W64 + Product(t0, s0) / W64 + Product(t1, s0) % W64
    requires second == Product(t0, s2) % W64 + Product(t0, s1) / W64 + Product(t1, s1) % W64
                       + Product(t1, s0) / W64 + Product(t2, s0) % W64
    requires first == Product(t0, s3) % W64 + Product(t0, s2) / W64 + Product(t1, s2) % W64
                      + Product(t1, s1) / W64 + Product(t2, s1) % W64 + Product(t2, s0) / W64
                      + Product(t3, s0) % W64
    ensures Horner(W64, first, second, third, fourth) % W256 == (l * r) % W256
    ensures third / W64 == MisplacedCarry(l, r)
  {
    assert third / W64 == MisplacedCarry(l, r);
    WordSquares();
    WordsPositive();
    assert FourthPower(W64) == W256;
    hide *;
    ProductMeaning(t0, s0);
    ProductMeaning(t0, s1);
    ProductMeaning(t0, s2);
    ProductMeaning(t0, s3);
    ProductMeaning(t1, s0);
    ProductMeaning(t1, s1);
    ProductMeaning(t1, s2);
    ProductMeaning(t2, s0);
    ProductMeaning(t2, s1);
    ProductMeaning(t3, s0);
    Columns(W64, t3, t2, t1, t0, s3, s2, s1, s0);
  }

  method ProductColumns256(number1: U256, number2: U256)
    returns (first64: U128, second64: U128, third64: U128, fourth64: U128)
    ensures fresh(first64) && fresh(second64) && fresh(third64) && fresh(fourth64)
    ensures Horner(W64, first64.Value(), second64.Value(), third64.Value(), fourth64.Value()) % W256
            == (number1.Value() * number2.Value()) % W256
    ensures third64.upper == MisplacedCarry(number1.Value(), number2.Value())
    ensures fourth64.Value() < W64
  {
    WordsPositive();
    DoubleWordRange();
    hide *;
    var top := SplitDoubleWords(number1);
    var bottom := SplitDoubleWords(number2);
    var p := PartialProducts128(top, bottom);
    ghost var t0, t1, t2, t3 := number1.lower.lower, number1.lower.upper, number1.upper.lower, number1.upper.upper;
    ghost var s0, s1, s2, s3 := number2.lower.lower, number2.lower.upper, number2.upper.lower, number2.upper.upper;
    ProductWords(p[0, 3], t0, s0);
    ProductWords(p[0, 2], t0, s1);
    ProductWords(p[0, 1], t0, s2);
    ProductWords(p[0, 0], t0, s3);
    ProductWords(p[1, 3], t1, s0);
    ProductWords(p[1, 2], t1, s1);
    ProductWords(p[1, 1], t1, s2);
    ProductWords(p[2, 3], t2, s0);
    ProductWords(p[2, 2], t2, s1);
    ProductWords(p[3, 3], t3, s0);
    fourth64 := Widen(p[0, 3].lower);
    third64 := ThirdColumn(p);
    second64 := SecondColumn(p);
    first64 := FirstColumn(p);
    HornerDoubleWords(number1);
    HornerDoubleWords(number2);
    DigitsOf(number1);
    DigitsOf(number2);
    GatherColumns(number1.Value(), number2.Value(), t3, t2, t1, t0, s3, s2, s1, s0,
                  first64.Value(), second64.Value(), third64.Value(), fourth64.Value());
    UpperWord(third64);
  }

  lemma UpperWord(n: U128)
    ensures n.upper == n.Value() / W64
  {
  }

  lemma BelowW128(n: U128)
    ensures 0 <= n.Value() < W128
  {
  }

  lemma DoubleWordRange()
    ensures W64 == 0x1_0000_0000_0000_0000
  {
  }

  /** What the outer columns contribute: the third one also leaves its overflow in the top word. */
  function Outer(first: int, third: nat): int
  {
    Horner(W64, first, 0, third, 0) + (third / W64) * CARRY_ERROR
  }

  function InUpperHalf(n: int): int
  {
    n * W128
  }

  lemma UpperHalfOf(n: int)
    ensures n * W128 + 0 == InUpperHalf(n)
  {
  }

  lemma OuterColumns(first: int, third: nat)
    requires third < W128
    ensures (((first * Pow2(64)) % W128) * W128 + 0
             + ((third / W64) * W64 * W128 + (third * Pow2(64)) % W128)) % W256
            == Outer(first, third) % W256
  {
    Pow2Words();
    WordsPositive();
    var a := ((first * W64) % W128) * W128;
    var c, low := third / W64, third % W64;
    var b := c * W64 * W128 + low * W64;
    var g := (first * W64) / W128;
    assert (third * W64) % W128 == low * W64 by {
      DivModUnique(third * W64, c, low * W64, W128);
    }
    assert Outer(first, third) == a + b + g * W256;
    hide *;
    ModAddMultiple(a + b, g, W256);
  }

  lemma AllColumns(first: int, second: int, third: nat, fourth: int)
    ensures Horner(W64, first, second, third, fourth) + (third / W64) * CARRY_ERROR
            == Outer(first, third) + InUpperHalf(second) + fourth
  {
  }

  /** Adding x, v and w one after another, modulo m each time. */
  lemma ThreeSums(x: int, v: int, w: int, n1: int, n2: int, m: int)
    requires m > 0 && n1 == x % m && n2 == (v + n1) % m
    ensures (w + n2) % m == (x + v + w) % m
  {
    ModInside(x, v, m);
    ModInside(x + v, w, m);
  }

  /** A number from its two halves. */
  lemma HalvesOf(n: U256, u: int, l: int)
    requires n.upper.Value() == u && n.lower.Value() == l
    ensures n.Value() == u * W128 + l
  {
  }

  /** The product modulo 2^256, off by a multiple of 2^192 - 2^128 when the second column
      does not fit in 64 bits. */
  method Mul256(number1: U256, number2: U256, target: U256)
    requires Layout(number1, target) && Layout(number2, target)
    modifies target.upper, target.lower
    ensures target.Value()
            == (old(number1.Value()) * old(number2.Value())
                + MisplacedCarry(old(number1.Value()), old(number2.Value())) * CARRY_ERROR) % W256
  {
    hide U128.Value, U256.Value, Pow2, Or, BitLength, W64, W128, W256,
         Horner, Outer, InUpperHalf, MisplacedCarry, Product, CARRY_ERROR;
    var first64, second64, third64, fourth64 := ProductColumns256(number1, number2);
    ghost var first, second, third, fourth := first64.Value(), second64.Value(), third64.Value(), fourth64.Value();
    ghost var l, r := number1.Value(), number2.Value();
    UpperWord(third64);
    PutTogether(first64, second64, third64, fourth64, target);
    WordsPositive();
    ModInside(l * r, MisplacedCarry(l, r) * CARRY_ERROR, W256);
    ModInside(Horner(W64, first, second, third, fourth), MisplacedCarry(l, r) * CARRY_ERROR, W256);
  }

  /** The first and the third column, at weights 2^192 and 2^64; the overflow of the second
      lands in the top word. */
  method PlaceOuterColumns(first64: U128, third64: U128, target: U256)
    requires target.upper != target.lower
    requires {first64, third64} !! {target.upper, target.lower}
    modifies target.upper, target.lower
    ensures target.Value() == Outer(old(first64.Value()), old(third64.Value())) % W256
  {
    hide U128.Value, U256.Value, Pow2, Or, BitLength, W64, W128, W256,
         Horner, Outer, InUpperHalf, MisplacedCarry, Product, CARRY_ERROR;
    ghost var first, third, c := first64.Value(), third64.Value(), third64.upper;
    UpperWord(third64);
    BelowW128(third64);
    var target1 := new U256();
    var target2 := new U256();
    ZeroWords();
    Clear256(target1);
    Shiftl128(first64, 64, target1.upper);
    Parts(target1.lower);
    HalvesOf(target1, (first * Pow2(64)) % W128, 0);
    Clear256(target2);
    target2.upper.upper := third64.upper;
    Parts(target2.upper);
    Shiftl128(third64, 64, target2.lower);
    HalvesOf(target2, c * W64, (third * Pow2(64)) % W128);
    Add256(target1, target2, target);
    OuterColumns(first, third);
  }

  /** Adds a column in the upper half. */
  method AddUpper(column: U128, number: U256, target: U256)
    requires Separate(number, target)
    requires column !in {target.upper, target.lower}
    modifies target.upper, target.lower
    ensures target.Value() == (InUpperHalf(old(column.Value())) + old(number.Value())) % W256
  {
    hide U128.Value, U256.Value, Pow2, Or, BitLength, W64, W128, W256,
         Horner, Outer, InUpperHalf, MisplacedCarry, Product, CARRY_ERROR;
    ghost var v, n := column.Value(), number.Value();
    var target1 := new U256();
    ZeroWords();
    Clear256(target1);
    Copy128(target1.upper, column);
    Parts(target1.lower);
    HalvesOf(target1, v, 0);
    UpperHalfOf(v);
    Add256(target1, number, target);
  }

  method AddLower(column: U128, number: U256, target: U256)
    requires Separate(number, target)
    requires column !in {target.upper, target.lower}
    modifies target.upper, target.lower
    ensures target.Value() == (old(column.Value()) + old(number.Value())) % W256
  {
    hide U128.Value, U256.Value, Pow2, Or, BitLength, W64, W128, W256,
         Horner, Outer, InUpperHalf, MisplacedCarry, Product, CARRY_ERROR;
    ghost var v, n := column.Value(), number.Value();
    var target1 := new U256();
    ZeroWords();
    Clear256(target1);
    Copy128(target1.lower, column);
    Parts(target1.upper);
    HalvesOf(target1, 0, v);
    Add256(target1, number, target);
  }

  method PutTogether(first64: U128, second64: U128, third64: U128, fourth64: U128, target: U256)
    requires target.upper != target.lower
    requires {first64, second64, third64, fourth64} !! {target.upper, target.lower}
    modifies target.upper, target.lower
    ensures target.Value()
            == (Horner(W64, old(first64.Value()), old(second64.Value()), old(third64.Value()), old(fourth64.Value()))
                + old(third64.upper) * CARRY_ERROR) % W256
  {
    hide U128.Value, U256.Value, Pow2, Or, BitLength, W64, W128, W256,
         Horner, Outer, InUpperHalf, MisplacedCarry, Product, CARRY_ERROR;
    ghost var first, second, third, fourth := first64.Value(), second64.Value(), third64.Value(), fourth64.Value();
    UpperWord(third64);
    var target2 := new U256();
    PlaceOuterColumns(first64, third64, target);
    ghost var n1 := target.Value();
    AddUpper(second64, target, target2);
    ghost var n2 := target2.Value();
    AddLower(fourth64, target2, target);
    WordsPositive();
    ThreeSums(Outer(first, third), InUpperHalf(second), fourth, n1, n2, W256);
    AllColumns(first, second, third, fourth);
  }

  lemma ZeroWords()
    ensures 0 * W64 + 0 == 0 && 0 * W128 == 0
  {
  }
}
