/** The table-driven checksum of crypto_helper.c as a polynomial remainder over GF(2). */
module Crc8 {
  const CRC8_INIT: bv8 := 0x00
  const CRC8_XOR_OUT: bv8 := 0x00

  // ---------- The table ----------

  /** The value at index i modulo 16 among sixteen. */
  function Nth(i: bv8, v0: bv8, v1: bv8, v2: bv8, v3: bv8, v4: bv8, v5: bv8, v6: bv8, v7: bv8,
               v8: bv8, v9: bv8, v10: bv8, v11: bv8, v12: bv8, v13: bv8, v14: bv8, v15: bv8): bv8
  {
    if i & 8 == 0 then
      if i & 4 == 0 then
        if i & 2 == 0 then (if i & 1 == 0 then v0 else v1) else (if i & 1 == 0 then v2 else v3)
      else
        if i & 2 == 0 then (if i & 1 == 0 then v4 else v5) else (if i & 1 == 0 then v6 else v7)
    else
      if i & 4 == 0 then
        if i & 2 == 0 then (if i & 1 == 0 then v8 else v9) else (if i & 1 == 0 then v10 else v11)
      else
        if i & 2 == 0 then (if i & 1 == 0 then v12 else v13) else (if i & 1 == 0 then v14 else v15)
  }

  /** The table crc8_poly7, sixteen entries a row. */
  function Table(b: bv8): bv8
  {
    Nth(b >> 4,
      Nth(b, 0, 7, 14, 9, 28, 27, 18, 21, 56, 63, 54, 49, 36, 35, 42, 45),
      Nth(b, 112, 119, 126, 121, 108, 107, 98, 101, 72, 79, 70, 65, 84, 83, 90, 93),
      Nth(b, 224, 231, 238, 233, 252, 251, 242, 245, 216, 223, 214, 209, 196, 195, 202, 205),
      Nth(b, 144, 151, 158, 153, 140, 139, 130, 133, 168, 175, 166, 161, 180, 179, 186, 189),
      Nth(b, 199, 192, 201, 206, 219, 220, 213, 210, 255, 248, 241, 246, 227, 228, 237, 234),
      Nth(b, 183, 176, 185, 190, 171, 172, 165, 162, 143, 136, 129, 134, 147, 148, 157, 154),
      Nth(b, 39, 32, 41, 46, 59, 60, 53, 50, 31, 24, 17, 22, 3, 4, 13, 10),
      Nth(b, 87, 80, 89, 94, 75, 76, 69, 66, 111, 104, 97, 102, 115, 116, 125, 122),
      Nth(b, 137, 142, 135, 128, 149, 146, 155, 156, 177, 182, 191, 184, 173, 170, 163, 164),
      Nth(b, 249, 254, 247, 240, 229, 226, 235, 236, 193, 198, 207, 200, 221, 218, 211, 212),
      Nth(b, 105, 110, 103, 96, 117, 114, 123, 124, 81, 86, 95, 88, 77, 74, 67, 68),
      Nth(b, 25, 30, 23, 16, 5, 2, 11, 12, 33, 38, 47, 40, 61, 58, 51, 52),
      Nth(b, 78, 73, 64, 71, 82, 85, 92, 91, 118, 113, 120, 127, 106, 109, 100, 99),
      Nth(b, 62, 57, 48, 55, 34, 37, 44, 43, 6, 1, 8, 15, 26, 29, 20, 19),
      Nth(b, 174, 169, 160, 167, 178, 181, 188, 187, 150, 145, 152, 159, 138, 141, 132, 131),
      Nth(b, 222, 217, 208, 215, 194, 197, 204, 203, 230, 225, 232, 239, 250, 253, 244, 243))
  }

  // ---------- Bytes as vectors of bits ----------

  function Xor(u: bv8, v: bv8): bv8
  {
    u ^ v
  }

  function Double(u: bv8): bv8
  {
    u << 1
  }

  function Top(u: bv8): bool
  {
    u & 0x80 != 0
  }

  lemma XorSwaps(u: bv8, v: bv8, w: bv8)
    ensures Xor(Xor(u, v), w) == Xor(Xor(u, w), v)
  {
  }

  lemma XorAssociates(u: bv8, v: bv8, w: bv8)
    ensures Xor(Xor(u, v), w) == Xor(u, Xor(v, w))
  {
  }

  lemma XorUnits(u: bv8)
    ensures Xor(u, 0) == u && Xor(0, u) == u && Xor(u, u) == 0
  {
  }

  lemma DoubleXor(u: bv8, v: bv8)
    ensures Double(Xor(u, v)) == Xor(Double(u), Double(v))
    ensures Top(Xor(u, v)) == (Top(u) != Top(v))
  {
  }

  // ---------- One bit at a time ----------

  /** What replaces x^8: x^2 + x + 1 when the bit b leaves the register. */
  function Feedback(b: bool): bv8
  {
    if b then 0x07 else 0
  }

  /** The register after one more message bit. */
  function BitStep(r: bv8, m: bool): bv8
  {
    (r << 1) ^ (if (r & 0x80 != 0) != m then 0x07 else 0)
  }

  lemma BitStepForm(r: bv8, m: bool)
    ensures BitStep(r, m) == Xor(Double(r), Feedback(Top(r) != m))
  {
  }

  /** The register after the n most significant bits of d, highest first. */
  function Steps(r: bv8, d: bv8, n: nat): bv8
    decreases n
  {
    if n == 0 then r else Steps(BitStep(r, Top(d)), Double(d), n - 1)
  }

  function ByteStep(r: bv8, d: bv8): bv8
  {
    Steps(r, d, 8)
  }

  /** Eight steps without message bits. */
  function EightSteps(r: bv8): bv8
  {
    var r4 := BitStep(BitStep(BitStep(BitStep(r, false), false), false), false);
    BitStep(BitStep(BitStep(BitStep(r4, false), false), false), false)
  }

  lemma TableQuarter0(b: bv8)
    requires b >> 6 == 0
    ensures Table(b) == EightSteps(b)
  {
  }

  lemma TableQuarter1(b: bv8)
    requires b >> 6 == 1
    ensures Table(b) == EightSteps(b)
  {
  }

  lemma TableQuarter2(b: bv8)
    requires b >> 6 == 2
    ensures Table(b) == EightSteps(b)
  {
  }

  lemma TableQuarter3(b: bv8)
    requires b >> 6 == 3
    ensures Table(b) == EightSteps(b)
  {
  }

  lemma StepsWithoutMessage(r: bv8)
    ensures ByteStep(r, 0) == EightSteps(r)
  {
  }

  function Doubled(d: bv8, n: nat): bv8
    decreases n
  {
    if n == 0 then d else Doubled(Double(d), n - 1)
  }

  lemma AllShiftedOut(d: bv8)
    ensures Doubled(d, 8) == 0
  {
  }

  /** A message byte xored into the register in advance enters bit by bit from the top. */
  lemma {:induction false} EntersAtTheTop(r: bv8, d: bv8, n: nat)
    ensures Steps(Xor(r, d), 0, n) == Xor(Steps(r, d, n), Doubled(d, n))
    decreases n
  {
    assert Double(0) == 0 && !Top(0);
    hide Xor, Double, Top, BitStep;
    if n > 0 {
      BitEnters(r, d);
      EntersAtTheTop(BitStep(r, Top(d)), Double(d), n - 1);
    }
  }

  lemma BitEnters(r: bv8, d: bv8)
    ensures BitStep(Xor(r, d), false) == Xor(BitStep(r, Top(d)), Double(d))
  {
    hide *;
    BitStepForm(Xor(r, d), false);
    BitStepForm(r, Top(d));
    DoubleXor(r, d);
    XorSwaps(Double(r), Double(d), Feedback(Top(r) != Top(d)));
  }

  lemma MessageEnters(r: bv8, d: bv8)
    ensures ByteStep(Xor(r, d), 0) == ByteStep(r, d)
  {
    hide Steps, Doubled, Xor;
    EntersAtTheTop(r, d, 8);
    AllShiftedOut(d);
    XorUnits(Steps(r, d, 8));
  }

  /** One lookup does the work of eight bit steps, for every register and every byte. */
  lemma TableStep(r: bv8, d: bv8)
    ensures Table(Xor(r, d)) == ByteStep(r, d)
  {
    var b := Xor(r, d);
    assert b >> 6 == 0 || b >> 6 == 1 || b >> 6 == 2 || b >> 6 == 3;
    hide *;
    MessageEnters(r, d);
    StepsWithoutMessage(b);
    if b >> 6 == 0 {
      TableQuarter0(b);
    } else if b >> 6 == 1 {
      TableQuarter1(b);
    } else if b >> 6 == 2 {
      TableQuarter2(b);
    } else {
      TableQuarter3(b);
    }
  }

  // ---------- Polynomials over GF(2) ----------

  /** The coefficient of x^k; a polynomial lists its coefficients from x^0 on. */
  function Coefficient(p: seq<bool>, k: int): bool
  {
    0 <= k < |p| && p[k]
  }

  /** The coefficient of x^k in (x^8 + x^2 + x + 1) * q. */
  function ProductCoefficient(q: seq<bool>, k: int): bool
  {
    ((Coefficient(q, k) != Coefficient(q, k - 1)) != Coefficient(q, k - 2)) != Coefficient(q, k - 8)
  }

  function BitAt(r: bv8, mask: bv8): bool
  {
    r & mask != 0
  }

  function BitsOf(r: bv8): (s: seq<bool>)
    ensures |s| == 8
  {
    [BitAt(r, 0x01), BitAt(r, 0x02), BitAt(r, 0x04), BitAt(r, 0x08),
     BitAt(r, 0x10), BitAt(r, 0x20), BitAt(r, 0x40), BitAt(r, 0x80)]
  }

  lemma BitsEntries(r: bv8)
    ensures var s := BitsOf(r);
            && s[0] == BitAt(r, 0x01) && s[1] == BitAt(r, 0x02) && s[2] == BitAt(r, 0x04) && s[3] == BitAt(r, 0x08)
            && s[4] == BitAt(r, 0x10) && s[5] == BitAt(r, 0x20) && s[6] == BitAt(r, 0x40) && s[7] == BitAt(r, 0x80)
  {
    hide BitAt;
  }

  /** p * x^8 == (x^8 + x^2 + x + 1) * q + r, coefficient by coefficient. */
  ghost predicate Divides(p: seq<bool>, q: seq<bool>, r: bv8)
  {
    forall k: int :: Coefficient(p, k - 8) == (ProductCoefficient(q, k) != Coefficient(BitsOf(r), k))
  }

  /** Long division, bit by bit from the highest coefficient of p down. */
  function Remainder(p: seq<bool>): bv8
  {
    if p == [] then 0 else BitStep(Remainder(p[1..]), p[0])
  }

  function Quotient(p: seq<bool>): (q: seq<bool>)
    ensures |q| == |p|
  {
    if p == [] then [] else [Top(Remainder(p[1..])) != p[0]] + Quotient(p[1..])
  }

  lemma StepMasks(r: bv8, m: bool)
    ensures var b := Top(r) != m;
            var t := BitStep(r, m);
            && BitAt(t, 0x01) == b && BitAt(t, 0x02) == (BitAt(r, 0x01) != b)
            && BitAt(t, 0x04) == (BitAt(r, 0x02) != b) && BitAt(t, 0x08) == BitAt(r, 0x04)
            && BitAt(t, 0x10) == BitAt(r, 0x08) && BitAt(t, 0x20) == BitAt(r, 0x10)
            && BitAt(t, 0x40) == BitAt(r, 0x20) && BitAt(t, 0x80) == BitAt(r, 0x40)
  {
  }

  lemma StepBits(r: bv8, m: bool)
    ensures var b := Top(r) != m;
            var x, y := BitsOf(r), BitsOf(BitStep(r, m));
            && y[0] == b && y[1] == (x[0] != b) && y[2] == (x[1] != b) && y[3] == x[2]
            && y[4] == x[3] && y[5] == x[4] && y[6] == x[5] && y[7] == x[6]
  {
    hide *;
    StepMasks(r, m);
    BitsEntries(r);
    BitsEntries(BitStep(r, m));
  }

  lemma StepCoefficient(r: bv8, m: bool, k: int)
    ensures var b := Top(r) != m;
            Coefficient(BitsOf(BitStep(r, m)), k)
            == (k < 8 && Coefficient(BitsOf(r), k - 1) != (b && 0 <= k < 3))
  {
    StepBits(r, m);
    hide BitStep, BitsOf, Top;
  }

  lemma ShiftedProduct(b: bool, q: seq<bool>, k: int)
    ensures ProductCoefficient([b] + q, k)
            == (ProductCoefficient(q, k - 1) != (b && (0 <= k < 3 || k == 8)))
  {
  }

  lemma NothingDivided()
    ensures Divides([], [], 0) && Quotient([]) == [] && Remainder([]) == 0
  {
  }

  lemma {:induction false} LongDivision(p: seq<bool>)
    ensures Divides(p, Quotient(p), Remainder(p))
  {
    hide BitStep, BitsOf, Top, Coefficient, ProductCoefficient;
    if p == [] {
      NothingDivided();
    } else {
      LongDivision(p[1..]);
      var q, r := Quotient(p[1..]), Remainder(p[1..]);
      var b := Top(r) != p[0];
      forall k: int
        ensures Coefficient(p, k - 8) == (ProductCoefficient([b] + q, k) != Coefficient(BitsOf(BitStep(r, p[0])), k))
      {
        DivisionStep(p, q, r, k);
      }
    }
  }

  lemma DividesAt(p: seq<bool>, q: seq<bool>, r: bv8, k: int)
    requires Divides(p, q, r)
    ensures Coefficient(p, k - 8) == (ProductCoefficient(q, k) != Coefficient(BitsOf(r), k))
  {
  }

  lemma FirstCoefficient(p: seq<bool>, k: int)
    requires p != []
    ensures Coefficient(p, k - 8) == if k == 8 then p[0] else Coefficient(p[1..], k - 1 - 8)
    ensures k <= 8 ==> !Coefficient(p[1..], k - 1 - 8)
  {
  }

  lemma RegisterCoefficients(r: bv8, k: int)
    ensures k >= 8 ==> !Coefficient(BitsOf(r), k)
    ensures k == 7 ==> Coefficient(BitsOf(r), k) == Top(r)
    ensures 0 <= k < 8 ==> Coefficient(BitsOf(r), k) == BitsOf(r)[k]
  {
  }

  lemma DivisionStep(p: seq<bool>, q: seq<bool>, r: bv8, k: int)
    requires p != [] && Divides(p[1..], q, r)
    ensures var b := Top(r) != p[0];
            Coefficient(p, k - 8) == (ProductCoefficient([b] + q, k) != Coefficient(BitsOf(BitStep(r, p[0])), k))
  {
    hide *;
    var b := Top(r) != p[0];
    StepCoefficient(r, p[0], k);
    ShiftedProduct(b, q, k);
    DividesAt(p[1..], q, r, k - 1);
    FirstCoefficient(p, k);
    RegisterCoefficients(r, k - 1);
  }

  // ---------- The remainder is unique ----------

  function SumOf(q: seq<bool>, t: seq<bool>): seq<bool>
    requires |q| == |t|
  {
    seq(|q|, i requires 0 <= i < |q| => q[i] != t[i])
  }

  /** A quotient whose product has no coefficient from x^8 on is zero. */
  lemma {:induction false} SmallProduct(q: seq<bool>, n: nat)
    requires forall k: int :: k >= 8 ==> !ProductCoefficient(q, k)
    requires n <= |q| && forall i :: n <= i < |q| ==> !q[i]
    ensures forall i :: 0 <= i < |q| ==> !q[i]
  {
    if n > 0 {
      assert !ProductCoefficient(q, n - 1 + 8);
      assert !Coefficient(q, n - 1 + 8) && !Coefficient(q, n - 2 + 8) && !Coefficient(q, n - 3 + 8);
      assert Coefficient(q, n - 1) == q[n - 1];
      SmallProduct(q, n - 1);
    }
  }

  lemma BitsInjective(r: bv8, s: bv8)
    requires BitsOf(r) == BitsOf(s)
    ensures r == s
  {
  }

  lemma ProductOfSum(q: seq<bool>, t: seq<bool>, k: int)
    requires |q| == |t|
    ensures ProductCoefficient(SumOf(q, t), k) == (ProductCoefficient(q, k) != ProductCoefficient(t, k))
  {
  }

  lemma ZeroProduct(q: seq<bool>, k: int)
    requires forall i :: 0 <= i < |q| ==> !q[i]
    ensures !ProductCoefficient(q, k)
  {
  }

  lemma RemainderUnique(p: seq<bool>, q: seq<bool>, r: bv8, t: seq<bool>, s: bv8)
    requires |q| == |t| && Divides(p, q, r) && Divides(p, t, s)
    ensures r == s
  {
    var d := SumOf(q, t);
    assert |d| == |q|;
    hide *;
    forall k: int
      ensures ProductCoefficient(d, k) == (Coefficient(BitsOf(r), k) != Coefficient(BitsOf(s), k))
    {
      ProductOfSum(q, t, k);
      DividesAt(p, q, r, k);
      DividesAt(p, t, s, k);
    }
    forall k: int | k >= 8 ensures !ProductCoefficient(d, k) {
      RegisterCoefficients(r, k);
      RegisterCoefficients(s, k);
    }
    SmallProduct(d, |d|);
    forall k: int | 0 <= k < 8 ensures BitsOf(r)[k] == BitsOf(s)[k] {
      ZeroProduct(d, k);
      RegisterCoefficients(r, k);
      RegisterCoefficients(s, k);
    }
    BitsInjective(r, s);
  }

  // ---------- The checksum ----------

  /** A message as a polynomial: the last bit of the last byte is the coefficient of x^0. */
  function MessageBits(data: seq<bv8>): seq<bool>
  {
    if data == [] then [] else BitsOf(data[|data| - 1]) + MessageBits(data[..|data| - 1])
  }

  lemma BitRemainder(m: bool, p: seq<bool>)
    ensures Remainder([m] + p) == BitStep(Remainder(p), m)
  {
  }

  lemma Unfold(s: seq<bool>, p: seq<bool>)
    requires |s| == 8
    ensures s + p == [s[0]] + ([s[1]] + ([s[2]] + ([s[3]] + ([s[4]] + ([s[5]] + ([s[6]] + ([s[7]] + p)))))))
  {
  }

  lemma StepsUnfold(r: bv8, d: bv8)
    ensures ByteStep(r, d)
            == BitStep(BitStep(BitStep(BitStep(BitStep(BitStep(BitStep(BitStep(r,
                 BitAt(d, 0x80)), BitAt(d, 0x40)), BitAt(d, 0x20)), BitAt(d, 0x10)),
                 BitAt(d, 0x08)), BitAt(d, 0x04)), BitAt(d, 0x02)), BitAt(d, 0x01))
  {
  }

  lemma ByteRemainder(d: bv8, p: seq<bool>)
    ensures Remainder(BitsOf(d) + p) == ByteStep(Remainder(p), d)
  {
    hide *;
    Unfold(BitsOf(d), p);
    BitsEntries(d);
    StepsUnfold(Remainder(p), d);
    var s7 := [BitAt(d, 0x80)] + p;
    var s6 := [BitAt(d, 0x40)] + s7;
    var s5 := [BitAt(d, 0x20)] + s6;
    var s4 := [BitAt(d, 0x10)] + s5;
    var s3 := [BitAt(d, 0x08)] + s4;
    var s2 := [BitAt(d, 0x04)] + s3;
    BitRemainder(BitAt(d, 0x80), p);
    BitRemainder(BitAt(d, 0x40), s7);
    BitRemainder(BitAt(d, 0x20), s6);
    BitRemainder(BitAt(d, 0x10), s5);
    BitRemainder(BitAt(d, 0x08), s4);
    BitRemainder(BitAt(d, 0x04), s3);
    BitRemainder(BitAt(d, 0x02), s2);
    BitRemainder(BitAt(d, 0x01), [BitAt(d, 0x02)] + s2);
  }

  /** The checksum: the remainder of the message, times x^8, modulo x^8 + x^2 + x + 1. */
  function Checksum(data: seq<bv8>): bv8
  {
    Remainder(MessageBits(data))
  }

  lemma ChecksumSnoc(data: seq<bv8>, d: bv8)
    ensures Checksum(data + [d]) == ByteStep(Checksum(data), d)
  {
    hide Remainder, BitsOf, ByteStep;
    var next := data + [d];
    assert next[|next| - 1] == d && next[..|next| - 1] == data;
    ByteRemainder(d, MessageBits(data));
  }

  /** The checksum is the one remainder of degree below 8 of the message times x^8. */
  lemma ChecksumIsTheRemainder(data: seq<bv8>, r: bv8)
    ensures (exists q: seq<bool> :: |q| == |MessageBits(data)| && Divides(MessageBits(data), q, r))
            <==> r == Checksum(data)
  {
    var p := MessageBits(data);
    hide Divides, MessageBits, Quotient, Remainder;
    LongDivision(p);
    assert Divides(p, Quotient(p), Checksum(data));
    forall q: seq<bool> | |q| == |p| && Divides(p, q, r) ensures r == Checksum(data) {
      RemainderUnique(p, q, r, Quotient(p), Remainder(p));
    }
  }

  /** The loop of crypto_helper.c, one table lookup a byte. */
  method Crc8(data: seq<bv8>) returns (r: bv8)
    ensures r == Checksum(data)
  {
    hide Checksum, Table, Xor, ByteStep;
    var crc := CRC8_INIT;
    assert data[..0] == [];
    EmptyChecksum();
    for i := 0 to |data|
      invariant crc == Checksum(data[..i])
    {
      assert data[..i + 1] == data[..i] + [data[i]];
      ChecksumSnoc(data[..i], data[i]);
      TableStep(crc, data[i]);
      crc := Table(Xor(crc, data[i]));
    }
    assert data[..|data|] == data;
    XorUnits(crc);
    return Xor(crc, CRC8_XOR_OUT);
  }

  // ---------- Linearity ----------

  function XorAll(u: seq<bv8>, v: seq<bv8>): seq<bv8>
    requires |u| == |v|
  {
    seq(|u|, i requires 0 <= i < |u| => Xor(u[i], v[i]))
  }

  lemma FeedbackXor(a: bool, b: bool)
    ensures Feedback(a != b) == Xor(Feedback(a), Feedback(b))
  {
  }

  lemma XorShuffle(a: bv8, b: bv8, c: bv8, d: bv8)
    ensures Xor(Xor(a, b), Xor(c, d)) == Xor(Xor(a, c), Xor(b, d))
  {
    hide *;
    XorAssociates(Xor(a, b), c, d);
    XorSwaps(a, b, c);
    XorAssociates(Xor(a, c), b, d);
  }

  lemma BitStepXor(r: bv8, s: bv8, m: bool, n: bool)
    ensures BitStep(Xor(r, s), m != n) == Xor(BitStep(r, m), BitStep(s, n))
  {
    hide *;
    BitStepForm(Xor(r, s), m != n);
    BitStepForm(r, m);
    BitStepForm(s, n);
    DoubleXor(r, s);
    FeedbackXor(Top(r) != m, Top(s) != n);
    XorShuffle(Double(r), Double(s), Feedback(Top(r) != m), Feedback(Top(s) != n));
  }

  lemma {:induction false} StepsXor(r: bv8, s: bv8, c: bv8, d: bv8, n: nat)
    ensures Steps(Xor(r, s), Xor(c, d), n) == Xor(Steps(r, c, n), Steps(s, d, n))
    decreases n
  {
    hide Xor, Double, Top, BitStep;
    if n > 0 {
      DoubleXor(c, d);
      BitStepXor(r, s, Top(c), Top(d));
      StepsXor(BitStep(r, Top(c)), BitStep(s, Top(d)), Double(c), Double(d), n - 1);
    }
  }

  /** The checksum of a bytewise xor is the xor of the checksums. */
  lemma {:induction false} ChecksumLinear(u: seq<bv8>, v: seq<bv8>)
    requires |u| == |v|
    ensures Checksum(XorAll(u, v)) == Xor(Checksum(u), Checksum(v))
  {
    hide Checksum, Steps, Xor;
    if u == [] {
      assert XorAll(u, v) == [];
      EmptyChecksum();
      XorUnits(0);
    } else {
      var n := |u| - 1;
      assert u == u[..n] + [u[n]] && v == v[..n] + [v[n]];
      assert XorAll(u, v) == XorAll(u[..n], v[..n]) + [Xor(u[n], v[n])];
      ChecksumLinear(u[..n], v[..n]);
      ChecksumSnoc(u[..n], u[n]);
      ChecksumSnoc(v[..n], v[n]);
      ChecksumSnoc(XorAll(u[..n], v[..n]), Xor(u[n], v[n]));
      StepsXor(Checksum(u[..n]), Checksum(v[..n]), u[n], v[n], 8);
    }
  }

  lemma EmptyChecksum()
    ensures Checksum([]) == 0
  {
  }

  // ---------- Detection of errors ----------

  lemma BitStepInjective(r: bv8, s: bv8, m: bool)
    requires BitStep(r, m) == BitStep(s, m)
    ensures r == s
  {
  }

  lemma {:induction false} StepsInjective(r: bv8, s: bv8, d: bv8, n: nat)
    requires Steps(r, d, n) == Steps(s, d, n)
    ensures r == s
    decreases n
  {
    hide Double, Top, BitStep;
    if n > 0 {
      StepsInjective(BitStep(r, Top(d)), BitStep(s, Top(d)), Double(d), n - 1);
      BitStepInjective(r, s, Top(d));
    }
  }

  lemma XorCancels(r: bv8, c: bv8, d: bv8)
    requires Xor(r, c) == Xor(r, d)
    ensures c == d
  {
  }

  /** The register distinguishes message bytes, and the message keeps registers apart. */
  lemma ByteStepInjective(r: bv8, s: bv8, c: bv8, d: bv8)
    requires ByteStep(r, c) == ByteStep(s, d)
    ensures c == d ==> r == s
    ensures r == s ==> c == d
  {
    hide Steps, Xor;
    MessageEnters(r, c);
    MessageEnters(s, d);
    StepsInjective(Xor(r, c), Xor(s, d), 0, 8);
    if c == d {
      StepsInjective(r, s, c, 8);
    }
    if r == s {
      XorCancels(r, c, d);
    }
  }

  lemma ZeroStep(r: bv8)
    ensures ByteStep(r, r) == 0
  {
  }

  /** A message followed by one byte has checksum 0 exactly when that byte is its checksum. */
  lemma AppendedChecksum(data: seq<bv8>, c: bv8)
    ensures Checksum(data + [c]) == 0 <==> c == Checksum(data)
  {
    hide *;
    var r := Checksum(data);
    ChecksumSnoc(data, c);
    ZeroStep(r);
    if ByteStep(r, c) == 0 {
      ByteStepInjective(r, r, c, r);
    }
  }

  /** Changing one byte changes the checksum. */
  lemma {:induction false} SubstitutionDetected(before: seq<bv8>, c: bv8, d: bv8, after: seq<bv8>)
    requires c != d
    ensures Checksum(before + [c] + after) != Checksum(before + [d] + after)
    decreases |after|
  {
    hide *;
    if after == [] {
      assert before + [c] + after == before + [c] && before + [d] + after == before + [d];
      ChecksumSnoc(before, c);
      ChecksumSnoc(before, d);
      if ByteStep(Checksum(before), c) == ByteStep(Checksum(before), d) {
        ByteStepInjective(Checksum(before), Checksum(before), c, d);
      }
    } else {
      var n := |after| - 1;
      var u, v := before + [c] + after[..n], before + [d] + after[..n];
      assert before + [c] + after == u + [after[n]] && before + [d] + after == v + [after[n]];
      SubstitutionDetected(before, c, d, after[..n]);
      ChecksumSnoc(u, after[n]);
      ChecksumSnoc(v, after[n]);
      if ByteStep(Checksum(u), after[n]) == ByteStep(Checksum(v), after[n]) {
        ByteStepInjective(Checksum(u), Checksum(v), after[n], after[n]);
      }
    }
  }
}
