/** The three tables of keccak-tiny.c and the constants of FIPS 202 they stand for. */
module KeccakTables {
  import opened Words
  import opened Fips202

  const RHO: seq<nat> :=
    [1, 3, 6, 10, 15, 21, 28, 36, 45, 55, 2, 14, 27, 41, 56, 8, 25, 43, 62, 18, 39, 61, 20, 44]

  const PI: seq<nat> :=
    [10, 7, 11, 17, 18, 3, 5, 16, 8, 21, 24, 4, 15, 23, 19, 13, 12, 2, 20, 14, 22, 9, 6, 1]

  const RC: seq<u64> :=
    [0x1, 0x8082, 0x800000000000808a, 0x8000000080008000,
     0x808b, 0x80000001, 0x8000000080008081, 0x8000000000008009,
     0x8a, 0x88, 0x80008009, 0x8000000a,
     0x8000808b, 0x800000000000008b, 0x8000000000008089, 0x8000000000008003,
     0x8000000000008002, 0x8000000000000080, 0x800a, 0x800000008000000a,
     0x8000000080008081, 0x8000000000008080, 0x80000001, 0x8000000080008008]

  // ---------- Words as lanes ----------

  /** The n lowest bits of a number, least significant first. */
  function LowBits(w: nat, n: nat): (l: seq<bool>)
    ensures |l| == n
  {
    if n == 0 then [] else [w % 2 == 1] + LowBits(w / 2, n - 1)
  }

  function LaneOf(w: u64): Lane
  {
    LowBits(w, 64)
  }

  function Unit(b: bool): nat
  {
    if b then 1 else 0
  }

  lemma LowestBit(b: bool, w: nat, n: nat)
    ensures LowBits(Unit(b) + 2 * w, n + 1) == [b] + LowBits(w, n)
  {
  }

  lemma {:induction false} Gap(w: nat, d: nat, n: nat)
    ensures LowBits(Pow2(d) * w, d + n) == Zeros(d) + LowBits(w, n)
  {
    if d == 0 {
      assert Zeros(0) + LowBits(w, n) == LowBits(w, n);
    } else {
      Gap(w, d - 1, n);
      var half := Pow2(d - 1) * w;
      assert Pow2(d) * w == 2 * half;
      assert LowBits(2 * half, d + n) == [false] + LowBits(half, d - 1 + n);
      assert Zeros(d) == [false] + Zeros(d - 1);
    }
  }

  // ---------- Round constants ----------

  /** A digit b below d zero digits below the digits of w. */
  function Below(b: bool, d: nat, w: nat): nat
  {
    Unit(b) + 2 * (Pow2(d) * w)
  }

  /** A bit, d zeros and the bits s. */
  function Above(b: bool, d: nat, s: seq<bool>): seq<bool>
  {
    [b] + (Zeros(d) + s)
  }

  lemma DigitBelow(b: bool, d: nat, w: nat, s: seq<bool>, m: nat)
    requires LowBits(w, |s|) == s && m == d + |s| + 1
    ensures LowBits(Below(b, d, w), m) == Above(b, d, s) && |Above(b, d, s)| == m
  {
    LowestBit(b, Pow2(d) * w, d + |s|);
    Gap(w, d, |s|);
  }

  /** The number whose binary digits at positions 0, 1, 3, 7, 15, 31 and 63 are given. */
  function Weighted(b: seq<bool>): nat
    requires |b| == 7
  {
    Below(b[0], 0, Below(b[1], 1, Below(b[2], 3, Below(b[3], 7, Below(b[4], 15, Below(b[5], 31, Unit(b[6])))))))
  }

  /** Those digits as a lane, every other bit being 0. */
  function Spread(b: seq<bool>): seq<bool>
    requires |b| == 7
  {
    Above(b[0], 0, Above(b[1], 1, Above(b[2], 3, Above(b[3], 7, Above(b[4], 15, Above(b[5], 31, [b[6]]))))))
  }

  lemma UpperDigits(b: seq<bool>)
    requires |b| == 7
    ensures var s := Above(b[3], 7, Above(b[4], 15, Above(b[5], 31, [b[6]])));
            |s| == 57 && LowBits(Below(b[3], 7, Below(b[4], 15, Below(b[5], 31, Unit(b[6])))), 57) == s
  {
    assert LowBits(Unit(b[6]), 1) == [b[6]];
    hide *;
    var w5, s5 := Below(b[5], 31, Unit(b[6])), Above(b[5], 31, [b[6]]);
    DigitBelow(b[5], 31, Unit(b[6]), [b[6]], 33);
    DigitBelow(b[4], 15, w5, s5, 49);
    DigitBelow(b[3], 7, Below(b[4], 15, w5), Above(b[4], 15, s5), 57);
  }

  lemma WeightedBits(b: seq<bool>)
    requires |b| == 7
    ensures LowBits(Weighted(b), 64) == Spread(b)
  {
    hide LowBits, Unit, Pow2, Below, Above, Zeros;
    var w3, s3 := Below(b[3], 7, Below(b[4], 15, Below(b[5], 31, Unit(b[6])))),
                  Above(b[3], 7, Above(b[4], 15, Above(b[5], 31, [b[6]])));
    var w2, s2 := Below(b[2], 3, w3), Above(b[2], 3, s3);
    UpperDigits(b);
    DigitBelow(b[2], 3, w3, s3, 61);
    DigitBelow(b[1], 1, w2, s2, 63);
    DigitBelow(b[0], 0, Below(b[1], 1, w2), Above(b[1], 1, s2), 64);
  }

  /** The register at the start of each round. */
  const REGISTERS: seq<bv8> :=
    [0x01, 0x80, 0xd8, 0x1a, 0xdf, 0x09, 0x35, 0x4f, 0xca,
     0x70, 0x41, 0xec, 0xd5, 0xcd, 0x63, 0xab, 0xaa, 0x2a,
     0xf2, 0xe8, 0x37, 0x3e, 0x0b, 0x44, 0x8e]

  function Advanced(r: bv8, n: nat): bv8
  {
    if n == 0 then r else Shifted(Advanced(r, n - 1))
  }

  lemma {:induction false} RegisterLater(t: nat, n: nat)
    ensures Register(t + n) == Advanced(Register(t), n)
  {
    if n > 0 {
      RegisterLater(t, n - 1);
    }
  }

  function Output(r: bv8): bool
  {
    r & 1 == 1
  }

  /** The bits a register puts out over seven steps. */
  function Outputs(r: bv8): (o: seq<bool>)
    ensures |o| == 7
  {
    [Output(r), Output(Advanced(r, 1)), Output(Advanced(r, 2)), Output(Advanced(r, 3)),
     Output(Advanced(r, 4)), Output(Advanced(r, 5)), Output(Advanced(r, 6))]
  }

  function RegisterOf(i: nat): bv8
    requires i <= 24
  {
    REGISTERS[i]
  }

  function ConstantOf(i: nat): u64
    requires i < 24
  {
    RC[i]
  }

  predicate Entry(i: nat)
    requires i < 24
  {
    Advanced(RegisterOf(i), 7) == RegisterOf(i + 1) && ConstantOf(i) == Weighted(Outputs(RegisterOf(i)))
  }

  lemma NextPower(k: nat, p: nat)
    requires Pow2(k) == p
    ensures Pow2(2 * k + 1) == 2 * (p * p)
  {
    Pow2Square(k, p);
  }

  lemma Powers()
    ensures Pow2(0) == 1 && Pow2(1) == 2 && Pow2(3) == 8 && Pow2(7) == 0x80
    ensures Pow2(15) == 0x8000 && Pow2(31) == 0x8000_0000
  {
    assert Pow2(0) == 1 && Pow2(1) == 2;
    hide Pow2;
    NextPower(1, 2);
    NextPower(3, 8);
    NextPower(7, 0x80);
    NextPower(15, 0x8000);
  }

  lemma FirstEntries(i: nat)
    requires i < 4
    ensures Entry(i)
  {
    Powers();
    hide Pow2;
  }

  lemma SecondEntries(i: nat)
    requires 4 <= i < 8
    ensures Entry(i)
  {
    Powers();
    hide Pow2;
  }

  lemma ThirdEntries(i: nat)
    requires 8 <= i < 16
    ensures Entry(i)
  {
    Powers();
    hide Pow2;
  }

  lemma FourthEntries(i: nat)
    requires 16 <= i < 24
    ensures Entry(i)
  {
    Powers();
    hide Pow2;
  }

  lemma Entries(i: nat)
    requires i < 24
    ensures Advanced(RegisterOf(i), 7) == RegisterOf(i + 1)
    ensures ConstantOf(i) == Weighted(Outputs(RegisterOf(i)))
  {
    hide Advanced, RegisterOf, ConstantOf, Weighted, Outputs;
    if i < 4 {
      FirstEntries(i);
    } else if i < 8 {
      SecondEntries(i);
    } else if i < 16 {
      ThirdEntries(i);
    } else {
      FourthEntries(i);
    }
  }

  lemma RegisterStart()
    ensures Register(0) == RegisterOf(0)
  {
  }

  lemma {:induction false} RegisterAt(i: nat)
    requires i <= 24
    ensures Register(7 * i) == RegisterOf(i)
  {
    hide *;
    if i == 0 {
      RegisterStart();
    } else {
      RegisterAt(i - 1);
      Entries(i - 1);
      RegisterLater(7 * (i - 1), 7);
    }
  }

  lemma OutputBit(i: nat, j: nat)
    requires i < 24 && j < 7
    ensures RoundBit(j + 7 * i) == Output(Advanced(Register(7 * i), j))
  {
    RegisterLater(7 * i, j);
    ModSmall(j + 7 * i, 255);
  }

  lemma AboveBits(b: bool, d: nat, s: seq<bool>, z: nat)
    requires z < d + |s| + 1
    ensures |Above(b, d, s)| == d + |s| + 1
    ensures Above(b, d, s)[z] == if z == 0 then b else z > d && s[z - d - 1]
  {
  }

  lemma UpperSpread(b: seq<bool>, z: nat)
    requires |b| == 7 && z < 57
    ensures var s := Above(b[3], 7, Above(b[4], 15, Above(b[5], 31, [b[6]])));
            |s| == 57 && s[z] ==
              if z == 0 then b[3] else if z == 8 then b[4] else if z == 24 then b[5] else z == 56 && b[6]
  {
  }

  lemma SpreadBits(b: seq<bool>, z: nat)
    requires |b| == 7 && z < 64
    ensures |Spread(b)| == 64
    ensures Spread(b)[z] ==
      if z == 0 then b[0] else if z == 1 then b[1] else if z == 3 then b[2] else if z == 7 then b[3]
      else if z == 15 then b[4] else if z == 31 then b[5] else z == 63 && b[6]
  {
    hide Above, Zeros;
    var s3 := Above(b[3], 7, Above(b[4], 15, Above(b[5], 31, [b[6]])));
    var s2 := Above(b[2], 3, s3);
    UpperSpread(b, if z >= 7 then z - 7 else 0);
    AboveBits(b[2], 3, s3, if z >= 3 then z - 3 else 0);
    AboveBits(b[1], 1, s2, if z >= 1 then z - 1 else 0);
    AboveBits(b[0], 0, Above(b[1], 1, s2), z);
  }

  lemma RoundOutputs(i: nat, z: nat)
    requires i < 24 && z < 64
    ensures var b := Outputs(Register(7 * i));
            |Spread(b)| == 64 && Spread(b)[z] == RoundConstant(i)[z]
  {
    assert Advanced(Register(7 * i), 0) == Register(7 * i);
    hide Advanced, Output, RoundBit, Spread, Register;
    SpreadBits(Outputs(Register(7 * i)), z);
    OutputBit(i, 0);
    OutputBit(i, 1);
    OutputBit(i, 2);
    OutputBit(i, 3);
    OutputBit(i, 4);
    OutputBit(i, 5);
    OutputBit(i, 6);
  }

  /** Each word of the table is the round constant the standard computes. */
  lemma RoundConstants(i: nat)
    requires i < 24
    ensures LaneOf(ConstantOf(i)) == RoundConstant(i)
  {
    hide LowBits, Weighted, Spread, RoundConstant, Outputs, Register, RegisterOf, ConstantOf, Advanced;
    RegisterAt(i);
    Entries(i);
    var b := Outputs(Register(7 * i));
    WeightedBits(b);
    forall z: nat | z < 64 ensures |Spread(b)| == 64 && Spread(b)[z] == RoundConstant(i)[z] {
      RoundOutputs(i, z);
    }
  }

  // ---------- The cycle of lanes ----------

  /** Where each lane other than lane 0 stands in the table PI. */
  const POSITION: seq<nat> :=
    [24, 23, 17, 5, 11, 6, 22, 1, 8, 21, 0, 2, 16, 15, 19, 12, 7, 3, 4, 14, 18, 9, 20, 13, 10]

  function Position(k: nat): nat
    requires k < 25
  {
    POSITION[k]
  }

  function Target(j: nat): (k: nat)
    requires j < 24
    ensures 1 <= k < 25
  {
    PI[j]
  }

  function Turn(j: nat): (s: nat)
    requires j < 24
    ensures 0 < s < 64
  {
    RHO[j]
  }

  /** The lane that step pi moves into lane k. */
  function Source(k: nat): (m: nat)
    requires k < 25
    ensures m < 25
  {
    5 * (k % 5) + (k % 5 + 3 * (k / 5)) % 5
  }

  /** The lane visited before entry j of the table, going round the cycle. */
  function Previous(j: nat): (k: nat)
    requires j < 24
    ensures 1 <= k < 25
  {
    if j == 0 then 1 else Target(j - 1)
  }

  lemma PositionOfTarget(j: nat)
    requires j < 24
    ensures Position(Target(j)) == j
  {
  }

  lemma SourceOfTarget(j: nat)
    requires j < 24
    ensures Source(Target(j)) == Previous(j)
  {
  }

  /** The table visits every lane but lane 0 exactly once, along the moves of step pi. */
  lemma Cycle(j: nat)
    requires j < 24
    ensures Position(Target(j)) == j
    ensures Source(Target(j)) == Previous(j)
  {
    PositionOfTarget(j);
    SourceOfTarget(j);
    hide *;
  }

  lemma Covered(k: nat)
    requires 1 <= k < 25
    ensures Position(k) < 24 && Target(Position(k)) == k
  {
  }

  lemma EarlyOffsets(j: nat)
    requires j < 12
    ensures Turn(j) == Offset(j) % 64
  {
  }

  lemma LateOffsets(j: nat)
    requires 12 <= j < 24
    ensures Turn(j) == Offset(j) % 64
  {
  }

  /** The rotations of the table are the offsets of step rho modulo 64. */
  lemma Offsets(j: nat)
    requires j < 24
    ensures Turn(j) == Offset(j) % 64
  {
    hide *;
    if j < 12 {
      EarlyOffsets(j);
    } else {
      LateOffsets(j);
    }
  }

  lemma LastIsFirst()
    ensures Target(23) == 1 && Source(0) == 0
  {
  }
}
