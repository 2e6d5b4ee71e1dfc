/** The permutation and the sponge of FIPS 202, written bit by bit as the standard writes them.
    A state is 25 lanes of 64 bits; bit z of a lane is the standard's third coordinate, so that
    lane 5 * y + x holds A[x, y, 0] up to A[x, y, 63]. The hash is original Keccak: the message
    is padded with no domain separation bits. */
module Fips202 {
  type Byte = b: seq<bool> | |b| == 8 witness seq(8, i => false)
  type Lane = l: seq<bool> | |l| == 64 witness seq(64, z => false)
  type State = s: seq<Lane> | |s| == 25 witness seq(25, k => seq(64, z => false))
  type BitString = s: seq<bool> | |s| == 1600 witness seq(1600, n => false)

  const RATE: nat := 1088

  function At(a: State, x: int, y: int, z: int): bool
    requires 0 <= x < 5 && 0 <= y < 5 && 0 <= z < 64
  {
    a[5 * y + x][z]
  }

  // ---------- Theta (section 3.2.1) ----------

  function Parity(a: State, x: int, z: int): bool
    requires 0 <= x < 5 && 0 <= z < 64
  {
    (((At(a, x, 0, z) != At(a, x, 1, z)) != At(a, x, 2, z)) != At(a, x, 3, z)) != At(a, x, 4, z)
  }

  function ThetaLane(a: State, x: int, y: int): Lane
    requires 0 <= x < 5 && 0 <= y < 5
  {
    seq(64, z requires 0 <= z < 64 =>
      At(a, x, y, z) != (Parity(a, (x - 1) % 5, z) != Parity(a, (x + 1) % 5, (z - 1) % 64)))
  }

  function Theta(a: State): State
  {
    seq(25, k requires 0 <= k < 25 => ThetaLane(a, k % 5, k / 5))
  }

  // ---------- Rho (section 3.2.2) ----------

  function Rotated(l: Lane, s: nat): Lane
  {
    seq(64, z requires 0 <= z < 64 => l[(z - s) % 64])
  }

  /** The lane visited at step t of the walk that starts at (1, 0). */
  function Walk(t: nat): (p: (int, int))
    ensures 0 <= p.0 < 5 && 0 <= p.1 < 5
  {
    if t == 0 then (1, 0) else
      var (x, y) := Walk(t - 1);
      (y, (2 * x + 3 * y) % 5)
  }

  function Offset(t: nat): nat
  {
    (t + 1) * (t + 2) / 2
  }

  function WalkIndex(t: nat): (k: nat)
    ensures k < 25
  {
    var (x, y) := Walk(t);
    5 * y + x
  }

  /** The state after the first t assignments of the walk. */
  function RhoSteps(a: State, t: nat): State
  {
    if t == 0 then a else
      RhoSteps(a, t - 1)[WalkIndex(t - 1) := Rotated(a[WalkIndex(t - 1)], Offset(t - 1))]
  }

  function Rho(a: State): State
  {
    RhoSteps(a, 24)
  }

  // ---------- Pi (section 3.2.3) ----------

  function Pi(a: State): State
  {
    seq(25, k requires 0 <= k < 25 => a[5 * (k % 5) + (k % 5 + 3 * (k / 5)) % 5])
  }

  // ---------- Chi (section 3.2.4) ----------

  function ChiLane(a: State, x: int, y: int): Lane
    requires 0 <= x < 5 && 0 <= y < 5
  {
    seq(64, z requires 0 <= z < 64 =>
      At(a, x, y, z) != (!At(a, (x + 1) % 5, y, z) && At(a, (x + 2) % 5, y, z)))
  }

  function Chi(a: State): State
  {
    seq(25, k requires 0 <= k < 25 => ChiLane(a, k % 5, k / 5))
  }

  // ---------- Iota (section 3.2.5) ----------

  /** The register of the round constant generator after t steps; its bit 0 is the least
      significant one, and the bit shifted out is fed back into bits 0, 4, 5 and 6. */
  function Register(t: nat): bv8
  {
    if t == 0 then 1 else Shifted(Register(t - 1))
  }

  function Shifted(r: bv8): bv8
  {
    (r << 1) ^ (if r & 0x80 != 0 then 0x71 else 0)
  }

  function RoundBit(t: nat): bool
  {
    Register(t % 255) & 1 == 1
  }

  /** The round constant: position 2^j - 1 takes bit j + 7 * round, every other position is 0. */
  function RoundConstant(round: nat): Lane
  {
    seq(64, z requires 0 <= z < 64 =>
      if z == 0 then RoundBit(7 * round)
      else if z == 1 then RoundBit(1 + 7 * round)
      else if z == 3 then RoundBit(2 + 7 * round)
      else if z == 7 then RoundBit(3 + 7 * round)
      else if z == 15 then RoundBit(4 + 7 * round)
      else if z == 31 then RoundBit(5 + 7 * round)
      else z == 63 && RoundBit(6 + 7 * round))
  }

  function Plus(u: Lane, v: Lane): Lane
  {
    seq(64, z requires 0 <= z < 64 => u[z] != v[z])
  }

  function Iota(a: State, round: nat): State
  {
    a[0 := Plus(a[0], RoundConstant(round))]
  }

  // ---------- The permutation (sections 3.3 and 3.4) ----------

  function Round(a: State, round: nat): State
  {
    Iota(Chi(Pi(Rho(Theta(a)))), round)
  }

  function Rounds(a: State, n: nat): State
  {
    if n == 0 then a else Round(Rounds(a, n - 1), n - 1)
  }

  function Permutation(a: State): State
  {
    Rounds(a, 24)
  }

  // ---------- Strings and states (section 3.1) ----------

  function BitOf(a: State, n: nat): bool
    requires n < 1600
  {
    a[n / 64][n % 64]
  }

  function StringOf(a: State): BitString
  {
    seq(1600, n requires 0 <= n < 1600 => BitOf(a, n))
  }

  function LaneFrom(s: BitString, k: nat): Lane
    requires k < 25
  {
    seq(64, z requires 0 <= z < 64 => s[64 * k + z])
  }

  function StateOf(s: BitString): State
  {
    seq(25, k requires 0 <= k < 25 => LaneFrom(s, k))
  }

  /** Keccak-f[1600] on strings. */
  function F(s: BitString): BitString
  {
    StringOf(Permutation(StateOf(s)))
  }

  // ---------- The sponge (section 4) and its padding (section 5.1) ----------

  function Zeros(n: nat): seq<bool>
  {
    seq(n, i => false)
  }

  /** pad10*1 for a message of m bits. */
  function Pad(m: nat): (p: seq<bool>)
    ensures (m + |p|) % RATE == 0
  {
    [true] + Zeros((-(m as int) - 2) % RATE) + [true]
  }

  /** The state xored with a block that is extended by zeros. */
  function XorBlock(s: BitString, block: seq<bool>): BitString
  {
    seq(1600, n requires 0 <= n < 1600 => s[n] != (n < |block| && block[n]))
  }

  function Absorb(s: BitString, blocks: seq<bool>): BitString
    decreases |blocks|
  {
    if |blocks| < RATE then s else Absorb(F(XorBlock(s, blocks[..RATE])), blocks[RATE..])
  }

  function Squeeze(s: BitString, d: nat): seq<bool>
    decreases d
  {
    if d <= RATE then s[..d] else s[..RATE] + Squeeze(F(s), d - RATE)
  }

  function Sponge(message: seq<bool>, d: nat): seq<bool>
  {
    Squeeze(Absorb(Zeros(1600), message + Pad(|message|)), d)
  }

  /** The bits of a byte string, least significant bit of each byte first (appendix B.1). */
  function BitsOf(bytes: seq<Byte>): seq<bool>
  {
    if bytes == [] then [] else bytes[0] + BitsOf(bytes[1..])
  }
}
