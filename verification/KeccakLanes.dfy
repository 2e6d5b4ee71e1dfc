/** Whole-lane operations of keccak-tiny.c and the bitwise steps of FIPS 202 they compute. */
module KeccakLanes {
  import opened Words
  import opened Fips202
  import opened KeccakTables

  // ---------- Operations on 64-bit words ----------

  function ShiftLeft(l: Lane, s: nat): Lane
  {
    seq(64, z requires 0 <= z < 64 => z >= s && l[z - s])
  }

  function ShiftRight(l: Lane, s: nat): Lane
  {
    seq(64, z requires 0 <= z < 64 => z + s < 64 && l[z + s])
  }

  function Or(u: Lane, v: Lane): Lane
  {
    seq(64, z requires 0 <= z < 64 => u[z] || v[z])
  }

  function And(u: Lane, v: Lane): Lane
  {
    seq(64, z requires 0 <= z < 64 => u[z] && v[z])
  }

  function Not(u: Lane): Lane
  {
    seq(64, z requires 0 <= z < 64 => !u[z])
  }

  const ZERO: Lane := Zeros(64)

  /** The macro rol(x, s); a shift by 0 or 64 would be undefined. */
  function Rol(l: Lane, s: nat): (r: Lane)
    requires 0 < s < 64
    ensures r == Rotated(l, s)
  {
    RolBits(l, s);
    Or(ShiftLeft(l, s), ShiftRight(l, 64 - s))
  }

  lemma RolBits(l: Lane, s: nat)
    requires 0 < s < 64
    ensures Or(ShiftLeft(l, s), ShiftRight(l, 64 - s)) == Rotated(l, s)
  {
  }

  lemma RotatedModulo(l: Lane, s: nat)
    ensures Rotated(l, s) == Rotated(l, s % 64)
  {
  }

  // ---------- Rho and pi as one cycle ----------

  /** The next step of the walk goes back to where step pi took its lane from. */
  lemma SourceMovesBack(k: nat)
    requires k < 25
    ensures var m := Source(k);
            m / 5 == k % 5 && (2 * (m % 5) + 3 * (m / 5)) % 5 == k / 5
  {
    var x, y := k % 5, k / 5;
    var u := (x + 3 * y) % 5;
    var m := 5 * x + u;
    DivModUnique(m, x, u, 5);
    assert 2 * u + 3 * x == 5 * (x + y - 2 * ((x + 3 * y) / 5)) + y;
    DivModUnique(2 * u + 3 * x, x + y - 2 * ((x + 3 * y) / 5), y, 5);
  }

  lemma WalkStep(j: nat)
    ensures var m := WalkIndex(j);
            WalkIndex(j + 1) == 5 * ((2 * (m % 5) + 3 * (m / 5)) % 5) + m / 5
  {
    var (x, y) := Walk(j);
    assert Walk(j + 1) == (y, (2 * x + 3 * y) % 5);
    hide Walk;
    var m := 5 * y + x;
    assert m / 5 == y && m % 5 == x;
  }

  lemma WalkStart()
    ensures WalkIndex(0) == 1 == Previous(0)
  {
  }

  lemma PreviousIs(j: nat)
    requires 0 < j < 24
    ensures Previous(j) == Target(j - 1)
  {
  }

  lemma {:induction false} WalkFollowsTable(j: nat)
    requires j < 24
    ensures WalkIndex(j) == Previous(j)
  {
    hide *;
    if j == 0 {
      WalkStart();
    } else {
      PreviousIs(j);
      WalkFollowsTable(j - 1);
      Cycle(j - 1);
      SourceMovesBack(Target(j - 1));
      WalkStep(j - 1);
    }
  }

  lemma PreviousDistinct(i: nat, j: nat)
    requires i < 24 && j < 24 && i != j
    ensures Previous(i) != Previous(j)
  {
    hide Target, Source, Position;
    Cycle(if i == 0 then 23 else i - 1);
    Cycle(if j == 0 then 23 else j - 1);
    LastIsFirst();
  }

  lemma {:induction false} RhoStepsAt(a: State, t: nat, j: nat)
    requires t <= 24 && j < 24
    ensures RhoSteps(a, t)[Previous(j)] == if j < t then Rotated(a[Previous(j)], Offset(j)) else a[Previous(j)]
    ensures RhoSteps(a, t)[0] == a[0]
  {
    hide WalkIndex, Walk, Rotated, Offset, Previous, Target;
    if t > 0 {
      RhoStepsAt(a, t - 1, j);
      WalkFollowsTable(t - 1);
      if j != t - 1 {
        PreviousDistinct(t - 1, j);
      }
    }
  }

  /** What the in-place cycle has to leave in lane k. */
  function CycledLane(a: State, k: nat): Lane
    requires k < 25
  {
    var j := Position(k);
    if j >= 24 then a[k] else Rotated(a[Previous(j)], Turn(j))
  }

  lemma TargetCycled(a: State, j: nat)
    requires j < 24
    ensures Position(Target(j)) == j
    ensures CycledLane(a, Target(j)) == Rotated(a[Previous(j)], Turn(j))
  {
    Cycle(j);
    hide Position, Target, Turn, Previous;
  }

  lemma OnlyTarget(j: nat, k: nat)
    requires j < 24 && k < 25 && Position(k) == j
    ensures k == Target(j)
  {
    if k == 0 {
      assert false;
    }
    Covered(k);
  }

  lemma MovedLane(a: State, j: nat)
    requires j < 24
    ensures Rho(a)[Previous(j)] == Rotated(a[Previous(j)], Turn(j))
    ensures Rho(a)[0] == a[0]
  {
    hide RhoSteps, Rotated, Offset, Previous, Target, Turn;
    RhoStepsAt(a, 24, j);
    Offsets(j);
    RotatedModulo(a[Previous(j)], Offset(j));
  }

  lemma PiLane(a: State, k: nat)
    requires k < 25
    ensures Pi(a)[k] == a[Source(k)]
  {
  }

  lemma RhoPiLane(a: State, k: nat)
    requires k < 25
    ensures Pi(Rho(a))[k] == CycledLane(a, k)
  {
    assert Position(0) == 24;
    hide Pi, Rho, Rotated, Previous, Target, Turn, Source, Position;
    PiLane(Rho(a), k);
    if k == 0 {
      LastIsFirst();
      MovedLane(a, 0);
    } else {
      Covered(k);
      var j := Position(k);
      Cycle(j);
      MovedLane(a, j);
    }
  }

  /** The state after j steps of the cycle that starts from s. */
  predicate Cycled(a: State, s: State, j: nat)
  {
    forall k: nat :: k < 25 ==> a[k] == if Position(k) < j then CycledLane(s, k) else s[k]
  }

  lemma CycleStep(a: State, s: State, j: nat)
    requires j < 24 && Cycled(a, s, j)
    ensures a[Target(j)] == s[Target(j)]
    ensures Cycled(a[Target(j) := Rotated(s[Previous(j)], Turn(j))], s, j + 1)
  {
    hide CycledLane, Rotated, Previous, Target, Turn, Position;
    TargetCycled(s, j);
    forall k: nat | k < 25 && Position(k) == j ensures k == Target(j) {
      OnlyTarget(j, k);
    }
  }

  lemma CycleStart(s: State)
    ensures Cycled(s, s, 0) && Previous(0) == 1
  {
  }

  lemma CycleDone(a: State, s: State)
    requires Cycled(a, s, 24)
    ensures a == Pi(Rho(s))
  {
    assert forall k: nat :: k < 25 ==> a[k] == CycledLane(s, k);
    hide *;
    forall k: nat | k < 25 ensures a[k] == Pi(Rho(s))[k] {
      RhoPiLane(s, k);
    }
  }

  // ---------- Theta ----------

  function ParityLane(a: State, x: nat): Lane
    requires x < 5
  {
    seq(64, z requires 0 <= z < 64 => Parity(a, x, z))
  }

  /** The sum of the first n lanes of column x. */
  function ColumnSum(a: State, x: nat, n: nat): Lane
    requires x < 5 && n <= 5
  {
    if n == 0 then ZERO else Plus(ColumnSum(a, x, n - 1), a[5 * (n - 1) + x])
  }

  lemma {:induction false} ColumnSumBit(a: State, x: nat, n: nat, z: nat)
    requires x < 5 && 1 <= n <= 5 && z < 64
    ensures ColumnSum(a, x, n)[z] == (ColumnSum(a, x, n - 1)[z] != At(a, x, n - 1, z))
  {
  }

  lemma WholeColumn(a: State, x: nat)
    requires x < 5
    ensures ColumnSum(a, x, 5) == ParityLane(a, x)
  {
    forall z: nat | z < 64
      ensures ColumnSum(a, x, 5)[z] == ParityLane(a, x)[z]
    {
      assert !ColumnSum(a, x, 0)[z];
      hide ColumnSum, At;
      ColumnSumBit(a, x, 1, z);
      ColumnSumBit(a, x, 2, z);
      ColumnSumBit(a, x, 3, z);
      ColumnSumBit(a, x, 4, z);
      ColumnSumBit(a, x, 5, z);
    }
  }

  /** What is added to every lane of column x. */
  function Effect(a: State, x: nat): Lane
    requires x < 5
  {
    Plus(ParityLane(a, (x + 4) % 5), Rol(ParityLane(a, (x + 1) % 5), 1))
  }

  lemma ThetaLaneSum(a: State, k: nat)
    requires k < 25
    ensures Theta(a)[k] == Plus(a[k], Effect(a, k % 5))
  {
  }

  // ---------- Chi ----------

  function Mixed(u: Lane, v: Lane, w: Lane): Lane
  {
    Plus(u, And(Not(v), w))
  }

  lemma MixedBit(u: Lane, v: Lane, w: Lane, z: nat)
    requires z < 64
    ensures Mixed(u, v, w)[z] == (u[z] != (!v[z] && w[z]))
  {
  }

  lemma ChiLaneSum(a: State, x: nat, y: nat)
    requires x < 5 && y < 5
    ensures Chi(a)[5 * y + x] == Mixed(a[5 * y + x], a[5 * y + (x + 1) % 5], a[5 * y + (x + 2) % 5])
  {
    var k := 5 * y + x;
    assert k / 5 == y && k % 5 == x;
    assert Chi(a)[k] == ChiLane(a, x, y);
    hide Chi, Mixed;
    forall z: nat | z < 64
      ensures ChiLane(a, x, y)[z] == Mixed(a[k], a[5 * y + (x + 1) % 5], a[5 * y + (x + 2) % 5])[z]
    {
      MixedBit(a[k], a[5 * y + (x + 1) % 5], a[5 * y + (x + 2) % 5], z);
    }
  }
}
